# gitg core — a Dafny model

This project models the non-graphical core of gitg, a GTK viewer for git
repositories, and proves properties of that model:

- **The repository model.** `GitgRepository` is at once a flat tree model of
  revisions and the driver of the git runs that fill it. It has:
  - a revision store: an array grown in blocks of 1000, plus a hash → position index;
  - the tree-model index navigation;
  - a table of refs grouped by hash;
  - a load-stage state machine. It lists the stash, then probes for staged
    and unstaged changes with `git diff-index`, then reads the history. It
    appends virtual "staged" / "unstaged" revisions when the probes find
    changes;
  - the line parsers for stash, history and `for-each-ref` output;
  - the argument builders for the git runs;
  - the relane scheduler, which re-feeds every stored revision to the lane engine.
- **`GitgCommand`.** A git argument vector and a working directory, with its
  setters, `newv`, `prepend_argument` and the variadic collector `parse_valist`.
- **`GitgAuthor`.** The `"Name <email>"` splitter, with the regular
  expression `^\s*([^<]+?)?\s*(?:<([^>]+)>)?\s*$` written as a hand-made
  recogniser. The model proves it both sound and complete against a
  compositional description of the strings it accepts.
- **The non-widget parts of `GitgRevisionView`:**
  - diff-file records, with status mapping, index truncation and reference counts;
  - `match_indices` and the search through cached diff headers;
  - the commit-message classification of `on_log_update`, modelled as a list
    of (text, tag) insertions plus the author and committer link buttons.

Modules, by file:

| file | module | what |
|---|---|---|
| wrappers.dfy | Wrappers | Option / Result |
| glib_text.dfy | GLibText | the GLib string helpers the core relies on: `g_strsplit` with a one-character delimiter, `g_strjoinv`, `g_strchug`, `g_ascii_strtoll` in base 0 |
| revisions.dfy | Revisions | commits, revisions (a commit with its lanes), refs, lane-engine events |
| hash_index.dfy | HashIndex | the hash → newest position map, as a function of the stored hashes |
| ref_table.dfy | RefTable | the ref table as a map from hash to group, `add_ref`, `get_refs_for_hash` |
| var_args.dfy | VarArgs | NULL-terminated variadic lists and `parse_valist` |
| git_queries.dfy | GitQueries | git runs as values, the synchronous output collection, rev-parse helpers, log and probe arguments |
| line_parsers.dfy | LineParsers | fields separated by 0x01 or by spaces; the stash, commit and ref line parsers |
| load_stages.dfy | LoadStages | the end-of-run decision of the load-stage machine as a pure step function, and runs of it |
| store.dfy | RevisionStore | class `Store`: storage array, size, capacity, index; add, grow, clear, lookup, tree-model navigation |
| lanes.dfy | LaneEngine | class `Lanes`: the lane engine as an uninterpreted object that records the calls made into it |
| repository.dfy | RepositoryStore | class `Repository`: loaders, end-of-run handler, refs, relane, load / reload, working-ref cache |
| command.dfy | GitCommand | class `Command` |
| author.dfy | GitgAuthor | the recogniser and class `Author` |
| revision_view.dfy | RevisionView | class `DiffFile`, header matching, the log classification and class `RevisionLog` |

Git runs are modelled as data:

- **Runs.** A run is a `GitQuery` (directory, argument vector, input). A
  synchronous run's outcome is a parameter `git: GitQuery -> RunOutcome`: an
  ok flag and the batches of output lines.
- **Asynchronous runs.** The runner's events are the arguments of the
  handlers. `on_loader_update` receives a batch of lines.
  `on_loader_end_loading` receives a completion, which is a cancelled flag
  plus an exit status.
- **Preferences.** The three show-stash / staged / unstaged preferences are a
  record parameter.
- **Clock.** The clock reading `add_dummy_commit` takes is a parameter `now`.
- **The lane engine.** The engine (`gitg-lanes.c`) is not part of this
  model. It is an object whose state is the history of calls made into it.
  The lanes a revision receives are that history at the moment the
  revision's commit was fed. So any deterministic engine gives the lanes as
  a function of this history, and the model claims nothing about lane
  columns.

Notes on what the code does:

- The stash and staged completions issue `diff-index --quiet <hash>`, with
  `--cached` for the stash completion. The hash is the one
  `gitg_repository_parse_head` returns: HEAD's hash, or the empty tree's
  hash when HEAD does not resolve.
- The load stage is a plain counter. `load_stage++` runs on every
  completion that is not cancelled, including after the last stage.
- A commit-message header whose author match has no email links to
  `mailto:(null)`, which is what the printf of a NULL capture gives
  (gitg-revision-view.c:496-497, 506-507); `RevisionView.HeaderLink` reproduces it.

## Model

| member | source | states |
|---|---|---|
| GLibText.GStrSplit | gitg/gitg-repository.c:705 | g_strsplit on one-character separators: the empty string gives no pieces; otherwise the pieces join back to the input, number one more than the cuts (bounded by max_tokens − 1), and all but the last are separator-free |
| GLibText.JoinSplitAt | gitg/gitg-repository.c:1112 | cutting at the first k separators and re-joining gives the original string (the round trip behind `g_strsplit(buf, " ", 3)`) |
| GLibText.SplitAtCount | gitg/gitg-repository.c:1112-1113 | the number of pieces is one more than min(separator count, cuts) |
| GLibText.SplitAtPieces | gitg/gitg-repository.c:1112 | every piece but the last is separator-free, and so is the last once every separator was cut |
| GLibText.Chug | gitg/gitg-revision-view.c:486 | g_strchug: the result is a suffix of the input, everything dropped was g_ascii_isspace white space (space, tab, newline, form feed, carriage return), and the result does not start with such white space |
| GLibText.SkipStrtollSpace | gitg/gitg-repository.c:715 | the leading skip of g_ascii_strtoll: a suffix of the input, everything dropped was white space or vertical tab, and the rest does not start with either |
| GLibText.VerticalTab | gitg/gitg-revision-view.c:486 | a leading vertical tab stops g_strchug, while g_ascii_strtoll skips it |
| GLibText.StrToInt64 | gitg/gitg-repository.c:715 | g_ascii_strtoll base 0, after that leading skip, always gives a value inside the 64-bit signed range |
| GLibText.DecimalRoundTrip | gitg/gitg-repository.c:744 | reading the decimal notation of a non-negative 64-bit timestamp gives that timestamp |
| GLibText.NegativeDecimalRoundTrip | gitg/gitg-repository.c:744 | the same for negative values down to the most negative 64-bit value |
| GLibText.OverflowSaturates | gitg/gitg-repository.c:715 | a decimal beyond the 64-bit range reads as the largest 64-bit value |
| GLibText.MagnitudeOfDecimal | gitg/gitg-repository.c:715 | base 0 reads a decimal notation (including "0", read in octal) as its value |
| GLibText.DecimalUnsigned | gitg/gitg-repository.c:715 | a decimal notation starts with neither whitespace nor a sign |
| GLibText.DecimalDigits | gitg/gitg-repository.c:715 | a decimal notation is non-empty digits without a leading zero and reads back as its value |
| Revisions.CommitsOf | gitg/gitg-repository.c:1174-1200 | the commits of stored revisions, position by position |
| Revisions.HashesOf | gitg/gitg-repository.c:1186 | the hashes of stored revisions, position by position |
| Revisions.Feeds | gitg/gitg-repository.c:797-803 | one engine call per commit, in order |
| HashIndex.IndexOfAppend | gitg/gitg-repository.c:1186 | storing one more revision rewrites only its hash's entry, to the new position |
| HashIndex.IndexOfNewest | gitg/gitg-repository.c:1186 | a hash is indexed iff stored, and the entry is its newest position |
| RefTable.AddRef | gitg/gitg-repository.c:664-689 | add_ref: the table gains the hash; other groups unchanged; the ref is in the hash's group; the old group is a prefix of the new |
| RefTable.AddRefWellformed | gitg/gitg-repository.c:664-689 | adding keeps groups non-empty, hash-consistent and duplicate-free, and grows the group by one exactly when the ref is new |
| RefTable.AddRefIdempotent | gitg/gitg-repository.c:668-680 | adding the same ref twice equals adding it once |
| RefTable.AddRefSet | gitg/gitg-repository.c:664-689 | the table's refs after adding are the old refs plus the new one |
| RefTable.RefsForHash | gitg/gitg-repository.c:1269-1273 | get_refs_for_hash: exactly the table's refs with that hash, without duplicates |
| RefTable.RefHashesKept | gitg/gitg-repository.c:1246-1266 | every ref of a well-formed table is filed under a hash the key listing contains |
| RefTable.FlattenAll | gitg/gitg-repository.c:1246-1266 | listing each group once yields every ref of the table exactly once |
| VarArgs.NullTerminated | gitg/gitg-command.c:140-154 | the strings before the first NULL, in order and count |
| VarArgs.NullTerminatedUnique | gitg/gitg-command.c:140-154 | any vector read up to a NULL is exactly that prefix |
| VarArgs.ParseValist | gitg/gitg-repository.c:1403-1417 | parse_valist as written: the strings before the NULL when there is at least one; a crash (None) for an empty list |
| VarArgs.CollectValist | gitg/gitg-command.c:140-154 | parse_valist as intended: exactly the strings before the NULL, empty for an empty list |
| GitQueries.RunCommandWithInput | gitg/gitg-repository.c:1297-1315 | run_command_with_input: nothing without a path; otherwise "git" + argv, run in the path with the input |
| GitQueries.OutputOf | gitg/gitg-repository.c:1357-1391 | a successful run's output vector is NULL exactly when no batch was delivered |
| GitQueries.CommandWithOutputUpdate | gitg/gitg-repository.c:1357-1369 | one batch is appended to the output vector, which then exists |
| GitQueries.CollectOutput | gitg/gitg-repository.c:1357-1391 | collecting the update events in order gives the concatenated batches, NULL for none |
| GitQueries.CommandWithInputAndOutput | gitg/gitg-repository.c:1372-1391 | the lines of the run iff there is a path, the run succeeded and it delivered a batch |
| GitQueries.CommandWithOutput | gitg/gitg-repository.c:1393-1399 | the same with no input: the concatenated batches of the run iff there is a path, the run succeeded and it delivered a batch |
| GitQueries.RevParseArgs | gitg/gitg-repository.c:434-440 | rev-parse --verify [--symbolic-full-name] ref, the NULL fourth entry ending the list |
| GitQueries.ParseRefIntern | gitg/gitg-repository.c:434-445 | the first output line of rev-parse, None when there is none |
| GitQueries.ParseHead | gitg/gitg-repository.c:1506-1516 | HEAD's hash, or the empty tree's hash when HEAD does not resolve |
| GitQueries.WorkingRefOf | gitg/gitg-repository.c:448-464 | HEAD as a ref exactly when both its hash and its full name resolve |
| GitQueries.FormatsMatchParsers | gitg/gitg-repository.c:1010 | the stash format has the 4 fields the stash parser needs, the history format 5, and 6 with --left-right |
| GitQueries.CountPieces | gitg/gitg-repository.c:1022-1026 | separator-free fields joined by 0x01 hold one separator fewer than fields |
| GitQueries.HasLeftRight | gitg/gitg-repository.c:986-995 | true iff "--left-right" is among the arguments |
| GitQueries.LogArgs | gitg/gitg-repository.c:1014-1056 | "log", the format (%m iff --left-right), "--encoding=UTF-8", then the caller's arguments, or "HEAD" when there are none and HEAD resolves |
| GitQueries.CurrentRefArgs | gitg/gitg-repository.c:1066-1077 | rev-parse --no-flags --symbolic-full-name followed by the log arguments without "log" |
| GitQueries.CurrentRefOf | gitg/gitg-repository.c:1059-1093 | the symbolic name iff rev-parse printed exactly one line |
| GitQueries.DiffIndexArgs | gitg/gitg-repository.c:624-639 | diff-index --quiet head, with --cached for the staged probe only |
| LineParsers.TakeField | gitg/gitg-repository.c:705 | the first field is a separator-free prefix ending at the first separator |
| LineParsers.DropField | gitg/gitg-repository.c:705 | the rest after the first separator; line == field + sep + rest; None iff no separator |
| LineParsers.FieldSplit | gitg/gitg-repository.c:705 | a separator-free first field is cut off exactly |
| LineParsers.FieldAtJoin | gitg/gitg-repository.c:705-713 | fields of joined separator-free pieces are those pieces, None beyond them |
| LineParsers.FieldAtCons | gitg/gitg-repository.c:705 | after a separator-free field and a separator, field k+1 is field k of the rest |
| LineParsers.FieldAtSingle | gitg/gitg-repository.c:705 | a separator-free line is its own field 0 and has no other field |
| LineParsers.FieldOfSplit | gitg/gitg-repository.c:705-713 | field k of a line is piece k of the unlimited g_strsplit; the empty line has only the empty field 0 |
| LineParsers.ParseStashLine | gitg/gitg-repository.c:705-719 | a stash entry iff a 4th field exists; hash, author, subject, timestamp from fields 0-3, no parents, sign 's' |
| LineParsers.SideMark | gitg/gitg-repository.c:747-750 | a sign only when the 6th field is one of `<>-^` alone, and always then |
| LineParsers.ParseCommitLine | gitg/gitg-repository.c:734-750 | a commit iff a 5th field exists; fields 0-4 for hash, author, subject, parents, timestamp; sign from the 6th |
| LineParsers.ParseRefLine | gitg/gitg-repository.c:1112-1124 | a ref iff the line has a space; name is the first field, target the third when present and non-empty, else the second |
| LineParsers.RefLineFields | gitg/gitg-repository.c:1112-1118 | `g_strsplit(line, " ", 3)` has 2 or 3 pieces iff the line has a space, and they are the field cuts |
| LoadStages.EndLoading | gitg/gitg-repository.c:602-655 | cancelled changes nothing; otherwise stage+1; the staged (unstaged) virtual revision iff staged (unstaged) stage, preference on, exit ≠ 0; next run per stage |
| LoadStages.Uncancelled | gitg/gitg-repository.c:604-605 | the completions of runs that were not cancelled |
| LoadStages.CancelledInvisible | gitg/gitg-repository.c:604-605 | a run of events equals the run of its uncancelled events |
| LoadStages.RunAdvances | gitg/gitg-repository.c:607 | the stage advances by the number of uncancelled completions |
| LoadStages.QuietAfterHistory | gitg/gitg-repository.c:650-652 | from the history stage on no run is started and no revision added |
| LoadStages.FullLoad | gitg/gitg-repository.c:602-655 | a full uncancelled load starts the two probes and the history in order, adds the staged then unstaged revision when wanted, and ends in the last stage |
| RevisionStore.Reversed | gitg/gitg-repository.c:317-328 | the release order, last position first |
| RevisionStore.ReleaseAll | gitg/gitg-repository.c:317-328 | the countdown loop releases the revisions last to first |
| RevisionStore.HashesOfRelaned | gitg/gitg-repository.c:799-803 | new lanes on one revision leave every hash and commit in place |
| RevisionStore.Store.constructor | gitg/gitg-repository.c:922-942 | an empty store with no storage and an empty index |
| RevisionStore.Store.GrowStorage | gitg/gitg-repository.c:945-962 | contents and index unchanged; capacity grows by exactly 1000 when the new revisions do not fit, and stays otherwise |
| RevisionStore.Store.Add | gitg/gitg-repository.c:1174-1200 | the revision goes at the old size, size+1, earlier positions unchanged, index maps its hash to the old size |
| RevisionStore.Store.Place | gitg/gitg-repository.c:1183-1186 | store in the first free slot and index it, without growing |
| RevisionStore.Store.Clear | gitg/gitg-repository.c:312-347 | revisions released last to first; size 0, capacity 0, no storage, empty index |
| RevisionStore.Store.SetLanes | gitg/gitg-repository.c:799-803 | only the lanes of position i change |
| RevisionStore.Store.IndexFacts | gitg/gitg-repository.c:1186 | a hash is indexed iff stored, at its newest position |
| RevisionStore.Store.FindByHash | gitg/gitg-repository.c:1223-1237 | as written: found iff stored at some position > 0, at its newest position |
| RevisionStore.Store.Lookup | gitg/gitg-repository.c:1210-1220 | as written: a revision with the hash iff stored at a position > 0 |
| RevisionStore.Store.LookupIntended | gitg/gitg-repository.c:1210-1220 | found iff stored anywhere, the newest revision with that hash |
| RevisionStore.Store.FirstPositionMissed | gitg/gitg-repository.c:1214-1217 | a revision stored only at position 0 is not found by lookup or find_by_hash, yet is what the intended lookup returns |
| RevisionStore.Store.GetIter | gitg/gitg-repository.c:151-171 | row `index` iff inside the store |
| RevisionStore.Store.IterNext | gitg/gitg-repository.c:221-235 | the next row iff it is inside the store |
| RevisionStore.Store.IterChildren | gitg/gitg-repository.c:238-250 | as written: the root's first child is row 0, even for an empty store |
| RevisionStore.Store.IterChildrenIntended | gitg/gitg-repository.c:238-250 | the root's first child only when the store is non-empty |
| RevisionStore.Store.EmptyStoreChild | gitg/gitg-repository.c:238-250 | on an empty store the reported child is a row get_iter rejects |
| RevisionStore.Store.IterHasChild | gitg/gitg-repository.c:253-259 | only the root has children |
| RevisionStore.Store.IterNChildren | gitg/gitg-repository.c:262-268 | the root has size children, a row none |
| RevisionStore.Store.IterNthChild | gitg/gitg-repository.c:271-285 | row n of the root iff 0 ≤ n < size |
| RevisionStore.Store.Navigation | gitg/gitg-repository.c:151-285 | nth_child, get_iter and n steps of iter_next from the first child all reach row n; nothing follows the last row |
| RevisionStore.Store.GetValue | gitg/gitg-repository.c:185-218 | a value iff row and column are in range; the object, subject, author or date of that row |
| LaneEngine.Lanes.constructor | gitg/gitg-repository.c:932 | a fresh engine with no calls |
| LaneEngine.Lanes.Reset | gitg/gitg-repository.c:571-572 | records one reset |
| LaneEngine.Lanes.ResetColors | gitg/gitg-repository.c:346 | records one colour reset |
| LaneEngine.Lanes.Next | gitg/gitg-repository.c:574 | records the call; the lanes returned are the history up to it |
| LaneEngine.Lanes.Set | gitg/gitg-repository.c:885-903 | records one settings write |
| RepositoryStore.StashCommitsShape | gitg/gitg-repository.c:700-721 | every stash entry is signed 's' without parents; at most one per line |
| RepositoryStore.HistoryCommitsShape | gitg/gitg-repository.c:731-751 | every history commit has a parent list and a sign that is a side mark or absent; at most one per line |
| RepositoryStore.AddAllWellformed | gitg/gitg-repository.c:1108-1127 | adding refs in sequence keeps the table well formed |
| RepositoryStore.AddAllSet | gitg/gitg-repository.c:1108-1127 | the table gains exactly the added refs |
| RepositoryStore.AddStashWellformed | gitg/gitg-repository.c:718 | adding the stash refs keeps the table well formed |
| RepositoryStore.AddStashSet | gitg/gitg-repository.c:718 | one "refs/stash" ref per stash hash is added and nothing else |
| RepositoryStore.CurrentAfter | gitg/gitg-repository.c:1120-1123 | the current ref changes only to a listed ref with the current name, and is set whenever one is listed |
| RepositoryStore.LoadIntoEmpty | gitg/gitg-repository.c:1096-1131 | refs loaded into an empty table are exactly the listed refs, well formed; the current ref is a listed ref with the current name, set whenever one exists |
| RepositoryStore.LaneStep | gitg/gitg-repository.c:566-579 | append_revision's engine calls end by feeding that commit |
| RepositoryStore.ParseStashEntry | gitg/gitg-repository.c:705-719 | one more stash line extends the parsed entries by its own |
| RepositoryStore.ParseHistoryLine | gitg/gitg-repository.c:734-751 | one more history line extends the parsed commits by its own |
| RepositoryStore.AllLanedExtend | gitg/gitg-repository.c:574-575 | lanes computed earlier stay a prefix of the growing engine history |
| RepositoryStore.AllLanedSet | gitg/gitg-repository.c:799-803 | giving one revision the current history as lanes keeps every revision laned |
| RepositoryStore.RelaneStepFacts | gitg/gitg-repository.c:799-803 | one step of the relane loop keeps the commits and extends the relaned prefix by one |
| RepositoryStore.AppendFeedsJoin | gitg/gitg-repository.c:566-579 | appending `a` to an empty store then `b` makes the same engine calls as appending a + b |
| RepositoryStore.ConvertInactiveMax | gitg/gitg-repository.c:823-834 | the engine value v for setting s has v − 2 divisible by 8 and (v − 2) / 8 = s, so distinct settings give distinct values |
| RepositoryStore.ConvertInactiveCollapse | gitg/gitg-repository.c:836-847 | the engine value v for setting s has v − 1 divisible by 3 and (v − 1) / 3 = s |
| RepositoryStore.ConvertInactiveGap | gitg/gitg-repository.c:849-859 | the engine value is 10 whatever the setting |
| RepositoryStore.Repository.constructor | gitg/gitg-repository.c:922-942 | an empty store, no refs, no current or working ref, no load, no pending relane; `path` stands for the git directory the path property located (gitg-repository.c:406) |
| RepositoryStore.Repository.AppendRevision | gitg/gitg-repository.c:566-579 | the engine is reset when the store is empty; the revision with the engine's lanes is appended and indexed |
| RepositoryStore.Repository.RevisionLanes | gitg/gitg-repository.c:570-574 | the engine is reset iff the store is empty, then fed the commit; the new history is the revision's lanes and earlier revisions stay laned |
| RepositoryStore.Repository.AddDummyCommit | gitg/gitg-repository.c:582-599 | appends the all-zero-hash, authorless, parentless revision signed 't' or 'u', stamped now |
| RepositoryStore.Repository.AppendCommit | gitg/gitg-repository.c:566-579 | append_revision stated on commits: one more commit, the engine calls of LaneStep |
| RepositoryStore.Repository.DoClear | gitg/gitg-repository.c:312-347 | revisions released last to first; size 0, capacity 0, no storage, empty index, empty ref table, no current ref; colours reset |
| RepositoryStore.Repository.AddRef | gitg/gitg-repository.c:664-689 | the table becomes AddRef of the old table and stays well formed |
| RepositoryStore.Repository.StashRef | gitg/gitg-repository.c:718 | the stash ref of one more entry is added |
| RepositoryStore.Repository.CommitLine | gitg/gitg-repository.c:734-751 | one history line parsed and its revision appended |
| RepositoryStore.Repository.StashEntry | gitg/gitg-repository.c:716-720 | a parsed stash entry adds its stash ref, then its revision is appended; a line that did not parse changes nothing |
| RepositoryStore.Repository.LoaderUpdateStash | gitg/gitg-repository.c:692-724 | with show-stash off nothing; otherwise each well-formed line adds its stash ref and appends its revision, in order |
| RepositoryStore.Repository.StashLines | gitg/gitg-repository.c:700-721 | the loop over the batch: all parsed entries appended and their stash refs added |
| RepositoryStore.Repository.LoaderUpdateCommits | gitg/gitg-repository.c:727-756 | every well-formed history line appends its revision, in order |
| RepositoryStore.Repository.OnLoaderUpdate | gitg/gitg-repository.c:759-776 | stash lines in the stash stage, history lines in the history stage, nothing otherwise |
| RepositoryStore.Repository.EndLoadingStep | gitg/gitg-repository.c:602-655 | the stage, virtual revision and next arguments are those of EndLoading |
| RepositoryStore.Repository.StartNext | gitg/gitg-repository.c:1297-1315 | a run is started iff there are arguments and a path |
| RepositoryStore.Repository.AddDummyIf | gitg/gitg-repository.c:626-646 | appends the requested virtual revision, or nothing |
| RepositoryStore.Repository.OnLoaderEndLoading | gitg/gitg-repository.c:602-655 | the new stage, appended virtual revision and next run are EndLoading's, with parse_head's hash |
| RepositoryStore.Repository.EndLoadingAt | gitg/gitg-repository.c:602-655 | the same for a given head hash |
| RepositoryStore.Repository.PrepareRelane | gitg/gitg-repository.c:817-821 | a relane is scheduled iff none was pending; afterwards one is pending |
| RepositoryStore.Repository.RelaneAt | gitg/gitg-repository.c:799-803 | the commit at i is fed and position i takes the returned lanes |
| RepositoryStore.Repository.RelaneNext | gitg/gitg-repository.c:799-803 | relaning position i extends the relaned prefix and the engine history by one commit, commits unchanged |
| RepositoryStore.Repository.RelaneAll | gitg/gitg-repository.c:797-810 | the loop: every position relaned in order, the history grown by one feed per stored commit |
| RepositoryStore.Repository.Relane | gitg/gitg-repository.c:786-814 | pending cleared, engine reset, every revision first to last relaned; commits unchanged |
| RepositoryStore.Repository.OnCollapseInactiveLanes | gitg/gitg-repository.c:824-898 | writes max 2+8s, collapse 1+3s, gap 10 to the engine; a relane is pending, scheduled iff none was |
| RepositoryStore.Repository.OnCollapseInactiveLanesActive | gitg/gitg-repository.c:862-903 | writes the enabled flag; a relane is pending, scheduled iff none was |
| RepositoryStore.Repository.ReloadRevisions | gitg/gitg-repository.c:998-1011 | the working ref dropped, the stash stage entered, the stash listing started iff there is a path |
| RepositoryStore.Repository.BuildLogArgs | gitg/gitg-repository.c:1014-1056 | the stored log arguments are LogArgs of the caller's arguments |
| RepositoryStore.Repository.LoadCurrentRef | gitg/gitg-repository.c:1059-1093 | the result is CurrentRefOf the last log arguments |
| RepositoryStore.Repository.LoadRefs | gitg/gitg-repository.c:1096-1131 | table and current ref as RefsAfterListing of the for-each-ref output; the table stays well formed |
| RepositoryStore.ListedStep | gitg/gitg-repository.c:1111-1124 | one more output line adds its parsed ref, which becomes current iff its name is the current name |
| RepositoryStore.Repository.RefLine | gitg/gitg-repository.c:1111-1124 | the loop body: table and current ref advance by the line's ListedStep |
| RepositoryStore.Repository.AddListed | gitg/gitg-repository.c:1109-1125 | the loop: every parsed ref added in line order, the last one named like the current ref becoming current |
| RepositoryStore.Repository.Reload | gitg/gitg-repository.c:1134-1144 | nothing without a path; otherwise clear, refs reloaded, stash listing started, log arguments kept |
| RepositoryStore.Repository.ReloadCleared | gitg/gitg-repository.c:1142-1143 | after the clear: refs loaded into the empty table and the stash listing started |
| RepositoryStore.Repository.Load | gitg/gitg-repository.c:1147-1171 | NotFound without a path; otherwise clear, log arguments built, refs loaded, stash listing started |
| RepositoryStore.Repository.LoadCleared | gitg/gitg-repository.c:1163-1170 | after the clear: log arguments built, refs loaded, stash listing started |
| RepositoryStore.Repository.GetCurrentWorkingRef | gitg/gitg-repository.c:1519-1528 | the cached ref when there is one; otherwise WorkingRefOf, which is then cached |
| RepositoryStore.Repository.GetRefs | gitg/gitg-repository.c:1246-1266 | every ref of the table exactly once, group by group in the table's key order |
| GitCommand.StrDupV | gitg/gitg-command.c:257-265 | g_strdupv: an equal vector, NULL for NULL |
| GitCommand.NewvArguments | gitg/gitg-command.c:176-204 | first followed by the variadic strings up to the NULL |
| GitCommand.Command.constructor | gitg/gitg-command.c:164-167 | the arguments given, no working directory |
| GitCommand.Command.Newv | gitg/gitg-command.c:176-204 | a fresh command with exactly [first, a1, …] and no directory |
| GitCommand.Command.GetWorkingDirectory | gitg/gitg-command.c:213-218 | the stored directory |
| GitCommand.Command.SetWorkingDirectory | gitg/gitg-command.c:226-235 | the getter then returns the value set |
| GitCommand.Command.GetArguments | gitg/gitg-command.c:244-249 | the stored vector |
| GitCommand.Command.SetArguments | gitg/gitg-command.c:257-265 | the getter then returns an equal vector |
| GitCommand.Command.SetArgumentsv | gitg/gitg-command.c:273-285 | the arguments become the strings up to the NULL; an empty list gives the corrected empty vector, where the source writes through NULL |
| GitCommand.Command.PrependArgument | gitg/gitg-command.c:293-311 | one entry longer: the new argument, then the old vector in order |
| GitCommand.Command.GetProperty | gitg/gitg-command.c:42-57 | the directory or (a copy of) the arguments, of the property's type |
| GitCommand.Command.SetProperty | gitg/gitg-command.c:60-78 | the property takes the value, the other one stays |
| GitgAuthor.SkipSpace | gitg/gitg-author.c:170 | the leading `\s*`: a whitespace prefix followed by a non-space or the end |
| GitgAuthor.TrimEnd | gitg/gitg-author.c:170 | the lazy name group gives up its trailing whitespace: a prefix whose rest is space, ending in a non-space |
| GitgAuthor.FirstIndex | gitg/gitg-author.c:170 | the first position of a character, or the length |
| GitgAuthor.MatchAuthor | gitg/gitg-author.c:159-180 | no name implies no email and an all-space input; a name has no '<' and no edge whitespace; an email is non-empty without '>'; an all-space input matches with neither |
| GitgAuthor.MatchRest | gitg/gitg-author.c:170 | the same after the leading whitespace |
| GitgAuthor.MatchFrom | gitg/gitg-author.c:170 | the same once the first '<' is located |
| GitgAuthor.ComposeMatches | gitg/gitg-author.c:170-177 | completeness: spaces, a name, spaces, an optional <email>, spaces is matched to exactly that name and email |
| GitgAuthor.MatchDecomposes | gitg/gitg-author.c:170-177 | soundness: every match with a name is such a composition of the input |
| GitgAuthor.UserNameExample | test/check_author.c:7-9 | "User Name <user@email>" gives name "User Name" and email "user@email" |
| GitgAuthor.TextAfterEmailRejected | gitg/gitg-author.c:170-177 | non-space text after the closing '>' does not match |
| GitgAuthor.UnclosedRejected | gitg/gitg-author.c:170-177 | a '<' never closed does not match |
| GitgAuthor.Author.constructor | gitg/gitg-author.c:44-49 | no name, no email |
| GitgAuthor.Author.SetString | gitg/gitg-author.c:159-180 | name and email cleared, then set from the match; both unset when it fails |
| GitgAuthor.Author.NewFromString | gitg/gitg-author.c:123-128 | a fresh author with the name and email of the match |
| GitgAuthor.Author.GetName | gitg/gitg-author.c:152-156 | the stored name |
| GitgAuthor.Author.GetEmail | gitg/gitg-author.c:138-142 | the stored email |
| GitgAuthor.Author.SetName | gitg/gitg-author.c:145-149 | the getter then returns the value set |
| GitgAuthor.Author.SetEmail | gitg/gitg-author.c:131-135 | the getter then returns the value set |
| RevisionView.TruncateIndex | gitg/gitg-revision-view.c:109-113 | a prefix of the index of length min(its length, 40) |
| RevisionView.StatusOf | gitg/gitg-revision-view.c:118-131 | 'A' → new, 'D' → deleted, any other first character → modified |
| RevisionView.MatchIndices | gitg/gitg-revision-view.c:394-401 | true iff `from` is a prefix of the source index, and `to` is a prefix of the target index or the target index starts with seven zeros |
| RevisionView.FirstMatch | gitg/gitg-revision-view.c:403-423 | the first header whose indices match, or None when none does |
| RevisionView.AbbreviationsMatch | gitg/gitg-revision-view.c:395-400 | abbreviations (up to 40 characters) of the full hashes match the truncated indices |
| RevisionView.NullTargetMatches | gitg/gitg-revision-view.c:395-400 | a target index of seven zeros matches any target |
| RevisionView.DiffFile.constructor | gitg/gitg-revision-view.c:105-136 | refcount 1, not visible, truncated indices, mapped status |
| RevisionView.DiffFile.Copy | gitg/gitg-revision-view.c:139-143 | the same record with one more reference |
| RevisionView.DiffFile.Unref | gitg/gitg-revision-view.c:146-153 | one reference less; freed exactly when the last one goes |
| RevisionView.DiffFile.VisibleFromCachedHeaders | gitg/gitg-revision-view.c:403-423 | visible with the first matching header's iter; unchanged when none matches |
| RevisionView.KeptText | gitg/gitg-revision-view.c:477-487 | nothing exactly for a blank line while the buffer is empty or a line not starting with a space; otherwise a suffix of the line, all of whose dropped characters are ASCII white space, not itself starting with white space |
| RevisionView.TagFor | gitg/gitg-revision-view.c:519-524 | the title tag iff the line is the batch's first kept line; the signed tag iff it is a later line starting with "Signed-off-by: " |
| RevisionView.KeptLinesAreMessage | gitg/gitg-revision-view.c:475-513 | the kept lines are the message lines (starting with a space, or blank), chugged, without blanks while the buffer is empty |
| RevisionView.LogInsertionsOfKept | gitg/gitg-revision-view.c:514-527 | each kept line then a newline; the first of the batch titled, later "Signed-off-by: " lines signed |
| RevisionView.KeptLinesSnoc | gitg/gitg-revision-view.c:475-513 | one more line extends the kept lines by that line's kept text |
| RevisionView.LogInsertionsSnoc | gitg/gitg-revision-view.c:514-527 | one more line extends the insertions by its own |
| RevisionView.LogStep | gitg/gitg-revision-view.c:475-527 | one iteration of the loop keeps the loop's invariant about the buffer |
| RevisionView.HeaderLink | gitg/gitg-revision-view.c:490-511 | a button iff the line starts with the key and the rest matches the author expression; its caption is the match's name and its uri starts with "mailto:" |
| RevisionView.LastLinkSnoc | gitg/gitg-revision-view.c:490-511 | a header line replaces the button, any other line keeps it |
| RevisionView.LinkWithoutHeader | gitg/gitg-revision-view.c:490-511 | without header lines the button stays as it was |
| RevisionView.AuthorHeaderLink | gitg/gitg-revision-view.c:492-500 | "Author: Name <email>" gives a button captioned with the name linking to mailto:email |
| RevisionView.RevisionLog.constructor | gitg/gitg-revision-view.c:651-653 | an empty buffer and no buttons |
| RevisionView.RevisionLog.LogUpdate | gitg/gitg-revision-view.c:448-529 | the buffer gains LogInsertions of the batch; author and committer are the last header links |
| RevisionView.RevisionLog.UpdateLine | gitg/gitg-revision-view.c:475-527 | one line: kept text inserted with its tag, buttons updated from header lines |

## Left out

- The GTK presentation: tree-model row signals, iterator stamps, widgets, markup, `update_parents`. The revision view's buffer is a list of insertions, and its buttons are values.
- Process execution: `gitg_runner_*`, spawning and pipes. Synchronous runs are the parameter `git`, and asynchronous events are handler arguments.
- The repository's `*v` command wrappers. Only the synchronous output path used by the core is modelled: `command_with_output`, `command_with_input_and_output`, and `run_command_with_input` for started runs.
- The file monitor on HEAD and the preferences and binding plumbing. Their values are inputs, and the collapse bindings are the methods that write the converted values.
- The lane algorithm: `gitg-lanes.c` is not part of this model. It is an engine that records its calls, and no lane-column property is claimed.
- Revision internals: `gitg-revision.c` is not part of this model. The hash is the sha1 text, and the parents are the raw parent field.
- `gitg_repository_get_remotes`: configuration lookup through a second regular expression.
- Memory management:
  - the `g_slice_free1` of the storage, sized by `size`;
  - `add_ref` returning a ref that was already freed;
  - the leaked captures in `on_log_update`;
  - freeing in `unref`, which is modelled by a flag only.
- RepositoryStore.ConvertInactiveMax: the `gint` arithmetic `2 + 8s` is taken on unbounded integers, because settings are small.
- RepositoryStore.ConvertInactiveCollapse: the same for `1 + 3s`.
- `parse_head` is a function of `git`. It is evaluated for every completion, while the source runs it only in the stash and staged stages. It runs no command that changes anything, so no observable behaviour differs.
- Wall-clock time, translation and time formatting. The clock reading is the parameter `now`. The virtual revisions carry their subjects "Staged changes" and "Unstaged changes" untranslated; only the `_()` lookup (gitg-repository.c:591, 593) is left out.
- `HASH_SHA_SIZE` comes from a header that is not part of this model. It is taken as 40.
- GitgAuthor.MatchAuthor: PCRE `\s` is taken as space, tab, newline, form feed and carriage return, without vertical tab. This is the older PCRE that GLib bundled for GRegex, before PCRE 8.34. PCRE 8.34 and later, and PCRE2, also count vertical tab in `\s`.
- `gitg_utils_find_git` is not part of this model. The constructor's `path` stands for the git directory it located for the path property (gitg-repository.c:406).
- RepositoryStore.Repository.constructor: the path property is installed read-write (gitg-repository.c:543), but the model fixes `path` at construction; later writes to the property are not modelled.
- GitCommand.Command.GetArguments: the source returns the command's own vector (gitg-command.c:243-249), so a caller could change the arguments through it; the model returns a copy of the value, and no caller in the core writes through it.
- GitCommand.Command.SetArgumentsv: for an empty variadic list the model stores the corrected empty vector (`VarArgs.CollectValist`), whereas the source's `parse_valist` writes the terminating NULL through a NULL pointer (gitg-command.c:152); the as-written behaviour is `VarArgs.ParseValist`, listed under "## Findings".
- The author's GObject `get_property`/`set_property` are reached through the getters and setters and are not modelled separately.
- `update_log` / `gitg_revision_view_update` clear the buffer and start the log run. They are widget code, and the model starts from the state they leave.
- NUL characters inside strings: C strings end at the first NUL, and Dafny strings are plain character sequences.
- The diff view and its iterators: a header's iter is an opaque identifier.

## Findings

| source | as written | input that shows it | evidently intended | confidence | as-written member | corrected member |
|---|---|---|---|---|---|---|
| gitg/gitg-repository.c:1186, 1214-1217 | positions are stored as `GUINT_TO_POINTER(pos)`, and a NULL result means absent | a store whose only revision with hash h is at position 0: `lookup(h)` returns NULL | every stored hash is found at its newest position | not executed | RevisionStore.Store.Lookup (FirstPositionMissed) | RevisionStore.Store.LookupIntended |
| gitg/gitg-command.c:140-154 and gitg/gitg-repository.c:1403-1417 | the result array is allocated only after a first string, yet the terminating NULL is written through it | an empty variadic list (`gitg_command_set_argumentsv(cmd, NULL)`) writes through a NULL pointer | an empty vector | not executed | VarArgs.ParseValist | VarArgs.CollectValist |
| gitg/gitg-repository.c:238-250 | `iter_children` of the root reports row 0 without checking the size | an empty store: the child reported is row 0, which `get_iter` rejects | no child when the store is empty | not executed | RevisionStore.Store.IterChildren (EmptyStoreChild) | RevisionStore.Store.IterChildrenIntended |
