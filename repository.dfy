/**
 * The repository: the revision store behind the history view, its hash
 * index and ref table, and the loading of both from git.
 */
module RepositoryStore {
  import opened Wrappers
  import opened Revisions
  import RefTable
  import opened GitQueries
  import opened LineParsers
  import opened LoadStages
  import opened RevisionStore
  import opened LaneEngine

  datatype LoadError = NotFound

  /** The commits a batch of stash lines describes, skipping malformed lines. */
  function StashCommits(lines: seq<string>): seq<Commit> {
    if lines == [] then []
    else StashCommits(lines[..|lines| - 1]) + AsSeq(ParseStashLine(lines[|lines| - 1]))
  }

  /** The commits a batch of history lines describes, skipping malformed lines. */
  function HistoryCommits(lines: seq<string>): seq<Commit> {
    if lines == [] then []
    else HistoryCommits(lines[..|lines| - 1]) + AsSeq(ParseCommitLine(lines[|lines| - 1]))
  }

  /** The refs a for-each-ref listing describes, skipping malformed lines. */
  function ListedRefs(lines: seq<string>): seq<Ref> {
    if lines == [] then []
    else ListedRefs(lines[..|lines| - 1]) + AsSeq(ParseRefLine(lines[|lines| - 1]))
  }

  /** Every stash entry is signed 's' and has no parent list. */
  lemma {:induction false} StashCommitsShape(lines: seq<string>)
    ensures forall c :: c in StashCommits(lines) ==> c.sign == Some(StashSign) && c.parents.None?
    ensures |StashCommits(lines)| <= |lines|
  {
    if lines != [] {
      StashCommitsShape(lines[..|lines| - 1]);
    }
  }

  /** Every history line yields at most one commit, and its sign is a side mark or absent. */
  lemma {:induction false} HistoryCommitsShape(lines: seq<string>)
    ensures forall c :: c in HistoryCommits(lines) ==> c.parents.Some? && (c.sign.Some? ==> c.sign.value in SideMarks)
    ensures |HistoryCommits(lines)| <= |lines|
  {
    if lines != [] {
      HistoryCommitsShape(lines[..|lines| - 1]);
    }
  }

  /** The table after adding `rs` one by one. */
  function AddAll(t: RefTable.Table, rs: seq<Ref>): RefTable.Table {
    if rs == [] then t
    else RefTable.AddRef(AddAll(t, rs[..|rs| - 1]), rs[|rs| - 1].hash, rs[|rs| - 1].name)
  }

  /** Adding a sequence of refs keeps a table well formed. */
  lemma {:induction false} AddAllWellformed(t: RefTable.Table, rs: seq<Ref>)
    requires RefTable.Wellformed(t)
    ensures RefTable.Wellformed(AddAll(t, rs))
  {
    if rs != [] {
      AddAllWellformed(t, rs[..|rs| - 1]);
      RefTable.AddRefWellformed(AddAll(t, rs[..|rs| - 1]), rs[|rs| - 1].hash, rs[|rs| - 1].name);
    }
  }

  /** Adding a sequence of refs adds exactly those refs. */
  lemma {:induction false} AddAllSet(t: RefTable.Table, rs: seq<Ref>)
    ensures RefTable.RefSet(AddAll(t, rs)) == RefTable.RefSet(t) + set r | r in rs
  {
    if rs != [] {
      var init := rs[..|rs| - 1];
      var last := rs[|rs| - 1];
      AddAllSet(t, init);
      RefTable.AddRefSet(AddAll(t, init), last.hash, last.name);
      ListedSetSnoc(rs, init, last);
    }
  }

  /** The elements of a non-empty list: those of all but its last, and its last. */
  lemma ListedSetSnoc(rs: seq<Ref>, init: seq<Ref>, last: Ref)
    requires rs != [] && init == rs[..|rs| - 1] && last == rs[|rs| - 1]
    ensures (set r | r in rs) == (set r | r in init) + {last}
  {
    assert rs == init + [last];
  }

  /** The table after adding the stash ref of every entry of `cs`, in order. */
  function AddStash(t: RefTable.Table, cs: seq<Commit>): RefTable.Table {
    if cs == [] then t
    else RefTable.AddRef(AddStash(t, cs[..|cs| - 1]), cs[|cs| - 1].hash, StashRefName)
  }

  /** Adding the stash refs keeps a table well formed. */
  lemma {:induction false} AddStashWellformed(t: RefTable.Table, cs: seq<Commit>)
    requires RefTable.Wellformed(t)
    ensures RefTable.Wellformed(AddStash(t, cs))
  {
    if cs != [] {
      AddStashWellformed(t, cs[..|cs| - 1]);
      RefTable.AddRefWellformed(AddStash(t, cs[..|cs| - 1]), cs[|cs| - 1].hash, StashRefName);
    }
  }

  /** Adding the stash refs adds one "refs/stash" ref for every stash hash, and nothing else. */
  lemma {:induction false} AddStashSet(t: RefTable.Table, cs: seq<Commit>)
    ensures RefTable.RefSet(AddStash(t, cs)) == RefTable.RefSet(t) + set c | c in cs :: Ref(c.hash, StashRefName)
  {
    if cs != [] {
      var init := cs[..|cs| - 1];
      var last := cs[|cs| - 1];
      AddStashSet(t, init);
      RefTable.AddRefSet(AddStash(t, init), last.hash, StashRefName);
      StashSetSnoc(cs, init, last);
    }
  }

  /** The stash refs of a non-empty list of entries: those of all but its last, and its last's. */
  lemma StashSetSnoc(cs: seq<Commit>, init: seq<Commit>, last: Commit)
    requires cs != [] && init == cs[..|cs| - 1] && last == cs[|cs| - 1]
    ensures (set c | c in cs :: Ref(c.hash, StashRefName)) ==
      (set c | c in init :: Ref(c.hash, StashRefName)) + {Ref(last.hash, StashRefName)}
  {
    assert cs == init + [last];
  }

  /** The current ref after listing `rs`: the last listed ref named `name`, else `cur`. */
  function CurrentAfter(cur: Option<Ref>, rs: seq<Ref>, name: Option<string>): (r: Option<Ref>)
    ensures r != cur ==> r.Some? && r.value in rs && name == Some(r.value.name)
    ensures name.Some? && (exists i :: 0 <= i < |rs| && rs[i].name == name.value) ==>
      r.Some? && r.value.name == name.value
  {
    if rs == [] then cur
    else if name.Some? && rs[|rs| - 1].name == name.value then Some(rs[|rs| - 1])
    else
      var r := CurrentAfter(cur, rs[..|rs| - 1], name);
      assert forall i :: 0 <= i < |rs| - 1 ==> rs[..|rs| - 1][i] == rs[i];
      r
  }

  /**
   * load_refs on a table `t` with current ref `cur`, given the
   * for-each-ref output `out` and the current ref's name `current`.
   */
  function RefsAfterListing(t: RefTable.Table, cur: Option<Ref>, out: Option<seq<string>>, current: Option<string>)
    : (RefTable.Table, Option<Ref>)
  {
    if out.None? then (t, cur)
    else (AddAll(t, ListedRefs(out.value)), CurrentAfter(cur, ListedRefs(out.value), current))
  }

  /**
   * Loading into an empty table: the table is well formed and holds
   * exactly the listed refs; the current ref, when set, is a listed ref
   * named `current`, and it is set whenever some listed ref has that name.
   */
  lemma LoadIntoEmpty(out: Option<seq<string>>, current: Option<string>)
    ensures var (t, cur) := RefsAfterListing(map[], None, out, current);
      RefTable.Wellformed(t) &&
      RefTable.RefSet(t) == (if out.Some? then set r | r in ListedRefs(out.value) else {}) &&
      (cur.Some? ==> out.Some? && cur.value in ListedRefs(out.value) && current == Some(cur.value.name)) &&
      (out.Some? && current.Some? && (exists r :: r in ListedRefs(out.value) && r.name == current.value) ==>
        cur.Some? && cur.value.name == current.value)
  {
    assert RefTable.Wellformed(map[]);
    assert RefTable.RefSet(map[]) == {};
    if out.Some? {
      var rs := ListedRefs(out.value);
      AddAllWellformed(map[], rs);
      AddAllSet(map[], rs);
      if current.Some? && (exists r :: r in rs && r.name == current.value) {
        var r :| r in rs && r.name == current.value;
        var i :| 0 <= i < |rs| && rs[i] == r;
      }
    }
  }

  /** The lane-engine calls that appending `cs` one by one makes. */
  function AppendFeeds(wasEmpty: bool, cs: seq<Commit>): seq<LaneEvent> {
    (if wasEmpty && cs != [] then [ResetLanes] else []) + Feeds(cs)
  }

  /** The engine calls append_revision makes for `c`: a reset first when the store is empty. */
  function LaneStep(empty: bool, c: Commit): (es: seq<LaneEvent>)
    ensures |es| > 0 && es[|es| - 1] == Next(c)
  {
    (if empty then [ResetLanes] else []) + [Next(c)]
  }

  function DummyCommit(staged: bool, now: int): Commit {
    Commit(ZeroHash, "", if staged then "Staged changes" else "Unstaged changes", None, now,
           Some(if staged then StagedSign else UnstagedSign))
  }

  /** convert_setting_to_inactive_max: the setting is recovered from the engine value. */
  function ConvertInactiveMax(s: int): (v: int)
    ensures (v - 2) % 8 == 0 && (v - 2) / 8 == s
  {
    2 + s * 8
  }

  /** convert_setting_to_inactive_collapse: the setting is recovered from the engine value. */
  function ConvertInactiveCollapse(s: int): (v: int)
    ensures (v - 1) % 3 == 0 && (v - 1) / 3 == s
  {
    1 + s * 3
  }

  /** convert_setting_to_inactive_gap: the engine value ignores the setting. */
  function ConvertInactiveGap(s: int): (v: int)
    ensures v == 10
  {
    10
  }

  /** Line `i` of a stash batch, parsed. */
  method ParseStashEntry(buffer: seq<string>, i: nat) returns (parsed: Option<Commit>)
    requires i < |buffer|
    ensures StashCommits(buffer[..i + 1]) == StashCommits(buffer[..i]) + AsSeq(parsed)
  {
    assert buffer[..i + 1] == buffer[..i] + [buffer[i]];
    StashCommitsSnoc(buffer[..i], buffer[i]);
    parsed := ParseStashLine(buffer[i]);
  }

  /** Line `i` of a history batch, parsed. */
  method ParseHistoryLine(buffer: seq<string>, i: nat) returns (parsed: Option<Commit>)
    requires i < |buffer|
    ensures HistoryCommits(buffer[..i + 1]) == HistoryCommits(buffer[..i]) + AsSeq(parsed)
  {
    assert buffer[..i + 1] == buffer[..i] + [buffer[i]];
    HistoryCommitsSnoc(buffer[..i], buffer[i]);
    parsed := ParseCommitLine(buffer[i]);
  }

  /**
   * The repository: its path, the revision store and the lane engine it
   * owns, the ref table, the current and working refs, the log arguments of
   * the last load, the pending-relane marker and the load stage.
   */
  class Repository {
    const path: Option<string>
    const store: Store
    const lanes: Lanes

    var refs: RefTable.Table
    var currentRef: Option<Ref>
    /** The cached HEAD ref (None: not computed since the last reload). */
    var workingRef: Option<Ref>
    var lastArgs: seq<string>
    /** Whether a relane is scheduled (idle_relane_id is not 0). */
    var relanePending: bool
    var loadStage: nat

    /**
     * The repository invariant: the store is valid, the ref table well
     * formed, and every stored revision's lanes came from the engine.
     */
    ghost predicate Valid()
      reads this, store, store.storage, lanes
    {
      StoreLaned() && RefTable.Wellformed(refs)
    }

    /** The store is valid and every stored revision's lanes came from the engine. */
    ghost predicate StoreLaned()
      reads store, store.storage, lanes
    {
      store.Valid() && AllLaned(store.Contents(), lanes.history)
    }

    /** gitg_repository_init, with the path property set: an empty store, no refs, no load running. */
    constructor (path: Option<string>)
      ensures Valid() && this.path == path && fresh(store) && fresh(store.storage) && fresh(lanes)
      ensures store.size == 0 && store.capacity == 0 && lanes.history == []
      ensures refs == map[] && currentRef.None? && workingRef.None? && lastArgs == []
      ensures !relanePending && loadStage == StageNone
    {
      this.path := path;
      store := new Store();
      lanes := new Lanes();
      refs := map[];
      currentRef := None;
      workingRef := None;
      lastArgs := [];
      relanePending := false;
      loadStage := StageNone;
    }

    /**
     * append_revision: the lane engine is reset when the store is empty,
     * then computes the lanes of the revision, which is added to the store.
     */
    method AppendRevision(c: Commit)
      requires StoreLaned()
      modifies store, store.storage, lanes
      ensures StoreLaned()
      ensures lanes.history == old(lanes.history) + LaneStep(old(store.size) == 0, c)
      ensures store.Contents() == old(store.Contents()) + [Revision(c, lanes.history)]
      ensures store.hashtable == old(store.hashtable)[c.hash := old(store.size)]
      ensures store.storage == old(store.storage) || fresh(store.storage)
    {
      var l := RevisionLanes(c);
      AllLanedSnoc(store.Contents(), Revision(c, l), lanes.history);
      store.Add(Revision(c, l));
    }

    /**
     * The lanes half of append_revision: after a reset when the store is
     * empty, the engine is fed `c` and its history is the revision's lanes.
     */
    method RevisionLanes(c: Commit) returns (l: seq<LaneEvent>)
      requires StoreLaned()
      modifies lanes
      ensures StoreLaned()
      ensures lanes.history == old(lanes.history) + LaneStep(store.size == 0, c)
      ensures l == lanes.history && LanedBy(Revision(c, l), lanes.history)
    {
      ghost var h0 := lanes.history;
      if store.size == 0 {
        lanes.Reset();
      }
      l := lanes.Next(c);
      AllLanedExtend(store.Contents(), h0, lanes.history);
    }

    /** add_dummy_commit: a virtual revision for staged or unstaged changes, stamped `now`. */
    method AddDummyCommit(staged: bool, now: int)
      requires StoreLaned()
      modifies store, store.storage, lanes
      ensures StoreLaned()
      ensures CommitsOf(store.Contents()) == CommitsOf(old(store.Contents())) + [DummyCommit(staged, now)]
      ensures lanes.history == old(lanes.history) + LaneStep(old(store.size) == 0, DummyCommit(staged, now))
      ensures store.storage == old(store.storage) || fresh(store.storage)
    {
      AppendCommit(DummyCommit(staged, now));
    }

    /** append_revision, stated on commits. */
    method AppendCommit(c: Commit)
      requires StoreLaned()
      modifies store, store.storage, lanes
      ensures StoreLaned()
      ensures CommitsOf(store.Contents()) == CommitsOf(old(store.Contents())) + [c]
      ensures lanes.history == old(lanes.history) + LaneStep(old(store.size) == 0, c)
      ensures store.size == old(store.size) + 1
      ensures store.storage == old(store.storage) || fresh(store.storage)
    {
      ghost var before := store.Contents();
      AppendRevision(c);
      CommitsOfAppend(before, Revision(c, lanes.history));
    }

    /**
     * do_clear: the store releases its revisions from the last position
     * down to the first (`released` lists them in that order) and drops its
     * storage and index; the ref table and the current ref are dropped and
     * the lane colours reset.
     */
    method DoClear() returns (released: seq<Revision>)
      requires Valid()
      modifies this, store, lanes
      ensures Valid()
      ensures released == Reversed(old(store.Contents()))
      ensures store.size == 0 && store.capacity == 0 && store.storage.Length == 0 && store.hashtable == map[]
      ensures refs == map[] && currentRef.None?
      ensures lanes.history == old(lanes.history) + [ResetColors]
      ensures workingRef == old(workingRef) && lastArgs == old(lastArgs)
      ensures relanePending == old(relanePending) && loadStage == old(loadStage)
    {
      released := store.Clear();
      currentRef := None;
      refs := map[];
      lanes.ResetColors();
    }

    /**
     * add_ref on the repository's table: the group of `hash` gains the ref
     * unless an equal one is already there.
     */
    method AddRef(hash: string, name: string) returns (r: Ref)
      modifies this`refs
      ensures r == Ref(hash, name) && refs == RefTable.AddRef(old(refs), hash, name)
      ensures RefTable.Wellformed(old(refs)) ==> RefTable.Wellformed(refs)
    {
      if RefTable.Wellformed(refs) {
        RefTable.AddRefWellformed(refs, hash, name);
      }
      refs := RefTable.AddRef(refs, hash, name);
      r := Ref(hash, name);
    }
    /**
     * The store after appending `done` to a store that held commits `c0`
     * with engine history `l0` (`empty0`: the store was empty).
     */
    ghost predicate Appended(c0: seq<Commit>, l0: seq<LaneEvent>, empty0: bool, done: seq<Commit>)
      reads store, store.storage, lanes
    {
      StoreLaned() && CommitsOf(store.Contents()) == c0 + done &&
      lanes.history == l0 + AppendFeeds(empty0, done) &&
      (store.size == 0 <==> empty0 && done == [])
    }

    /** One more commit appended. */
    method AppendStep(ghost c0: seq<Commit>, ghost l0: seq<LaneEvent>, ghost empty0: bool,
                      ghost done: seq<Commit>, c: Commit)
      requires Appended(c0, l0, empty0, done)
      modifies store, store.storage, lanes
      ensures Appended(c0, l0, empty0, done + [c])
      ensures store.storage == old(store.storage) || fresh(store.storage)
    {
      AppendFeedsSnoc(empty0, done, c);
      AppendAssoc(l0, AppendFeeds(empty0, done), LaneStep(empty0 && done == [], c));
      AppendAssoc(c0, done, [c]);
      AppendCommit(c);
    }

    /** The stash ref of one more stash entry added. */
    method StashRef(ghost r0: RefTable.Table, ghost done: seq<Commit>, c: Commit)
      requires refs == AddStash(r0, done)
      modifies this`refs
      ensures refs == AddStash(r0, done + [c])
    {
      AddStashSnoc(r0, done, c);
      var _ := AddRef(c.hash, StashRefName);
    }

    /** The body of the stash loop for one parsed line: its stash ref added, then its revision appended. */
    method StashEntry(parsed: Option<Commit>, ghost c0: seq<Commit>, ghost r0: RefTable.Table,
                      ghost l0: seq<LaneEvent>, ghost empty0: bool, ghost done: seq<Commit>)
      requires Appended(c0, l0, empty0, done)
      requires refs == AddStash(r0, done)
      modifies this`refs, store, store.storage, lanes
      ensures Appended(c0, l0, empty0, done + AsSeq(parsed))
      ensures refs == AddStash(r0, done + AsSeq(parsed))
      ensures store.storage == old(store.storage) || fresh(store.storage)
    {
      if parsed.Some? {
        ghost var st := store.storage;
        StashRef(r0, done, parsed.value);
        assert store.storage == st;
        ghost var added := refs;
        AppendStep(c0, l0, empty0, done, parsed.value);
        assert refs == added;
      } else {
        assert done + AsSeq(parsed) == done;
      }
    }

    /** The body of the history loop: line `i` parsed and its revision appended. */
    method CommitLine(buffer: seq<string>, i: nat, ghost c0: seq<Commit>, ghost l0: seq<LaneEvent>, ghost empty0: bool)
      requires i < |buffer|
      requires Appended(c0, l0, empty0, HistoryCommits(buffer[..i]))
      modifies store, store.storage, lanes
      ensures Appended(c0, l0, empty0, HistoryCommits(buffer[..i + 1]))
      ensures store.storage == old(store.storage) || fresh(store.storage)
    {
      ghost var done := HistoryCommits(buffer[..i]);
      var parsed := ParseHistoryLine(buffer, i);
      if parsed.Some? {
        AppendStep(c0, l0, empty0, done, parsed.value);
        assert done + AsSeq(parsed) == done + [parsed.value];
      } else {
        assert done + AsSeq(parsed) == done;
      }
    }

    /**
     * loader_update_stash: with the stash preference off nothing happens;
     * otherwise every well-formed stash line adds the stash ref for its
     * hash and appends its revision, in line order.
     */
    method LoaderUpdateStash(buffer: seq<string>, showStash: bool)
      requires Valid()
      modifies this`refs, store, store.storage, lanes
      ensures Valid()
      ensures var cs := if showStash then StashCommits(buffer) else [];
        CommitsOf(store.Contents()) == CommitsOf(old(store.Contents())) + cs &&
        refs == AddStash(old(refs), cs) &&
        lanes.history == old(lanes.history) + AppendFeeds(old(store.size) == 0, cs)
      ensures store.storage == old(store.storage) || fresh(store.storage)
    {
      if !showStash {
        assert AppendFeeds(store.size == 0, []) == [];
        return;
      }
      StashLines(buffer);
    }

    /** The loop of loader_update_stash over the lines of a batch. */
    method StashLines(buffer: seq<string>)
      requires Valid()
      modifies this`refs, store, store.storage, lanes
      ensures Valid()
      ensures CommitsOf(store.Contents()) == CommitsOf(old(store.Contents())) + StashCommits(buffer)
      ensures refs == AddStash(old(refs), StashCommits(buffer))
      ensures lanes.history == old(lanes.history) + AppendFeeds(old(store.size) == 0, StashCommits(buffer))
      ensures store.storage == old(store.storage) || fresh(store.storage)
    {
      ghost var c0 := CommitsOf(store.Contents());
      ghost var r0 := refs;
      ghost var l0 := lanes.history;
      ghost var empty0 := store.size == 0;
      assert AppendFeeds(empty0, []) == [];
      for i := 0 to |buffer|
        invariant Appended(c0, l0, empty0, StashCommits(buffer[..i]))
        invariant refs == AddStash(r0, StashCommits(buffer[..i]))
        invariant store.storage == old(store.storage) || fresh(store.storage)
      {
        ghost var done := StashCommits(buffer[..i]);
        var parsed := ParseStashEntry(buffer, i);
        StashEntry(parsed, c0, r0, l0, empty0, done);
      }
      assert buffer[..|buffer|] == buffer;
      AddStashWellformed(r0, StashCommits(buffer));
    }

    /**
     * loader_update_commits: every well-formed history line appends its
     * revision, in line order.
     */
    method LoaderUpdateCommits(buffer: seq<string>)
      requires Valid()
      modifies store, store.storage, lanes
      ensures Valid()
      ensures CommitsOf(store.Contents()) == CommitsOf(old(store.Contents())) + HistoryCommits(buffer)
      ensures lanes.history == old(lanes.history) + AppendFeeds(old(store.size) == 0, HistoryCommits(buffer))
      ensures store.storage == old(store.storage) || fresh(store.storage)
    {
      ghost var c0 := CommitsOf(store.Contents());
      ghost var l0 := lanes.history;
      ghost var empty0 := store.size == 0;
      assert AppendFeeds(empty0, []) == [];
      CommitLines(buffer, c0, l0, empty0);
    }

    /** The loop of loader_update_commits, over the lines of one batch. */
    method CommitLines(buffer: seq<string>, ghost c0: seq<Commit>, ghost l0: seq<LaneEvent>, ghost empty0: bool)
      requires Appended(c0, l0, empty0, [])
      modifies store, store.storage, lanes
      ensures Appended(c0, l0, empty0, HistoryCommits(buffer))
      ensures store.storage == old(store.storage) || fresh(store.storage)
    {
      for i := 0 to |buffer|
        invariant Appended(c0, l0, empty0, HistoryCommits(buffer[..i]))
        invariant store.storage == old(store.storage) || fresh(store.storage)
      {
        CommitLine(buffer, i, c0, l0, empty0);
      }
      assert buffer[..|buffer|] == buffer;
    }

    /**
     * on_loader_update: a batch of output lines is parsed as stash lines in
     * the stash stage, as history lines in the history stage, and ignored
     * in every other stage.
     */
    method OnLoaderUpdate(buffer: seq<string>, prefs: Preferences)
      requires Valid()
      modifies this`refs, store, store.storage, lanes
      ensures Valid()
      ensures var cs :=
          if old(loadStage) == StageStash && prefs.showStash then StashCommits(buffer)
          else if old(loadStage) == StageCommits then HistoryCommits(buffer)
          else [];
        CommitsOf(store.Contents()) == CommitsOf(old(store.Contents())) + cs &&
        lanes.history == old(lanes.history) + AppendFeeds(old(store.size) == 0, cs)
      ensures old(loadStage) == StageStash && prefs.showStash ==>
        refs == AddStash(old(refs), StashCommits(buffer))
      ensures !(old(loadStage) == StageStash && prefs.showStash) ==> refs == old(refs)
      ensures store.storage == old(store.storage) || fresh(store.storage)
    {
      if loadStage == StageStash {
        assert loadStage != StageCommits;
        LoaderUpdateStash(buffer, prefs.showStash);
      } else if loadStage == StageCommits {
        LoaderUpdateCommits(buffer);
      } else {
        assert AppendFeeds(store.size == 0, []) == [];
      }
    }

    /**
     * The decisions of on_loader_end_loading in stage `current`: the stage
     * reached, the virtual revision to add and the arguments of the next
     * run. A cancelled run decides nothing.
     */
    method EndLoadingStep(current: nat, c: Completion, prefs: Preferences, head: string)
      returns (stage: nat, dummy: Option<bool>, argv: Option<seq<string>>)
      ensures EndLoading(current, c, prefs, head, lastArgs) == Step(stage, dummy, argv)
    {
      dummy := None;
      argv := None;
      if c.cancelled {
        return current, None, None;
      }
      stage := current + 1;
      if current == StageStash || current == StageStaged {
        if current == StageStaged {
          if prefs.showStaged && c.exitStatus != 0 {
            dummy := Some(true);
          }
          argv := Some(DiffIndexArgs(head, false));
        } else {
          argv := Some(DiffIndexArgs(head, true));
        }
      } else if current == StageUnstaged {
        if prefs.showUnstaged && c.exitStatus != 0 {
          dummy := Some(false);
        }
        argv := Some(lastArgs);
      }
    }

    /** The next run started on the repository's runner, if any. */
    method StartNext(argv: Option<seq<string>>) returns (next: Option<Query>)
      ensures next.Some? <==> argv.Some? && path.Some?
      ensures next.Some? ==> next.value == GitQuery(path.value, argv.value, None)
    {
      if argv.Some? {
        next := RunCommandWithInput(path, argv.value, None);
      } else {
        next := None;
      }
    }

    /** add_dummy_commit when `dummy` asks for one. */
    method AddDummyIf(dummy: Option<bool>, now: int)
      requires StoreLaned()
      modifies store, store.storage, lanes
      ensures StoreLaned()
      ensures var added := if dummy.Some? then [DummyCommit(dummy.value, now)] else [];
        CommitsOf(store.Contents()) == CommitsOf(old(store.Contents())) + added &&
        lanes.history == old(lanes.history) + AppendFeeds(old(store.size) == 0, added)
      ensures store.storage == old(store.storage) || fresh(store.storage)
    {
      if dummy.Some? {
        ghost var d := DummyCommit(dummy.value, now);
        assert AppendFeeds(store.size == 0, [d]) == LaneStep(store.size == 0, d);
        AddDummyCommit(dummy.value, now);
      } else {
        assert AppendFeeds(store.size == 0, []) == [];
        assert CommitsOf(store.Contents()) + [] == CommitsOf(store.Contents());
      }
    }

    /**
     * on_loader_end_loading: the stage machine's step for the event, with
     * its virtual revision appended and its next run started on the
     * repository's runner (none without a path).
     */
    method OnLoaderEndLoading(c: Completion, prefs: Preferences, now: int, git: Git) returns (next: Option<Query>)
      requires StoreLaned()
      modifies this`loadStage, store, store.storage, lanes
      ensures StoreLaned()
      ensures var s := EndLoading(old(loadStage), c, prefs, ParseHead(path, git), lastArgs);
        var added := if s.dummy.Some? then [DummyCommit(s.dummy.value, now)] else [];
        loadStage == s.stage &&
        CommitsOf(store.Contents()) == CommitsOf(old(store.Contents())) + added &&
        lanes.history == old(lanes.history) + AppendFeeds(old(store.size) == 0, added) &&
        (next.Some? <==> s.next.Some? && path.Some?) &&
        (next.Some? ==> next.value == GitQuery(path.value, s.next.value, None))
      ensures store.storage == old(store.storage) || fresh(store.storage)
    {
      next := EndLoadingAt(c, prefs, now, ParseHead(path, git));
    }

    /** on_loader_end_loading with `head` the hash parse_head gives. */
    method EndLoadingAt(c: Completion, prefs: Preferences, now: int, head: string) returns (next: Option<Query>)
      requires StoreLaned()
      modifies this`loadStage, store, store.storage, lanes
      ensures StoreLaned()
      ensures var s := EndLoading(old(loadStage), c, prefs, head, lastArgs);
        var added := if s.dummy.Some? then [DummyCommit(s.dummy.value, now)] else [];
        loadStage == s.stage &&
        CommitsOf(store.Contents()) == CommitsOf(old(store.Contents())) + added &&
        lanes.history == old(lanes.history) + AppendFeeds(old(store.size) == 0, added) &&
        (next.Some? <==> s.next.Some? && path.Some?) &&
        (next.Some? ==> next.value == GitQuery(path.value, s.next.value, None))
      ensures store.storage == old(store.storage) || fresh(store.storage)
    {
      var stage, dummy, argv := EndLoadingStep(loadStage, c, prefs, head);
      AddDummyIf(dummy, now);
      loadStage := stage;
      next := StartNext(argv);
    }

    /** prepare_relane: a relane is scheduled unless one already is. */
    method PrepareRelane() returns (scheduled: bool)
      modifies this`relanePending
      ensures scheduled <==> !old(relanePending)
      ensures relanePending
    {
      scheduled := !relanePending;
      relanePending := true;
    }

    /**
     * One position of the relane loop: the engine is fed the commit at `i`
     * and the revision there takes the lanes it returns.
     */
    method RelaneAt(i: nat)
      requires StoreLaned() && i < store.size
      modifies store.storage, lanes
      ensures StoreLaned()
      ensures lanes.history == old(lanes.history) + [Next(old(store.Contents())[i].commit)]
      ensures store.Contents() == old(store.Contents())[i := Revision(old(store.Contents())[i].commit, lanes.history)]
    {
      ghost var before := store.Contents();
      ghost var h0 := lanes.history;
      var l := lanes.Next(store.storage[i].commit);
      assert AllLaned(before[i := Revision(before[i].commit, l)], l) by {
        AllLanedExtend(before, h0, l);
        AllLanedSet(before, i, l);
      }
      store.SetLanes(i, l);
    }

    /**
     * repository_relane: the pending marker is cleared, the engine reset
     * and every stored revision, first to last, given the lanes the engine
     * computes for it; the commits stay as they were.
     */
    method Relane()
      requires StoreLaned()
      modifies this`relanePending, store.storage, lanes
      ensures StoreLaned() && !relanePending
      ensures CommitsOf(store.Contents()) == CommitsOf(old(store.Contents()))
      ensures lanes.history == old(lanes.history) + [ResetLanes] + Feeds(CommitsOf(old(store.Contents())))
      ensures Relaned(store.Contents(), store.size, old(lanes.history) + [ResetLanes], CommitsOf(old(store.Contents())))
    {
      relanePending := false;
      ghost var before := store.Contents();
      ghost var cs := CommitsOf(before);
      lanes.Reset();
      AllLanedExtend(before, old(lanes.history), lanes.history);
      RelaneAll(lanes.history, cs);
    }

    /** The relane loop: every stored revision, first to last, relaned after the history `base`. */
    method RelaneAll(ghost base: seq<LaneEvent>, ghost cs: seq<Commit>)
      requires StoreLaned() && CommitsOf(store.Contents()) == cs && lanes.history == base
      modifies store.storage, lanes
      ensures StoreLaned() && CommitsOf(store.Contents()) == cs
      ensures lanes.history == base + Feeds(cs)
      ensures Relaned(store.Contents(), store.size, base, cs)
    {
      var i := 0;
      ghost var fs := Feeds(cs);
      assert |fs| == store.size;
      while i < store.size
        invariant StoreLaned() && i <= store.size == |fs|
        invariant CommitsOf(store.Contents()) == cs
        invariant lanes.history == base + Feeds(cs)[..i]
        invariant Relaned(store.Contents(), i, base, cs)
        decreases store.size - i
      {
        RelaneNext(i, base, cs);
        i := i + 1;
      }
      assert fs[..i] == fs;
    }

    /** The body of the relane loop: position `i` relaned keeps the loop's invariant one step further. */
    method RelaneNext(i: nat, ghost base: seq<LaneEvent>, ghost cs: seq<Commit>)
      requires StoreLaned() && i < store.size
      requires CommitsOf(store.Contents()) == cs
      requires lanes.history == base + Feeds(cs)[..i]
      requires Relaned(store.Contents(), i, base, cs)
      modifies store.storage, lanes
      ensures StoreLaned()
      ensures CommitsOf(store.Contents()) == cs
      ensures lanes.history == base + Feeds(cs)[..i + 1]
      ensures Relaned(store.Contents(), i + 1, base, cs)
    {
      ghost var revs := store.Contents();
      ghost var h0 := lanes.history;
      RelaneAt(i);
      RelaneStepFacts(revs, i, base, cs, h0, lanes.history);
    }

    /**
     * The bindings of history-collapse-inactive-lanes: the maximum, the
     * collapse and the gap are converted and written to the engine in that
     * order, each conversion asking for a relane.
     */
    method OnCollapseInactiveLanes(s: int) returns (scheduled: bool)
      requires StoreLaned()
      modifies this`relanePending, lanes
      ensures StoreLaned()
      ensures lanes.history == old(lanes.history) +
        [SetInactiveMax(2 + s * 8), SetInactiveCollapse(1 + s * 3), SetInactiveGap(10)]
      ensures relanePending && (scheduled <==> !old(relanePending))
    {
      ghost var h0 := lanes.history;
      scheduled := PrepareRelane();
      lanes.Set(SetInactiveMax(ConvertInactiveMax(s)));
      var _ := PrepareRelane();
      lanes.Set(SetInactiveCollapse(ConvertInactiveCollapse(s)));
      var _ := PrepareRelane();
      lanes.Set(SetInactiveGap(ConvertInactiveGap(s)));
      AllLanedExtend(store.Contents(), h0, lanes.history);
    }

    /** The binding of history-collapse-inactive-lanes-active: the flag is written to the engine, asking for a relane. */
    method OnCollapseInactiveLanesActive(b: bool) returns (scheduled: bool)
      requires StoreLaned()
      modifies this`relanePending, lanes
      ensures StoreLaned()
      ensures lanes.history == old(lanes.history) + [SetInactiveEnabled(b)]
      ensures relanePending && (scheduled <==> !old(relanePending))
    {
      ghost var h0 := lanes.history;
      scheduled := PrepareRelane();
      lanes.Set(SetInactiveEnabled(b));
      AllLanedExtend(store.Contents(), h0, lanes.history);
    }

    /** reload_revisions: the cached HEAD ref is dropped and the stash listing started in the stash stage. */
    method ReloadRevisions() returns (q: Option<Query>)
      modifies this`workingRef, this`loadStage
      ensures workingRef.None? && loadStage == StageStash
      ensures q.Some? <==> path.Some?
      ensures q.Some? ==> q.value == GitQuery(path.value, StashLogArgs, None)
    {
      workingRef := None;
      loadStage := StageStash;
      q := RunCommandWithInput(path, StashLogArgs, None);
    }

    /**
     * build_log_args: "log", the history format (with the side mark when
     * --left-right is among the arguments) and the encoding, followed by
     * the caller's arguments, or by "HEAD" when there are none and HEAD
     * resolves.
     */
    method BuildLogArgs(av: seq<string>, git: Git)
      modifies this`lastArgs
      ensures lastArgs == LogArgs(av, ParseRefIntern(path, "HEAD", false, git).Some?)
    {
      var leftRight := HasLeftRight(av);
      var argv := ["log", if leftRight then CommitFormat + LeftRightField else CommitFormat, "--encoding=UTF-8"];
      if |av| == 0 {
        var head := ParseRefIntern(path, "HEAD", false, git);
        if head.Some? {
          argv := argv + ["HEAD"];
        }
      } else {
        ghost var prefix := argv;
        for i := 0 to |av|
          invariant argv == prefix + av[..i]
        {
          argv := argv + [av[i]];
        }
        assert av[..|av|] == av;
      }
      lastArgs := argv;
    }

    /**
     * load_current_ref: rev-parse --symbolic-full-name of the last log
     * arguments without their leading "log"; a name only when exactly one
     * line came back.
     */
    method LoadCurrentRef(git: Git) returns (r: Option<string>)
      ensures r == CurrentRefOf(path, lastArgs, git)
    {
      var argv := ["rev-parse", "--no-flags", "--symbolic-full-name"];
      if |lastArgs| > 1 {
        ghost var prefix := argv;
        for i := 1 to |lastArgs|
          invariant argv == prefix + lastArgs[1..i]
        {
          argv := argv + [lastArgs[i]];
        }
      }
      assert argv == CurrentRefArgs(lastArgs);
      var out := CommandWithOutput(path, argv, git);
      if out.None? {
        return None;
      }
      if |out.value| == 1 {
        r := Some(out.value[0]);
      } else {
        r := None;
      }
    }

    /**
     * The body of the ref loop for one line of for-each-ref output: a
     * well-formed line adds its ref, which becomes the current ref when its
     * name is `current`.
     */
    method RefLine(lines: seq<string>, i: nat, current: Option<string>,
                   ghost r0: RefTable.Table, ghost cur0: Option<Ref>)
      requires i < |lines|
      requires refs == AddAll(r0, ListedRefs(lines[..i]))
      requires currentRef == CurrentAfter(cur0, ListedRefs(lines[..i]), current)
      modifies this`refs, this`currentRef
      ensures refs == AddAll(r0, ListedRefs(lines[..i + 1]))
      ensures currentRef == CurrentAfter(cur0, ListedRefs(lines[..i + 1]), current)
    {
      ListedStep(r0, cur0, lines, i, current);
      var parsed := ParseRefLine(lines[i]);
      if parsed.Some? {
        var ref := AddRef(parsed.value.hash, parsed.value.name);
        if current.Some? && ref.name == current.value {
          currentRef := Some(ref);
        }
      }
    }

    /**
     * load_refs: without output nothing changes; otherwise every
     * well-formed line adds its ref, in line order, and the last one named
     * like the current ref becomes the current ref.
     */
    method LoadRefs(git: Git)
      requires RefTable.Wellformed(refs)
      modifies this`refs, this`currentRef
      ensures RefTable.Wellformed(refs)
      ensures (refs, currentRef) == RefsAfterListing(old(refs), old(currentRef),
        CommandWithOutput(path, ForEachRefArgs, git), CurrentRefOf(path, lastArgs, git))
    {
      var out := CommandWithOutput(path, ForEachRefArgs, git);
      if out.None? {
        return;
      }
      ghost var r0 := refs;
      var current := LoadCurrentRef(git);
      AddListed(out.value, current);
      AddAllWellformed(r0, ListedRefs(out.value));
    }

    /** The ref loop of load_refs over the output lines `lines`. */
    method AddListed(lines: seq<string>, current: Option<string>)
      modifies this`refs, this`currentRef
      ensures refs == AddAll(old(refs), ListedRefs(lines))
      ensures currentRef == CurrentAfter(old(currentRef), ListedRefs(lines), current)
    {
      ghost var r0 := refs;
      ghost var cur0 := currentRef;
      assert lines[..0] == [];
      for i := 0 to |lines|
        invariant refs == AddAll(r0, ListedRefs(lines[..i]))
        invariant currentRef == CurrentAfter(cur0, ListedRefs(lines[..i]), current)
      {
        RefLine(lines, i, current, r0, cur0);
      }
      assert lines[..|lines|] == lines;
    }

    /**
     * gitg_repository_reload: nothing without a path; otherwise the
     * repository is cleared, the refs are loaded again and the stash
     * listing is started, with the log arguments of the last load kept.
     */
    method Reload(git: Git) returns (q: Option<Query>)
      requires Valid()
      modifies this, store, lanes
      ensures Valid()
      ensures path.None? ==> q.None? && unchanged(this, store, lanes)
      ensures path.Some? ==> q == Some(GitQuery(path.value, StashLogArgs, None))
      ensures path.Some? ==> Cleared(old(lanes.history)) && lastArgs == old(lastArgs)
      ensures path.Some? ==> (refs, currentRef) == RefsAfterListing(map[], None,
        CommandWithOutput(path, ForEachRefArgs, git), CurrentRefOf(path, lastArgs, git))
      ensures path.Some? ==> workingRef.None? && loadStage == StageStash && relanePending == old(relanePending)
    {
      if path.None? {
        return None;
      }
      var _ := DoClear();
      q := ReloadCleared(git);
    }

    /** The part of gitg_repository_reload after the repository was cleared. */
    method ReloadCleared(git: Git) returns (q: Option<Query>)
      requires path.Some? && refs == map[] && currentRef.None?
      modifies this`refs, this`currentRef, this`workingRef, this`loadStage
      ensures q == Some(GitQuery(path.value, StashLogArgs, None))
      ensures (refs, currentRef) == RefsAfterListing(map[], None,
        CommandWithOutput(path, ForEachRefArgs, git), CurrentRefOf(path, lastArgs, git))
      ensures RefTable.Wellformed(refs) && workingRef.None? && loadStage == StageStash
    {
      assert RefTable.Wellformed(refs);
      LoadRefs(git);
      q := ReloadRevisions();
    }

    /**
     * gitg_repository_load: NotFound without a path; otherwise the
     * repository is cleared, the log arguments are built, the refs loaded
     * and the stash listing started.
     */
    method Load(av: seq<string>, git: Git) returns (r: Result<Option<Query>, LoadError>)
      requires Valid()
      modifies this, store, lanes
      ensures Valid()
      ensures path.None? ==> r == Failure(NotFound) && unchanged(this, store, lanes)
      ensures path.Some? ==> r == Success(Some(GitQuery(path.value, StashLogArgs, None)))
      ensures path.Some? ==> Cleared(old(lanes.history))
      ensures path.Some? ==> lastArgs == LogArgs(av, ParseRefIntern(path, "HEAD", false, git).Some?)
      ensures path.Some? ==> (refs, currentRef) == RefsAfterListing(map[], None,
        CommandWithOutput(path, ForEachRefArgs, git), CurrentRefOf(path, lastArgs, git))
      ensures path.Some? ==> workingRef.None? && loadStage == StageStash && relanePending == old(relanePending)
    {
      if path.None? {
        return Failure(NotFound);
      }
      var _ := DoClear();
      var q := LoadCleared(av, git);
      r := Success(q);
    }

    /** The part of gitg_repository_load after the repository was cleared. */
    method LoadCleared(av: seq<string>, git: Git) returns (q: Option<Query>)
      requires path.Some? && refs == map[] && currentRef.None?
      modifies this`lastArgs, this`refs, this`currentRef, this`workingRef, this`loadStage
      ensures q == Some(GitQuery(path.value, StashLogArgs, None))
      ensures lastArgs == LogArgs(av, ParseRefIntern(path, "HEAD", false, git).Some?)
      ensures (refs, currentRef) == RefsAfterListing(map[], None,
        CommandWithOutput(path, ForEachRefArgs, git), CurrentRefOf(path, lastArgs, git))
      ensures RefTable.Wellformed(refs) && workingRef.None? && loadStage == StageStash
    {
      BuildLogArgs(av, git);
      assert RefTable.Wellformed(refs);
      LoadRefs(git);
      q := ReloadRevisions();
    }

    /** The store and the lane colours right after do_clear, from an engine history `h0`. */
    ghost predicate Cleared(h0: seq<LaneEvent>)
      reads store, lanes
    {
      store.size == 0 && store.capacity == 0 && store.hashtable == map[] && lanes.history == h0 + [ResetColors]
    }

    /**
     * gitg_repository_get_current_working_ref: the cached HEAD ref, computed
     * and cached when there is none yet (a HEAD that does not resolve is
     * asked again next time).
     */
    method GetCurrentWorkingRef(git: Git) returns (r: Option<Ref>)
      modifies this`workingRef
      ensures old(workingRef).Some? ==> r == old(workingRef)
      ensures old(workingRef).None? ==> r == WorkingRefOf(path, git)
      ensures workingRef == r
    {
      if workingRef.Some? {
        return workingRef;
      }
      workingRef := WorkingRefOf(path, git);
      r := workingRef;
    }

    /**
     * gitg_repository_get_refs: every group of the table, one after
     * another in the table's own (unspecified) order `order`: each ref of
     * the table exactly once.
     */
    method GetRefs() returns (rs: seq<Ref>, ghost order: seq<string>)
      requires RefTable.Wellformed(refs)
      ensures RefTable.Distinct(order) && forall h :: h in order <==> h in refs
      ensures rs == RefTable.Flatten(refs, order)
      ensures forall r :: r in rs <==> r in RefTable.RefSet(refs)
      ensures RefTable.Distinct(rs)
    {
      var remaining := refs.Keys;
      rs := [];
      order := [];
      while remaining != {}
        invariant remaining <= refs.Keys
        invariant forall h :: h in order <==> h in refs && h !in remaining
        invariant RefTable.Distinct(order)
        invariant rs == RefTable.Flatten(refs, order)
        decreases |remaining|
      {
        var h :| h in remaining;
        RefTable.FlattenSnoc(refs, order, h);
        rs := rs + refs[h];
        order := order + [h];
        remaining := remaining - {h};
      }
      RefTable.FlattenAll(refs, order);
      RefTable.RefHashesKept(refs, order);
    }
  }
  /** Every revision's lanes came from the engine whose history is `history`. */
  ghost predicate AllLaned(revs: seq<Revision>, history: seq<LaneEvent>) {
    forall i :: 0 <= i < |revs| ==> LanedBy(revs[i], history)
  }

  lemma AllLanedSnoc(revs: seq<Revision>, r: Revision, history: seq<LaneEvent>)
    requires AllLaned(revs, history) && LanedBy(r, history)
    ensures AllLaned(revs + [r], history)
  {
    assert forall i :: 0 <= i < |revs| ==> (revs + [r])[i] == revs[i];
  }

  /** Lanes computed earlier stay a prefix of the history as it grows. */
  lemma AllLanedExtend(revs: seq<Revision>, history: seq<LaneEvent>, longer: seq<LaneEvent>)
    requires AllLaned(revs, history) && history <= longer
    ensures AllLaned(revs, longer)
  {
    forall i | 0 <= i < |revs| ensures LanedBy(revs[i], longer) {
      var l := revs[i].lanes;
      assert |l| <= |history| && l == history[..|l|];
      assert history[..|l|] == longer[..|l|];
    }
  }

  lemma StashCommitsSnoc(lines: seq<string>, line: string)
    ensures StashCommits(lines + [line]) == StashCommits(lines) + AsSeq(ParseStashLine(line))
  {
    assert (lines + [line])[..|lines|] == lines;
  }

  lemma HistoryCommitsSnoc(lines: seq<string>, line: string)
    ensures HistoryCommits(lines + [line]) == HistoryCommits(lines) + AsSeq(ParseCommitLine(line))
  {
    assert (lines + [line])[..|lines|] == lines;
  }

  lemma ListedRefsSnoc(lines: seq<string>, line: string)
    ensures ListedRefs(lines + [line]) == ListedRefs(lines) + AsSeq(ParseRefLine(line))
  {
    assert (lines + [line])[..|lines|] == lines;
  }

  /** One more line of for-each-ref output: its ref, when it parses, is added and may become current. */
  lemma ListedStep(t: RefTable.Table, cur: Option<Ref>, lines: seq<string>, i: nat, current: Option<string>)
    requires i < |lines|
    ensures var p := ParseRefLine(lines[i]); var rs := ListedRefs(lines[..i]);
      AddAll(t, ListedRefs(lines[..i + 1])) ==
        (if p.Some? then RefTable.AddRef(AddAll(t, rs), p.value.hash, p.value.name) else AddAll(t, rs)) &&
      CurrentAfter(cur, ListedRefs(lines[..i + 1]), current) ==
        (if p.Some? && current.Some? && p.value.name == current.value then p else CurrentAfter(cur, rs, current))
  {
    var rs := ListedRefs(lines[..i]);
    assert lines[..i + 1] == lines[..i] + [lines[i]];
    ListedRefsSnoc(lines[..i], lines[i]);
    var p := ParseRefLine(lines[i]);
    if p.Some? {
      AddAllSnoc(t, rs, p.value);
      CurrentAfterSnoc(cur, rs, p.value, current);
    } else {
      assert rs + [] == rs;
    }
  }

  lemma AddAllSnoc(t: RefTable.Table, rs: seq<Ref>, r: Ref)
    ensures AddAll(t, rs + [r]) == RefTable.AddRef(AddAll(t, rs), r.hash, r.name)
  {
    assert (rs + [r])[..|rs|] == rs;
  }

  lemma AddStashSnoc(t: RefTable.Table, cs: seq<Commit>, c: Commit)
    ensures AddStash(t, cs + [c]) == RefTable.AddRef(AddStash(t, cs), c.hash, StashRefName)
  {
    assert (cs + [c])[..|cs|] == cs;
  }

  lemma AppendFeedsSnoc(wasEmpty: bool, cs: seq<Commit>, c: Commit)
    ensures AppendFeeds(wasEmpty, cs + [c]) ==
      AppendFeeds(wasEmpty, cs) + LaneStep(wasEmpty && cs == [], c)
  {
    assert Feeds(cs + [c]) == Feeds(cs) + [Next(c)];
  }

  lemma CommitsOfAppend(revs: seq<Revision>, r: Revision)
    ensures CommitsOf(revs + [r]) == CommitsOf(revs) + [r.commit]
  {
    assert (revs + [r])[..|revs|] == revs;
  }

  /** Replacing one revision's lanes by the full current history keeps every revision laned. */
  lemma AllLanedSet(revs: seq<Revision>, i: nat, history: seq<LaneEvent>)
    requires AllLaned(revs, history) && i < |revs|
    requires |history| > 0 && history[|history| - 1] == Next(revs[i].commit)
    ensures AllLaned(revs[i := Revision(revs[i].commit, history)], history)
  {
  }

  /**
   * The first `i` revisions of `revs` hold the lanes the engine computed
   * when `cs` was fed to it one by one after `base`.
   */
  ghost predicate Relaned(revs: seq<Revision>, i: nat, base: seq<LaneEvent>, cs: seq<Commit>) {
    i <= |revs| && i <= |cs| && forall k :: 0 <= k < i ==> revs[k].lanes == base + Feeds(cs)[..k + 1]
  }

  lemma RelanedStep(revs: seq<Revision>, i: nat, base: seq<LaneEvent>, cs: seq<Commit>, l: seq<LaneEvent>)
    requires Relaned(revs, i, base, cs) && i < |revs| && i < |cs| && l == base + Feeds(cs)[..i + 1]
    ensures Relaned(revs[i := Revision(revs[i].commit, l)], i + 1, base, cs)
  {
  }

  /**
   * One step of the relane loop on values: the revision at `i` of `revs`
   * takes the lanes `l`, the history after feeding its commit.
   */
  lemma RelaneStepFacts(revs: seq<Revision>, i: nat, base: seq<LaneEvent>, cs: seq<Commit>,
                        h0: seq<LaneEvent>, l: seq<LaneEvent>)
    requires CommitsOf(revs) == cs && i < |revs|
    requires h0 == base + Feeds(cs)[..i] && l == h0 + [Next(revs[i].commit)]
    requires Relaned(revs, i, base, cs)
    ensures CommitsOf(revs[i := Revision(revs[i].commit, l)]) == cs
    ensures Relaned(revs[i := Revision(revs[i].commit, l)], i + 1, base, cs)
    ensures l == base + Feeds(cs)[..i + 1]
  {
    assert l == base + Feeds(cs)[..i + 1] by {
      assert Feeds(cs)[..i + 1] == Feeds(cs)[..i] + [Next(cs[i])];
    }
    HashesOfRelaned(revs, i, l);
    RelanedStep(revs, i, base, cs, l);
  }

  lemma CurrentAfterSnoc(cur: Option<Ref>, rs: seq<Ref>, r: Ref, name: Option<string>)
    ensures CurrentAfter(cur, rs + [r], name) ==
      if name.Some? && r.name == name.value then Some(r) else CurrentAfter(cur, rs, name)
  {
    assert (rs + [r])[..|rs|] == rs;
  }

  lemma FeedsAppend(a: seq<Commit>, b: seq<Commit>)
    ensures Feeds(a + b) == Feeds(a) + Feeds(b)
  {
  }

  /**
   * Batches compose: appending `a` to an empty store and then `b` makes
   * the same engine calls as appending `a + b` at once.
   */
  lemma AppendFeedsJoin(a: seq<Commit>, b: seq<Commit>)
    requires a != []
    ensures AppendFeeds(true, a) + AppendFeeds(false, b) == AppendFeeds(true, a + b)
  {
    FeedsAppend(a, b);
  }
}
