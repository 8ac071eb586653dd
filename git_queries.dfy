/**
 * The git invocations the repository makes, and the synchronous way of
 * running one and collecting its output. The runner itself (spawning git,
 * reading its pipes) is not modelled: a synchronous run is a parameter of
 * type Git that says whether the run succeeded and which batches of output
 * lines it delivered as update events.
 */
module GitQueries {
  import opened Wrappers
  import opened VarArgs
  import opened Revisions
  import GLibText

  /** One git run as the runner receives it: the argument vector, the working directory, the input. */
  datatype Query = Query(argv: seq<string>, workingDirectory: string, input: Option<string>)

  /** What a synchronous run reports: its success and the batches of lines it delivered. */
  datatype RunOutcome = RunOutcome(ok: bool, batches: seq<seq<string>>)

  type Git = Query -> RunOutcome

  function GitQuery(path: string, argv: seq<string>, input: Option<string>): Query {
    Query(["git"] + argv, path, input)
  }

  /**
   * run_command_with_input: the arguments with "git" put in front, run in
   * the repository's directory; nothing is run when the repository has no
   * path.
   */
  method RunCommandWithInput(path: Option<string>, argv: seq<string>, input: Option<string>)
    returns (q: Option<Query>)
    ensures q.None? <==> path.None?
    ensures q.Some? ==>
      q.value.workingDirectory == path.value && q.value.input == input &&
      |q.value.argv| == |argv| + 1 && q.value.argv[0] == "git" && q.value.argv[1..] == argv
    ensures q.Some? ==> q.value == GitQuery(path.value, argv, input)
  {
    if path.None? {
      return None;
    }
    var args := new string[|argv| + 1];
    args[0] := "git";
    for i := 0 to |argv|
      invariant args[0] == "git"
      invariant forall j :: 0 <= j < i ==> args[j + 1] == argv[j]
    {
      args[i + 1] := argv[i];
    }
    assert args[..] == ["git"] + argv;
    q := Some(Query(args[..], path.value, input));
  }

  /** The batches one after another. */
  function Concat(batches: seq<seq<string>>): seq<string> {
    if batches == [] then [] else Concat(batches[..|batches| - 1]) + batches[|batches| - 1]
  }

  /**
   * The output vector of command_with_input_and_output for a successful run:
   * it is only allocated by the first update event, so a run that delivered
   * no batch at all yields NULL even though it succeeded.
   */
  function OutputOf(batches: seq<seq<string>>): (out: Option<seq<string>>)
    ensures out.None? <==> batches == []
  {
    if batches == [] then None else Some(Concat(batches))
  }

  /** command_with_output_update: one batch copied onto the end of the output vector. */
  method CommandWithOutputUpdate(output: Option<seq<string>>, batch: seq<string>)
    returns (output': Option<seq<string>>)
    ensures output'.Some?
    ensures output'.value == output.GetOr([]) + batch
  {
    var old_lines := output.GetOr([]);
    var buffer := new string[|old_lines| + |batch|];
    for i := 0 to |old_lines|
      invariant forall j :: 0 <= j < i ==> buffer[j] == old_lines[j]
    {
      buffer[i] := old_lines[i];
    }
    for i := 0 to |batch|
      invariant forall j :: 0 <= j < |old_lines| ==> buffer[j] == old_lines[j]
      invariant forall j :: 0 <= j < i ==> buffer[|old_lines| + j] == batch[j]
    {
      buffer[|old_lines| + i] := batch[i];
    }
    assert buffer[..] == old_lines + batch;
    output' := Some(buffer[..]);
  }

  /** The update events of one run, in the order the runner delivers them, collected into the output vector. */
  method CollectOutput(batches: seq<seq<string>>) returns (output: Option<seq<string>>)
    ensures output == OutputOf(batches)
  {
    output := None;
    for k := 0 to |batches|
      invariant output == OutputOf(batches[..k])
    {
      assert batches[..k + 1][..k] == batches[..k];
      assert Concat(batches[..k + 1]) == Concat(batches[..k]) + batches[k];
      output := CommandWithOutputUpdate(output, batches[k]);
    }
    assert batches[..|batches|] == batches;
  }

  /**
   * command_with_input_and_output: the lines of a synchronous git run; NULL
   * when the repository has no path, when the run failed, or when it
   * delivered no batch.
   */
  function CommandWithInputAndOutput(path: Option<string>, argv: seq<string>, input: Option<string>, git: Git)
    : (out: Option<seq<string>>)
    ensures out.Some? <==>
      path.Some? && git(GitQuery(path.value, argv, input)).ok &&
      git(GitQuery(path.value, argv, input)).batches != []
    ensures out.Some? ==> out.value == Concat(git(GitQuery(path.value, argv, input)).batches)
  {
    if path.None? then None
    else
      var outcome := git(GitQuery(path.value, argv, input));
      if outcome.ok then OutputOf(outcome.batches) else None
  }

  /** command_with_output: the same run, with nothing written to git's standard input. */
  function CommandWithOutput(path: Option<string>, argv: seq<string>, git: Git): (out: Option<seq<string>>)
    ensures out.Some? <==>
      path.Some? && git(GitQuery(path.value, argv, None)).ok && git(GitQuery(path.value, argv, None)).batches != []
    ensures out.Some? ==> out.value == Concat(git(GitQuery(path.value, argv, None)).batches)
  {
    CommandWithInputAndOutput(path, argv, None, git)
  }

  /**
   * The arguments of parse_ref_intern. They are passed as a variadic list
   * whose fourth entry is NULL when a plain rev-parse is asked for, so the
   * list ends there.
   */
  function RevParseArgs(ref: string, symbolic: bool): (argv: seq<string>)
    ensures !symbolic ==> argv == ["rev-parse", "--verify", ref]
    ensures symbolic ==> argv == ["rev-parse", "--verify", "--symbolic-full-name", ref]
  {
    var ap := [Some("rev-parse"), Some("--verify"), Some(if symbolic then "--symbolic-full-name" else ref),
               if symbolic then Some(ref) else None, None];
    NullTerminatedUnique(ap, if symbolic then ["rev-parse", "--verify", "--symbolic-full-name", ref]
                             else ["rev-parse", "--verify", ref]);
    NullTerminated(ap)
  }

  /** parse_ref_intern: the first output line of rev-parse, NULL when it gave none. */
  function ParseRefIntern(path: Option<string>, ref: string, symbolic: bool, git: Git): (r: Option<string>)
    ensures r.Some? <==>
      var out := CommandWithOutput(path, RevParseArgs(ref, symbolic), git);
      out.Some? && out.value != []
    ensures r.Some? ==> r.value == CommandWithOutput(path, RevParseArgs(ref, symbolic), git).value[0]
  {
    match CommandWithOutput(path, RevParseArgs(ref, symbolic), git)
    case None => None
    case Some(lines) => if lines == [] then None else Some(lines[0])
  }

  /** The hash of the empty tree, used when HEAD does not resolve. */
  const EmptyTreeHash: string := "4b825dc642cb6eb9a060e54bf8d69288fbee4904"

  /** parse_head: the hash HEAD resolves to, or the empty tree's. */
  function ParseHead(path: Option<string>, git: Git): (head: string)
    ensures ParseRefIntern(path, "HEAD", false, git).None? ==> head == EmptyTreeHash
    ensures ParseRefIntern(path, "HEAD", false, git).Some? ==> head == ParseRefIntern(path, "HEAD", false, git).value
  {
    ParseRefIntern(path, "HEAD", false, git).GetOr(EmptyTreeHash)
  }

  /** get_current_working_ref: HEAD as a ref, when both its hash and its full name resolve. */
  function WorkingRefOf(path: Option<string>, git: Git): (r: Option<Ref>)
    ensures r.Some? <==>
      ParseRefIntern(path, "HEAD", false, git).Some? && ParseRefIntern(path, "HEAD", true, git).Some?
    ensures r.Some? ==>
      r.value == Ref(ParseRefIntern(path, "HEAD", false, git).value, ParseRefIntern(path, "HEAD", true, git).value)
  {
    var hash := ParseRefIntern(path, "HEAD", false, git);
    var name := ParseRefIntern(path, "HEAD", true, git);
    if hash.Some? && name.Some? then Some(Ref(hash.value, name.value)) else None
  }

  /** The field separator of the log formats. */
  const FieldSep: char := '\U{1}'

  /** The fields of the stash listing: hash, author, subject, timestamp. */
  const StashFields: seq<string> := ["%H", "%an", "%s", "%at"]
  /** The fields of the history: hash, author, subject, parents, timestamp. */
  const CommitFields: seq<string> := ["%H", "%an", "%s", "%P", "%at"]

  const StashFormat: string := "--pretty=format:" + GLibText.Join(StashFields, FieldSep)
  const CommitFormat: string := "--pretty=format:" + GLibText.Join(CommitFields, FieldSep)
  /** The extra field asked for with --left-right: the side mark. */
  const LeftRightField: string := [FieldSep] + "%m"

  /** The arguments reload_revisions starts the stash listing with. */
  const StashLogArgs: seq<string> := ["log", StashFormat, "--encoding=UTF-8", "-g", "refs/stash"]

  /** The arguments load_refs lists the refs with. */
  const ForEachRefArgs: seq<string> := ["for-each-ref", "--format=%(refname) %(objectname) %(*objectname)", "refs"]

  /**
   * The stash format asks for the four fields the stash parser needs, the
   * history format for the five the commit parser needs, and one more, the
   * side mark, exactly when --left-right is given.
   */
  lemma FormatsMatchParsers()
    ensures GLibText.Count(StashFormat, FieldSep) + 1 == 4
    ensures GLibText.Count(CommitFormat, FieldSep) + 1 == 5
    ensures GLibText.Count(CommitFormat + LeftRightField, FieldSep) + 1 == 6
  {
    FormatCount(StashFields);
    FormatCount(CommitFields);
    var fields := CommitFields + ["%m"];
    FormatCount(fields);
    JoinSnoc(CommitFields, "%m");
    assert CommitFormat + LeftRightField == "--pretty=format:" + GLibText.Join(fields, FieldSep);
  }

  lemma FormatCount(fields: seq<string>)
    requires |fields| > 0
    requires forall i :: 0 <= i < |fields| ==> FieldSep !in fields[i]
    ensures GLibText.Count("--pretty=format:" + GLibText.Join(fields, FieldSep), FieldSep) == |fields| - 1
  {
    var prefix := "--pretty=format:";
    assert FieldSep !in prefix by {
      forall i | 0 <= i < |prefix| ensures prefix[i] != FieldSep {
      }
    }
    GLibText.CountBound(prefix, FieldSep);
    GLibText.CountAppend(prefix, GLibText.Join(fields, FieldSep), FieldSep);
    CountPieces(fields);
  }

  lemma {:induction false} JoinSnoc(xs: seq<string>, y: string)
    requires xs != []
    ensures GLibText.Join(xs + [y], FieldSep) == GLibText.Join(xs, FieldSep) + [FieldSep] + y
  {
    if |xs| == 1 {
      assert (xs + [y])[1..] == [y];
    } else {
      assert (xs + [y])[1..] == xs[1..] + [y];
      JoinSnoc(xs[1..], y);
    }
  }

  /** Separator-free pieces joined by the separator hold one separator fewer than pieces. */
  lemma {:induction false} CountPieces(pieces: seq<string>)
    requires |pieces| > 0
    requires forall i :: 0 <= i < |pieces| ==> FieldSep !in pieces[i]
    ensures GLibText.Count(GLibText.Join(pieces, FieldSep), FieldSep) == |pieces| - 1
  {
    GLibText.CountBound(pieces[0], FieldSep);
    if |pieces| > 1 {
      CountPieces(pieces[1..]);
      GLibText.CountAppend(pieces[0] + [FieldSep], GLibText.Join(pieces[1..], FieldSep), FieldSep);
      GLibText.CountAppend(pieces[0], [FieldSep], FieldSep);
    }
  }

  /** has_left_right: whether "--left-right" is among the arguments. */
  method HasLeftRight(av: seq<string>) returns (b: bool)
    ensures b <==> "--left-right" in av
  {
    for i := 0 to |av|
      invariant "--left-right" !in av[..i]
    {
      if av[i] == "--left-right" {
        return true;
      }
    }
    assert av[..|av|] == av;
    return false;
  }

  /**
   * The log arguments build_log_args stores: the history format (with the
   * side mark when --left-right is given), then the caller's arguments, or
   * "HEAD" when there are none and HEAD resolves, or nothing.
   */
  function LogArgs(av: seq<string>, headResolves: bool): (args: seq<string>)
    ensures |args| >= 3 && args[0] == "log" && args[2] == "--encoding=UTF-8"
    ensures args[1] == CommitFormat + (if "--left-right" in av then LeftRightField else "")
    ensures av != [] ==> args[3..] == av
    ensures av == [] ==> args[3..] == (if headResolves then ["HEAD"] else [])
  {
    var pretty := if "--left-right" in av then CommitFormat + LeftRightField else CommitFormat;
    ["log", pretty, "--encoding=UTF-8"] + (if av != [] then av else if headResolves then ["HEAD"] else [])
  }

  /** The arguments of load_current_ref: the log arguments without "log", under rev-parse. */
  function CurrentRefArgs(lastArgs: seq<string>): (argv: seq<string>)
    ensures |argv| == 3 + (if lastArgs == [] then 0 else |lastArgs| - 1)
    ensures argv[..3] == ["rev-parse", "--no-flags", "--symbolic-full-name"]
    ensures lastArgs != [] ==> argv[3..] == lastArgs[1..]
  {
    ["rev-parse", "--no-flags", "--symbolic-full-name"] + (if lastArgs == [] then [] else lastArgs[1..])
  }

  /** load_current_ref: the symbolic name, only when rev-parse printed exactly one line. */
  function CurrentRefOf(path: Option<string>, lastArgs: seq<string>, git: Git): (r: Option<string>)
    ensures r.Some? <==>
      var out := CommandWithOutput(path, CurrentRefArgs(lastArgs), git);
      out.Some? && |out.value| == 1
    ensures r.Some? ==> r == Some(CommandWithOutput(path, CurrentRefArgs(lastArgs), git).value[0])
  {
    match CommandWithOutput(path, CurrentRefArgs(lastArgs), git)
    case None => None
    case Some(lines) => if |lines| == 1 then Some(lines[0]) else None
  }

  /**
   * The diff-index probe of the load stages. The "--cached" entry is NULL
   * for the unstaged probe, which ends the variadic list there.
   */
  function DiffIndexArgs(head: string, cached: bool): (argv: seq<string>)
    ensures cached ==> argv == ["diff-index", "--quiet", head, "--cached"]
    ensures !cached ==> argv == ["diff-index", "--quiet", head]
  {
    var ap := [Some("diff-index"), Some("--quiet"), Some(head), if cached then Some("--cached") else None, None];
    NullTerminatedUnique(ap, if cached then ["diff-index", "--quiet", head, "--cached"]
                             else ["diff-index", "--quiet", head]);
    NullTerminated(ap)
  }
}
