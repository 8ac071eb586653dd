/**
 * The load-stage state machine of the repository. A load runs the stash
 * listing, a staged-changes probe, an unstaged-changes probe and the history
 * one after another on the same runner; each end-loading event of the runner
 * moves the machine one stage on and starts the next run.
 */
module LoadStages {
  import opened Wrappers
  import GitQueries

  const StageNone: nat := 0
  const StageStash: nat := 1
  const StageStaged: nat := 2
  const StageUnstaged: nat := 3
  const StageCommits: nat := 4
  const StageLast: nat := 5

  /** The runner's end-loading event: whether the run was cancelled, and its exit status. */
  datatype Completion = Completion(cancelled: bool, exitStatus: int)

  /** The history-show-virtual-stash, -staged and -unstaged preferences. */
  datatype Preferences = Preferences(showStash: bool, showStaged: bool, showUnstaged: bool)

  /**
   * The effect of one end-loading event: the stage reached, the virtual
   * revision appended (Some(true) for staged changes, Some(false) for
   * unstaged changes) and the arguments of the run started next.
   */
  datatype Step = Step(stage: nat, dummy: Option<bool>, next: Option<seq<string>>)

  /**
   * on_loader_end_loading in a stage `stage`. A cancelled run changes
   * nothing. Otherwise the stage moves on by one and: after the stash
   * listing the staged probe starts; after the staged probe the staged
   * revision is added if wanted and the probe found changes (non-zero exit
   * status), and the unstaged probe starts; after the unstaged probe the
   * unstaged revision is added likewise and the history starts; after the
   * history, and in any other stage, nothing happens.
   */
  function EndLoading(stage: nat, c: Completion, prefs: Preferences, head: string, lastArgs: seq<string>)
    : (s: Step)
    ensures c.cancelled ==> s == Step(stage, None, None)
    ensures !c.cancelled ==> s.stage == stage + 1
    ensures s.dummy.Some? ==> !c.cancelled && c.exitStatus != 0
    ensures s.dummy == Some(true) <==> !c.cancelled && stage == StageStaged && prefs.showStaged && c.exitStatus != 0
    ensures s.dummy == Some(false) <==> !c.cancelled && stage == StageUnstaged && prefs.showUnstaged && c.exitStatus != 0
    ensures s.next.Some? <==> !c.cancelled && StageStash <= stage <= StageUnstaged
    ensures !c.cancelled && stage == StageStash ==> s.next == Some(["diff-index", "--quiet", head, "--cached"])
    ensures !c.cancelled && stage == StageStaged ==> s.next == Some(["diff-index", "--quiet", head])
    ensures !c.cancelled && stage == StageUnstaged ==> s.next == Some(lastArgs)
  {
    if c.cancelled then Step(stage, None, None)
    else if stage == StageStash then
      Step(stage + 1, None, Some(GitQueries.DiffIndexArgs(head, true)))
    else if stage == StageStaged then
      Step(stage + 1, if prefs.showStaged && c.exitStatus != 0 then Some(true) else None,
           Some(GitQueries.DiffIndexArgs(head, false)))
    else if stage == StageUnstaged then
      Step(stage + 1, if prefs.showUnstaged && c.exitStatus != 0 then Some(false) else None, Some(lastArgs))
    else Step(stage + 1, None, None)
  }

  function AsSeq<T>(o: Option<T>): seq<T> {
    if o.Some? then [o.value] else []
  }

  /** What a sequence of end-loading events does, starting in stage `stage`. */
  datatype Trace = Trace(stage: nat, dummies: seq<bool>, runs: seq<seq<string>>)

  function Run(stage: nat, cs: seq<Completion>, prefs: Preferences, head: string, lastArgs: seq<string>)
    : Trace
    decreases |cs|
  {
    if cs == [] then Trace(stage, [], [])
    else
      var s := EndLoading(stage, cs[0], prefs, head, lastArgs);
      var t := Run(s.stage, cs[1..], prefs, head, lastArgs);
      Trace(t.stage, AsSeq(s.dummy) + t.dummies, AsSeq(s.next) + t.runs)
  }

  /** The events of runs that were not cancelled. */
  function Uncancelled(cs: seq<Completion>): (us: seq<Completion>)
    ensures |us| <= |cs|
    ensures forall i :: 0 <= i < |us| ==> !us[i].cancelled
  {
    if cs == [] then [] else (if cs[0].cancelled then [] else [cs[0]]) + Uncancelled(cs[1..])
  }

  /** Cancelled events leave no trace: the machine behaves as if they never came. */
  lemma {:induction false} CancelledInvisible(stage: nat, cs: seq<Completion>, prefs: Preferences, head: string, lastArgs: seq<string>)
    decreases |cs|
    ensures Run(stage, cs, prefs, head, lastArgs) == Run(stage, Uncancelled(cs), prefs, head, lastArgs)
  {
    if cs != [] {
      CancelledInvisible(if cs[0].cancelled then stage else stage + 1, cs[1..], prefs, head, lastArgs);
      var us := Uncancelled(cs[1..]);
      if cs[0].cancelled {
        assert Uncancelled(cs) == us;
        var s := EndLoading(stage, cs[0], prefs, head, lastArgs);
        assert s == Step(stage, None, None);
        var t := Run(stage, cs[1..], prefs, head, lastArgs);
        assert Run(stage, cs, prefs, head, lastArgs) == Trace(t.stage, [] + t.dummies, [] + t.runs);
        assert [] + t.dummies == t.dummies && [] + t.runs == t.runs;
      } else {
        assert Uncancelled(cs) == [cs[0]] + us;
        assert ([cs[0]] + us)[0] == cs[0];
        assert ([cs[0]] + us)[1..] == us;
      }
    }
  }

  /** Every event that was not cancelled moves the stage on by exactly one. */
  lemma {:induction false} RunAdvances(stage: nat, cs: seq<Completion>, prefs: Preferences, head: string, lastArgs: seq<string>)
    decreases |cs|
    ensures Run(stage, cs, prefs, head, lastArgs).stage == stage + |Uncancelled(cs)|
  {
    if cs != [] {
      RunAdvances(if cs[0].cancelled then stage else stage + 1, cs[1..], prefs, head, lastArgs);
    }
  }

  /** From the history stage on, nothing is started and nothing is added any more. */
  lemma {:induction false} QuietAfterHistory(stage: nat, cs: seq<Completion>, prefs: Preferences, head: string, lastArgs: seq<string>)
    requires stage >= StageCommits
    decreases |cs|
    ensures Run(stage, cs, prefs, head, lastArgs).runs == []
    ensures Run(stage, cs, prefs, head, lastArgs).dummies == []
  {
    if cs != [] {
      QuietAfterHistory(if cs[0].cancelled then stage else stage + 1, cs[1..], prefs, head, lastArgs);
    }
  }

  /**
   * A whole load: the stash listing, the staged probe, the unstaged probe
   * and the history end without cancellation. Exactly the two probes and the
   * history are started, in that order; the staged revision comes before the
   * unstaged one, each present exactly when wanted and its probe found
   * changes; the machine ends in the last stage.
   */
  lemma FullLoad(stashExit: int, stagedExit: int, unstagedExit: int, historyExit: int,
                 prefs: Preferences, head: string, lastArgs: seq<string>)
    ensures var cs := [Completion(false, stashExit), Completion(false, stagedExit),
                       Completion(false, unstagedExit), Completion(false, historyExit)];
      Run(StageStash, cs, prefs, head, lastArgs) == Trace(
        StageLast,
        (if prefs.showStaged && stagedExit != 0 then [true] else []) +
        (if prefs.showUnstaged && unstagedExit != 0 then [false] else []),
        [["diff-index", "--quiet", head, "--cached"], ["diff-index", "--quiet", head], lastArgs])
  {
    var cs := [Completion(false, stashExit), Completion(false, stagedExit),
               Completion(false, unstagedExit), Completion(false, historyExit)];
    var s1 := EndLoading(StageStash, cs[0], prefs, head, lastArgs);
    var s2 := EndLoading(StageStaged, cs[1], prefs, head, lastArgs);
    var s3 := EndLoading(StageUnstaged, cs[2], prefs, head, lastArgs);
    var s4 := EndLoading(StageCommits, cs[3], prefs, head, lastArgs);
    assert s4 == Step(StageLast, None, None);
    var t4 := Run(StageCommits, cs[3..], prefs, head, lastArgs);
    assert cs[3..][0] == cs[3] && cs[3..][1..] == [];
    assert Run(StageLast, [], prefs, head, lastArgs) == Trace(StageLast, [], []);
    assert t4 == Trace(StageLast, [] + [], [] + []);
    assert cs[2..][1..] == cs[3..];
    var t3 := Run(StageUnstaged, cs[2..], prefs, head, lastArgs);
    assert t3 == Trace(StageLast, AsSeq(s3.dummy), [lastArgs]);
    assert cs[1..][1..] == cs[2..];
    var t2 := Run(StageStaged, cs[1..], prefs, head, lastArgs);
    assert t2 == Trace(StageLast, AsSeq(s2.dummy) + AsSeq(s3.dummy), [s2.next.value, lastArgs]);
  }
}
