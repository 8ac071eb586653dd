/**
 * The values the revision store holds: commits as the loader parses them,
 * refs, and the lane layout the lane engine attaches to each revision.
 */
module Revisions {
  import opened Wrappers

  /**
   * The fields a revision is created from (hash, author, subject, the raw
   * parent list, the timestamp) and the sign set on it afterwards; None is
   * the sign a new revision starts with.
   */
  datatype Commit = Commit(
    hash: string,
    author: string,
    subject: string,
    parents: Option<string>,
    timestamp: int,
    sign: Option<char>)

  /**
   * One call into the lane engine. The engine's algorithm is not part of this
   * model: its state is the sequence of calls it has received, so whatever
   * layout it computes is a function of that history.
   */
  datatype LaneEvent =
    | ResetLanes
    | ResetColors
    | SetInactiveMax(max: int)
    | SetInactiveCollapse(collapse: int)
    | SetInactiveGap(gap: int)
    | SetInactiveEnabled(enabled: bool)
    | Next(commit: Commit)

  /** A stored revision: its commit and the engine history at the moment its lanes were computed. */
  datatype Revision = Revision(commit: Commit, lanes: seq<LaneEvent>)

  /** A ref: the object it points at and its full name. */
  datatype Ref = Ref(hash: string, name: string)

  /** The hash of the virtual "staged" and "unstaged" revisions. */
  const ZeroHash: string := "0000000000000000000000000000000000000000"

  const StagedSign: char := 't'
  const UnstagedSign: char := 'u'
  const StashSign: char := 's'

  /** The ref every stash entry is listed under. */
  const StashRefName: string := "refs/stash"

  function CommitsOf(revs: seq<Revision>): (cs: seq<Commit>)
    ensures |cs| == |revs|
    ensures forall i :: 0 <= i < |revs| ==> cs[i] == revs[i].commit
  {
    if revs == [] then [] else CommitsOf(revs[..|revs| - 1]) + [revs[|revs| - 1].commit]
  }

  function HashesOf(revs: seq<Revision>): (hs: seq<string>)
    ensures |hs| == |revs|
    ensures forall i :: 0 <= i < |revs| ==> hs[i] == revs[i].commit.hash
  {
    if revs == [] then [] else HashesOf(revs[..|revs| - 1]) + [revs[|revs| - 1].commit.hash]
  }

  /** The engine calls that feed `cs` to the engine in order. */
  function Feeds(cs: seq<Commit>): (es: seq<LaneEvent>)
    ensures |es| == |cs|
    ensures forall i :: 0 <= i < |cs| ==> es[i] == Next(cs[i])
  {
    if cs == [] then [] else Feeds(cs[..|cs| - 1]) + [Next(cs[|cs| - 1])]
  }

  /**
   * A revision's lanes came from the engine: they are a prefix of the
   * engine history whose last call fed that very commit.
   */
  predicate LanedBy(r: Revision, history: seq<LaneEvent>) {
    |r.lanes| > 0 && r.lanes <= history && r.lanes[|r.lanes| - 1] == Next(r.commit)
  }
}
