/**
 * The lane engine as the repository sees it. Its layout algorithm is not
 * part of this model: the engine is an object whose whole state is the
 * sequence of calls it has received, and the lanes it hands out for a
 * revision are that sequence at the moment of the call.
 */
module LaneEngine {
  import opened Revisions

  class Lanes {
    /** The calls received so far, oldest first. */
    var history: seq<LaneEvent>

    constructor ()
      ensures history == []
    {
      history := [];
    }

    /** gitg_lanes_reset. */
    method Reset()
      modifies this
      ensures history == old(history) + [ResetLanes]
    {
      history := history + [ResetLanes];
    }

    /** gitg_color_reset, which the repository calls when it is cleared. */
    method ResetColors()
      modifies this
      ensures history == old(history) + [LaneEvent.ResetColors]
    {
      history := history + [LaneEvent.ResetColors];
    }

    /**
     * gitg_lanes_next: the lanes of the revision of `c`, determined by
     * every call before it and this one.
     */
    method Next(c: Commit) returns (lanes: seq<LaneEvent>)
      modifies this
      ensures history == old(history) + [LaneEvent.Next(c)]
      ensures lanes == history
    {
      history := history + [LaneEvent.Next(c)];
      lanes := history;
    }

    /** A write of one of the engine's four settings. */
    method Set(e: LaneEvent)
      requires e.SetInactiveMax? || e.SetInactiveCollapse? || e.SetInactiveGap? || e.SetInactiveEnabled?
      modifies this
      ensures history == old(history) + [e]
    {
      history := history + [e];
    }
  }
}
