/**
 * NULL-terminated variadic string lists. A C variadic list is modelled as
 * the sequence of pointers the callee would read: Some(s) for a string,
 * None for NULL.
 */
module VarArgs {
  import opened Wrappers

  /** The strings before the first NULL, in order. */
  function NullTerminated(ap: seq<Option<string>>): (args: seq<string>)
    ensures |args| <= |ap|
    ensures forall i :: 0 <= i < |args| ==> ap[i] == Some(args[i])
    ensures |args| < |ap| ==> ap[|args|].None?
  {
    if ap == [] || ap[0].None? then [] else [ap[0].value] + NullTerminated(ap[1..])
  }

  /** Any vector of the strings read up to a NULL is the one NullTerminated gives. */
  lemma {:induction false} NullTerminatedUnique(ap: seq<Option<string>>, xs: seq<string>)
    requires |xs| < |ap| && ap[|xs|].None?
    requires forall i :: 0 <= i < |xs| ==> ap[i] == Some(xs[i])
    ensures xs == NullTerminated(ap)
  {
    if xs != [] {
      NullTerminatedUnique(ap[1..], xs[1..]);
    }
  }

  /**
   * parse_valist as written in both gitg/gitg-command.c and
   * gitg/gitg-repository.c: the result array is only allocated once a first
   * string has been read, yet the terminating NULL is stored through it in
   * every case. For an empty list that store goes through a NULL pointer;
   * None stands for that crash.
   */
  method ParseValist(ap: seq<Option<string>>) returns (ret: Option<seq<string>>)
    requires None in ap
    ensures ap[0].None? ==> ret.None?
    ensures ap[0].Some? ==> ret == Some(NullTerminated(ap))
  {
    var collected: Option<seq<string>> := None;
    var num := 0;
    while ap[num].Some?
      invariant 0 <= num < |ap| && None in ap[num..]
      invariant forall j :: 0 <= j < num ==> ap[j].Some?
      invariant num == 0 <==> collected.None?
      invariant collected.Some? ==>
        |collected.value| == num && forall j :: 0 <= j < num ==> ap[j] == Some(collected.value[j])
      decreases |ap| - num
    {
      assert ap[num..] == [ap[num]] + ap[num + 1..];
      collected := Some(collected.GetOr([]) + [ap[num].value]);
      num := num + 1;
    }
    if collected.Some? {
      NullTerminatedUnique(ap, collected.value);
    }
    ret := collected;
  }
  /**
   * parse_valist as evidently intended: the strings up to the NULL, and an
   * empty vector for an empty list. The vector is grown one slot per
   * string as in the original, but exists from the start.
   */
  method CollectValist(ap: seq<Option<string>>) returns (ret: seq<string>)
    requires None in ap
    ensures ret == NullTerminated(ap)
  {
    ret := [];
    var num := 0;
    while ap[num].Some?
      invariant 0 <= num < |ap| && None in ap[num..]
      invariant |ret| == num
      invariant forall j :: 0 <= j < num ==> ap[j] == Some(ret[j])
      decreases |ap| - num
    {
      assert ap[num..] == [ap[num]] + ap[num + 1..];
      ret := ret + [ap[num].value];
      num := num + 1;
    }
    NullTerminatedUnique(ap, ret);
  }
}
