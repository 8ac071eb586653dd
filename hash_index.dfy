/**
 * The hash-to-position index of the revision store: adding a revision maps
 * its hash to the position it was stored at, replacing an older mapping.
 */
module HashIndex {

  /** The index after storing revisions with hashes `hs` one by one from position 0. */
  function IndexOf(hs: seq<string>): map<string, nat> {
    if hs == [] then map[]
    else IndexOf(hs[..|hs| - 1])[hs[|hs| - 1] := |hs| - 1]
  }

  /** Storing one more revision overwrites the entry for its hash only. */
  lemma IndexOfAppend(hs: seq<string>, h: string)
    ensures IndexOf(hs + [h]) == IndexOf(hs)[h := |hs|]
  {
    assert (hs + [h])[..|hs|] == hs;
  }

  /**
   * A hash is indexed exactly when some stored revision has it, and the
   * index holds the newest position with that hash.
   */
  lemma {:induction false} IndexOfNewest(hs: seq<string>, h: string)
    ensures h in IndexOf(hs) <==> h in hs
    ensures h in IndexOf(hs) ==>
      var p := IndexOf(hs)[h];
      p < |hs| && hs[p] == h && forall j :: p < j < |hs| ==> hs[j] != h
  {
    if hs != [] {
      var init := hs[..|hs| - 1];
      IndexOfNewest(init, h);
      assert hs == init + [hs[|hs| - 1]];
    }
  }
}
