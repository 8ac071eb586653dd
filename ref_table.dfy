/**
 * The ref table of the repository: refs grouped by the hash they point at,
 * each group kept in insertion order without duplicates.
 */
module RefTable {
  import opened Revisions

  type Table = map<string, seq<Ref>>

  predicate Distinct<T(==)>(xs: seq<T>) {
    forall i, j :: 0 <= i < j < |xs| ==> xs[i] != xs[j]
  }

  /** Every group is non-empty, holds only refs to its own hash and no ref twice. */
  predicate Wellformed(t: Table) {
    forall h :: h in t ==>
      |t[h]| > 0 && Distinct(t[h]) && forall i :: 0 <= i < |t[h]| ==> t[h][i].hash == h
  }

  /** All refs of the table, regardless of grouping. */
  function RefSet(t: Table): set<Ref> {
    set h, r | h in t && r in t[h] :: r
  }

  /**
   * add_ref: a ref for a hash not yet in the table starts a new group; a ref
   * equal to one already in its hash's group is dropped; any other is added
   * at the end of that group.
   */
  function AddRef(t: Table, hash: string, name: string): (t': Table)
    ensures t'.Keys == t.Keys + {hash}
    ensures forall h :: h in t && h != hash ==> t'[h] == t[h]
    ensures Ref(hash, name) in t'[hash]
    ensures hash in t ==> |t[hash]| <= |t'[hash]| && t'[hash][..|t[hash]|] == t[hash]
  {
    var ref := Ref(hash, name);
    if hash !in t then t[hash := [ref]]
    else if ref in t[hash] then t
    else t[hash := t[hash] + [ref]]
  }

  /** Adding keeps the table well formed and grows a group by one exactly when the ref is new to it. */
  lemma AddRefWellformed(t: Table, hash: string, name: string)
    requires Wellformed(t)
    ensures Wellformed(AddRef(t, hash, name))
    ensures hash in t ==>
      |AddRef(t, hash, name)[hash]| == |t[hash]| + (if Ref(hash, name) in t[hash] then 0 else 1)
  {
    var t' := AddRef(t, hash, name);
    var ref := Ref(hash, name);
    if hash in t && ref !in t[hash] {
      var g := t[hash] + [ref];
      assert t'[hash] == g;
      forall i, j | 0 <= i < j < |g| ensures g[i] != g[j] {
        if j == |g| - 1 {
          assert g[i] == t[hash][i];
        }
      }
    }
  }

  /** Adding the same ref twice leaves what adding it once leaves. */
  lemma AddRefIdempotent(t: Table, hash: string, name: string)
    ensures AddRef(AddRef(t, hash, name), hash, name) == AddRef(t, hash, name)
  {
  }

  /** The table's refs after adding are the old ones plus the added ref. */
  lemma {:induction false} AddRefSet(t: Table, hash: string, name: string)
    ensures RefSet(AddRef(t, hash, name)) == RefSet(t) + {Ref(hash, name)}
  {
    var t' := AddRef(t, hash, name);
    var ref := Ref(hash, name);
    forall r | r in RefSet(t') ensures r in RefSet(t) + {ref} {
      var h :| h in t' && r in t'[h];
      if h != hash {
        assert r in t[h];
      } else if r != ref {
        assert r in t[hash];
      }
    }
    forall r | r in RefSet(t) + {ref} ensures r in RefSet(t') {
      if r == ref {
        assert hash in t' && r in t'[hash];
      } else {
        var h :| h in t && r in t[h];
        if h == hash {
          assert r in t'[hash][..|t[hash]|];
          assert hash in t' && r in t'[hash];
        } else {
          assert h in t' && r in t'[h];
        }
      }
    }
  }

  /** get_refs_for_hash: the group of `hash`, empty when it has none. */
  function RefsForHash(t: Table, hash: string): (rs: seq<Ref>)
    ensures Wellformed(t) ==> forall r :: r in rs <==> r in RefSet(t) && r.hash == hash
    ensures Wellformed(t) ==> Distinct(rs)
  {
    if hash in t then t[hash] else []
  }

  /** The groups of `order` placed one after another. */
  function Flatten(t: Table, order: seq<string>): seq<Ref> {
    if order == [] then []
    else (if order[0] in t then t[order[0]] else []) + Flatten(t, order[1..])
  }

  /** In a well-formed table every ref is filed under its own hash. */
  lemma RefHashesKept(t: Table, order: seq<string>)
    requires Wellformed(t) && forall h :: h in order <==> h in t
    ensures forall r :: r in RefSet(t) ==> r.hash in order
  {
    forall r | r in RefSet(t) ensures r.hash in order {
      var h :| h in t && r in t[h];
      var k :| 0 <= k < |t[h]| && t[h][k] == r;
    }
  }

  lemma {:induction false} FlattenSnoc(t: Table, order: seq<string>, h: string)
    ensures Flatten(t, order + [h]) == Flatten(t, order) + (if h in t then t[h] else [])
  {
    if order != [] {
      assert (order + [h])[1..] == order[1..] + [h];
      FlattenSnoc(t, order[1..], h);
    } else {
      assert Flatten(t, []) == [];
      assert [h][1..] == [];
    }
  }

  /**
   * Listing every group of a well-formed table once, in any order, lists
   * every ref of the table exactly once.
   */
  lemma {:induction false} FlattenAll(t: Table, order: seq<string>)
    requires Wellformed(t) && Distinct(order)
    ensures forall r :: r in Flatten(t, order) <==> r in RefSet(t) && r.hash in order
    ensures Distinct(Flatten(t, order))
  {
    if order != [] {
      DistinctTail(order);
      FlattenAll(t, order[1..]);
      FlattenConsMembers(t, order);
      FlattenConsDistinct(t, order);
    }
  }

  /** The tail of a list without repetitions has none either, and lacks the head. */
  lemma DistinctTail<T>(xs: seq<T>)
    requires xs != [] && Distinct(xs)
    ensures Distinct(xs[1..]) && xs[0] !in xs[1..]
  {
    var rest := xs[1..];
    forall i, j | 0 <= i < j < |rest| ensures rest[i] != rest[j] {
      assert rest[i] == xs[i + 1] && rest[j] == xs[j + 1];
    }
    forall i | 0 <= i < |rest| ensures rest[i] != xs[0] {
      assert rest[i] == xs[i + 1];
    }
  }

  /** The refs listed for a non-empty order: those of its first group, then those of the rest. */
  lemma FlattenConsMembers(t: Table, order: seq<string>)
    requires Wellformed(t) && order != []
    requires forall r :: r in Flatten(t, order[1..]) <==> r in RefSet(t) && r.hash in order[1..]
    ensures forall r :: r in Flatten(t, order) <==> r in RefSet(t) && r.hash in order
  {
    var rest := order[1..];
    var g := if order[0] in t then t[order[0]] else [];
    assert Flatten(t, order) == g + Flatten(t, rest);
    forall r | r in RefSet(t) && r.hash in order ensures r in Flatten(t, order) {
      var h :| h in t && r in t[h];
      if r.hash == order[0] {
        assert r in g;
      } else {
        assert r.hash in rest;
      }
    }
  }

  /** Listing a group whose hash the rest of the order lacks keeps the listing free of repeats. */
  lemma FlattenConsDistinct(t: Table, order: seq<string>)
    requires Wellformed(t) && order != [] && order[0] !in order[1..]
    requires Distinct(Flatten(t, order[1..]))
    requires forall r :: r in Flatten(t, order[1..]) ==> r.hash in order[1..]
    ensures Distinct(Flatten(t, order))
  {
    var rest := Flatten(t, order[1..]);
    var g := if order[0] in t then t[order[0]] else [];
    assert Flatten(t, order) == g + rest;
    forall x, y | x in g && y in rest ensures x != y {
      var k :| 0 <= k < |g| && g[k] == x;
      assert x.hash == order[0];
    }
    DistinctConcat(g, rest);
  }

  /** Two repeat-free sequences with no element in common concatenate to a repeat-free one. */
  lemma DistinctConcat<T>(a: seq<T>, b: seq<T>)
    requires Distinct(a) && Distinct(b)
    requires forall x, y :: x in a && y in b ==> x != y
    ensures Distinct(a + b)
  {
    var f := a + b;
    forall i, j | 0 <= i < j < |f| ensures f[i] != f[j] {
      if j < |a| {
        assert f[i] == a[i] && f[j] == a[j];
      } else if i >= |a| {
        assert f[i] == b[i - |a|] && f[j] == b[j - |a|];
      } else {
        assert f[i] in a && f[j] in b;
      }
    }
  }
}
