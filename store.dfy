/**
 * The revision store of the repository: a storage array of revisions that
 * grows in fixed steps, the number of revisions in it, and the index from
 * hash to position; and the list model the history view reads from it.
 */
module RevisionStore {
  import opened Wrappers
  import opened Revisions
  import opened HashIndex

  /** The number of slots the storage grows by (grow_size). */
  const GrowSize: nat := 1000

  /** The placeholder in storage slots beyond the stored revisions. */
  const Vacant: Revision := Revision(Commit("", "", "", None, 0, None), [])

  /** A value of one of the four columns of the list model. */
  datatype ColumnValue =
    | ObjectValue(revision: Revision)
    | SubjectValue(subject: string)
    | AuthorValue(author: string)
    | DateValue(timestamp: int)

  const ObjectColumn: int := 0
  const SubjectColumn: int := 1
  const AuthorColumn: int := 2
  const DateColumn: int := 3
  const NColumns: int := 4

  function Reversed<T>(xs: seq<T>): (r: seq<T>)
    ensures |r| == |xs|
    ensures forall i :: 0 <= i < |xs| ==> r[i] == xs[|xs| - 1 - i]
  {
    if xs == [] then [] else [xs[|xs| - 1]] + Reversed(xs[..|xs| - 1])
  }

  /** The countdown loop of do_clear: the revisions in the order they are released. */
  method ReleaseAll(revs: seq<Revision>) returns (released: seq<Revision>)
    ensures released == Reversed(revs)
  {
    released := [];
    var i: int := |revs| - 1;
    while i >= 0
      invariant -1 <= i < |revs|
      invariant |released| == |revs| - 1 - i
      invariant forall k :: 0 <= k < |released| ==> released[k] == revs[|revs| - 1 - k]
    {
      released := released + [revs[i]];
      i := i - 1;
    }
  }

  lemma HashesOfSnoc(revs: seq<Revision>, r: Revision)
    ensures HashesOf(revs + [r]) == HashesOf(revs) + [r.commit.hash]
  {
    assert (revs + [r])[..|revs|] == revs;
  }

  /** Giving a stored revision new lanes leaves every hash where it was. */
  lemma HashesOfRelaned(revs: seq<Revision>, i: nat, lanes: seq<LaneEvent>)
    requires i < |revs|
    ensures HashesOf(revs[i := Revision(revs[i].commit, lanes)]) == HashesOf(revs)
    ensures CommitsOf(revs[i := Revision(revs[i].commit, lanes)]) == CommitsOf(revs)
  {
  }

  lemma MultipleStep(a: nat)
    requires a % GrowSize == 0
    ensures (a + GrowSize) % GrowSize == 0
  {
  }

  class Store {
    var storage: array<Revision>
    var size: nat
    /** The number of slots allocated. */
    var capacity: nat
    var hashtable: map<string, nat>

    /**
     * The store invariant: the storage holds `capacity` slots, a multiple
     * of the growth step, of which the first `size` hold the revisions;
     * the index maps every stored hash to its newest position.
     */
    ghost predicate Valid()
      reads this, storage
    {
      storage.Length == capacity && size <= capacity && capacity % GrowSize == 0 &&
      hashtable == IndexOf(HashesOf(storage[..size]))
    }

    /** The stored revisions, in store order. */
    ghost function Contents(): seq<Revision>
      reads this, storage
      requires size <= storage.Length
    {
      storage[..size]
    }

    constructor ()
      ensures Valid() && size == 0 && capacity == 0 && hashtable == map[]
      ensures fresh(storage)
    {
      storage := new Revision[0];
      size := 0;
      capacity := 0;
      hashtable := map[];
    }

    /**
     * grow_storage: when `n` more revisions do not fit, the storage is
     * replaced by one GrowSize slots larger holding the same revisions.
     */
    method GrowStorage(n: nat)
      requires Valid()
      modifies this
      ensures Valid()
      ensures size == old(size) && Contents() == old(Contents()) && hashtable == old(hashtable)
      ensures capacity == if old(size) + n <= old(capacity) then old(capacity) else old(capacity) + GrowSize
      ensures n <= GrowSize ==> size + n <= capacity
      ensures storage == old(storage) || fresh(storage)
    {
      if size + n <= capacity {
        return;
      }
      var current := storage;
      var newStorage := new Revision[capacity + GrowSize](_ => Vacant);
      var i := 0;
      while i < size
        invariant 0 <= i <= size <= current.Length < newStorage.Length
        invariant forall j :: 0 <= j < i ==> newStorage[j] == current[j]
        invariant unchanged(this) && unchanged(current)
      {
        newStorage[i] := current[i];
        i := i + 1;
      }
      assert newStorage[..size] == current[..size];
      MultipleStep(capacity);
      storage := newStorage;
      capacity := capacity + GrowSize;
    }

    /**
     * gitg_repository_add: the revision goes in at position `size`, which
     * grows by one; earlier positions keep their revisions; the index maps
     * the revision's hash to its new position.
     */
    method Add(rv: Revision)
      requires Valid()
      modifies this, storage
      ensures Valid()
      ensures size == old(size) + 1 && Contents() == old(Contents()) + [rv]
      ensures hashtable == old(hashtable)[rv.commit.hash := old(size)]
      ensures capacity >= old(capacity)
      ensures storage == old(storage) || fresh(storage)
    {
      GrowStorage(1);
      Place(rv);
    }

    /** Stores `rv` in the first free slot and indexes it there. */
    method Place(rv: Revision)
      requires Valid() && size < capacity
      modifies this, storage
      ensures Valid()
      ensures size == old(size) + 1 && Contents() == old(Contents()) + [rv]
      ensures hashtable == old(hashtable)[rv.commit.hash := old(size)]
      ensures storage == old(storage) && capacity == old(capacity)
    {
      ghost var before := storage[..size];
      HashesOfSnoc(before, rv);
      IndexOfAppend(HashesOf(before), rv.commit.hash);
      storage[size] := rv;
      assert storage[..size + 1] == before + [rv];
      hashtable := hashtable[rv.commit.hash := size];
      size := size + 1;
    }

    /**
     * The storage part of do_clear: the revisions are released from the
     * last position down to the first (`released` lists them in that
     * order), then the storage and the index are dropped.
     */
    method Clear() returns (released: seq<Revision>)
      requires Valid()
      modifies this
      ensures Valid()
      ensures released == Reversed(old(Contents()))
      ensures size == 0 && capacity == 0 && storage.Length == 0 && hashtable == map[]
    {
      released := ReleaseAll(storage[..size]);
      storage := new Revision[0];
      size := 0;
      capacity := 0;
      hashtable := map[];
    }

    /** gitg_revision_set_lanes on the revision at position `i`. */
    method SetLanes(i: nat, lanes: seq<LaneEvent>)
      requires Valid() && i < size
      modifies storage
      ensures Valid()
      ensures Contents() == old(Contents())[i := Revision(old(storage[i]).commit, lanes)]
    {
      ghost var before := storage[..size];
      HashesOfRelaned(before, i, lanes);
      storage[i] := Revision(storage[i].commit, lanes);
      assert storage[..size] == before[i := Revision(before[i].commit, lanes)];
    }

    /** Position `i` holds `hash` and no later position does. */
    ghost predicate NewestAt(i: nat, hash: string)
      reads this, storage
    {
      i < size <= storage.Length && storage[i].commit.hash == hash &&
      forall j :: i < j < size ==> storage[j].commit.hash != hash
    }

    /** What the index says about `hash`: present exactly when stored, at its newest position. */
    lemma IndexFacts(hash: string)
      requires Valid()
      ensures hash in hashtable <==> exists i :: 0 <= i < size && storage[i].commit.hash == hash
      ensures hash in hashtable ==> NewestAt(hashtable[hash], hash)
    {
      var revs := storage[..size];
      var hs := HashesOf(revs);
      IndexOfNewest(hs, hash);
      assert forall i :: 0 <= i < size ==> hs[i] == revs[i].commit.hash == storage[i].commit.hash;
    }

    /**
     * gitg_repository_find_by_hash as written: positions are stored in the
     * index as pointers and a NULL pointer means "absent", so a hash whose
     * newest position is 0 is not found. Otherwise the newest position
     * holding the hash.
     */
    function FindByHash(hash: string): (r: Option<nat>)
      reads this, storage
      requires Valid()
      ensures r.Some? <==> exists i :: 0 < i < size && storage[i].commit.hash == hash
      ensures r.Some? ==> 0 < r.value && NewestAt(r.value, hash)
    {
      IndexFacts(hash);
      if hash in hashtable && hashtable[hash] != 0 then Some(hashtable[hash]) else None
    }

    /** gitg_repository_lookup: the revision at the position find_by_hash gives, with the same blind spot. */
    function Lookup(hash: string): (r: Option<Revision>)
      reads this, storage
      requires Valid()
      ensures r.Some? <==> exists i :: 0 < i < size && storage[i].commit.hash == hash
      ensures r.Some? ==> r.value.commit.hash == hash
      ensures r.Some? ==> exists i :: 0 < i < size && storage[i] == r.value && NewestAt(i, hash)
    {
      var p := FindByHash(hash);
      if p.Some? then Some(storage[p.value]) else None
    }

    /** The lookup the index was meant to give: every stored hash is found at its newest position. */
    function LookupIntended(hash: string): (r: Option<Revision>)
      reads this, storage
      requires Valid()
      ensures r.Some? <==> exists i :: 0 <= i < size && storage[i].commit.hash == hash
      ensures r.Some? ==> r.value.commit.hash == hash
      ensures r.Some? ==> exists i :: 0 <= i < size && storage[i] == r.value && NewestAt(i, hash)
    {
      IndexFacts(hash);
      if hash in hashtable then Some(storage[hashtable[hash]]) else None
    }

    /** A revision stored only at position 0 is there, yet the lookup does not find it. */
    lemma FirstPositionMissed(hash: string)
      requires Valid() && size >= 1 && storage[0].commit.hash == hash
      requires forall j :: 0 < j < size ==> storage[j].commit.hash != hash
      ensures Lookup(hash).None? && FindByHash(hash).None?
      ensures LookupIntended(hash) == Some(storage[0])
    {
    }

    /** tree_model_get_iter: the row at `index`, when it is inside the store. */
    function GetIter(index: int): (r: Option<nat>)
      reads this
      ensures r.Some? <==> 0 <= index < size
      ensures r.Some? ==> r.value == index
    {
      if index < 0 || index >= size then None else Some(index)
    }

    /** tree_model_iter_next: the row after `index`, when there is one. */
    function IterNext(index: nat): (r: Option<nat>)
      reads this
      ensures r.Some? <==> index + 1 < size
      ensures r.Some? ==> r.value == index + 1
    {
      if index + 1 >= size then None else Some(index + 1)
    }

    /**
     * tree_model_iter_children as written: the flat list's only parent is
     * the root, whose first child is reported at row 0 even when the store
     * is empty.
     */
    function IterChildren(parent: Option<nat>): (r: Option<nat>)
      ensures r.Some? <==> parent.None?
      ensures r.Some? ==> r.value == 0
    {
      if parent.Some? then None else Some(0)
    }

    /** The first child as the list-model interface defines it: none when the store is empty. */
    function IterChildrenIntended(parent: Option<nat>): (r: Option<nat>)
      reads this
      ensures r.Some? <==> parent.None? && size > 0
      ensures r.Some? ==> r.value == 0
    {
      if parent.Some? || size == 0 then None else Some(0)
    }

    /** On an empty store the reported first child is a row that get_iter itself rejects. */
    lemma EmptyStoreChild()
      requires size == 0
      ensures IterChildren(None) == Some(0) && GetIter(0).None?
      ensures IterChildrenIntended(None).None?
    {
    }

    /** tree_model_iter_has_child: only the root has children. */
    function IterHasChild(iter: Option<nat>): (b: bool)
      ensures b <==> iter.None?
    {
      iter.None?
    }

    /** tree_model_iter_n_children: the root has `size` children, a row none. */
    function IterNChildren(iter: Option<nat>): (n: nat)
      reads this
      ensures iter.Some? ==> n == 0
      ensures iter.None? ==> n == size
    {
      if iter.Some? then 0 else size
    }

    /** tree_model_iter_nth_child: row `n` of the root, when it is inside the store. */
    function IterNthChild(parent: Option<nat>, n: int): (r: Option<nat>)
      reads this
      ensures r.Some? <==> parent.None? && 0 <= n < size
      ensures r.Some? ==> r.value == n
    {
      if n < 0 || parent.Some? || n >= size then None else Some(n)
    }

    /** Following iter_next `k` times from `start`. */
    function Steps(start: Option<nat>, k: nat): Option<nat>
      reads this
      decreases k
    {
      if start.None? then None
      else if k == 0 then start
      else Steps(IterNext(start.value), k - 1)
    }

    /**
     * Navigating the list: the root's n-th child, the row at n, and the
     * row reached from the root's first child by n steps of iter_next are
     * all row n, for every row of the store, and nothing lies beyond the last.
     */
    lemma Navigation(n: nat)
      requires n < size
      ensures IterNthChild(None, n) == GetIter(n) == Some(n)
      ensures Steps(IterChildren(None), n) == Some(n)
      ensures IterNext(size - 1).None? && IterNChildren(None) == size
    {
      StepsFrom(0, n);
    }

    lemma {:induction false} StepsFrom(a: nat, k: nat)
      requires a + k < size
      ensures Steps(Some(a), k) == Some(a + k)
      decreases k
    {
      if k > 0 {
        StepsFrom(a + 1, k - 1);
      }
    }

    /**
     * tree_model_get_value: the column value of row `index` (the date
     * column as the raw timestamp); nothing for a row or column out of range.
     */
    function GetValue(index: int, column: int): (v: Option<ColumnValue>)
      reads this, storage
      requires Valid()
      ensures v.Some? <==> 0 <= index < size && 0 <= column < NColumns
      ensures v.Some? && column == ObjectColumn ==> v.value == ObjectValue(storage[index])
      ensures v.Some? && column == SubjectColumn ==> v.value == SubjectValue(storage[index].commit.subject)
      ensures v.Some? && column == AuthorColumn ==> v.value == AuthorValue(storage[index].commit.author)
      ensures v.Some? && column == DateColumn ==> v.value == DateValue(storage[index].commit.timestamp)
    {
      if column < 0 || column >= NColumns || index < 0 || index >= size then None
      else
        var rv := storage[index];
        if column == ObjectColumn then Some(ObjectValue(rv))
        else if column == SubjectColumn then Some(SubjectValue(rv.commit.subject))
        else if column == AuthorColumn then Some(AuthorValue(rv.commit.author))
        else Some(DateValue(rv.commit.timestamp))
    }
  }
}
