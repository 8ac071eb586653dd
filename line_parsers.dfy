/**
 * The parsers of git's output lines: stash entries and history entries
 * (fields separated by 0x01) and ref listings (fields separated by a space).
 * Each parser cuts its line with g_strsplit, as the C code does; its
 * contract states the result in terms of FieldAt, an independent
 * definition of "the k-th field of a line".
 */
module LineParsers {
  import opened Wrappers
  import opened Revisions
  import opened GLibText
  import GitQueries

  /** The text before the first `sep`, or all of `s` when it has none. */
  function TakeField(s: string, sep: char): (f: string)
    ensures f <= s && sep !in f
    ensures |f| < |s| ==> s[|f|] == sep
  {
    if s == [] || s[0] == sep then [] else [s[0]] + TakeField(s[1..], sep)
  }

  /** The text after the first `sep`; None when `s` has none. */
  function DropField(s: string, sep: char): (r: Option<string>)
    ensures r.None? <==> sep !in s
    ensures r.Some? ==> s == TakeField(s, sep) + [sep] + r.value
  {
    var f := TakeField(s, sep);
    if |f| == |s| then None else Some(s[|f| + 1..])
  }

  /** Field number `k` (from 0) of `s`; None when `s` has fewer than k separators. */
  function FieldAt(s: string, sep: char, k: nat): Option<string>
    decreases k
  {
    var f := TakeField(s, sep);
    if k == 0 then Some(f)
    else if |f| == |s| then None
    else FieldAt(s[|f| + 1..], sep, k - 1)
  }

  /** A separator-free first field is cut off exactly. */
  lemma {:induction false} FieldSplit(x: string, y: string, sep: char)
    requires sep !in x
    ensures TakeField(x + [sep] + y, sep) == x
    ensures DropField(x + [sep] + y, sep) == Some(y)
  {
    if x != [] {
      assert (x + [sep] + y)[1..] == x[1..] + [sep] + y;
      FieldSplit(x[1..], y, sep);
    }
  }

  /** Without a separator the whole text is the only field. */
  lemma {:induction false} FieldWhole(x: string, sep: char)
    requires sep !in x
    ensures TakeField(x, sep) == x
  {
    if x != [] {
      FieldWhole(x[1..], sep);
      assert x == [x[0]] + x[1..];
    }
  }

  /** A separator-free first piece is field 0, and the fields after it are those of the rest. */
  lemma FieldAtCons(x: string, y: string, sep: char, k: nat)
    requires sep !in x
    ensures FieldAt(x + [sep] + y, sep, k) == if k == 0 then Some(x) else FieldAt(y, sep, k - 1)
  {
    FieldSplit(x, y, sep);
    assert (x + [sep] + y)[|x| + 1..] == y;
  }

  /** A separator-free text is field 0 and has no other field. */
  lemma FieldAtSingle(x: string, sep: char, k: nat)
    requires sep !in x
    ensures FieldAt(x, sep, k) == if k == 0 then Some(x) else None
  {
    FieldWhole(x, sep);
  }

  /** No piece holds the separator. */
  predicate SeparatorFree(parts: seq<string>, sep: char) {
    parts == [] || (sep !in parts[0] && SeparatorFree(parts[1..], sep))
  }

  /** The quantified form of separator-freedom gives the recursive one. */
  lemma {:induction false} SeparatorFreeAll(parts: seq<string>, sep: char)
    requires forall i :: 0 <= i < |parts| ==> sep !in parts[i]
    ensures SeparatorFree(parts, sep)
  {
    if parts != [] {
      var rest := parts[1..];
      assert forall i :: 0 <= i < |rest| ==> sep !in rest[i] by {
        forall i | 0 <= i < |rest| ensures sep !in rest[i] {
          assert rest[i] == parts[i + 1];
        }
      }
      SeparatorFreeAll(rest, sep);
    }
  }

  /** The fields of separator-free pieces joined by the separator are those pieces. */
  lemma FieldAtJoin(parts: seq<string>, sep: char, k: nat)
    requires parts != []
    requires forall i :: 0 <= i < |parts| ==> sep !in parts[i]
    ensures FieldAt(Join(parts, sep), sep, k) == if k < |parts| then Some(parts[k]) else None
  {
    SeparatorFreeAll(parts, sep);
    FieldAtJoinFree(parts, sep, k);
  }

  /** FieldAtJoin by induction on the field number. */
  lemma {:induction false} FieldAtJoinFree(parts: seq<string>, sep: char, k: nat)
    requires parts != [] && SeparatorFree(parts, sep)
    ensures FieldAt(Join(parts, sep), sep, k) == if k < |parts| then Some(parts[k]) else None
    decreases k, 1
  {
    if |parts| == 1 {
      FieldAtSingle(parts[0], sep, k);
    } else if k == 0 {
      FieldAtJoinNext(parts, sep, k);
    } else {
      FieldAtJoinStep(parts, sep, k);
    }
  }

  /** The inductive step of FieldAtJoinFree, past the first piece. */
  lemma {:induction false} FieldAtJoinStep(parts: seq<string>, sep: char, k: nat)
    requires |parts| >= 2 && SeparatorFree(parts, sep) && k > 0
    ensures FieldAt(Join(parts, sep), sep, k) == if k < |parts| then Some(parts[k]) else None
    decreases k, 0
  {
    FieldAtJoinNext(parts, sep, k);
    FieldAtJoinFree(parts[1..], sep, k - 1);
    PieceTail(parts, k);
  }

  /** Piece k of a list is piece k - 1 of its tail. */
  lemma PieceTail(parts: seq<string>, k: nat)
    requires |parts| >= 1 && k > 0
    ensures (if k < |parts| then Some(parts[k]) else None) ==
      (if k - 1 < |parts[1..]| then Some(parts[1..][k - 1]) else None)
  {
  }

  /** Past the first piece, the fields are those of the remaining pieces. */
  lemma FieldAtJoinNext(parts: seq<string>, sep: char, k: nat)
    requires |parts| >= 2 && sep !in parts[0]
    ensures FieldAt(Join(parts, sep), sep, k) ==
      if k == 0 then Some(parts[0]) else FieldAt(Join(parts[1..], sep), sep, k - 1)
  {
    JoinCons(parts, sep);
    FieldAtCons(parts[0], Join(parts[1..], sep), sep, k);
  }

  /** Field k of a line is piece k of its unlimited g_strsplit; the empty line has only field 0, empty. */
  lemma FieldOfSplit(line: string, sep: char, k: nat)
    ensures var c := GStrSplit(line, sep, 0);
      FieldAt(line, sep, k) == if line == [] then (if k == 0 then Some([]) else None)
        else if k < |c| then Some(c[k]) else None
  {
    if line == [] {
      FieldAtSingle(line, sep, k);
    } else {
      FieldAtJoin(GStrSplit(line, sep, 0), sep, k);
    }
  }

  /** The field separator of the log formats. */
  const Sep: char := GitQueries.FieldSep

  /**
   * loader_update_stash, one line: "hash 0x01 author 0x01 subject 0x01
   * timestamp"; lines with fewer than four fields are skipped. A stash
   * entry has no parent list and is signed 's'.
   */
  function ParseStashLine(line: string): (r: Option<Commit>)
    ensures r.Some? <==> FieldAt(line, Sep, 3).Some?
    ensures r.Some? ==> r.value == Commit(
      FieldAt(line, Sep, 0).value, FieldAt(line, Sep, 1).value, FieldAt(line, Sep, 2).value,
      None, StrToInt64(FieldAt(line, Sep, 3).value), Some(StashSign))
  {
    var c := GStrSplit(line, Sep, 0);
    FieldOfSplit(line, Sep, 0);
    FieldOfSplit(line, Sep, 1);
    FieldOfSplit(line, Sep, 2);
    FieldOfSplit(line, Sep, 3);
    if |c| < 4 then None
    else Some(Commit(c[0], c[1], c[2], None, StrToInt64(c[3]), Some(StashSign)))
  }

  /** The marks git log --left-right puts in the sixth field. */
  const SideMarks: string := "<>-^"

  /** A sign is taken from a sixth field only when that field is one of the side marks alone. */
  function SideMark(field: Option<string>): (sign: Option<char>)
    ensures sign.Some? ==> sign.value in SideMarks && field == Some([sign.value])
    ensures field.Some? && |field.value| == 1 && field.value[0] in SideMarks ==> sign.Some?
  {
    if field.Some? && |field.value| == 1 && field.value[0] in SideMarks then
      assert field.value == [field.value[0]];
      Some(field.value[0])
    else None
  }

  /**
   * loader_update_commits, one line: "hash 0x01 author 0x01 subject 0x01
   * parents 0x01 timestamp [0x01 mark]"; lines with fewer than five fields
   * are skipped.
   */
  function ParseCommitLine(line: string): (r: Option<Commit>)
    ensures r.Some? <==> FieldAt(line, Sep, 4).Some?
    ensures r.Some? ==> r.value == Commit(
      FieldAt(line, Sep, 0).value, FieldAt(line, Sep, 1).value, FieldAt(line, Sep, 2).value,
      Some(FieldAt(line, Sep, 3).value), StrToInt64(FieldAt(line, Sep, 4).value),
      SideMark(FieldAt(line, Sep, 5)))
  {
    var c := GStrSplit(line, Sep, 0);
    FieldOfSplit(line, Sep, 0);
    FieldOfSplit(line, Sep, 1);
    FieldOfSplit(line, Sep, 2);
    FieldOfSplit(line, Sep, 3);
    FieldOfSplit(line, Sep, 4);
    FieldOfSplit(line, Sep, 5);
    if |c| < 5 then None
    else
      var sign := if |c| > 5 && |c[5]| == 1 && c[5][0] in SideMarks then Some(c[5][0]) else None;
      Some(Commit(c[0], c[1], c[2], Some(c[3]), StrToInt64(c[4]), sign))
  }

  /**
   * The object a ref line names: the peeled object (third field) when it is
   * present and non-empty, else the object itself.
   */
  function RefTarget(rest: string): string {
    match DropField(rest, ' ')
    case Some(peeled) => if peeled != [] then peeled else TakeField(rest, ' ')
    case None => rest
  }

  /**
   * load_refs, one line: "name object [peeled]", cut at no more than two
   * spaces; a line without a space is skipped.
   */
  function ParseRefLine(line: string): (r: Option<Ref>)
    ensures r.Some? <==> ' ' in line
    ensures r.Some? ==> r.value.name == TakeField(line, ' ')
    ensures r.Some? ==> r.value.hash == RefTarget(DropField(line, ' ').value)
  {
    var c := GStrSplit(line, ' ', 3);
    RefLineFields(line);
    if |c| == 2 || |c| == 3 then
      var obj := if |c| == 3 && c[2] != [] then c[2] else c[1];
      Some(Ref(obj, c[0]))
    else None
  }

  lemma RefLineFields(line: string)
    ensures var c := GStrSplit(line, ' ', 3);
      (|c| == 2 || |c| == 3 <==> ' ' in line) &&
      (|c| >= 2 ==>
         (c[0] == TakeField(line, ' ') && DropField(line, ' ').Some? &&
          var rest := DropField(line, ' ').value;
          (|c| == 2 ==> rest == c[1] && ' ' !in c[1]) &&
          (|c| == 3 ==> TakeField(rest, ' ') == c[1] && DropField(rest, ' ') == Some(c[2]))))
  {
    var c := GStrSplit(line, ' ', 3);
    CountBound(line, ' ');
    if |c| >= 2 {
      JoinCons(c, ' ');
      FieldSplit(c[0], Join(c[1..], ' '), ' ');
      if |c| == 3 {
        JoinCons(c[1..], ' ');
        assert c[1..][1..] == [c[2]];
        FieldSplit(c[1], c[2], ' ');
      }
    }
  }
}
