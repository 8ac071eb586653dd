/**
 * The non-widget logic of the revision view: the changed-file records of a
 * commit and how they are matched against the diff's file headers, and the
 * way the output of `git show --pretty=full` is sorted into the log text
 * (message lines, kept and tagged) and the author and committer buttons
 * (header lines). The text buffer is modelled as the sequence of
 * insertions made into it.
 */
module RevisionView {
  import opened Wrappers
  import GLibText
  import GitgAuthor

  /** HASH_SHA_SIZE: the length of a hexadecimal SHA-1. */
  const HashShaSize: nat := 40

  /** strncpy into a buffer of HASH_SHA_SIZE + 1 characters whose last one is then cleared. */
  function TruncateIndex(s: string): (r: string)
    ensures r <= s
    ensures |r| == GLibText.Min(|s|, HashShaSize)
  {
    if |s| <= HashShaSize then s else s[..HashShaSize]
  }

  datatype DiffFileStatus = StatusNone | StatusNew | StatusModified | StatusDeleted

  /** The status a diff_file_new status string gives: its first character decides. */
  function StatusOf(status: string): (st: DiffFileStatus)
    ensures st != StatusNone
    ensures st == StatusNew <==> status != [] && status[0] == 'A'
    ensures st == StatusDeleted <==> status != [] && status[0] == 'D'
    ensures st == StatusModified <==> status == [] || (status[0] != 'A' && status[0] != 'D')
  {
    if status != [] && status[0] == 'A' then StatusNew
    else if status != [] && status[0] == 'D' then StatusDeleted
    else StatusModified
  }

  /** A position in the diff view. The diff view is not part of this model: an iter is a handle. */
  datatype DiffIter = DiffIter(id: nat)

  /** A file header of the diff: its iter and the two indices gitg_diff_iter_get_index reports, if any. */
  datatype CachedHeader = CachedHeader(iter: DiffIter, index: Option<(string, string)>)

  /**
   * match_indices: the header's `from` abbreviates the file's source index,
   * and its `to` abbreviates the target index or the target index is the
   * null hash.
   */
  function MatchIndices(indexFrom: string, indexTo: string, from: string, to: string): (r: bool)
    ensures r <==> (|from| <= |indexFrom| && indexFrom[..|from|] == from &&
      ((|to| <= |indexTo| && indexTo[..|to|] == to) || (7 <= |indexTo| && indexTo[..7] == "0000000")))
  {
    from <= indexFrom && (to <= indexTo || "0000000" <= indexTo)
  }

  predicate HeaderMatches(h: CachedHeader, indexFrom: string, indexTo: string) {
    h.index.Some? && MatchIndices(indexFrom, indexTo, h.index.value.0, h.index.value.1)
  }

  /** The position of the first header that matches the indices, if any. */
  function FirstMatch(headers: seq<CachedHeader>, indexFrom: string, indexTo: string): (k: Option<nat>)
    ensures k.Some? ==> k.value < |headers| && HeaderMatches(headers[k.value], indexFrom, indexTo)
    ensures k.Some? ==> forall j :: 0 <= j < k.value ==> !HeaderMatches(headers[j], indexFrom, indexTo)
    ensures k.None? ==> forall j :: 0 <= j < |headers| ==> !HeaderMatches(headers[j], indexFrom, indexTo)
  {
    if headers == [] then None
    else if HeaderMatches(headers[0], indexFrom, indexTo) then Some(0)
    else
      match FirstMatch(headers[1..], indexFrom, indexTo)
      case None => None
      case Some(k) => Some(k + 1)
  }

  /** Abbreviations of a file's full indices, no longer than a SHA-1, match the file's record. */
  lemma AbbreviationsMatch(fullFrom: string, fullTo: string, from: string, to: string)
    requires from <= fullFrom && |from| <= HashShaSize
    requires to <= fullTo && |to| <= HashShaSize
    ensures MatchIndices(TruncateIndex(fullFrom), TruncateIndex(fullTo), from, to)
  {
    assert from == fullFrom[..|from|];
    assert to == fullTo[..|to|];
  }

  /** A file whose target index is the null hash matches any target abbreviation. */
  lemma NullTargetMatches(fullFrom: string, fullTo: string, from: string, to: string)
    requires from <= fullFrom && |from| <= HashShaSize && "0000000" <= fullTo
    ensures MatchIndices(TruncateIndex(fullFrom), TruncateIndex(fullTo), from, to)
  {
    assert from == fullFrom[..|from|];
    assert "0000000" == fullTo[..7];
  }

  /** One changed file of the commit, shared by reference count. */
  class DiffFile {
    var refcount: int
    var freed: bool
    const indexFrom: string
    const indexTo: string
    const status: DiffFileStatus
    const filename: Option<string>
    var visible: bool
    var iter: Option<DiffIter>

    /** The count is never negative and the record is freed exactly when it reaches zero. */
    ghost predicate Valid()
      reads this
    {
      refcount >= 0 && (freed <==> refcount == 0)
    }

    /** diff_file_new: one reference, not visible, the indices cut to a SHA-1's length. */
    constructor (from: string, to: string, st: string, filename: Option<string>)
      ensures Valid() && !freed && refcount == 1
      ensures !visible && iter.None?
      ensures indexFrom == TruncateIndex(from) && indexTo == TruncateIndex(to)
      ensures status == StatusOf(st) && this.filename == filename
    {
      indexFrom := TruncateIndex(from);
      indexTo := TruncateIndex(to);
      visible := false;
      iter := None;
      status := StatusOf(st);
      this.filename := filename;
      refcount := 1;
      freed := false;
    }

    /** diff_file_copy: one more reference to the same record. */
    method Copy() returns (f: DiffFile)
      requires Valid() && !freed
      modifies this`refcount
      ensures f == this && Valid() && !freed
      ensures refcount == old(refcount) + 1
    {
      refcount := refcount + 1;
      f := this;
    }

    /** diff_file_unref: one reference fewer; the last one frees the record. */
    method Unref()
      requires Valid() && !freed
      modifies this`refcount, this`freed
      ensures Valid() && refcount == old(refcount) - 1
      ensures freed <==> old(refcount) == 1
    {
      refcount := refcount - 1;
      if refcount == 0 {
        freed := true;
      }
    }

    /**
     * visible_from_cached_headers: the first header whose indices match
     * makes the file visible at that header's iter; with no match nothing
     * changes.
     */
    method VisibleFromCachedHeaders(headers: seq<CachedHeader>)
      modifies this`visible, this`iter
      ensures FirstMatch(headers, indexFrom, indexTo).None? ==> visible == old(visible) && iter == old(iter)
      ensures FirstMatch(headers, indexFrom, indexTo).Some? ==>
        visible && iter == Some(headers[FirstMatch(headers, indexFrom, indexTo).value].iter)
    {
      var i := 0;
      while i < |headers|
        invariant 0 <= i <= |headers|
        invariant forall j :: 0 <= j < i ==> !HeaderMatches(headers[j], indexFrom, indexTo)
        invariant visible == old(visible) && iter == old(iter)
      {
        var header := headers[i];
        if header.index.Some? && MatchIndices(indexFrom, indexTo, header.index.value.0, header.index.value.1) {
          visible := true;
          iter := Some(header.iter);
          return;
        }
        i := i + 1;
      }
    }
  }

  datatype Tag = Plain | Title | Signed

  /** One gtk_text_buffer_insert: the text and the tag it carries. */
  datatype Insertion = Insertion(text: string, tag: Tag)

  const Newline: Insertion := Insertion("\n", Plain)
  const AuthorKey: string := "Author: "
  const CommitterKey: string := "Commit: "
  const SignedOffByKey: string := "Signed-off-by: "

  /** The characters of the buffer the insertions make. */
  function Chars(text: seq<Insertion>): string {
    if text == [] then [] else Chars(text[..|text| - 1]) + text[|text| - 1].text
  }

  /**
   * What of one output line goes into the buffer: a blank line, unless the
   * buffer is still empty; a line starting with a space, without its
   * leading white space; nothing for any other line.
   */
  function KeptText(line: string, atStart: bool): (r: Option<string>)
    ensures r.None? <==> (line == [] && atStart) || (line != [] && line[0] != ' ')
    ensures r.Some? ==> var k := |line| - |r.value|;
      0 <= k && r.value == line[k..] && forall i :: 0 <= i < k ==> GLibText.IsAsciiSpace(line[i])
    ensures r.Some? ==> r.value == [] || !GLibText.IsAsciiSpace(r.value[0])
  {
    if line == [] then (if atStart then None else Some([]))
    else if line[0] == ' ' then Some(GLibText.Chug(line))
    else None
  }

  /** The tag of a kept line: the first of a batch is the title, later sign-offs are marked. */
  function TagFor(first: bool, text: string): (r: Tag)
    ensures r == Title <==> first
    ensures r == Signed <==> !first && SignedOffByKey <= text
  {
    if first then Title else if SignedOffByKey <= text then Signed else Plain
  }

  /** The insertions for one line. */
  function LineInsertions(line: string, atStart: bool, first: bool): seq<Insertion> {
    match KeptText(line, atStart)
    case None => []
    case Some(t) => [Insertion(t, TagFor(first, t)), Newline]
  }

  /**
   * The insertions on_log_update makes for a batch of lines: `atStart` when
   * the buffer is empty, `first` while no line of the batch was kept.
   */
  function LogInsertions(lines: seq<string>, atStart: bool, first: bool): seq<Insertion> {
    if lines == [] then []
    else
      var kept := KeptText(lines[0], atStart).Some?;
      LineInsertions(lines[0], atStart, first) + LogInsertions(lines[1..], atStart && !kept, first && !kept)
  }

  /** The texts of the kept lines, in order. */
  function KeptLines(lines: seq<string>, atStart: bool): seq<string> {
    if lines == [] then []
    else
      match KeptText(lines[0], atStart)
      case None => KeptLines(lines[1..], atStart)
      case Some(t) => [t] + KeptLines(lines[1..], false)
  }

  /** The message lines of the output: blank, or starting with a space. */
  function MessageLines(lines: seq<string>): seq<string> {
    if lines == [] then []
    else if lines[0] == [] || lines[0][0] == ' ' then [lines[0]] + MessageLines(lines[1..])
    else MessageLines(lines[1..])
  }

  function DropLeadingBlanks(lines: seq<string>): seq<string> {
    if lines != [] && lines[0] == [] then DropLeadingBlanks(lines[1..]) else lines
  }

  function ChugAll(lines: seq<string>): seq<string> {
    if lines == [] then [] else [GLibText.Chug(lines[0])] + ChugAll(lines[1..])
  }

  /**
   * The kept lines are the message lines without leading white space, less
   * the blank ones that come before any text when the buffer starts empty;
   * no header line is ever kept.
   */
  lemma {:induction false} KeptLinesAreMessage(lines: seq<string>, atStart: bool)
    ensures KeptLines(lines, atStart) ==
      ChugAll(if atStart then DropLeadingBlanks(MessageLines(lines)) else MessageLines(lines))
  {
    if lines != [] {
      var l, rest := lines[0], lines[1..];
      if l != [] && l[0] != ' ' {
        assert KeptLines(lines, atStart) == KeptLines(rest, atStart);
        assert MessageLines(lines) == MessageLines(rest);
        KeptLinesAreMessage(rest, atStart);
      } else {
        assert MessageLines(lines) == [l] + MessageLines(rest);
        if l == [] && atStart {
          assert KeptLines(lines, atStart) == KeptLines(rest, atStart);
          assert DropLeadingBlanks(MessageLines(lines)) == DropLeadingBlanks(MessageLines(rest));
          KeptLinesAreMessage(rest, atStart);
        } else {
          var t := GLibText.Chug(l);
          assert KeptText(l, atStart) == Some(t);
          assert KeptLines(lines, atStart) == [t] + KeptLines(rest, false);
          assert atStart ==> DropLeadingBlanks(MessageLines(lines)) == MessageLines(lines);
          assert ChugAll([l] + MessageLines(rest)) == [t] + ChugAll(MessageLines(rest));
          KeptLinesAreMessage(rest, false);
        }
      }
    }
  }

  /**
   * Each kept line is inserted followed by a newline; the first one of the
   * batch carries the title tag, and later ones the signed tag exactly when
   * they start with "Signed-off-by: ".
   */
  lemma {:induction false} LogInsertionsOfKept(lines: seq<string>, atStart: bool, first: bool)
    ensures var ins := LogInsertions(lines, atStart, first);
      var kept := KeptLines(lines, atStart);
      |ins| == 2 * |kept| &&
      (forall i :: 0 <= i < |kept| ==> ins[2 * i] == Insertion(kept[i], TagFor(first && i == 0, kept[i]))) &&
      (forall i :: 0 <= i < |kept| ==> ins[2 * i + 1] == Newline)
  {
    if lines != [] {
      var h, rest := lines[0], lines[1..];
      var kt := KeptText(h, atStart);
      var ins := LogInsertions(lines, atStart, first);
      if kt.None? {
        LogInsertionsOfKept(rest, atStart, first);
        assert ins == LogInsertions(rest, atStart, first);
        assert KeptLines(lines, atStart) == KeptLines(rest, atStart);
      } else {
        var t := kt.value;
        LogInsertionsOfKept(rest, false, false);
        var more := LogInsertions(rest, false, false);
        var ks := KeptLines(rest, false);
        assert ins == [Insertion(t, TagFor(first, t)), Newline] + more;
        assert KeptLines(lines, atStart) == [t] + ks;
        ConsInsertions(t, first, more, ks);
      }
    }
  }

  /** A kept line in front of the insertions of later ones, which carry no title. */
  lemma ConsInsertions(t: string, first: bool, more: seq<Insertion>, ks: seq<string>)
    requires |more| == 2 * |ks|
    requires forall i :: 0 <= i < |ks| ==> more[2 * i] == Insertion(ks[i], TagFor(false, ks[i]))
    requires forall i :: 0 <= i < |ks| ==> more[2 * i + 1] == Newline
    ensures var ins := [Insertion(t, TagFor(first, t)), Newline] + more;
      var kept := [t] + ks;
      |ins| == 2 * |kept| &&
      (forall i :: 0 <= i < |kept| ==> ins[2 * i] == Insertion(kept[i], TagFor(first && i == 0, kept[i]))) &&
      (forall i :: 0 <= i < |kept| ==> ins[2 * i + 1] == Newline)
  {
    var ins := [Insertion(t, TagFor(first, t)), Newline] + more;
    var kept := [t] + ks;
    forall i | 0 <= i < |kept|
      ensures ins[2 * i] == Insertion(kept[i], TagFor(first && i == 0, kept[i]))
      ensures ins[2 * i + 1] == Newline
    {
      if i > 0 {
        assert ins[2 * i] == more[2 * (i - 1)];
        assert ins[2 * i + 1] == more[2 * (i - 1) + 1];
        assert kept[i] == ks[i - 1];
      }
    }
  }

  /** Whether no line of `lines` is kept. */
  predicate NoneKept(lines: seq<string>, atStart: bool) {
    KeptLines(lines, atStart) == []
  }

  /** A non-empty batch keeps nothing iff its first line is dropped and so is the rest. */
  lemma NoneKeptCons(a: seq<string>, atStart: bool)
    requires a != []
    ensures NoneKept(a, atStart) == (KeptText(a[0], atStart).None? && NoneKept(a[1..], atStart))
  {
  }

  /** The kept lines of a batch one line longer: those of the shorter batch, then the last line's. */
  lemma {:induction false} KeptLinesSnoc(a: seq<string>, l: string, atStart: bool)
    ensures KeptLines(a + [l], atStart) ==
      KeptLines(a, atStart) +
      (match KeptText(l, atStart && NoneKept(a, atStart)) case None => [] case Some(t) => [t])
  {
    if a == [] {
      assert [] + [l] == [l];
    } else {
      KeptLinesSnoc(a[1..], l, atStart && KeptText(a[0], atStart).None?);
      KeptLinesSnocCons(a, l, atStart);
    }
  }

  /** The step of KeptLinesSnoc: the property for a non-empty batch from that for its tail. */
  lemma KeptLinesSnocCons(a: seq<string>, l: string, atStart: bool)
    requires a != []
    requires var s' := atStart && KeptText(a[0], atStart).None?;
      KeptLines(a[1..] + [l], s') ==
      KeptLines(a[1..], s') +
      (match KeptText(l, s' && NoneKept(a[1..], s')) case None => [] case Some(t) => [t])
    ensures KeptLines(a + [l], atStart) ==
      KeptLines(a, atStart) +
      (match KeptText(l, atStart && NoneKept(a, atStart)) case None => [] case Some(t) => [t])
  {
    KeptLinesCons(a, l, atStart);
    NoneKeptCons(a, atStart);
    var kt := KeptText(a[0], atStart);
    var s' := atStart && kt.None?;
    var last := match KeptText(l, atStart && NoneKept(a, atStart)) case None => [] case Some(t) => [t];
    assert last == match KeptText(l, s' && NoneKept(a[1..], s')) case None => [] case Some(t) => [t];
    if kt.Some? {
      AppendAssoc([kt.value], KeptLines(a[1..], false), last);
    }
  }

  /** The kept lines of a non-empty batch with a line appended, unfolded at its first line. */
  lemma KeptLinesCons(a: seq<string>, l: string, atStart: bool)
    requires a != []
    ensures KeptLines(a + [l], atStart) == match KeptText(a[0], atStart)
      case None => KeptLines(a[1..] + [l], atStart)
      case Some(t) => [t] + KeptLines(a[1..] + [l], false)
  {
    assert (a + [l])[0] == a[0];
    assert (a + [l])[1..] == a[1..] + [l];
  }

  /** The insertions of a non-empty batch with a line appended, unfolded at its first line. */
  lemma LogInsertionsCons(a: seq<string>, l: string, atStart: bool, first: bool)
    requires a != []
    ensures var kept := KeptText(a[0], atStart).Some?;
      LogInsertions(a + [l], atStart, first) ==
      LineInsertions(a[0], atStart, first) + LogInsertions(a[1..] + [l], atStart && !kept, first && !kept)
  {
    assert (a + [l])[0] == a[0];
    assert (a + [l])[1..] == a[1..] + [l];
  }

  /** The insertions of a batch one line longer: those of the shorter batch, then the last line's. */
  lemma {:induction false} LogInsertionsSnoc(a: seq<string>, l: string, atStart: bool, first: bool)
    ensures LogInsertions(a + [l], atStart, first) ==
      LogInsertions(a, atStart, first) +
      LineInsertions(l, atStart && NoneKept(a, atStart), first && NoneKept(a, atStart))
  {
    if a == [] {
      assert [] + [l] == [l];
    } else {
      var kept := KeptText(a[0], atStart).Some?;
      LogInsertionsSnoc(a[1..], l, atStart && !kept, first && !kept);
      LogInsertionsSnocCons(a, l, atStart, first);
    }
  }

  /** The step of LogInsertionsSnoc: the property for a non-empty batch from that for its tail. */
  lemma LogInsertionsSnocCons(a: seq<string>, l: string, atStart: bool, first: bool)
    requires a != []
    requires var kept := KeptText(a[0], atStart).Some?; var s', f' := atStart && !kept, first && !kept;
      LogInsertions(a[1..] + [l], s', f') ==
      LogInsertions(a[1..], s', f') + LineInsertions(l, s' && NoneKept(a[1..], s'), f' && NoneKept(a[1..], s'))
    ensures LogInsertions(a + [l], atStart, first) ==
      LogInsertions(a, atStart, first) +
      LineInsertions(l, atStart && NoneKept(a, atStart), first && NoneKept(a, atStart))
  {
    var kept := KeptText(a[0], atStart).Some?;
    var s', f' := atStart && !kept, first && !kept;
    var x := LineInsertions(a[0], atStart, first);
    var y := LogInsertions(a[1..], s', f');
    var last := LineInsertions(l, atStart && NoneKept(a, atStart), first && NoneKept(a, atStart));
    LogInsertionsCons(a, l, atStart, first);
    NoneKeptCons(a, atStart);
    assert last == LineInsertions(l, s' && NoneKept(a[1..], s'), f' && NoneKept(a[1..], s'));
    assert LogInsertions(a, atStart, first) == x + y;
    AppendAssoc(x, y, last);
  }

  lemma SliceSnoc<T>(s: seq<T>, i: nat)
    requires i < |s|
    ensures s[..i + 1] == s[..i] + [s[i]]
    ensures s[..i + 1][..i] == s[..i]
  {
  }

  /** The loop of on_log_update keeps its invariant over one more line. */
  lemma LogStep(done: seq<string>, line: string, start: bool, text0: seq<Insertion>,
                before: seq<Insertion>, after: seq<Insertion>, kept: bool)
    requires before == text0 + LogInsertions(done, start, true)
    requires NoneKept(done, start) ==> before == text0
    requires !NoneKept(done, start) ==> before != [] && before[|before| - 1] == Newline
    requires kept == KeptText(line, start && NoneKept(done, start)).Some?
    requires after == before + LineInsertions(line, start && NoneKept(done, start), NoneKept(done, start))
    ensures after == text0 + LogInsertions(done + [line], start, true)
    ensures NoneKept(done + [line], start) == (NoneKept(done, start) && !kept)
    ensures NoneKept(done + [line], start) ==> after == text0
    ensures !NoneKept(done + [line], start) ==> after != [] && after[|after| - 1] == Newline
  {
    LogInsertionsSnoc(done, line, start, true);
    KeptLinesSnoc(done, line, start);
    AppendAssoc(text0, LogInsertions(done, start, true), LineInsertions(line, start && NoneKept(done, start), NoneKept(done, start)));
  }

  /** The author or committer button as a header line sets it. */
  datatype LinkButton = LinkButton(caption: Option<string>, uri: string)

  /**
   * The button a header line starting with `key` sets: the name as caption,
   * "mailto:" and the address as uri (printf writes "(null)" for a missing
   * address). None when the line has another key or its text does not match.
   */
  function HeaderLink(line: string, key: string): (r: Option<LinkButton>)
    ensures r.Some? <==> key <= line && GitgAuthor.MatchAuthor(line[|key|..]).Some?
    ensures r.Some? ==> key <= line && r.value.caption == GitgAuthor.MatchAuthor(line[|key|..]).value.name
    ensures r.Some? ==> |r.value.uri| > 7 && r.value.uri[..7] == "mailto:"
  {
    if key <= line then
      match GitgAuthor.MatchAuthor(line[|key|..])
      case None => None
      case Some(m) => Some(LinkButton(m.name, "mailto:" + m.email.GetOr("(null)")))
    else None
  }

  /** The button after a batch: set by the last header line that sets it, else `prev`. */
  function LastLink(lines: seq<string>, key: string, prev: Option<LinkButton>): Option<LinkButton> {
    if lines == [] then prev
    else
      match HeaderLink(lines[|lines| - 1], key)
      case Some(b) => Some(b)
      case None => LastLink(lines[..|lines| - 1], key, prev)
  }

  lemma LastLinkSnoc(done: seq<string>, line: string, key: string, prev: Option<LinkButton>)
    ensures LastLink(done + [line], key, prev) ==
      match HeaderLink(line, key) case Some(b) => Some(b) case None => LastLink(done, key, prev)
  {
    assert (done + [line])[..|done|] == done;
  }

  /** A batch without a header line for `key` leaves that button as it was. */
  lemma {:induction false} LinkWithoutHeader(lines: seq<string>, key: string, prev: Option<LinkButton>)
    requires forall i :: 0 <= i < |lines| ==> !(key <= lines[i])
    ensures LastLink(lines, key, prev) == prev
  {
    if lines != [] {
      LinkWithoutHeader(lines[..|lines| - 1], key, prev);
    }
  }

  /**
   * A header line whose text has the shape of an author sets the button to
   * that name and "mailto:" followed by that address.
   */
  lemma AuthorHeaderLink(key: string, w1: string, x: string, w2: string, y: string, w3: string)
    requires GitgAuthor.AllSpace(w1) && GitgAuthor.AllSpace(w2) && GitgAuthor.AllSpace(w3)
    requires GitgAuthor.NameShape(x) && GitgAuthor.EmailShape(y)
    ensures HeaderLink(key + GitgAuthor.Compose(w1, x, w2, Some(y), w3), key) ==
      Some(LinkButton(Some(x), "mailto:" + y))
  {
    var c := GitgAuthor.Compose(w1, x, w2, Some(y), w3);
    assert (key + c)[|key|..] == c;
    GitgAuthor.ComposeMatches(w1, x, w2, Some(y), w3);
  }

  /** The log text view and the two buttons the log output fills in. */
  class RevisionLog {
    var text: seq<Insertion>
    var author: Option<LinkButton>
    var committer: Option<LinkButton>

    constructor ()
      ensures text == [] && author.None? && committer.None?
    {
      text := [];
      author := None;
      committer := None;
    }

    /**
     * on_log_update: the batch's message lines are inserted as
     * LogInsertions says, with the buffer's emptiness at the start of the
     * batch; header lines set the buttons.
     */
    method LogUpdate(buffer: seq<string>)
      modifies this
      ensures text == old(text) + LogInsertions(buffer, Chars(old(text)) == [], true)
      ensures author == LastLink(buffer, AuthorKey, old(author))
      ensures committer == LastLink(buffer, CommitterKey, old(committer))
    {
      ghost var text0 := text;
      ghost var start0 := Chars(text) == [];
      var firstLine := true;
      var i := 0;
      while i < |buffer|
        invariant 0 <= i <= |buffer|
        invariant firstLine == NoneKept(buffer[..i], start0)
        invariant text == text0 + LogInsertions(buffer[..i], start0, true)
        invariant firstLine ==> text == text0
        invariant !firstLine ==> text != [] && text[|text| - 1] == Newline
        invariant author == LastLink(buffer[..i], AuthorKey, old(author))
        invariant committer == LastLink(buffer[..i], CommitterKey, old(committer))
      {
        var line := buffer[i];
        ghost var done := buffer[..i];
        ghost var before := text;
        assert (Chars(text) == []) == (start0 && firstLine);
        var kept := UpdateLine(line, firstLine);
        SliceSnoc(buffer, i);
        LogStep(done, line, start0, text0, before, text, kept);
        LastLinkSnoc(done, line, AuthorKey, old(author));
        LastLinkSnoc(done, line, CommitterKey, old(committer));
        if kept {
          firstLine := false;
        }
        i := i + 1;
      }
      assert buffer[..|buffer|] == buffer;
    }

    /** One turn of on_log_update's loop: the line's insertions and its effect on the buttons. */
    method UpdateLine(line: string, firstLine: bool) returns (kept: bool)
      modifies this
      ensures kept == KeptText(line, Chars(old(text)) == []).Some?
      ensures text == old(text) + LineInsertions(line, Chars(old(text)) == [], firstLine)
      ensures author == (match HeaderLink(line, AuthorKey) case Some(b) => Some(b) case None => old(author))
      ensures committer == (match HeaderLink(line, CommitterKey) case Some(b) => Some(b) case None => old(committer))
    {
      var keep: Option<string>;
      if line == [] {
        keep := if Chars(text) == [] then None else Some(line);
      } else if line[0] == ' ' {
        keep := Some(GLibText.Chug(line));
      } else {
        if AuthorKey <= line {
          var m := GitgAuthor.MatchAuthor(line[|AuthorKey|..]);
          if m.Some? {
            author := Some(LinkButton(m.value.name, "mailto:" + m.value.email.GetOr("(null)")));
          }
          assert HeaderLink(line, CommitterKey) == None by {
            assert line[0] == AuthorKey[0] != CommitterKey[0];
          }
        } else if CommitterKey <= line {
          var m := GitgAuthor.MatchAuthor(line[|CommitterKey|..]);
          if m.Some? {
            committer := Some(LinkButton(m.value.name, "mailto:" + m.value.email.GetOr("(null)")));
          }
        }
        keep := None;
      }
      assert keep == KeptText(line, Chars(text) == []);
      kept := keep.Some?;
      if keep.Some? {
        var tag := if firstLine then Title else if SignedOffByKey <= keep.value then Signed else Plain;
        assert tag == TagFor(firstLine, keep.value);
        text := text + [Insertion(keep.value, tag), Newline];
      }
    }
  }
}
