/**
 * A commit author: a name and an e-mail address, either of which may be
 * unset (NULL, here None). gitg_author_set_string splits a "Name <email>"
 * string with the regular expression
 *   ^\s*([^<]+?)?\s*(?:<([^>]+)>)?\s*$
 * The recogniser below is that expression worked out by hand: the name is
 * the text before the first '<' with the surrounding white space dropped,
 * the e-mail address is the text between that '<' and the next '>', and
 * only white space may follow.
 */
module GitgAuthor {
  import opened Wrappers

  /** PCRE's \s: space, tab, newline, form feed and carriage return (no vertical tab). */
  predicate IsRegexSpace(c: char) {
    c == ' ' || c == '\t' || c == '\n' || c == '\U{C}' || c == '\r'
  }

  predicate AllSpace(w: string) {
    forall i :: 0 <= i < |w| ==> IsRegexSpace(w[i])
  }

  /** A captured name: no '<', and no white space at either end. */
  predicate NameShape(x: string) {
    '<' !in x && (x == [] || (!IsRegexSpace(x[0]) && !IsRegexSpace(x[|x| - 1])))
  }

  /** A captured e-mail address: at least one character and no '>'. */
  predicate EmailShape(y: string) {
    y != [] && '>' !in y
  }

  /** The length of the leading white space of `s`. */
  function SkipSpace(s: string): (k: nat)
    ensures k <= |s| && AllSpace(s[..k])
    ensures k < |s| ==> !IsRegexSpace(s[k])
  {
    if s == [] || !IsRegexSpace(s[0]) then 0
    else
      var k := SkipSpace(s[1..]);
      assert s[..1 + k] == [s[0]] + s[1..][..k];
      1 + k
  }

  /** `s` without its trailing white space. */
  function TrimEnd(s: string): (t: string)
    ensures |t| <= |s| && t == s[..|t|] && AllSpace(s[|t|..])
    ensures t == [] || !IsRegexSpace(t[|t| - 1])
  {
    if s == [] || !IsRegexSpace(s[|s| - 1]) then s
    else
      var t := TrimEnd(s[..|s| - 1]);
      assert s[|t|..] == s[..|s| - 1][|t|..] + [s[|s| - 1]];
      t
  }

  /** The position of the first `c` in `s`, or |s| when there is none. */
  function FirstIndex(s: string, c: char): (k: nat)
    ensures k <= |s| && c !in s[..k]
    ensures k < |s| ==> s[k] == c
  {
    if s == [] || s[0] == c then 0
    else
      var k := FirstIndex(s[1..], c);
      assert s[..1 + k] == [s[0]] + s[1..][..k];
      1 + k
  }

  /** What follows a '<': the address up to the first '>', which only white space may follow. */
  function EmailPart(u: string): Option<string> {
    var g := FirstIndex(u, '>');
    if g == |u| || g == 0 || !AllSpace(u[g + 1..]) then None else Some(u[..g])
  }

  /**
   * What g_match_info_fetch gives for the two groups. A group that did
   * not take part in the match reads as "" when a later group did, and as
   * NULL otherwise.
   */
  datatype Match = Match(name: Option<string>, email: Option<string>)

  /** The regular expression applied to `s`: None when it does not match. */
  function MatchAuthor(s: string): (m: Option<Match>)
    ensures m.Some? && m.value.name.None? ==> m.value.email.None? && AllSpace(s)
    ensures m.Some? && m.value.name.Some? ==> NameShape(m.value.name.value)
    ensures m.Some? && m.value.email.Some? ==> EmailShape(m.value.email.value)
    ensures AllSpace(s) ==> m == Some(Match(None, None))
  {
    var k := SkipSpace(s);
    assert k == |s| ==> s == s[..k];
    MatchRest(s[k..])
  }

  /** The match of what follows the leading white space. */
  function MatchRest(rest: string): (m: Option<Match>)
    ensures m.Some? && m.value.name.None? ==> m.value.email.None? && rest == []
    ensures rest == [] ==> m == Some(Match(None, None))
    ensures m.Some? && m.value.name.Some? && rest != [] && !IsRegexSpace(rest[0]) ==>
      NameShape(m.value.name.value)
    ensures m.Some? && m.value.email.Some? ==> EmailShape(m.value.email.value)
  {
    if rest == [] then Some(Match(None, None)) else MatchFrom(rest, FirstIndex(rest, '<'))
  }

  /** The match of a string whose first '<' is at `lt` (|rest| when it has none). */
  function MatchFrom(rest: string, lt: nat): (m: Option<Match>)
    requires lt <= |rest| && '<' !in rest[..lt] && (lt < |rest| ==> rest[lt] == '<')
    ensures m.Some? ==> m.value.name.Some?
    ensures m.Some? && rest != [] && !IsRegexSpace(rest[0]) ==> NameShape(m.value.name.value)
    ensures m.Some? && m.value.email.Some? ==> EmailShape(m.value.email.value)
  {
    if lt == |rest| then Some(Match(Some(TrimEnd(rest)), None))
    else
      match EmailPart(rest[lt + 1..])
      case None => None
      case Some(e) => Some(Match(Some(TrimEnd(rest[..lt])), Some(e)))
  }

  /** "<email>", or nothing when there is no address. */
  function EmailText(y: Option<string>): string {
    if y.Some? then "<" + (y.value + ">") else ""
  }

  /** The string made of the given parts: white space, name, white space, "<email>", white space. */
  function Compose(w1: string, x: string, w2: string, y: Option<string>, w3: string): string {
    w1 + (x + (w2 + (EmailText(y) + w3)))
  }

  lemma {:induction false} SkipSpaceOver(a: string, b: string)
    requires AllSpace(a) && (b == [] || !IsRegexSpace(b[0]))
    ensures SkipSpace(a + b) == |a|
  {
    if a == [] {
      assert a + b == b;
    } else {
      assert (a + b)[0] == a[0];
      assert (a + b)[1..] == a[1..] + b;
      SkipSpaceOver(a[1..], b);
    }
  }

  lemma {:induction false} FirstIndexAt(s: string, c: char, j: nat)
    requires j <= |s| && c !in s[..j] && (j < |s| ==> s[j] == c)
    ensures FirstIndex(s, c) == j
  {
    if j > 0 {
      assert s[0] == s[..j][0];
      assert s[1..][..j - 1] == s[..j][1..];
      FirstIndexAt(s[1..], c, j - 1);
    }
  }

  lemma {:induction false} TrimEndOver(x: string, w: string)
    requires AllSpace(w) && (x == [] || !IsRegexSpace(x[|x| - 1]))
    ensures TrimEnd(x + w) == x
  {
    if w == [] {
      assert x + w == x;
    } else {
      var s := x + w;
      assert s[|s| - 1] == w[|w| - 1];
      assert s[..|s| - 1] == x + w[..|w| - 1];
      TrimEndOver(x, w[..|w| - 1]);
    }
  }

  lemma AllSpaceAppend(a: string, b: string)
    requires AllSpace(a) && AllSpace(b)
    ensures AllSpace(a + b)
  {
    forall i | 0 <= i < |a + b|
      ensures IsRegexSpace((a + b)[i])
    {
      if i >= |a| {
        assert (a + b)[i] == b[i - |a|];
      }
    }
  }

  /** The address part of "<y>" followed by white space is y. */
  lemma {:induction false} EmailPartOf(y: string, w3: string)
    requires EmailShape(y) && AllSpace(w3)
    ensures EmailPart(y + (">" + w3)) == Some(y)
  {
    var u := y + (">" + w3);
    assert u[..|y|] == y;
    FirstIndexAt(u, '>', |y|);
    assert u[|y| + 1..] == w3;
  }

  /** Text other than white space after the '>' leaves no address. */
  lemma {:induction false} EmailPartTextAfter(y: string, t: string)
    requires EmailShape(y) && !AllSpace(t)
    ensures EmailPart(y + (">" + t)) == None
  {
    var u := y + (">" + t);
    assert u[..|y|] == y;
    FirstIndexAt(u, '>', |y|);
    assert u[|y| + 1..] == t;
  }

  /** Leading white space is skipped. */
  lemma {:induction false} SkipInto(w1: string, rest: string)
    requires AllSpace(w1) && (rest == [] || !IsRegexSpace(rest[0]))
    ensures MatchAuthor(w1 + rest) == MatchRest(rest)
  {
    SkipSpaceOver(w1, rest);
    assert (w1 + rest)[|w1|..] == rest;
  }

  /** What follows the leading white space: a name (possibly empty), white space, then `tail`. */
  lemma {:induction false} MatchAfterName(x: string, w2: string, tail: string, r: Option<Match>)
    requires AllSpace(w2) && NameShape(x)
    requires tail == [] ==> x != []
    requires tail != [] ==> tail[0] == '<'
    requires tail == [] ==> r == Some(Match(Some(x), None))
    requires tail != [] ==> r == (match EmailPart(tail[1..])
                                 case None => None
                                 case Some(e) => Some(Match(Some(x), Some(e))))
    ensures MatchRest(x + (w2 + tail)) == r
  {
    var rest := x + (w2 + tail);
    var lt := |x| + |w2|;
    assert rest[..lt] == x + w2;
    if tail == [] {
      assert rest == x + w2;
      FirstIndexAt(rest, '<', lt);
      TrimEndOver(x, w2);
      assert MatchFrom(rest, lt) == Some(Match(Some(x), None));
    } else {
      assert rest[lt] == '<';
      FirstIndexAt(rest, '<', lt);
      assert rest[lt + 1..] == tail[1..];
      TrimEndOver(x, w2);
      assert MatchFrom(rest, lt) == r;
    }
  }

  /**
   * A string made of white space, a name, white space and a `tail` that is
   * empty or starts with '<' matches as the name and whatever the tail's
   * address part gives.
   */
  lemma {:induction false} MatchParts(w1: string, x: string, w2: string, tail: string, r: Option<Match>)
    requires AllSpace(w1) && AllSpace(w2) && NameShape(x)
    requires tail == [] ==> x != []
    requires tail != [] ==> tail[0] == '<'
    requires tail == [] ==> r == Some(Match(Some(x), None))
    requires tail != [] ==> r == (match EmailPart(tail[1..])
                                 case None => None
                                 case Some(e) => Some(Match(Some(x), Some(e))))
    ensures MatchAuthor(w1 + (x + (w2 + tail))) == r
  {
    if x == [] {
      assert w1 + (x + (w2 + tail)) == (w1 + w2) + ([] + ([] + tail));
      AllSpaceAppend(w1, w2);
      SkipInto(w1 + w2, [] + ([] + tail));
      MatchAfterName([], [], tail, r);
    } else {
      SkipInto(w1, x + (w2 + tail));
      MatchAfterName(x, w2, tail, r);
    }
  }

  /** A string of the regular expression's shape matches with exactly its parts as the groups. */
  lemma {:induction false} ComposeMatches(w1: string, x: string, w2: string, y: Option<string>, w3: string)
    requires AllSpace(w1) && AllSpace(w2) && AllSpace(w3)
    requires NameShape(x)
    requires y.Some? ==> EmailShape(y.value)
    requires y.None? ==> x != []
    ensures MatchAuthor(Compose(w1, x, w2, y, w3)) == Some(Match(Some(x), y))
  {
    if y.Some? {
      var tail := "<" + (y.value + (">" + w3));
      AppendAssoc("<", y.value + ">", w3);
      AppendAssoc(y.value, ">", w3);
      assert EmailText(y) + w3 == tail;
      assert tail[1..] == y.value + (">" + w3);
      EmailPartOf(y.value, w3);
      MatchParts(w1, x, w2, tail, Some(Match(Some(x), y)));
    } else {
      assert w1 + (x + (w2 + (EmailText(y) + w3))) == w1 + (x + ((w2 + w3) + []));
      AllSpaceAppend(w2, w3);
      MatchParts(w1, x, w2 + w3, [], Some(Match(Some(x), y)));
    }
  }

  /** Every match with a name comes from a string of that shape, with the groups as its parts. */
  lemma {:induction false} MatchDecomposes(s: string)
    requires MatchAuthor(s).Some? && MatchAuthor(s).value.name.Some?
    ensures var m := MatchAuthor(s).value;
      exists w1, w2, w3 :: AllSpace(w1) && AllSpace(w2) && AllSpace(w3) &&
        s == Compose(w1, m.name.value, w2, m.email, w3)
  {
    var m := MatchAuthor(s).value;
    var k := SkipSpace(s);
    var rest := s[k..];
    var w1 := s[..k];
    assert s == w1 + rest;
    assert MatchAuthor(s) == MatchRest(rest);
    var lt := FirstIndex(rest, '<');
    assert MatchRest(rest) == MatchFrom(rest, lt);
    var w2, w3 := RestDecomposes(rest, lt, m);
    assert s == Compose(w1, m.name.value, w2, m.email, w3);
  }

  /** The same for the part after the leading white space, with the white space as out-parameters. */
  lemma {:induction false} RestDecomposes(rest: string, lt: nat, m: Match) returns (w2: string, w3: string)
    requires lt <= |rest| && '<' !in rest[..lt] && (lt < |rest| ==> rest[lt] == '<')
    requires MatchFrom(rest, lt) == Some(m)
    ensures m.name.Some? && AllSpace(w2) && AllSpace(w3)
    ensures rest == m.name.value + (w2 + (EmailText(m.email) + w3))
  {
    if lt == |rest| {
      var x := TrimEnd(rest);
      w2, w3 := rest[|x|..], [];
      assert m == Match(Some(x), None);
      assert rest == x + (w2 + ([] + []));
    } else {
      w2, w3 := EmailDecomposes(rest, lt, m);
    }
  }

  lemma {:induction false} EmailDecomposes(rest: string, lt: nat, m: Match) returns (w2: string, w3: string)
    requires lt < |rest| && '<' !in rest[..lt] && rest[lt] == '<'
    requires MatchFrom(rest, lt) == Some(m)
    ensures m.name.Some? && AllSpace(w2) && AllSpace(w3)
    ensures rest == m.name.value + (w2 + (EmailText(m.email) + w3))
  {
    var u := rest[lt + 1..];
    var p := rest[..lt];
    var x := TrimEnd(p);
    assert m == Match(Some(x), EmailPart(u));
    w2 := p[|x|..];
    assert p == x + w2;
    w3 := EmailTail(u, m.email.value);
    assert rest == p + ("<" + u);
    AppendAssoc(x, w2, "<" + u);
  }

  /** What follows the '<' of a match: the address, the '>' and white space. */
  lemma EmailTail(u: string, y: string) returns (w3: string)
    requires EmailPart(u) == Some(y)
    ensures AllSpace(w3) && "<" + u == EmailText(Some(y)) + w3
  {
    var g := FirstIndex(u, '>');
    assert y == u[..g];
    w3 := u[g + 1..];
    assert u == y + (">" + w3);
    AppendAssoc("<", y + ">", w3);
    AppendAssoc(y, ">", w3);
  }

  /** The pair the test program prints: name "User Name", e-mail "user@email". */
  lemma UserNameExample()
    ensures MatchAuthor("User Name <user@email>") == Some(Match(Some("User Name"), Some("user@email")))
  {
    assert "User Name <user@email>" == Compose("", "User Name", " ", Some("user@email"), "");
    ComposeMatches("", "User Name", " ", Some("user@email"), "");
  }

  /**
   * Text other than white space after the closing '>' defeats the match:
   * the string is shaped like a match except for its last part `t`.
   */
  lemma {:induction false} TextAfterEmailRejected(w1: string, x: string, w2: string, y: string, t: string)
    requires AllSpace(w1) && AllSpace(w2) && NameShape(x) && EmailShape(y) && !AllSpace(t)
    ensures MatchAuthor(Compose(w1, x, w2, Some(y), t)) == None
  {
    var tail := "<" + (y + (">" + t));
    AppendAssoc("<", y + ">", t);
    AppendAssoc(y, ">", t);
    assert EmailText(Some(y)) + t == tail;
    assert tail[1..] == y + (">" + t);
    EmailPartTextAfter(y, t);
    MatchParts(w1, x, w2, tail, None);
  }

  /** A '<' never closed by a '>' defeats the match: white space, a name, white space, '<', then `t`. */
  lemma {:induction false} UnclosedRejected(w1: string, x: string, w2: string, t: string)
    requires AllSpace(w1) && AllSpace(w2) && NameShape(x) && '>' !in t
    ensures MatchAuthor(w1 + (x + (w2 + ("<" + t)))) == None
  {
    var tail := "<" + t;
    assert tail[1..] == t;
    FirstIndexAt(t, '>', |t|);
    MatchParts(w1, x, w2, tail, None);
  }

  class Author {
    var name: Option<string>
    var email: Option<string>

    /** gitg_author_init: neither part is set. */
    constructor ()
      ensures name.None? && email.None?
    {
      name := None;
      email := None;
    }

    /**
     * gitg_author_set_string: both parts are cleared, then set from the
     * groups of a match; on no match both stay unset.
     */
    method SetString(s: string)
      modifies this
      ensures MatchAuthor(s).None? ==> name.None? && email.None?
      ensures MatchAuthor(s).Some? ==> name == MatchAuthor(s).value.name && email == MatchAuthor(s).value.email
    {
      name := None;
      email := None;
      var m := MatchAuthor(s);
      if m.Some? {
        name := m.value.name;
        email := m.value.email;
      }
    }

    /** gitg_author_new_from_string: a fresh author set from `s`. */
    static method NewFromString(s: string) returns (a: Author)
      ensures fresh(a)
      ensures MatchAuthor(s).None? ==> a.name.None? && a.email.None?
      ensures MatchAuthor(s).Some? ==> a.name == MatchAuthor(s).value.name && a.email == MatchAuthor(s).value.email
    {
      a := new Author();
      a.SetString(s);
    }

    /** gitg_author_get_name. */
    function GetName(): (n: Option<string>)
      reads this
      ensures n == name
    {
      name
    }

    /** gitg_author_get_email. */
    function GetEmail(): (e: Option<string>)
      reads this
      ensures e == email
    {
      email
    }

    /** gitg_author_set_name, through the "name" property: a copy replaces the name; the e-mail stays. */
    method SetName(n: Option<string>)
      modifies this`name
      ensures GetName() == n
    {
      name := n;
    }

    /** gitg_author_set_email, through the "email" property: a copy replaces the address; the name stays. */
    method SetEmail(e: Option<string>)
      modifies this`email
      ensures GetEmail() == e
    {
      email := e;
    }
  }
}
