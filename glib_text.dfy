/**
 * The GLib string helpers the core leans on, modelled on character sequences:
 * g_strsplit with a one-character delimiter, g_strchug, and g_ascii_strtoll
 * with base 0. C strings end at their first NUL; the model's strings never
 * contain one.
 */
module GLibText {

  /**
   * g_ascii_isspace: space, tab, newline, form feed, carriage return. GLib's
   * ASCII table does not class vertical tab as space.
   */
  predicate IsAsciiSpace(c: char) {
    c == ' ' || c == '\t' || c == '\n' || c == '\U{C}' || c == '\r'
  }

  /** The white space g_ascii_strtoll skips with its own test: g_ascii_isspace's and vertical tab. */
  predicate IsStrtollSpace(c: char) {
    IsAsciiSpace(c) || c == '\U{B}'
  }

  function Min(a: int, b: int): int {
    if a <= b then a else b
  }

  /** The number of occurrences of `c` in `s`. */
  function Count(s: string, c: char): nat {
    if s == [] then 0 else (if s[0] == c then 1 else 0) + Count(s[1..], c)
  }

  lemma {:induction false} CountBound(s: string, c: char)
    ensures Count(s, c) <= |s|
    ensures Count(s, c) == 0 <==> c !in s
  {
    if s != [] {
      CountBound(s[1..], c);
      assert s == [s[0]] + s[1..];
    }
  }

  lemma {:induction false} CountAppend(a: string, b: string, c: char)
    ensures Count(a + b, c) == Count(a, c) + Count(b, c)
  {
    if a != [] {
      assert (a + b)[1..] == a[1..] + b;
      CountAppend(a[1..], b, c);
    } else {
      assert a + b == b;
    }
  }

  /** The pieces glued back together with `sep` between neighbours (g_strjoinv). */
  function Join(parts: seq<string>, sep: char): string {
    if |parts| == 0 then []
    else if |parts| == 1 then parts[0]
    else parts[0] + [sep] + Join(parts[1..], sep)
  }

  /**
   * `s` cut at its first `splits` occurrences of `sep`; whatever follows the
   * last cut, separators included, is the final piece.
   */
  function SplitAt(s: string, sep: char, splits: nat): (parts: seq<string>)
    ensures |parts| >= 1
  {
    if s == [] then [[]]
    else if s[0] == sep && splits > 0 then [[]] + SplitAt(s[1..], sep, splits - 1)
    else
      var rest := SplitAt(s[1..], sep, splits);
      [[s[0]] + rest[0]] + rest[1..]
  }

  /** Cutting and re-joining gives the original string back. */
  lemma {:induction false} JoinSplitAt(s: string, sep: char, splits: nat)
    ensures Join(SplitAt(s, sep, splits), sep) == s
  {
    if s == [] {
    } else if s[0] == sep && splits > 0 {
      JoinSplitAt(s[1..], sep, splits - 1);
      var rest := SplitAt(s[1..], sep, splits - 1);
      assert ([[]] + rest)[1..] == rest;
      assert s == [sep] + s[1..];
    } else {
      JoinSplitAt(s[1..], sep, splits);
      var rest := SplitAt(s[1..], sep, splits);
      var parts := [[s[0]] + rest[0]] + rest[1..];
      assert parts[1..] == rest[1..];
      assert s == [s[0]] + s[1..];
    }
  }

  /** One piece more than the number of cuts actually made. */
  lemma {:induction false} SplitAtCount(s: string, sep: char, splits: nat)
    ensures |SplitAt(s, sep, splits)| == 1 + Min(Count(s, sep), splits)
  {
    if s == [] {
    } else if s[0] == sep && splits > 0 {
      SplitAtCount(s[1..], sep, splits - 1);
    } else {
      SplitAtCount(s[1..], sep, splits);
    }
  }

  /** Every piece but the last is free of `sep`. */
  predicate InnerPiecesFree(parts: seq<string>, sep: char) {
    forall i :: 0 <= i < |parts| - 1 ==> sep !in parts[i]
  }

  /** Every piece but the last is free of `sep`; so is the last once every separator was cut. */
  lemma {:induction false} SplitAtPieces(s: string, sep: char, splits: nat)
    ensures InnerPiecesFree(SplitAt(s, sep, splits), sep)
    ensures Count(s, sep) <= splits ==> sep !in SplitAt(s, sep, splits)[|SplitAt(s, sep, splits)| - 1]
  {
    if s == [] {
    } else if s[0] == sep && splits > 0 {
      SplitAtPieces(s[1..], sep, splits - 1);
      var rest := SplitAt(s[1..], sep, splits - 1);
      CutPieces(rest, sep);
      assert SplitAt(s, sep, splits) == [[]] + rest;
      assert Count(s, sep) == 1 + Count(s[1..], sep);
    } else {
      SplitAtPieces(s[1..], sep, splits);
      SplitAtCount(s[1..], sep, splits);
      var rest := SplitAt(s[1..], sep, splits);
      KeptPieces(s[0], rest, sep);
      assert SplitAt(s, sep, splits) == [[s[0]] + rest[0]] + rest[1..];
      assert Count(s, sep) == (if s[0] == sep then 1 else 0) + Count(s[1..], sep);
    }
  }

  /** The pieces after a cut: an empty piece in front of those of the rest. */
  lemma CutPieces(rest: seq<string>, sep: char)
    requires |rest| >= 1 && InnerPiecesFree(rest, sep)
    ensures InnerPiecesFree([[]] + rest, sep)
    ensures ([[]] + rest)[|rest|] == rest[|rest| - 1]
  {
    var parts := [[]] + rest;
    forall i | 0 <= i < |parts| - 1 ensures sep !in parts[i] {
      if i == 0 {
        assert parts[0] == [];
      } else {
        assert parts[i] == rest[i - 1];
      }
    }
  }

  /** The pieces after a kept character: it joins the first piece of the rest. */
  lemma KeptPieces(c: char, rest: seq<string>, sep: char)
    requires |rest| >= 1 && (c != sep || |rest| == 1) && InnerPiecesFree(rest, sep)
    ensures InnerPiecesFree([[c] + rest[0]] + rest[1..], sep)
    ensures c != sep && sep !in rest[|rest| - 1] ==> sep !in ([[c] + rest[0]] + rest[1..])[|rest| - 1]
  {
    var parts := [[c] + rest[0]] + rest[1..];
    forall i | 0 <= i < |parts| - 1 ensures sep !in parts[i] {
      if i > 0 {
        assert parts[i] == rest[i];
      } else {
        assert parts[0] == [c] + rest[0];
      }
    }
    if c != sep && sep !in rest[|rest| - 1] {
      if |rest| == 1 {
        assert parts[|parts| - 1] == [c] + rest[0];
      } else {
        assert parts[|parts| - 1] == rest[|rest| - 1];
      }
    }
  }

  /**
   * g_strsplit(s, sep, maxTokens) for a one-character delimiter: the empty
   * string gives no pieces at all; any other string gives at most maxTokens
   * pieces (no limit when maxTokens < 1) that join back to it.
   */
  function GStrSplit(s: string, sep: char, maxTokens: int): (parts: seq<string>)
    ensures s == [] <==> parts == []
    ensures s != [] ==> Join(parts, sep) == s
    ensures s != [] ==> |parts| == 1 + (if maxTokens < 1 then Count(s, sep) else Min(Count(s, sep), maxTokens - 1))
    ensures forall i :: 0 <= i < |parts| - 1 ==> sep !in parts[i]
    ensures maxTokens < 1 || Count(s, sep) < maxTokens ==> forall i :: 0 <= i < |parts| ==> sep !in parts[i]
  {
    if s == [] then []
    else
      var splits := if maxTokens < 1 then |s| else maxTokens - 1;
      CountBound(s, sep);
      JoinSplitAt(s, sep, splits);
      SplitAtCount(s, sep, splits);
      SplitAtPieces(s, sep, splits);
      SplitAt(s, sep, splits)
  }

  /** Unfolds Join over a leading piece. */
  lemma JoinCons(parts: seq<string>, sep: char)
    requires |parts| >= 2
    ensures Join(parts, sep) == parts[0] + [sep] + Join(parts[1..], sep)
  {
  }

  /** g_strchug: the string without its leading ASCII whitespace. */
  function Chug(s: string): (r: string)
    ensures var k := |s| - |r|; 0 <= k && r == s[k..] && forall i :: 0 <= i < k ==> IsAsciiSpace(s[i])
    ensures r == [] || !IsAsciiSpace(r[0])
  {
    if s != [] && IsAsciiSpace(s[0]) then Chug(s[1..]) else s
  }

  /** The leading-space skip of g_ascii_strtoll. */
  function SkipStrtollSpace(s: string): (r: string)
    ensures var k := |s| - |r|; 0 <= k && r == s[k..] && forall i :: 0 <= i < k ==> IsStrtollSpace(s[i])
    ensures r == [] || !IsStrtollSpace(r[0])
  {
    if s != [] && IsStrtollSpace(s[0]) then SkipStrtollSpace(s[1..]) else s
  }

  /** A vertical tab stops g_strchug, while g_ascii_strtoll skips it. */
  lemma VerticalTab(rest: string)
    ensures Chug(['\U{B}'] + rest) == ['\U{B}'] + rest
    ensures SkipStrtollSpace(['\U{B}'] + rest) == SkipStrtollSpace(rest)
  {
    assert (['\U{B}'] + rest)[1..] == rest;
  }

  const Int64Max: int := 0x7FFF_FFFF_FFFF_FFFF
  const Int64Min: int := -0x8000_0000_0000_0000

  /** The digit value GLib's number parser gives `c`; 36 when `c` is a digit in no base. */
  function DigitValue(c: char): nat {
    if '0' <= c <= '9' then c as int - '0' as int
    else if 'A' <= c <= 'Z' then c as int - 'A' as int + 10
    else if 'a' <= c <= 'z' then c as int - 'a' as int + 10
    else 36
  }

  /** `acc` extended by the longest prefix of `s` made of digits below `base`. */
  function Accumulate(acc: nat, s: string, base: nat): nat
    decreases |s|
  {
    if s == [] || DigitValue(s[0]) >= base then acc
    else Accumulate(acc * base + DigitValue(s[0]), s[1..], base)
  }

  /**
   * The unsigned magnitude base 0 reads: after "0x" or "0X" hexadecimal, after
   * another leading "0" octal, else decimal; 0 when no digit follows.
   */
  function MagnitudeBase0(s: string): nat {
    if |s| >= 2 && s[0] == '0' && (s[1] == 'x' || s[1] == 'X') then Accumulate(0, s[2..], 16)
    else if |s| >= 1 && s[0] == '0' then Accumulate(0, s, 8)
    else Accumulate(0, s, 10)
  }

  /**
   * g_ascii_strtoll(s, NULL, 0): leading ASCII whitespace, an optional sign
   * and a base-0 magnitude, clamped to the range of a 64-bit signed integer.
   */
  function StrToInt64(s: string): (v: int)
    ensures Int64Min <= v <= Int64Max
  {
    var t := SkipStrtollSpace(s);
    var negative := t != [] && t[0] == '-';
    var u := if t != [] && (t[0] == '-' || t[0] == '+') then t[1..] else t;
    var m: int := MagnitudeBase0(u);
    if negative then (if m > -Int64Min then Int64Min else -m)
    else (if m > Int64Max then Int64Max else m)
  }

  function DigitChar(d: nat): (c: char)
    requires d < 10
  {
    ('0' as int + d) as char
  }

  /** The decimal notation of `n`, without leading zeros. */
  function Decimal(n: nat): string {
    if n < 10 then [DigitChar(n)] else Decimal(n / 10) + [DigitChar(n % 10)]
  }

  lemma {:induction false} AccumulateAppend(acc: nat, a: string, b: string, base: nat)
    requires forall i :: 0 <= i < |a| ==> DigitValue(a[i]) < base
    ensures Accumulate(acc, a + b, base) == Accumulate(Accumulate(acc, a, base), b, base)
    decreases |a|
  {
    if a == [] {
      assert a + b == b;
    } else {
      assert (a + b)[0] == a[0];
      assert (a + b)[1..] == a[1..] + b;
      AccumulateAppend(acc * base + DigitValue(a[0]), a[1..], b, base);
    }
  }

  lemma {:induction false} DecimalDigits(n: nat)
    ensures forall i :: 0 <= i < |Decimal(n)| ==> '0' <= Decimal(n)[i] <= '9'
    ensures Decimal(n) != [] && (Decimal(n)[0] == '0' ==> n == 0)
    ensures Accumulate(0, Decimal(n), 10) == n
  {
    if n >= 10 {
      DecimalDigits(n / 10);
      var d := Decimal(n / 10);
      AccumulateAppend(0, d, [DigitChar(n % 10)], 10);
      assert Decimal(n)[0] == d[0];
    }
  }

  /** A decimal notation is read in base 10, and "0" in base 8, to the same value. */
  lemma {:induction false} MagnitudeOfDecimal(n: nat)
    ensures MagnitudeBase0(Decimal(n)) == n
  {
    DecimalDigits(n);
    var s := Decimal(n);
    if n == 0 {
      assert s == ['0'];
      assert Accumulate(0, s, 8) == Accumulate(0, [], 8);
    } else {
      assert s[0] != '0';
    }
  }

  /** A decimal notation has no leading whitespace and no sign. */
  lemma DecimalUnsigned(n: nat)
    ensures SkipStrtollSpace(Decimal(n)) == Decimal(n)
    ensures Decimal(n)[0] != '-' && Decimal(n)[0] != '+'
  {
    DecimalDigits(n);
    assert '0' <= Decimal(n)[0] <= '9';
  }

  /** Reading back the decimal notation of a non-negative 64-bit value gives that value. */
  lemma DecimalRoundTrip(n: nat)
    requires n <= Int64Max
    ensures StrToInt64(Decimal(n)) == n
  {
    DecimalUnsigned(n);
    MagnitudeOfDecimal(n);
  }

  /** The same with a minus sign in front, down to the most negative 64-bit value. */
  lemma NegativeDecimalRoundTrip(n: nat)
    requires n <= -Int64Min
    ensures StrToInt64("-" + Decimal(n)) == -(n as int)
  {
    var d := Decimal(n);
    var s := "-" + d;
    assert s[0] == '-' && s[1..] == d;
    assert SkipStrtollSpace(s) == s;
    MagnitudeOfDecimal(n);
    assert MagnitudeBase0(s[1..]) == n;
  }

  /** Beyond the range the value saturates, as g_ascii_strtoll does with ERANGE. */
  lemma OverflowSaturates(n: nat)
    requires n > Int64Max
    ensures StrToInt64(Decimal(n)) == Int64Max
  {
    DecimalUnsigned(n);
    MagnitudeOfDecimal(n);
  }
}
