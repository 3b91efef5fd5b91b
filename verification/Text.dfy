/** The parts of Python's `str` and `int` that the modelled parsers, printers and
    normalisers rely on, with the round trips between them.

    Characters are ASCII: `upper`, `lower` and the whitespace set leave every
    other character alone. */
module Text {

  datatype Option<+T> = None | Some(value: T)

  /** What a `strip` call removes: whitespace by default, or the characters it is given. */
  datatype Cut = Whitespace | Chars(chars: set<char>)

  predicate Cuts(cut: Cut, c: char) {
    match cut
    case Whitespace => c == ' ' || '\t' <= c <= '\r' || '\U{1C}' <= c <= '\U{1F}'
    case Chars(chars) => c in chars
  }

  /** `[f(x) for x in s]`. */
  function Map<A, B>(f: A -> B, s: seq<A>): (r: seq<B>)
    ensures |r| == |s| && forall i :: 0 <= i < |s| ==> r[i] == f(s[i])
  {
    seq(|s|, i requires 0 <= i < |s| => f(s[i]))
  }

  lemma MapConcat<A, B>(f: A -> B, a: seq<A>, b: seq<A>)
    ensures Map(f, a + b) == Map(f, a) + Map(f, b)
  {}

  // ------------------------------------------------------------------
  // str.split(sep) and sep.join(parts)
  // ------------------------------------------------------------------

  function Split(s: string, sep: char): (parts: seq<string>)
    ensures parts != []
  {
    if s == "" then [""] else Prepend(s[0], Split(s[1..], sep), sep)
  }

  function Prepend(c: char, rest: seq<string>, sep: char): (parts: seq<string>)
    requires rest != []
    ensures parts != []
  {
    if c == sep then [""] + rest else [[c] + rest[0]] + rest[1..]
  }

  lemma PrependConcat(c: char, rest: seq<string>, tail: seq<string>, sep: char)
    requires rest != []
    ensures Prepend(c, rest + tail, sep) == Prepend(c, rest, sep) + tail
  {
    assert (rest + tail)[1..] == rest[1..] + tail;
  }

  function Join(parts: seq<string>, sep: char): string
    requires parts != []
  {
    if |parts| == 1 then parts[0] else parts[0] + [sep] + Join(parts[1..], sep)
  }

  lemma {:induction false} SplitWhole(s: string, sep: char)
    requires sep !in s
    ensures Split(s, sep) == [s]
  {
    if s == "" {
    } else {
      SplitWhole(s[1..], sep);
      assert [s[0]] + s[1..] == s;
    }
  }

  /** A separator always ends a part: splitting distributes over it. */
  lemma {:induction false} SplitConcat(a: string, b: string, sep: char)
    ensures Split(a + [sep] + b, sep) == Split(a, sep) + Split(b, sep)
  {
    var whole := a + [sep] + b;
    if a == "" {
      assert whole[1..] == b;
    } else {
      var rest, tail := Split(a[1..], sep), Split(b, sep);
      SplitConcat(a[1..], b, sep);
      assert whole[0] == a[0] && whole[1..] == a[1..] + [sep] + b;
      PrependConcat(a[0], rest, tail, sep);
    }
  }

  lemma {:induction false} SplitCons(a: string, b: string, sep: char)
    requires sep !in a
    ensures Split(a + [sep] + b, sep) == [a] + Split(b, sep)
  {
    SplitConcat(a, b, sep);
    SplitWhole(a, sep);
  }

  lemma {:induction false} JoinOfSplit(s: string, sep: char)
    ensures Join(Split(s, sep), sep) == s
  {
    if s == "" {
    } else {
      var rest := Split(s[1..], sep);
      JoinOfSplit(s[1..], sep);
      if s[0] == sep {
        assert ([""] + rest)[1..] == rest;
        assert "" + [sep] + s[1..] == s;
      } else {
        var parts := Prepend(s[0], rest, sep);
        if |rest| == 1 {
          assert [s[0]] + s[1..] == s;
        } else {
          assert parts[1..] == rest[1..];
          assert s[1..] == rest[0] + [sep] + Join(rest[1..], sep);
          assert s == [s[0]] + s[1..] == [s[0]] + rest[0] + [sep] + Join(rest[1..], sep);
        }
      }
    }
  }

  lemma {:induction false} SplitOfJoin(parts: seq<string>, sep: char)
    requires parts != []
    requires forall p :: p in parts ==> sep !in p
    ensures Split(Join(parts, sep), sep) == parts
  {
    if |parts| == 1 {
      SplitWhole(parts[0], sep);
    } else {
      SplitOfJoin(parts[1..], sep);
      SplitCons(parts[0], Join(parts[1..], sep), sep);
    }
  }

  /** No part of a split contains the separator. */
  lemma {:induction false} SplitParts(s: string, sep: char)
    ensures forall p :: p in Split(s, sep) ==> sep !in p
  {
    if s == "" {
    } else {
      SplitParts(s[1..], sep);
      var rest := Split(s[1..], sep);
      assert rest[0] in rest;
      forall p | p in Split(s, sep) ensures sep !in p {
        if p in rest {
        } else if s[0] == sep {
          assert p == "";
        } else {
          assert p == [s[0]] + rest[0];
        }
      }
    }
  }

  // ------------------------------------------------------------------
  // strip, lower, upper, in
  // ------------------------------------------------------------------

  function LStrip(s: string, cut: Cut): string {
    if s != "" && Cuts(cut, s[0]) then LStrip(s[1..], cut) else s
  }

  function RStrip(s: string, cut: Cut): string {
    if s != "" && Cuts(cut, s[|s| - 1]) then RStrip(s[..|s| - 1], cut) else s
  }

  function Strip(s: string, cut: Cut): string {
    RStrip(LStrip(s, cut), cut)
  }

  predicate Bare(s: string, cut: Cut) {
    s == "" || (!Cuts(cut, s[0]) && !Cuts(cut, s[|s| - 1]))
  }

  lemma {:induction false} LStripShape(s: string, cut: Cut)
    ensures var r := LStrip(s, cut);
            && (r == "" || !Cuts(cut, r[0]))
            && |r| <= |s| && r == s[|s| - |r|..]
            && forall i :: 0 <= i < |s| - |r| ==> Cuts(cut, s[i])
  {
    if s != "" && Cuts(cut, s[0]) {
      LStripShape(s[1..], cut);
      assert forall i :: 0 < i < |s| ==> s[i] == s[1..][i - 1];
    }
  }

  lemma {:induction false} RStripShape(s: string, cut: Cut)
    ensures var r := RStrip(s, cut);
            && (r == "" || !Cuts(cut, r[|r| - 1]))
            && |r| <= |s| && r == s[..|r|]
            && forall i :: |r| <= i < |s| ==> Cuts(cut, s[i])
  {
    if s != "" && Cuts(cut, s[|s| - 1]) {
      RStripShape(s[..|s| - 1], cut);
    }
  }

  /** Stripping cuts a window out of the string, whose ends are not in the cut set. */
  lemma StripShape(s: string, cut: Cut)
    ensures Bare(Strip(s, cut), cut)
    ensures var k, r := |s| - |LStrip(s, cut)|, Strip(s, cut);
            0 <= k <= |s| - |r| && r == s[k..k + |r|]
  {
    var l := LStrip(s, cut);
    LeftOff(s, cut);
    RightOfLeft(l, cut);
  }

  lemma LeftOff(s: string, cut: Cut)
    ensures var l := LStrip(s, cut);
            (l == "" || !Cuts(cut, l[0])) && |l| <= |s| && l == s[|s| - |l|..]
  {
    LStripShape(s, cut);
  }

  lemma RightOfLeft(l: string, cut: Cut)
    requires l == "" || !Cuts(cut, l[0])
    ensures Bare(RStrip(l, cut), cut)
    ensures |RStrip(l, cut)| <= |l| && RStrip(l, cut) == l[..|RStrip(l, cut)|]
  {
    RStripShape(l, cut);
  }

  /** Stripping leaves a string alone exactly when neither end is in the cut set. */
  lemma StripFixed(s: string, cut: Cut)
    ensures Strip(s, cut) == s <==> Bare(s, cut)
  {
    if Bare(s, cut) {
      assert LStrip(s, cut) == s;
    } else {
      StripShape(s, cut);
    }
  }

  /** Stripping only drops characters. */
  lemma StripIsInside(s: string, cut: Cut, c: char)
    requires c in Strip(s, cut)
    ensures c in s
  {
    StripShape(s, cut);
  }

  predicate Spaces(s: string) { forall c :: c in s ==> Cuts(Whitespace, c) }

  lemma {:induction false} StripPadded(before: string, s: string, after: string)
    requires s != "" && Bare(s, Whitespace) && Spaces(before) && Spaces(after)
    ensures Strip(before + s + after, Whitespace) == s
  {
    if before != "" {
      assert before[0] in before && (before + s + after)[1..] == before[1..] + s + after;
      StripPadded(before[1..], s, after);
    } else {
      assert before + s + after == s + after;
      StripRight(s, after);
    }
  }

  lemma {:induction false} StripRight(s: string, after: string)
    requires s != "" && Bare(s, Whitespace) && Spaces(after)
    ensures RStrip(s + after, Whitespace) == s
  {
    if after == "" {
      assert s + after == s;
    } else {
      assert after[|after| - 1] in after;
      assert (s + after)[..|s + after| - 1] == s + after[..|after| - 1];
      StripRight(s, after[..|after| - 1]);
    }
  }

  function LowerChar(c: char): char {
    if 'A' <= c <= 'Z' then (c as int + 32) as char else c
  }

  function UpperChar(c: char): char {
    if 'a' <= c <= 'z' then (c as int - 32) as char else c
  }

  function Lower(s: string): (r: string)
    ensures |r| == |s| && forall i :: 0 <= i < |s| ==> r[i] == LowerChar(s[i])
  {
    seq(|s|, i requires 0 <= i < |s| => LowerChar(s[i]))
  }

  function Upper(s: string): (r: string)
    ensures |r| == |s| && forall i :: 0 <= i < |s| ==> r[i] == UpperChar(s[i])
  {
    seq(|s|, i requires 0 <= i < |s| => UpperChar(s[i]))
  }

  /** Python's `sub in s` on strings. */
  predicate Contains(s: string, sub: string) {
    exists i :: 0 <= i <= |s| - |sub| && sub <= s[i..]
  }

  // ------------------------------------------------------------------
  // The alphabets
  // ------------------------------------------------------------------

  const DIGITS := "0123456789"
  const SMALL_LETTERS := "abcdefghijklmnopqrstuvwxyz"
  const CAPITAL_LETTERS := "ABCDEFGHIJKLMNOPQRSTUVWXYZ"

  lemma DigitsExactly(c: char)
    ensures IsDigit(c) <==> c in DIGITS
  {
    if IsDigit(c) { assert DIGITS[c as int - '0' as int] == c; }
  }

  lemma SmallLettersExactly(c: char)
    ensures 'a' <= c <= 'z' <==> c in SMALL_LETTERS
  {
    if 'a' <= c <= 'z' { assert SMALL_LETTERS[c as int - 'a' as int] == c; }
  }

  lemma CapitalLettersExactly(c: char)
    ensures 'A' <= c <= 'Z' <==> c in CAPITAL_LETTERS
  {
    if 'A' <= c <= 'Z' { assert CAPITAL_LETTERS[c as int - 'A' as int] == c; }
  }

  /** `upper` and `lower` swap the two alphabets and leave all else. */
  lemma CaseExactly(k: nat)
    requires k < 26
    ensures UpperChar(SMALL_LETTERS[k]) == CAPITAL_LETTERS[k] && LowerChar(CAPITAL_LETTERS[k]) == SMALL_LETTERS[k]
  {
    assert SMALL_LETTERS[k] == ('a' as int + k) as char;
    assert CAPITAL_LETTERS[k] == ('A' as int + k) as char;
  }

  lemma CaseKept(c: char)
    ensures c !in SMALL_LETTERS ==> UpperChar(c) == c
    ensures c !in CAPITAL_LETTERS ==> LowerChar(c) == c
  {
    SmallLettersExactly(c);
    CapitalLettersExactly(c);
  }

  /** What `strip()` takes for whitespace. */
  lemma WhitespaceExactly(c: char)
    ensures Cuts(Whitespace, c) <==> c in " \t\n\U{0B}\U{0C}\r\U{1C}\U{1D}\U{1E}\U{1F}"
  {
    var spaces := " \t\n\U{0B}\U{0C}\r\U{1C}\U{1D}\U{1E}\U{1F}";
    if '\t' <= c <= '\r' { assert spaces[1 + c as int - 9] == c; }
    if '\U{1C}' <= c <= '\U{1F}' { assert spaces[6 + c as int - 28] == c; }
    if c == ' ' { assert spaces[0] == c; }
  }

  // ------------------------------------------------------------------
  // int(s) and str(n)
  // ------------------------------------------------------------------

  function DigitChar(d: nat): char
    requires d < 10
  {
    ('0' as int + d) as char
  }

  predicate IsDigit(c: char) {
    '0' <= c <= '9'
  }

  /** The digits of an `int()` literal: a single underscore may stand between two digits. */
  function ParseDigits(s: string): Option<nat>
    decreases |s|
  {
    if s == "" || !IsDigit(s[|s| - 1]) then None
    else
      var d := s[|s| - 1] as int - '0' as int;
      var high := s[..|s| - 1];
      if high == "" then Some(d)
      else
        var body := if high[|high| - 1] == '_' then high[..|high| - 1] else high;
        match ParseDigits(body)
        case None => None
        case Some(v) => Some(10 * v + d)
  }

  /** Python's `int(s)`; `None` is its ValueError. */
  function ParseInt(s: string): Option<int> {
    var t := Strip(s, Whitespace);
    if t == "" then None
    else if t[0] == '-' then
      match ParseDigits(t[1..])
      case None => None
      case Some(v) => var n: int := v; Some(-n)
    else
      match ParseDigits(if t[0] == '+' then t[1..] else t)
      case None => None
      case Some(v) => Some(v)
  }

  function PrintNat(n: nat): string {
    if n < 10 then [DigitChar(n)] else PrintNat(n / 10) + [DigitChar(n % 10)]
  }

  /** Python's `str(n)`. */
  function PrintInt(n: int): string {
    if n < 0 then "-" + PrintNat(-n) else PrintNat(n)
  }

  predicate AllDigits(s: string) {
    s != "" && forall c :: c in s ==> IsDigit(c)
  }

  lemma AppendDigit(high: string, d: nat)
    requires AllDigits(high) && ParseDigits(high).Some? && d < 10
    ensures AllDigits(high + [DigitChar(d)])
    ensures ParseDigits(high + [DigitChar(d)]) == Some(10 * ParseDigits(high).value + d)
  {
    var s := high + [DigitChar(d)];
    assert s[..|s| - 1] == high && high[|high| - 1] in high;
  }

  lemma {:induction false} PrintNatDigits(n: nat)
    ensures AllDigits(PrintNat(n))
    ensures ParseDigits(PrintNat(n)) == Some(n)
  {
    if n < 10 {
    } else {
      PrintNatDigits(n / 10);
      AppendDigit(PrintNat(n / 10), n % 10);
    }
  }

  lemma DigitsAreBare(s: string)
    requires AllDigits(s)
    ensures Strip(s, Whitespace) == s
    ensures s[0] != '-' && s[0] != '+'
  {
    assert s[0] in s && s[|s| - 1] in s;
    StripFixed(s, Whitespace);
  }

  lemma PrintIntOf(n: int)
    ensures n < 0 ==> PrintInt(n) == "-" + PrintNat(-n) && AllDigits(PrintNat(-n))
    ensures n >= 0 ==> PrintInt(n) == PrintNat(n) && AllDigits(PrintNat(n))
  {
    if n < 0 { PrintNatDigits(-n); } else { PrintNatDigits(n); }
  }

  lemma DigitNotSpace(c: char)
    requires IsDigit(c) || c == '-'
    ensures !Cuts(Whitespace, c)
  {}

  /** What `str` prints holds digits and a leading minus only, and is not stripped. */
  lemma PrintIntShape(n: int)
    ensures forall c :: c in PrintInt(n) ==> IsDigit(c) || c == '-'
    ensures PrintInt(n) != "" && IsDigit(PrintInt(n)[|PrintInt(n)| - 1])
    ensures Strip(PrintInt(n), Whitespace) == PrintInt(n)
  {
    PrintIntOf(n);
    var t := PrintInt(n);
    var s := if n < 0 then t[1..] else t;
    assert AllDigits(s) && t[|t| - 1] == s[|s| - 1];
    assert s[|s| - 1] in s && s[0] in s;
    DigitNotSpace(t[0]);
    DigitNotSpace(t[|t| - 1]);
    StripFixed(t, Whitespace);
  }

  /** A minus sign negates. */
  lemma ParseSigned(s: string)
    requires AllDigits(s) && ParseDigits(s).Some?
    ensures var v: int := ParseDigits(s).value; ParseInt(s) == Some(v) && ParseInt("-" + s) == Some(-v)
  {
    DigitsAreBare(s);
    var t := "-" + s;
    assert t[1..] == s && t[|t| - 1] == s[|s| - 1] && s[|s| - 1] in s;
    StripFixed(t, Whitespace);
  }

  /** `int(str(n)) == n`. */
  lemma IntRoundTrip(n: int)
    ensures ParseInt(PrintInt(n)) == Some(n)
  {
    var k := if n < 0 then -n else n;
    PrintNatDigits(k);
    ParseSigned(PrintNat(k));
  }

  /** Digits, with single underscores between them only. */
  predicate Grouped(s: string) {
    && s != "" && IsDigit(s[0]) && IsDigit(s[|s| - 1])
    && (forall i :: 0 <= i < |s| ==> IsDigit(s[i]) || s[i] == '_')
    && (forall i :: 0 < i < |s| && s[i] == '_' ==> IsDigit(s[i - 1]))
  }

  /** The number the digits write in base ten. */
  function Decimal(s: string): int {
    if s == "" then 0
    else if s[|s| - 1] == '_' then Decimal(s[..|s| - 1])
    else 10 * Decimal(s[..|s| - 1]) + s[|s| - 1] as int - '0' as int
  }

  lemma {:induction false} LiteralExactly(s: string)
    ensures ParseDigits(s).Some? <==> Grouped(s)
    ensures Grouped(s) ==> ParseDigits(s).value == Decimal(s)
    decreases |s|
  {
    if |s| > 1 && IsDigit(s[|s| - 1]) {
      var high := s[..|s| - 1];
      var body := if high[|high| - 1] == '_' then high[..|high| - 1] else high;
      LiteralExactly(body);
      GroupedStep(s, |body|);
      assert s[..|body|] == body && Decimal(high) == Decimal(body);
    }
  }

  lemma GroupedStep(s: string, n: nat)
    requires |s| > 1 && IsDigit(s[|s| - 1])
    requires n == if s[|s| - 2] == '_' then |s| - 2 else |s| - 1
    ensures Grouped(s) <==> Grouped(s[..n])
  {
    assert forall i :: 0 <= i < n ==> s[..n][i] == s[i];
  }

  /** `int` reads an optional sign and such digits, with whitespace around, and nothing else. */
  lemma IntReads(before: string, sign: string, digits: string, after: string)
    requires Spaces(before) && Spaces(after) && Grouped(digits) && (sign == "" || sign == "+" || sign == "-")
    ensures ParseInt(before + sign + digits + after) ==
              Some(if sign == "-" then -Decimal(digits) else Decimal(digits))
  {
    var t := sign + digits;
    assert t[|t| - 1] == digits[|digits| - 1];
    assert t[0] == if sign == "" then digits[0] else sign[0];
    StripPadded(before, t, after);
    assert before + sign + digits + after == before + t + after;
    SignedReads(before + t + after, sign, digits);
  }

  lemma SignedReads(s: string, sign: string, digits: string)
    requires Grouped(digits) && (sign == "" || sign == "+" || sign == "-") && Strip(s, Whitespace) == sign + digits
    ensures ParseInt(s) == Some(if sign == "-" then -Decimal(digits) else Decimal(digits))
  {
    LiteralExactly(digits);
    if sign == "" {
      assert sign + digits == digits;
    } else {
      assert (sign + digits)[1..] == digits;
    }
  }

  lemma IntReadsOnly(s: string)
    requires ParseInt(s).Some?
    ensures exists sign, digits :: (sign == "" || sign == "+" || sign == "-") && Grouped(digits) &&
              Strip(s, Whitespace) == sign + digits
  {
    var t := Strip(s, Whitespace);
    var signed := t[0] == '-' || t[0] == '+';
    var sign, digits := if signed then t[..1] else "", if signed then t[1..] else t;
    LiteralExactly(digits);
    assert t == sign + digits;
  }

  /** A literal that does not end in a digit or in whitespace is never a number. */
  lemma NotANumber(s: string)
    requires s != "" && !IsDigit(s[|s| - 1]) && !Cuts(Whitespace, s[|s| - 1])
    ensures ParseInt(s) == None
  {
    var l := LStrip(s, Whitespace);
    LStripKeepsEnd(s, Whitespace);
    LStripShape(s, Whitespace);
  }

  lemma {:induction false} LStripKeepsEnd(s: string, cut: Cut)
    requires s != "" && !Cuts(cut, s[|s| - 1])
    ensures LStrip(s, cut) != ""
  {
    if Cuts(cut, s[0]) {
      LStripKeepsEnd(s[1..], cut);
    }
  }
}
