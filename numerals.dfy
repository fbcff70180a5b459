/**
 * Integer rendering used in the report: `str(n)` for non-negative
 * integers, `f"{n:,}"` (thousands separators) and `f"U+{cp:04X}"`.
 */
module Numerals {

  predicate IsDigit(c: char) {
    '0' <= c <= '9'
  }

  function DigitValue(c: char): (d: nat)
    requires IsDigit(c)
    ensures d < 10
  {
    c as int - '0' as int
  }

  function DigitChar(d: nat): (c: char)
    requires d < 10
    ensures IsDigit(c) && DigitValue(c) == d
  {
    ('0' as int + d) as char
  }

  /** `str(n)` for a non-negative integer: decimal, no leading zeros. */
  function Decimal(n: nat): (s: string)
    ensures 1 <= |s|
    ensures forall i :: 0 <= i < |s| ==> IsDigit(s[i])
    ensures s[0] == '0' ==> n == 0
  {
    if n < 10 then [DigitChar(n)] else Decimal(n / 10) + [DigitChar(n % 10)]
  }

  /** Reads a string of decimal digits back as a number. */
  function ParseDecimal(s: string): nat
    requires forall i :: 0 <= i < |s| ==> IsDigit(s[i])
  {
    if s == [] then 0 else ParseDecimal(s[..|s| - 1]) * 10 + DigitValue(s[|s| - 1])
  }

  lemma {:induction false} DecimalRoundTrip(n: nat)
    ensures ParseDecimal(Decimal(n)) == n
  {
    if n >= 10 {
      DecimalRoundTrip(n / 10);
      var s := Decimal(n);
      assert s[..|s| - 1] == Decimal(n / 10);
    }
  }

  lemma DecimalInjective(m: nat, n: nat)
    requires Decimal(m) == Decimal(n)
    ensures m == n
  {
    DecimalRoundTrip(m);
    DecimalRoundTrip(n);
  }

  /** Inserts a comma before every group of three digits counted from the right. */
  function Group(s: string): string
  {
    if |s| <= 3 then s else Group(s[..|s| - 3]) + "," + s[|s| - 3..]
  }

  /**
   * `f"{n:,}"` for a non-negative count: the digits of `str(n)` with one
   * separator per full group of three after the first digit.
   */
  function HumanInt(n: nat): string
  {
    Group(Decimal(n))
  }

  function StripCommas(s: string): string
  {
    if s == [] then []
    else if s[|s| - 1] == ',' then StripCommas(s[..|s| - 1])
    else StripCommas(s[..|s| - 1]) + [s[|s| - 1]]
  }

  lemma {:induction false} StripCommasAppend(a: string, b: string)
    ensures StripCommas(a + b) == StripCommas(a) + StripCommas(b)
    decreases |b|
  {
    if b != [] {
      var b' := b[..|b| - 1];
      assert (a + b)[..|a + b| - 1] == a + b';
      StripCommasAppend(a, b');
    } else {
      assert a + b == a;
    }
  }

  lemma {:induction false} StripCommasOfDigits(s: string)
    requires forall i :: 0 <= i < |s| ==> IsDigit(s[i])
    ensures StripCommas(s) == s
  {
    if s != [] {
      StripCommasOfDigits(s[..|s| - 1]);
    }
  }

  /** Grouping a digit string keeps its digits: removing the commas gives it back. */
  lemma {:induction false} GroupStrip(s: string)
    requires forall i :: 0 <= i < |s| ==> IsDigit(s[i])
    ensures StripCommas(Group(s)) == s
  {
    if |s| <= 3 {
      StripCommasOfDigits(s);
    } else {
      var p, tail := s[..|s| - 3], s[|s| - 3..];
      GroupStrip(p);
      StripCommasAppend(Group(p) + ",", tail);
      StripCommasAppend(Group(p), ",");
      StripCommasOfDigits(tail);
      assert s == p + tail;
    }
  }

  lemma {:induction false} GroupLength(s: string)
    ensures |s| >= 1 ==> |Group(s)| == |s| + (|s| - 1) / 3
    ensures |s| > 3 ==> |Group(s)| == |Group(s[..|s| - 3])| + 4
  {
    if |s| > 3 {
      GroupLength(s[..|s| - 3]);
    }
  }

  /**
   * Grouping puts a comma exactly at the positions that lie a positive
   * multiple of four from the end, and nowhere else.
   */
  lemma {:induction false} GroupCommas(s: string)
    requires forall i :: 0 <= i < |s| ==> IsDigit(s[i])
    ensures forall i :: 0 <= i < |Group(s)| ==>
      (Group(s)[i] == ',' <==> 0 < i && (|Group(s)| - i) % 4 == 0)
  {
    if |s| > 3 {
      var p, tail := s[..|s| - 3], s[|s| - 3..];
      GroupCommas(p);
      GroupLength(s);
      var g, r := Group(p), Group(s);
      assert r == g + "," + tail;
      forall i | 0 <= i < |r|
        ensures r[i] == ',' <==> 0 < i && (|r| - i) % 4 == 0
      {
        CommaAfterGroup(g, tail, i);
      }
    }
  }

  /** Appending a comma and three digits to a grouped string keeps commas every fourth place from the end. */
  lemma CommaAfterGroup(g: string, tail: string, i: nat)
    requires |g| >= 1 && |tail| == 3 && forall j :: 0 <= j < 3 ==> IsDigit(tail[j])
    requires forall j :: 0 <= j < |g| ==> (g[j] == ',' <==> 0 < j && (|g| - j) % 4 == 0)
    requires i < |g| + 4
    ensures (g + "," + tail)[i] == ',' <==> 0 < i && (|g| + 4 - i) % 4 == 0
  {
    var r := g + "," + tail;
    if i < |g| {
      assert r[i] == g[i];
      assert |g| + 4 - i == (|g| - i) + 4;
    } else if i > |g| {
      assert r[i] == tail[i - |g| - 1];
      assert 0 < |g| + 4 - i < 4;
    }
  }

  /** `f"{n:,}"` reads back as `n` once its separators are removed. */
  lemma HumanIntRoundTrip(n: nat)
    ensures StripCommas(HumanInt(n)) == Decimal(n)
    ensures |HumanInt(n)| == |Decimal(n)| + (|Decimal(n)| - 1) / 3
    ensures ParseDecimal(StripCommas(HumanInt(n))) == n
    ensures forall i :: 0 <= i < |HumanInt(n)| ==>
      (HumanInt(n)[i] == ',' <==> 0 < i && (|HumanInt(n)| - i) % 4 == 0)
  {
    GroupStrip(Decimal(n));
    GroupCommas(Decimal(n));
    GroupLength(Decimal(n));
    DecimalRoundTrip(n);
  }

  predicate IsHexDigit(c: char) {
    '0' <= c <= '9' || 'A' <= c <= 'F'
  }

  function HexDigitValue(c: char): (d: nat)
    requires IsHexDigit(c)
    ensures d < 16
  {
    if c <= '9' then c as int - '0' as int else c as int - 'A' as int + 10
  }

  function HexDigitChar(d: nat): (c: char)
    requires d < 16
    ensures IsHexDigit(c) && HexDigitValue(c) == d
  {
    if d < 10 then ('0' as int + d) as char else ('A' as int + d - 10) as char
  }

  /** Upper-case hexadecimal without leading zeros. */
  function Hex(n: nat): (s: string)
    ensures 1 <= |s|
    ensures forall i :: 0 <= i < |s| ==> IsHexDigit(s[i])
  {
    if n < 16 then [HexDigitChar(n)] else Hex(n / 16) + [HexDigitChar(n % 16)]
  }

  function ParseHex(s: string): nat
    requires forall i :: 0 <= i < |s| ==> IsHexDigit(s[i])
  {
    if s == [] then 0 else ParseHex(s[..|s| - 1]) * 16 + HexDigitValue(s[|s| - 1])
  }

  lemma {:induction false} HexRoundTrip(n: nat)
    ensures ParseHex(Hex(n)) == n
  {
    if n >= 16 {
      HexRoundTrip(n / 16);
      var s := Hex(n);
      assert s[..|s| - 1] == Hex(n / 16);
    }
  }

  function Pow16(k: nat): (p: nat)
    ensures p >= 1
  {
    if k == 0 then 1 else 16 * Pow16(k - 1)
  }

  /** `Hex(n)` fits in `k` digits exactly when `n < 16^k`. */
  lemma {:induction false} HexLength(n: nat, k: nat)
    requires k >= 1
    ensures |Hex(n)| <= k <==> n < Pow16(k)
  {
    if n >= 16 && k > 1 {
      HexLength(n / 16, k - 1);
    }
  }

  lemma {:induction false} ParseHexLeadingZeros(k: nat, s: string)
    requires forall i :: 0 <= i < |s| ==> IsHexDigit(s[i])
    ensures forall i :: 0 <= i < |Zeros(k) + s| ==> IsHexDigit((Zeros(k) + s)[i])
    ensures ParseHex(Zeros(k) + s) == ParseHex(s)
    decreases |s|
  {
    if s == [] {
      assert Zeros(k) + s == Zeros(k);
      ZerosParse(k);
    } else {
      var s' := s[..|s| - 1];
      ParseHexLeadingZeros(k, s');
      assert (Zeros(k) + s)[..|Zeros(k) + s| - 1] == Zeros(k) + s';
    }
  }

  lemma {:induction false} ZerosParse(k: nat)
    ensures ParseHex(Zeros(k)) == 0
  {
    if k > 0 {
      ZerosParse(k - 1);
      assert Zeros(k)[..k - 1] == Zeros(k - 1);
    }
  }

  function Zeros(k: nat): (z: string)
    ensures |z| == k && forall i :: 0 <= i < k ==> z[i] == '0'
  {
    if k == 0 then [] else Zeros(k - 1) + "0"
  }

  /** `f"U+{cp:04X}"`: the hexadecimal of the codepoint, zero-padded to four digits. */
  function CodeLabel(c: char): string
  {
    var h := Hex(c as int);
    "U+" + (if |h| < 4 then Zeros(4 - |h|) else []) + h
  }

  /** The label starts with "U+", pads to four digits and reads back as the codepoint. */
  lemma CodeLabelRoundTrip(c: char)
    ensures |CodeLabel(c)| >= 6 && CodeLabel(c)[..2] == "U+"
    ensures forall i :: 2 <= i < |CodeLabel(c)| ==> IsHexDigit(CodeLabel(c)[i])
    ensures ParseHex(CodeLabel(c)[2..]) == c as int
    ensures |CodeLabel(c)| == 6 <==> c as int < 0x10000
    ensures |CodeLabel(c)| == 2 + (if |Hex(c as int)| < 4 then 4 else |Hex(c as int)|)
  {
    var h := Hex(c as int);
    var z := Zeros(if |h| < 4 then 4 - |h| else 0);
    var code := CodeLabel(c);
    assert code == "U+" + z + h by {
      if |h| >= 4 { assert Zeros(0) == []; }
    }
    assert code[2..] == z + h;
    assert |code| == 6 <==> |h| <= 4;
    assert |h| <= 4 <==> c as int < 0x10000 by {
      HexLength(c as int, 4);
      assert Pow16(4) == 0x10000;
    }
    assert ParseHex(code[2..]) == c as int by {
      HexRoundTrip(c as int);
      ParseHexLeadingZeros(|z|, h);
    }
  }
}
