/**
 * JavaScript's `parseInt(string, 16)` (section 19.2.5 of ECMA-262): skip leading
 * white space, take an optional sign, drop an optional "0x"/"0X", then read the
 * longest run of hexadecimal digits; no digits at all gives NaN (here `None`).
 */
module JsParseInt {
  import opened Wrappers

  predicate IsHexDigit(c: char) {
    '0' <= c <= '9' || 'a' <= c <= 'f' || 'A' <= c <= 'F'
  }

  predicate AllHex(s: string) {
    forall i :: 0 <= i < |s| ==> IsHexDigit(s[i])
  }

  function HexDigitValue(c: char): (v: nat)
    requires IsHexDigit(c)
    ensures v < 16
  {
    if '0' <= c <= '9' then c as int - '0' as int
    else if 'a' <= c <= 'f' then c as int - 'a' as int + 10
    else c as int - 'A' as int + 10
  }

  /** The unsigned big-endian value of a string of hexadecimal digits. */
  function HexValue(s: string): nat
    requires AllHex(s)
  {
    if |s| == 0 then 0 else HexValue(s[..|s| - 1]) * 16 + HexDigitValue(s[|s| - 1])
  }

  function Pow16(k: nat): (p: nat)
    ensures p >= 1
  {
    if k == 0 then 1 else 16 * Pow16(k - 1)
  }

  /** `k` hexadecimal digits never denote more than 16^k - 1. */
  lemma {:induction false} HexValueBound(s: string)
    requires AllHex(s)
    ensures HexValue(s) < Pow16(|s|)
    decreases |s|
  {
    if |s| > 0 {
      HexValueBound(s[..|s| - 1]);
    }
  }

  lemma {:induction false} Pow16Monotone(a: nat, b: nat)
    requires a <= b
    ensures Pow16(a) <= Pow16(b)
    decreases b
  {
    if a < b {
      Pow16Monotone(a, b - 1);
    }
  }

  /** StrWhiteSpaceChar of ECMA-262: WhiteSpace (including every space separator) and LineTerminator. */
  predicate IsJsWhitespace(c: char) {
    var k := c as int;
    k == 0x09 || k == 0x0A || k == 0x0B || k == 0x0C || k == 0x0D || k == 0x20
    || k == 0xA0 || k == 0x1680 || (0x2000 <= k <= 0x200A) || k == 0x2028 || k == 0x2029
    || k == 0x202F || k == 0x205F || k == 0x3000 || k == 0xFEFF
  }

  /** `s` without its leading white space. */
  function TrimStart(s: string): (r: string)
    ensures |r| <= |s| && r == s[|s| - |r|..]
    ensures forall i :: 0 <= i < |s| - |r| ==> IsJsWhitespace(s[i])
    ensures |r| > 0 ==> !IsJsWhitespace(r[0])
  {
    if |s| > 0 && IsJsWhitespace(s[0]) then
      var r := TrimStart(s[1..]);
      assert forall i :: 1 <= i < |s| - |r| ==> s[i] == s[1..][i - 1];
      r
    else s
  }

  /** The longest leading run of hexadecimal digits of `s`. */
  function HexPrefix(s: string): (p: string)
    ensures |p| <= |s| && p == s[..|p|]
    ensures AllHex(p)
    ensures |p| < |s| ==> !IsHexDigit(s[|p|])
  {
    if |s| > 0 && IsHexDigit(s[0]) then
      var p := HexPrefix(s[1..]);
      assert forall i :: 1 <= i <= |p| ==> ([s[0]] + p)[i] == s[1..][i - 1];
      [s[0]] + p
    else []
  }

  /** What follows the white space, the sign and the "0x" prefix: where the digits are read from. */
  function DigitsPart(s: string): string {
    UnsignedPart(TrimStart(s))
  }

  /** A trimmed input without its sign and "0x" prefix. */
  function UnsignedPart(t: string): string {
    var u := if |t| > 0 && (t[0] == '-' || t[0] == '+') then t[1..] else t;
    if |u| >= 2 && u[0] == '0' && (u[1] == 'x' || u[1] == 'X') then u[2..] else u
  }

  predicate IsNegative(s: string) {
    var t := TrimStart(s);
    |t| > 0 && t[0] == '-'
  }

  /** `parseInt(s, 16)`; `None` stands for NaN. A zero read after "-" is -0, which is 0 here. */
  function ParseInt16(s: string): (r: Option<int>)
    ensures r.None? <==> !(|DigitsPart(s)| > 0 && IsHexDigit(DigitsPart(s)[0]))
    ensures r.Some? ==> r.value < Pow16(|s|) && -r.value < Pow16(|s|)
  {
    var digits := HexPrefix(DigitsPart(s));
    if |digits| == 0 then None
    else
      HexValueBound(digits);
      Pow16Monotone(|digits|, |s|);
      var v: int := HexValue(digits);
      if IsNegative(s) then Some(-v) else Some(v)
  }

  /** 2^53 - 1: every integer of at most this magnitude is a JavaScript Number exactly. */
  const MaxSafeInteger: int := 0x1F_FFFF_FFFF_FFFF

  /**
   * JavaScript rounds the digits' value to a double (step 16 of section 19.2.5
   * of ECMA-262); an input of at most 13 characters reads below 2^52, where that
   * rounding changes nothing, so the exact integer here is the Number JavaScript gives.
   */
  lemma ShortInputIsExact(s: string)
    requires |s| <= 13
    ensures ParseInt16(s).Some? ==> -MaxSafeInteger <= ParseInt16(s).value <= MaxSafeInteger
  {
    Pow16Monotone(|s|, 13);
    assert Pow16(4) == 0x1_0000;
    assert Pow16(8) == 0x1_0000 * Pow16(4) by { Pow16Split(4, 4); }
    assert Pow16(13) == Pow16(8) * Pow16(5) by { Pow16Split(8, 5); }
  }

  lemma {:induction false} Pow16Split(a: nat, b: nat)
    ensures Pow16(a + b) == Pow16(a) * Pow16(b)
    decreases b
  {
    if b > 0 {
      Pow16Split(a, b - 1);
    }
  }

  /** A string that starts with a hex digit is read from its first character. */
  lemma DigitsPartOfHexStart(s: string)
    requires 0 < |s| && IsHexDigit(s[0])
    requires !(|s| >= 2 && s[0] == '0' && (s[1] == 'x' || s[1] == 'X'))
    ensures TrimStart(s) == s && !IsNegative(s) && DigitsPart(s) == s
  {
    HexDigitIsNotSpace(s[0]);
    assert TrimStart(s) == s;
    assert s[0] != '-' && s[0] != '+';
  }

  lemma HexDigitIsNotSpace(c: char)
    requires IsHexDigit(c)
    ensures !IsJsWhitespace(c) && c != '-' && c != '+'
  {
    assert 0x30 <= c as int <= 0x66;
  }

  /** Once the digits to read are known, the value is theirs. */
  lemma ParseUnsignedDigits(s: string, d: string)
    requires !IsNegative(s) && 0 < |d| && HexPrefix(DigitsPart(s)) == d
    ensures ParseInt16(s) == Some(HexValue(d))
  {
  }

  /** A non-empty run of hex digits alone reads as its unsigned big-endian value. */
  lemma ParseAllHex(s: string)
    requires 0 < |s| && AllHex(s)
    ensures ParseInt16(s) == Some(HexValue(s))
  {
    DigitsPartOfHexStart(s);
    HexPrefixOfDigits(s, []);
    assert s + [] == s;
    assert HexPrefix(DigitsPart(s)) == s;
    ParseUnsignedDigits(s, s);
  }

  /** Reading stops at the first character that is not a hexadecimal digit. */
  lemma {:induction false} HexPrefixOfDigits(d: string, rest: string)
    requires AllHex(d)
    requires |rest| > 0 ==> !IsHexDigit(rest[0])
    ensures HexPrefix(d + rest) == d
    decreases |d|
  {
    if |d| > 0 {
      assert (d + rest)[1..] == d[1..] + rest;
      HexPrefixOfDigits(d[1..], rest);
      assert [d[0]] + d[1..] == d;
    } else {
      assert d + rest == rest;
    }
  }

  lemma ParseDigitsThenStop(d: string, tail: string)
    requires 0 < |d| && AllHex(d) && 0 < |tail| && !IsHexDigit(tail[0])
    requires !(|d| == 1 && d[0] == '0' && (tail[0] == 'x' || tail[0] == 'X'))
    ensures ParseInt16(d + tail) == Some(HexValue(d))
  {
    var s := d + tail;
    assert s[0] == d[0];
    if |d| >= 2 {
      assert s[1] == d[1];
    } else {
      assert s[1] == tail[0];
    }
    DigitsPartOfHexStart(s);
    HexPrefixOfDigits(d, tail);
    assert HexPrefix(DigitsPart(s)) == d;
    ParseUnsignedDigits(s, d);
  }

  /** After a minus sign, the value is the negated value of the digits read. */
  lemma ParseNegativeDigits(s: string, d: string)
    requires IsNegative(s) && 0 < |d| && HexPrefix(DigitsPart(s)) == d
    ensures ParseInt16(s) == Some(-(HexValue(d) as int))
  {
  }

  /** Leading white space is skipped whatever follows it. */
  lemma {:induction false} TrimStartSkipsWhitespace(ws: string, t: string)
    requires forall i :: 0 <= i < |ws| ==> IsJsWhitespace(ws[i])
    ensures TrimStart(ws + t) == TrimStart(t)
    decreases |ws|
  {
    if |ws| > 0 {
      assert (ws + t)[0] == ws[0];
      assert (ws + t)[1..] == ws[1..] + t;
      TrimStartSkipsWhitespace(ws[1..], t);
    } else {
      assert ws + t == t;
    }
  }

  /** White space in front of the input changes nothing: `parseInt(ws + t, 16)` is `parseInt(t, 16)`. */
  lemma ParseIgnoresLeadingWhitespace(ws: string, t: string)
    requires forall i :: 0 <= i < |ws| ==> IsJsWhitespace(ws[i])
    ensures ParseInt16(ws + t) == ParseInt16(t)
  {
    TrimStartSkipsWhitespace(ws, t);
    ParseSeesOnlyTrimmed(ws + t, t);
  }

  /** The parse reads nothing before the first character that is not white space. */
  lemma ParseSeesOnlyTrimmed(s: string, t: string)
    requires TrimStart(s) == TrimStart(t)
    ensures ParseInt16(s) == ParseInt16(t)
  {
    assert DigitsPart(s) == DigitsPart(t);
    assert IsNegative(s) == IsNegative(t);
    var d := HexPrefix(DigitsPart(s));
    assert d == HexPrefix(DigitsPart(t));
    if |d| == 0 {
      assert ParseInt16(s) == None;
      assert ParseInt16(t) == None;
    } else if IsNegative(s) {
      ParseNegativeDigits(s, d);
      ParseNegativeDigits(t, d);
    } else {
      ParseUnsignedDigits(s, d);
      ParseUnsignedDigits(t, d);
    }
  }

  /** White space, a minus sign and hex digits read as the negated digits: " -abc" is -2748. */
  lemma ParseSignedAfterWhitespace(ws: string, d: string)
    requires forall i :: 0 <= i < |ws| ==> IsJsWhitespace(ws[i])
    requires 0 < |d| && AllHex(d)
    ensures ParseInt16(ws + ("-" + d)) == Some(-(HexValue(d) as int))
  {
    var t := "-" + d;
    ParseIgnoresLeadingWhitespace(ws, t);
    NegativeDigitsPart(d);
    HexPrefixOfDigits(d, []);
    assert d + [] == d;
    ParseNegativeDigits(t, d);
  }

  lemma NegativeDigitsPart(d: string)
    requires 0 < |d| && AllHex(d)
    ensures IsNegative("-" + d) && DigitsPart("-" + d) == d
  {
    var t := "-" + d;
    assert TrimStart(t) == t;
    assert t[1..] == d;
    if |d| >= 2 {
      assert IsHexDigit(d[1]);
    }
  }

  /**
   * Digits followed by a non-digit read as the digits alone, unless the string
   * is "0x…" / "0X…", where the "0" starts a hexadecimal prefix instead.
   */
  lemma ParseStopsAtNonHex(d: string, c: char, rest: string)
    requires 0 < |d| && AllHex(d) && !IsHexDigit(c)
    requires !(|d| == 1 && d[0] == '0' && (c == 'x' || c == 'X'))
    ensures ParseInt16(d + [c] + rest) == Some(HexValue(d))
  {
    var tail := [c] + rest;
    assert tail[0] == c;
    assert d + [c] + rest == d + tail;
    ParseDigitsThenStop(d, tail);
  }

  /** A leading "0x" is skipped: parseInt("0x1F", 16) is 31. */
  lemma HexPrefixSkipped()
    ensures ParseInt16("0x1F") == Some(31)
  {
    var s := "0x1F";
    assert !IsJsWhitespace(s[0]);
    assert TrimStart(s) == s;
    assert s[2..] == "1F";
    assert DigitsPart(s) == "1F";
    HexPrefixOfDigits("1F", []);
    assert "1F" + [] == "1F";
    assert HexValue("1F"[..1]) == 1;
    assert !IsNegative(s);
  }

  /** "0x" with no digits after it is NaN. */
  lemma BarePrefixIsNaN()
    ensures ParseInt16("0x") == None
  {
    var s := "0x";
    assert !IsJsWhitespace(s[0]);
    assert TrimStart(s) == s;
    assert DigitsPart(s) == [];
  }

  /** No hex digit at all is NaN. */
  lemma NoDigitsIsNaN()
    ensures ParseInt16("zz") == None
    ensures ParseInt16("") == None
  {
    var s := "zz";
    assert !IsJsWhitespace(s[0]);
    assert TrimStart(s) == s;
    assert DigitsPart(s) == s;
    assert !IsHexDigit(s[0]);
  }

  lemma HexValueSnoc(p: string, c: char)
    requires AllHex(p) && IsHexDigit(c)
    ensures AllHex(p + [c])
    ensures HexValue(p + [c]) == HexValue(p) * 16 + HexDigitValue(c)
  {
    assert (p + [c])[..|p|] == p;
  }

  /** The first eight characters of an ObjectId-style identifier, as seconds since the epoch. */
  lemma ObjectIdPrefixExample()
    ensures ParseInt16("5f1b2c3d") == Some(1595616317)
  {
    var s0: string := [];
    HexValueSnoc(s0, '5');
    var s1 := s0 + ['5'];
    HexValueSnoc(s1, 'f');
    var s2 := s1 + ['f'];
    assert HexValue(s2) == 0x5f;
    HexValueSnoc(s2, '1');
    var s3 := s2 + ['1'];
    HexValueSnoc(s3, 'b');
    var s4 := s3 + ['b'];
    assert HexValue(s4) == 0x5f1b;
    HexValueSnoc(s4, '2');
    var s5 := s4 + ['2'];
    HexValueSnoc(s5, 'c');
    var s6 := s5 + ['c'];
    assert HexValue(s6) == 0x5f1b2c;
    HexValueSnoc(s6, '3');
    var s7 := s6 + ['3'];
    HexValueSnoc(s7, 'd');
    var s8 := s7 + ['d'];
    assert HexValue(s8) == 0x5f1b2c3d;
    assert s8 == "5f1b2c3d";
    ParseAllHex(s8);
  }
}
