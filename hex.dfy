/** Hexadecimal text as the decoder reads it: the one upper-casing of the
    payload, digit values, fixed-width unsigned numbers (what `parseInt(_, 16)`
    yields on a well-formed digit string), and the inverse encoding. */
module Hex {
  import opened Results

  predicate IsLower(c: char) {
    'a' <= c <= 'z'
  }

  function UpperChar(c: char): char {
    if IsLower(c) then (c as int - 32) as char else c
  }

  /** ASCII upper-casing of the whole payload, applied once before decoding. */
  function ToUpper(s: string): (u: string)
    ensures |u| == |s|
    ensures forall i :: 0 <= i < |u| ==> !IsLower(u[i])
    ensures forall i :: 0 <= i < |s| && IsLower(s[i]) ==> u[i] as int == s[i] as int - 32
    ensures forall i :: 0 <= i < |s| && !IsLower(s[i]) ==> u[i] == s[i]
  {
    seq(|s|, i requires 0 <= i < |s| => UpperChar(s[i]))
  }

  /** The upper-case digit for a value below 16. */
  function HexChar(d: nat): char
    requires d < 16
  {
    if d < 10 then ('0' as int + d) as char else ('A' as int + d - 10) as char
  }

  /** Value of one upper-case hex digit; `None` for any other character. */
  function HexDigit(c: char): (d: Option<nat>)
    ensures d.Some? ==> d.value < 16 && HexChar(d.value) == c
    ensures d.None? ==> forall v :: 0 <= v < 16 ==> HexChar(v) != c
  {
    if '0' <= c <= '9' then Some(c as int - '0' as int)
    else if 'A' <= c <= 'F' then Some(c as int - 'A' as int + 10)
    else None
  }

  predicate IsHex(s: string) {
    forall i :: 0 <= i < |s| ==> HexDigit(s[i]).Some?
  }

  function Pow16(width: nat): (p: nat)
    ensures p >= 1
  {
    if width == 0 then 1 else 16 * Pow16(width - 1)
  }

  /** Big-endian value of a digit string: defined exactly when every
      character is a hex digit, and below 16^|s|. */
  function HexValue(s: string): (r: Option<nat>)
    ensures r.Some? ==> r.value < Pow16(|s|)
    decreases |s|
  {
    if s == [] then Some(0)
    else
      match HexValue(s[..|s| - 1])
      case None => None
      case Some(high) =>
        match HexDigit(s[|s| - 1])
        case None => None
        case Some(d) => Some(high * 16 + d)
  }

  /** A digit string has a value exactly when all its characters are hex digits. */
  lemma {:induction false} HexValueDefined(s: string)
    ensures HexValue(s).Some? <==> IsHex(s)
    decreases |s|
  {
    if s != [] {
      var init := s[..|s| - 1];
      HexValueDefined(init);
      assert IsHex(s) <==> IsHex(init) && HexDigit(s[|s| - 1]).Some?;
    }
  }

  /** `width` upper-case digits of `v`, most significant first. */
  function ToHex(v: nat, width: nat): (s: string)
    ensures |s| == width
    ensures IsHex(s)
  {
    if width == 0 then [] else ToHex(v / 16, width - 1) + [HexChar(v % 16)]
  }

  lemma HexDigitOfChar(d: nat)
    requires d < 16
    ensures HexDigit(HexChar(d)) == Some(d)
  {
  }

  /** Reading back an encoding gives the value it encodes. */
  lemma {:induction false} HexRoundTrip(v: nat, width: nat)
    requires v < Pow16(width)
    ensures HexValue(ToHex(v, width)) == Some(v)
  {
    if width > 0 {
      var s := ToHex(v, width);
      assert s[..width - 1] == ToHex(v / 16, width - 1);
      HexRoundTrip(v / 16, width - 1);
      HexDigitOfChar(v % 16);
    }
  }

  /** Encoding a readable digit string's value gives the string back. */
  lemma {:induction false} ToHexOfValue(s: string)
    requires HexValue(s).Some?
    ensures ToHex(HexValue(s).value, |s|) == s
  {
    if s != [] {
      var init := s[..|s| - 1];
      var high := HexValue(init).value;
      var d := HexDigit(s[|s| - 1]).value;
      var v := high * 16 + d;
      assert v / 16 == high && v % 16 == d;
      ToHexOfValue(init);
      assert s == init + [s[|s| - 1]];
    }
  }

  /** Upper-casing leaves a hex digit string unchanged. */
  lemma UpperOfHex(s: string)
    requires IsHex(s)
    ensures ToUpper(s) == s
  {
    assert forall i :: 0 <= i < |s| ==> !IsLower(s[i]) by {
      forall i | 0 <= i < |s| ensures !IsLower(s[i]) {
        var d := HexDigit(s[i]).value;
        assert HexChar(d) == s[i];
      }
    }
  }

  /** A string spelled with upper-case hex digits only is unchanged by upper-casing. */
  lemma UpperOfDigits(s: string)
    requires forall i :: 0 <= i < |s| ==> s[i] in "0123456789ABCDEF"
    ensures ToUpper(s) == s
  {
    assert IsHex(s);
    UpperOfHex(s);
  }

  /** Upper-casing twice is upper-casing once. */
  lemma UpperTwice(s: string)
    ensures ToUpper(ToUpper(s)) == ToUpper(s)
  {
    var u := ToUpper(s);
    assert forall i :: 0 <= i < |u| ==> UpperChar(u[i]) == u[i];
  }

  /** A four-digit field is read big-endian: 4096, 256, 16 and 1 times its digits. */
  lemma HexValueFour(s: string)
    requires |s| == 4 && IsHex(s)
    ensures HexValue(s) == Some(
      4096 * HexDigit(s[0]).value + 256 * HexDigit(s[1]).value + 16 * HexDigit(s[2]).value + HexDigit(s[3]).value)
  {
    var d0, d1, d2, d3 := HexDigit(s[0]).value, HexDigit(s[1]).value, HexDigit(s[2]).value, HexDigit(s[3]).value;
    assert s[..1][..0] == [] && s[..1][0] == s[0];
    assert HexValue(s[..1]) == Some(d0);
    assert s[..2][..1] == s[..1] && s[..2][1] == s[1];
    assert HexValue(s[..2]) == Some(d0 * 16 + d1);
    assert s[..3][..2] == s[..2] && s[..3][2] == s[2];
    assert HexValue(s[..3]) == Some((d0 * 16 + d1) * 16 + d2);
    assert HexValue(s) == Some(((d0 * 16 + d1) * 16 + d2) * 16 + d3);
  }
}
