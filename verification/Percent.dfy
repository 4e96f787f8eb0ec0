/** Percent-encoding, section 2.1 of RFC 3986, of the bytes of a text: a text is a string of characters below 256. */
module Percent {
  import opened Basics

  predicate IsBytes(s: string) {
    forall i :: 0 <= i < |s| ==> s[i] < 256 as char
  }

  predicate IsAlphanumeric(c: char) {
    'A' <= c <= 'Z' || 'a' <= c <= 'z' || '0' <= c <= '9'
  }

  /** What `encodeURIComponent` leaves alone. */
  predicate IsUnescaped(c: char) {
    IsAlphanumeric(c) || c in "-_.!~*'()"
  }

  predicate IsHex(c: char) {
    '0' <= c <= '9' || 'A' <= c <= 'F' || 'a' <= c <= 'f'
  }

  function HexValue(c: char): (n: nat)
    requires IsHex(c)
    ensures n < 16
  {
    if c <= '9' then (c - '0') as nat else if c <= 'F' then (c - 'A') as nat + 10 else (c - 'a') as nat + 10
  }

  function HexDigit(n: nat): (c: char)
    requires n < 16
    ensures IsHex(c) && IsAlphanumeric(c) && HexValue(c) == n
  {
    if n < 10 then '0' + n as char else 'A' + (n - 10) as char
  }

  /** The triplet of a byte, in capital digits. */
  function Triplet(c: char): string
    requires c < 256 as char
  {
    ['%', HexDigit(c as nat / 16), HexDigit(c as nat % 16)]
  }

  lemma TripletReads(c: char)
    requires c < 256 as char
    ensures var t := Triplet(c);
            |t| == 3 && t[0] == '%' && IsHex(t[1]) && IsHex(t[2]) && 16 * HexValue(t[1]) + HexValue(t[2]) == c as nat
  {
  }

  function EncodeComponent(s: string): string
    requires IsBytes(s)
  {
    if s == "" then ""
    else
      (if IsUnescaped(s[0]) then [s[0]] else Triplet(s[0])) + EncodeComponent(s[1..])
  }

  /** `decodeURIComponent`; none when a percent sign does not start a triplet. */
  function DecodeComponent(s: string): Option<string> {
    if s == "" then Some("")
    else if s[0] != '%' then
      match DecodeComponent(s[1..])
      case None => None
      case Some(r) => Some([s[0]] + r)
    else if |s| < 3 || !IsHex(s[1]) || !IsHex(s[2]) then None
    else
      match DecodeComponent(s[3..])
      case None => None
      case Some(r) => Some([(16 * HexValue(s[1]) + HexValue(s[2])) as char] + r)
  }

  lemma {:induction false} DecodeEncode(s: string)
    requires IsBytes(s)
    ensures DecodeComponent(EncodeComponent(s)) == Some(s)
  {
    if s != "" {
      var c, rest := s[0], s[1..];
      DecodeEncode(rest);
      var out := EncodeComponent(s);
      if IsUnescaped(c) {
        assert out[0] == c && out[1..] == EncodeComponent(rest);
      } else {
        hide Triplet;
        TripletReads(c);
        assert out == Triplet(c) + EncodeComponent(rest);
        assert out[0] == '%' && out[1] == Triplet(c)[1] && out[2] == Triplet(c)[2];
        assert out[3..] == EncodeComponent(rest);
      }
      assert s == [c] + rest;
    }
  }

  predicate IsPlain(s: string) {
    forall i :: 0 <= i < |s| ==> s[i] == '%' || IsUnescaped(s[i])
  }

  /** Nothing that delimits the parts of a query string is left in encoded text. */
  lemma {:induction false} EncodedIsPlain(s: string)
    requires IsBytes(s)
    ensures IsPlain(EncodeComponent(s))
    ensures EncodeComponent(s) == "" <==> s == ""
  {
    if s != "" {
      EncodedIsPlain(s[1..]);
      var head := if IsUnescaped(s[0]) then [s[0]] else Triplet(s[0]);
      assert IsPlain(head);
    }
  }

  /** Decoding text that is not empty gives text that is not empty. */
  lemma DecodedIsNotEmpty(s: string)
    requires s != "" && DecodeComponent(s).Some?
    ensures DecodeComponent(s).value != ""
  {
  }

  // ---------------------------------------------------------------- the characters by name

  /** Section 2.3 of RFC 3986. */
  predicate RfcUnreserved(c: char) {
    'A' <= c <= 'Z' || 'a' <= c <= 'z' || '0' <= c <= '9' || c == '-' || c == '.' || c == '_' || c == '~'
  }

  const HEX_DIGITS := "0123456789ABCDEF"

  /** Section 2.1 of RFC 3986, in the capital digits it recommends. */
  function RfcTriplet(c: char): string
    requires c < 256 as char
  {
    ['%', HEX_DIGITS[c as nat / 16], HEX_DIGITS[c as nat % 16]]
  }

  lemma TripletIsRfc(c: char)
    requires c < 256 as char
    ensures Triplet(c) == RfcTriplet(c)
  {
    HexDigitIs(c as nat / 16);
    HexDigitIs(c as nat % 16);
  }

  lemma HexDigitIs(n: nat)
    requires n < 16
    ensures HexDigit(n) == HEX_DIGITS[n]
  {
  }

  /** What encoding a component of an address should give: unreserved characters and `!*'()` as they are. */
  function RfcComponent(s: string): string
    requires IsBytes(s)
  {
    if s == "" then ""
    else (if RfcUnreserved(s[0]) || s[0] in "!*'()" then [s[0]] else RfcTriplet(s[0])) + RfcComponent(s[1..])
  }

  lemma {:induction false} ComponentIsRfc(s: string)
    requires IsBytes(s)
    ensures EncodeComponent(s) == RfcComponent(s)
  {
    hide Triplet, RfcTriplet;
    if s != "" {
      ComponentIsRfc(s[1..]);
      TripletIsRfc(s[0]);
      assert s[0] in "-_.!~*'()" <==> s[0] in "-_.~" || s[0] in "!*'()";
    }
  }

  const LOWER_HEX_DIGITS := "0123456789abcdef"

  predicate RfcHex(c: char) {
    c in HEX_DIGITS || c in LOWER_HEX_DIGITS
  }

  /** Hexadecimal digits in both cases stand for their places. */
  lemma HexValueIs(n: nat)
    requires n < 16
    ensures IsHex(HEX_DIGITS[n]) && HexValue(HEX_DIGITS[n]) == n
    ensures IsHex(LOWER_HEX_DIGITS[n]) && HexValue(LOWER_HEX_DIGITS[n]) == n
  {
  }

  lemma HexByName(c: char)
    ensures IsHex(c) <==> RfcHex(c)
  {
    if '0' <= c <= '9' {
      assert HEX_DIGITS[(c - '0') as nat] == c;
    } else if 'A' <= c <= 'F' {
      assert HEX_DIGITS[(c - 'A') as nat + 10] == c;
    } else if 'a' <= c <= 'f' {
      assert LOWER_HEX_DIGITS[(c - 'a') as nat + 10] == c;
    }
    assert forall i :: 0 <= i < 16 ==> IsHex(HEX_DIGITS[i]) && IsHex(LOWER_HEX_DIGITS[i]);
  }

  /** Every percent sign begins a triplet. */
  predicate WellFormed(s: string) {
    forall i :: 0 <= i < |s| && s[i] == '%' ==> i + 2 < |s| && RfcHex(s[i + 1]) && RfcHex(s[i + 2])
  }

  lemma WellFormedTail(s: string, k: nat)
    requires k <= |s| && (forall i :: 0 <= i < k && s[i] == '%' ==> i + 2 < |s| && RfcHex(s[i + 1]) && RfcHex(s[i + 2]))
    ensures WellFormed(s) <==> WellFormed(s[k..])
  {
    hide RfcHex;
    var t := s[k..];
    forall i | 0 <= i < |t|
      ensures t[i] == s[k + i]
    {
    }
    if WellFormed(t) {
      forall i | 0 <= i < |s| && s[i] == '%'
        ensures i + 2 < |s| && RfcHex(s[i + 1]) && RfcHex(s[i + 2])
      {
        if i >= k {
          assert t[i - k] == '%';
          assert t[i - k + 1] == s[i + 1] && t[i - k + 2] == s[i + 2];
        }
      }
    }
    if WellFormed(s) {
      forall i | 0 <= i < |t| && t[i] == '%'
        ensures i + 2 < |t| && RfcHex(t[i + 1]) && RfcHex(t[i + 2])
      {
        assert s[k + i] == '%';
      }
    }
  }

  /** Decoding fails exactly for a percent sign that no two hexadecimal digits follow. */
  lemma {:induction false} DecodesWellFormed(s: string)
    ensures DecodeComponent(s).Some? <==> WellFormed(s)
    decreases |s|
  {
    hide RfcHex, IsHex, WellFormed, HexValue;
    if s == "" {
      EmptyIsWellFormed();
    } else if s[0] != '%' {
      DecodesWellFormed(s[1..]);
      WellFormedTail(s, 1);
    } else if |s| >= 3 {
      HexByName(s[1]);
      HexByName(s[2]);
      if IsHex(s[1]) && IsHex(s[2]) {
        DecodesWellFormed(s[3..]);
        TripletFits(s);
      } else {
        FirstIsMalformed(s);
      }
    } else {
      FirstIsMalformed(s);
    }
  }

  lemma EmptyIsWellFormed()
    ensures WellFormed("")
  {
  }

  lemma FirstIsMalformed(s: string)
    requires s != "" && s[0] == '%' && (|s| < 3 || !RfcHex(s[1]) || !RfcHex(s[2]))
    ensures !WellFormed(s)
  {
  }

  lemma TripletFits(s: string)
    requires |s| >= 3 && s[0] == '%' && RfcHex(s[1]) && RfcHex(s[2])
    ensures WellFormed(s) <==> WellFormed(s[3..])
  {
    assert s[1] != '%' && s[2] != '%' by {
      PercentIsNoHex(s[1]);
      PercentIsNoHex(s[2]);
    }
    WellFormedTail(s, 3);
  }

  lemma PercentIsNoHex(c: char)
    requires RfcHex(c)
    ensures c != '%'
  {
  }
}
