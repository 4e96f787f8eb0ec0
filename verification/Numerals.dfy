/** Numerals, and what ECMAScript reads as a number. */
module Numerals {
  import opened Basics

  predicate IsDigit(c: char) {
    '0' <= c <= '9'
  }

  predicate AllDigits(s: string) {
    forall i :: 0 <= i < |s| ==> IsDigit(s[i])
  }

  function NumberOf(digits: string): nat
    requires AllDigits(digits)
  {
    if digits == "" then 0 else 10 * NumberOf(digits[..|digits| - 1]) + (digits[|digits| - 1] - '0') as nat
  }

  /** A number as the program turns it into text. */
  function Decimal(n: nat): (s: string)
    ensures s != "" && AllDigits(s) && NumberOf(s) == n && (n < 10 ==> |s| == 1) && (n >= 10 ==> s[0] != '0')
  {
    var last := ['0' + (n % 10) as char];
    if n < 10 then last
    else
      var s := Decimal(n / 10) + last;
      assert s[..|s| - 1] == Decimal(n / 10);
      s
  }

  /** Two digits at least: `(n < 10) ? '0' + n : n`. */
  function TwoDigits(n: nat): (s: string)
    ensures |s| >= 2 && AllDigits(s) && NumberOf(s) == n && (n < 10 ==> |s| == 2) && (n >= 10 ==> s[0] != '0')
  {
    if n < 10 then
      var s := "0" + Decimal(n);
      assert s[..1] == "0" && NumberOf("0") == 0;
      s
    else
      var s := Decimal(n);
      assert s[..|s| - 1] == Decimal(n / 10);
      s
  }

  /** A whole number as the program turns it into text. */
  function Signed(n: int): string {
    if n >= 0 then Decimal(n) else "-" + Decimal(-n)
  }

  // ---------------------------------------------------------------- reading numbers

  function TrimFront(s: string): string {
    if s != "" && IsSpace(s[0]) then TrimFront(s[1..]) else s
  }

  function TrimBack(s: string): string {
    if s != "" && IsSpace(s[|s| - 1]) then TrimBack(s[..|s| - 1]) else s
  }

  /** What a character is worth as a digit; 36 if it is none. */
  function DigitValue(c: char): nat {
    if IsDigit(c) then (c - '0') as nat
    else if 'a' <= c <= 'z' then (c - 'a') as nat + 10
    else if 'A' <= c <= 'Z' then (c - 'A') as nat + 10
    else 36
  }

  function Times(a: nat, b: nat): nat {
    a * b
  }

  /** At least one digit of the base, and nothing else. */
  function InBase(s: string, base: nat): Option<nat> {
    if s == "" || DigitValue(s[|s| - 1]) >= base then None
    else if |s| == 1 then Some(DigitValue(s[0]))
    else
      match InBase(s[..|s| - 1], base)
      case None => None
      case Some(n) => Some(Times(base, n) + DigitValue(s[|s| - 1]))
  }

  function Power(base: nat, n: nat): nat {
    if n == 0 then 1 else Times(base, Power(base, n - 1))
  }

  function WithoutPlus(s: string): string {
    if s != "" && s[0] == '+' then s[1..] else s
  }

  /** Where an exponent begins, or the end. */
  function ExponentAt(s: string): (i: nat)
    ensures i <= |s|
  {
    if s == "" || s[0] == 'e' || s[0] == 'E' then 0 else 1 + ExponentAt(s[1..])
  }

  /** Digits, and an exponent if there is one. */
  function DecimalLiteral(s: string): Option<nat> {
    var i := ExponentAt(s);
    if i == |s| then InBase(s, 10)
    else
      match InBase(s[..i], 10)
      case None => None
      case Some(m) =>
        match InBase(WithoutPlus(s[i + 1..]), 10)
        case None => None
        case Some(e) => Some(Times(m, Power(10, e)))
  }

  /** A number without blanks around it. */
  function Literal(s: string): Option<nat> {
    var mark := if |s| > 1 && s[0] == '0' then s[1] else ' ';
    if s == "" then Some(0)
    else if mark == 'x' || mark == 'X' then InBase(s[2..], 16)
    else if mark == 'o' || mark == 'O' then InBase(s[2..], 8)
    else if mark == 'b' || mark == 'B' then InBase(s[2..], 2)
    else DecimalLiteral(WithoutPlus(s))
  }

  /**
   * What ECMAScript's ToNumber makes of a text without points and minus signs, as a whole number; none stands for
   * NaN and for an infinity.
   */
  function ToNumber(text: string): Option<nat> {
    Literal(TrimBack(TrimFront(text)))
  }

  lemma {:induction false} DigitsInBase(s: string)
    requires s != "" && AllDigits(s)
    ensures InBase(s, 10) == Some(NumberOf(s))
  {
    if |s| == 1 {
      assert s[..0] == "";
    } else {
      DigitsInBase(s[..|s| - 1]);
    }
  }

  lemma {:induction false} NoExponent(s: string)
    requires AllDigits(s)
    ensures ExponentAt(s) == |s|
  {
    if s != "" {
      assert IsDigit(s[0]);
      NoExponent(s[1..]);
    }
  }

  /** Digits read as the number they stand for. */
  lemma DigitsRead(s: string)
    requires s != "" && AllDigits(s)
    ensures ToNumber(s) == Some(NumberOf(s))
  {
    assert IsDigit(s[0]) && IsDigit(s[|s| - 1]);
    assert TrimBack(TrimFront(s)) == s;
    NoExponent(s);
    DigitsInBase(s);
    hide InBase, NumberOf, ExponentAt;
    assert |s| > 1 ==> IsDigit(s[1]);
  }

  // ---------------------------------------------------------------- what numbers are read

  lemma {:induction false} TrimsFront(blanks: string, s: string)
    requires (forall i :: 0 <= i < |blanks| ==> IsSpace(blanks[i])) && (s == "" || !IsSpace(s[0]))
    ensures TrimFront(blanks + s) == s
  {
    if blanks == "" {
      Nothing(s);
    } else {
      assert (blanks + s)[0] == blanks[0] && (blanks + s)[1..] == blanks[1..] + s;
      TrimsFront(blanks[1..], s);
    }
  }

  lemma {:induction false} TrimsBack(s: string, blanks: string)
    requires (forall i :: 0 <= i < |blanks| ==> IsSpace(blanks[i])) && (s == "" || !IsSpace(s[|s| - 1]))
    ensures TrimBack(s + blanks) == s
    decreases |blanks|
  {
    if blanks == "" {
      Nothing(s);
    } else {
      var k := |blanks| - 1;
      assert (s + blanks)[|s + blanks| - 1] == blanks[k] && (s + blanks)[..|s + blanks| - 1] == s + blanks[..k];
      TrimsBack(s, blanks[..k]);
    }
  }

  /** Text that neither begins nor ends with a blank. */
  predicate IsTrimmed(s: string) {
    s == "" || (!IsSpace(s[0]) && !IsSpace(s[|s| - 1]))
  }

  predicate AreBlanks(s: string) {
    forall i :: 0 <= i < |s| ==> IsSpace(s[i])
  }

  /** Blanks around a number do not count. */
  lemma BlanksTrimmed(before: string, s: string, after: string)
    requires AreBlanks(before) && AreBlanks(after) && IsTrimmed(s)
    ensures ToNumber(before + (s + after)) == Literal(s)
  {
    hide Literal;
    AllTrimmed(before, s, after);
  }

  lemma AllTrimmed(before: string, s: string, after: string)
    requires AreBlanks(before) && AreBlanks(after) && IsTrimmed(s)
    ensures TrimBack(TrimFront(before + (s + after))) == s
  {
    hide IsSpace;
    if s == "" {
      assert before + (s + after) == (before + after) + "";
      TrimsFront(before + after, "");
    } else {
      TrimsFront(before, s + after);
      TrimsBack(s, after);
    }
  }

  /** Digits in another base behind their mark, in either case. */
  lemma MarkedRead(mark: char, digits: string)
    requires digits != ""
    ensures mark in "xX" ==> Literal(['0', mark] + digits) == InBase(digits, 16)
    ensures mark in "oO" ==> Literal(['0', mark] + digits) == InBase(digits, 8)
    ensures mark in "bB" ==> Literal(['0', mark] + digits) == InBase(digits, 2)
  {
    hide InBase, DecimalLiteral, WithoutPlus;
    var s := ['0', mark] + digits;
    assert s[0] == '0' && s[1] == mark && s[2..] == digits;
  }

  /** A plus sign in front of digits does not count. */
  lemma PlusRead(digits: string)
    requires digits != "" && AllDigits(digits)
    ensures Literal("+" + digits) == Literal(digits) == Some(NumberOf(digits))
  {
    hide InBase, NumberOf;
    var s := "+" + digits;
    assert s[0] == '+' && IsDigit(digits[0]) && s[1..] == digits && (|digits| > 1 ==> IsDigit(digits[1]));
    NoExponent(digits);
    DigitsInBase(digits);
  }

  lemma {:induction false} ExponentFound(digits: string, rest: string)
    requires AllDigits(digits) && rest != "" && rest[0] in "eE"
    ensures ExponentAt(digits + rest) == |digits|
  {
    if digits == "" {
      Nothing(rest);
    } else {
      assert IsDigit(digits[0]);
      assert (digits + rest)[0] == digits[0] && (digits + rest)[1..] == digits[1..] + rest;
      ExponentFound(digits[1..], rest);
    }
  }

  /** An exponent, with or without a plus sign, stands for as many zeros. */
  lemma ExponentRead(digits: string, e: char, plus: bool, exponent: string)
    requires digits != "" && AllDigits(digits) && e in "eE" && exponent != "" && AllDigits(exponent)
    ensures DecimalLiteral(digits + ([e] + ((if plus then "+" else "") + exponent))) ==
            Some(NumberOf(digits) * Power(10, NumberOf(exponent)))
  {
    hide InBase, NumberOf, Power, ExponentAt, WithoutPlus, AllDigits;
    var signed := (if plus then "+" else "") + exponent;
    var rest := [e] + signed;
    var s := digits + rest;
    ExponentFound(digits, rest);
    Pieces("", digits, rest);
    Nothing(s);
    Pieces(digits, [e], signed);
    SignDropped(plus, exponent);
    DigitsInBase(digits);
    DigitsInBase(exponent);
  }

  lemma SignDropped(plus: bool, digits: string)
    requires digits != "" && AllDigits(digits)
    ensures WithoutPlus((if plus then "+" else "") + digits) == digits
  {
    assert IsDigit(digits[0]);
    Nothing(digits);
    Head('+', digits);
  }

  /** The digits by their places, in either case. */
  lemma DigitValueIs(n: nat)
    requires n < 16
    ensures DigitValue("0123456789abcdef"[n]) == n && DigitValue("0123456789ABCDEF"[n]) == n
  {
  }
}
