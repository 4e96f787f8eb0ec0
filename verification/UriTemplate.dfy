/** Reserved expansion in URI templates: encode everything but what is legal or encoded already. */
module UriTemplate {
  import opened Basics
  import opened Percent

  predicate IsTripletAt(s: string, i: nat) {
    i + 2 < |s| && s[i] == '%' && IsHex(s[i + 1]) && IsHex(s[i + 2])
  }

  /** Where the first triplet starts, or the end. */
  function FirstTriplet(s: string): (i: nat)
    ensures i <= |s| && (i < |s| ==> IsTripletAt(s, i))
  {
    if s == "" || IsTripletAt(s, 0) then 0 else 1 + FirstTriplet(s[1..])
  }

  /** `str.split(/(%[0-9A-Fa-f]{2})/g)`: text and triplets in turn. */
  function Parts(s: string): (parts: seq<string>)
    ensures parts != []
    decreases |s|
  {
    var i := FirstTriplet(s);
    if i == |s| then [s] else [s[..i], s[i..i + 3]] + Parts(s[i + 3..])
  }

  /** `/%[0-9A-Fa-f]/`: one digit is enough. */
  predicate HasPercentDigit(s: string) {
    s != "" && ((|s| > 1 && s[0] == '%' && IsHex(s[1])) || HasPercentDigit(s[1..]))
  }

  /** What `encodeURI` leaves alone. */
  predicate IsUriCharacter(c: char) {
    IsUnescaped(c) || c in ";,/?:@&=+$#"
  }

  function EncodeUri(s: string): string
    requires IsBytes(s)
  {
    if s == "" then "" else (if IsUriCharacter(s[0]) then [s[0]] else Triplet(s[0])) + EncodeUri(s[1..])
  }

  /** Global replacement of a three-character text by one character. */
  function Restore(s: string, triplet: string, c: char): string
    requires |triplet| == 3
    decreases |s|
  {
    if s == "" then ""
    else if triplet <= s then [c] + Restore(s[3..], triplet, c)
    else [s[0]] + Restore(s[1..], triplet, c)
  }

  function EncodePart(part: string): string
    requires IsBytes(part)
  {
    if HasPercentDigit(part) then part else Restore(Restore(EncodeUri(part), "%5B", '['), "%5D", ']')
  }

  function EncodeParts(parts: seq<string>): string
    requires forall i :: 0 <= i < |parts| ==> IsBytes(parts[i])
  {
    if parts == [] then "" else EncodePart(parts[0]) + EncodeParts(parts[1..])
  }

  /** `encodeReserved`. */
  function EncodeReserved(s: string): string
    requires IsBytes(s)
  {
    PartsAreBytes(s);
    EncodeParts(Parts(s))
  }

  lemma {:induction false} PartsAreBytes(s: string)
    requires IsBytes(s)
    ensures forall i :: 0 <= i < |Parts(s)| ==> IsBytes(Parts(s)[i])
    decreases |s|
  {
    var i := FirstTriplet(s);
    if i < |s| {
      PartsAreBytes(s[i + 3..]);
    }
  }

  // ---------------------------------------------------------------- one part

  /** The characters that a part without escapes keeps. */
  predicate IsKept(c: char) {
    IsUriCharacter(c) || c == '[' || c == ']'
  }

  function EncodeChar(c: char): string
    requires c < 256 as char
  {
    if IsKept(c) then [c] else Triplet(c)
  }

  function EncodeChars(s: string): string
    requires IsBytes(s)
  {
    if s == "" then "" else EncodeChar(s[0]) + EncodeChars(s[1..])
  }

  /** The encoding of one character once `[` and then `]` are restored. */
  function Stage(c: char, open: bool, close: bool): string
    requires c < 256 as char
  {
    if IsUriCharacter(c) || (open && c == '[') || (close && c == ']') then [c] else Triplet(c)
  }

  function Stages(s: string, open: bool, close: bool): string
    requires IsBytes(s)
  {
    if s == "" then "" else Stage(s[0], open, close) + Stages(s[1..], open, close)
  }

  lemma {:induction false} RestoreOpen(s: string)
    requires IsBytes(s)
    ensures Restore(Stages(s, false, false), "%5B", '[') == Stages(s, true, false)
  {
    if s != "" {
      RestoreOpen(s[1..]);
      RestoreHead(s[0], '[', Stages(s[1..], false, false), false);
    }
  }

  lemma {:induction false} RestoreClose(s: string)
    requires IsBytes(s)
    ensures Restore(Stages(s, true, false), "%5D", ']') == Stages(s, true, true)
  {
    if s != "" {
      RestoreClose(s[1..]);
      RestoreHead(s[0], ']', Stages(s[1..], true, false), true);
    }
  }

  lemma BracketTriplets()
    ensures Triplet('[') == "%5B" && Triplet(']') == "%5D"
  {
    assert '[' as nat == 91 && ']' as nat == 93;
    assert 91 / 16 == 5 && 91 % 16 == 11 && 93 / 16 == 5 && 93 % 16 == 13;
    assert HexDigit(5) == '5' && HexDigit(11) == 'B' && HexDigit(13) == 'D';
  }

  lemma TripletInjective(c: char, d: char)
    requires c < 256 as char && d < 256 as char && Triplet(c) == Triplet(d)
    ensures c == d
  {
    TripletReads(c);
    TripletReads(d);
  }

  lemma RestorePast(c: char, s: string, t: string, d: char)
    requires |t| == 3 && c != t[0]
    ensures Restore([c] + s, t, d) == [c] + Restore(s, t, d)
  {
    Head(c, s);
  }

  /** Another triplet is passed over whole: its digits do not start one. */
  lemma RestoreOther(x: string, rest: string, t: string, d: char)
    requires |x| == 3 && |t| == 3 && x != t && t[0] == '%' && x[1] != '%' && x[2] != '%'
    ensures Restore(x + rest, t, d) == x + Restore(rest, t, d)
  {
    var s := x + rest;
    assert s[..3] == x;
    assert s[0] == x[0] && s[1..] == [x[1]] + ([x[2]] + rest);
    RestorePast(x[1], [x[2]] + rest, t, d);
    RestorePast(x[2], rest, t, d);
    assert [x[0]] + ([x[1]] + ([x[2]] + Restore(rest, t, d))) == x + Restore(rest, t, d);
  }

  lemma RestoreSame(t: string, rest: string, d: char)
    requires |t| == 3
    ensures Restore(t + rest, t, d) == [d] + Restore(rest, t, d)
  {
    var s := t + rest;
    assert t <= s && s[3..] == rest;
  }

  /** Restoring looks at one encoded character at a time: a bracket's triplet is no other character's. */
  lemma RestoreHead(c: char, bracket: char, rest: string, open: bool)
    requires c < 256 as char && (bracket == '[' || bracket == ']')
    requires open <==> bracket == ']'
    ensures Restore(Stage(c, open, false) + rest, Triplet(bracket), bracket) ==
            (if c == bracket then [bracket] else Stage(c, open, false)) + Restore(rest, Triplet(bracket), bracket)
    ensures Triplet('[') == "%5B" && Triplet(']') == "%5D"
  {
    hide Triplet, Restore;
    BracketTriplets();
    TripletReads(c);
    TripletReads(bracket);
    var t := Triplet(bracket);
    if Stage(c, open, false) == [c] {
      RestorePast(c, rest, t, bracket);
    } else if c == bracket {
      RestoreSame(t, rest, bracket);
    } else {
      if Triplet(c) == t {
        TripletInjective(c, bracket);
      }
      RestoreOther(Triplet(c), rest, t, bracket);
    }
  }

  lemma {:induction false} StagesAre(s: string)
    requires IsBytes(s)
    ensures Stages(s, false, false) == EncodeUri(s) && Stages(s, true, true) == EncodeChars(s)
  {
    if s != "" {
      StagesAre(s[1..]);
    }
  }

  /** A part without a percent sign before a digit is encoded character by character, brackets kept. */
  lemma PartByCharacter(part: string)
    requires IsBytes(part) && !HasPercentDigit(part)
    ensures EncodePart(part) == EncodeChars(part)
  {
    StagesAre(part);
    RestoreOpen(part);
    RestoreClose(part);
  }

  // ---------------------------------------------------------------- steps

  lemma PartsSplit(s: string)
    ensures var i := FirstTriplet(s);
            Parts(s) == if i == |s| then [s] else [s[..i], s[i..i + 3]] + Parts(s[i + 3..])
  {
    hide FirstTriplet, IsTripletAt;
  }

  /** The first triplet stays in its place as it is written, and the text in front of it is encoded on its own. */
  lemma ReservedParts(s: string)
    requires IsBytes(s)
    ensures var i := FirstTriplet(s);
            EncodeReserved(s) ==
            if i == |s| then EncodePart(s) else EncodePart(s[..i]) + s[i..i + 3] + EncodeReserved(s[i + 3..])
  {
    hide EncodePart, EncodeParts, IsBytes, FirstTriplet;
    var i := FirstTriplet(s);
    PartsAreBytes(s);
    PartsSplit(s);
    hide Parts;
    if i == |s| {
      OnePart(s);
    } else {
      BytesWithin(s, i);
      PartsAreBytes(s[i + 3..]);
      TripletPart(s, i);
      TwoParts(s[..i], s[i..i + 3], Parts(s[i + 3..]), Parts(s));
    }
  }

  lemma BytesWithin(s: string, i: nat)
    requires IsBytes(s) && i + 3 <= |s|
    ensures IsBytes(s[..i]) && IsBytes(s[i..i + 3]) && IsBytes(s[i + 3..])
  {
  }

  lemma OnePart(p: string)
    requires IsBytes(p)
    ensures EncodeParts([p]) == EncodePart(p)
  {
    hide EncodePart;
    assert [p][1..] == [];
    Nothing(EncodePart(p));
  }

  lemma TwoParts(p: string, t: string, rest: seq<string>, parts: seq<string>)
    requires parts == [p, t] + rest
    requires IsBytes(p) && IsBytes(t) && forall i :: 0 <= i < |parts| ==> IsBytes(parts[i])
    ensures (forall i :: 0 <= i < |rest| ==> IsBytes(rest[i])) &&
            EncodeParts(parts) == EncodePart(p) + EncodePart(t) + EncodeParts(rest)
  {
    hide EncodePart, IsBytes;
    assert forall i :: 0 <= i < |rest| ==> rest[i] == parts[i + 2];
    assert parts[0] == p && parts[1..][0] == t && parts[1..][1..] == rest;
    Assoc(EncodePart(p), EncodePart(t), EncodeParts(rest));
  }

  lemma TripletPart(s: string, i: nat)
    requires IsBytes(s) && IsTripletAt(s, i)
    ensures EncodePart(s[i..i + 3]) == s[i..i + 3]
  {
    assert HasPercentDigit(s[i..i + 3]);
  }

  lemma FirstLater(c: char, w: string)
    requires IsKept(c)
    ensures FirstTriplet([c] + w) == 1 + FirstTriplet(w)
  {
    Head(c, w);
  }

  lemma KeptStep(c: char, w: string)
    requires IsBytes(w) && c < 256 as char && IsKept(c)
    ensures EncodeReserved([c] + w) == [c] + EncodeReserved(w)
  {
    hide EncodeReserved, EncodePart;
    var s := [c] + w;
    Head(c, w);
    var i := FirstTriplet(w);
    FirstLater(c, w);
    hide FirstTriplet, IsKept;
    ReservedParts(s);
    ReservedParts(w);
    var p := w[..i];
    KeptPart(c, p);
    if i == |w| {
      assert p == w;
    } else {
      Shifted(c, w, i);
      var t := w[i..i + 3];
      Assoc([c], EncodePart(p), t);
      Assoc([c], EncodePart(p) + t, EncodeReserved(w[i + 3..]));
    }
  }

  lemma Shifted(c: char, w: string, i: nat)
    requires i + 3 <= |w|
    ensures var s := [c] + w;
            s[..1 + i] == [c] + w[..i] && s[1 + i..1 + i + 3] == w[i..i + 3] && s[1 + i + 3..] == w[i + 3..]
  {
  }

  lemma KeptPart(c: char, p: string)
    requires IsBytes(p) && c < 256 as char && IsKept(c)
    ensures EncodePart([c] + p) == [c] + EncodePart(p)
  {
    hide EncodePart;
    var s := [c] + p;
    assert s[1..] == p && s[0] == c;
    assert HasPercentDigit(s) == HasPercentDigit(p);
    if HasPercentDigit(p) {
      KeptWhole(s);
      KeptWhole(p);
    } else {
      PartByCharacter(s);
      PartByCharacter(p);
    }
  }

  lemma KeptWhole(p: string)
    requires IsBytes(p) && HasPercentDigit(p)
    ensures EncodePart(p) == p
  {
  }

  lemma EmptyPart()
    ensures EncodePart("") == "" && EncodeReserved("") == ""
  {
    PartByCharacter("");
    ReservedParts("");
  }

  lemma TripletStep(t: string, w: string)
    requires IsBytes(t) && IsBytes(w) && |t| == 3 && IsTripletAt(t, 0)
    ensures EncodeReserved(t + w) == t + EncodeReserved(w)
  {
    hide EncodeReserved, EncodePart;
    var s := t + w;
    assert FirstTriplet(s) == 0 && s[..0] == "" && s[0..3] == t && s[3..] == w;
    ReservedParts(s);
    EmptyPart();
    Nothing(t);
  }

  // ---------------------------------------------------------------- encoding again changes nothing

  /** Legal characters and triplets only. */
  predicate Encoded(s: string)
    decreases |s|
  {
    s == "" || (IsKept(s[0]) && Encoded(s[1..])) || (IsTripletAt(s, 0) && Encoded(s[3..]))
  }

  lemma {:induction false} EncodedPasses(q: string, w: string)
    requires IsBytes(q) && IsBytes(w) && Encoded(q)
    ensures EncodeReserved(q + w) == q + EncodeReserved(w)
    decreases |q|
  {
    hide EncodeReserved, IsKept;
    if q == "" {
      Nothing(w);
      Nothing(EncodeReserved(w));
    } else if IsKept(q[0]) && Encoded(q[1..]) {
      EncodedPasses(q[1..], w);
      KeptStep(q[0], q[1..] + w);
      assert q + w == [q[0]] + (q[1..] + w);
      assert q + EncodeReserved(w) == [q[0]] + (q[1..] + EncodeReserved(w));
    } else {
      var t := q[..3];
      EncodedPasses(q[3..], w);
      TripletStep(t, q[3..] + w);
      assert q + w == t + (q[3..] + w);
      assert q + EncodeReserved(w) == t + (q[3..] + EncodeReserved(w));
    }
  }

  lemma {:induction false} CharsAreEncoded(p: string)
    requires IsBytes(p)
    ensures Encoded(EncodeChars(p)) && IsBytes(EncodeChars(p))
  {
    hide Triplet, IsKept;
    if p != "" {
      var c, rest := p[0], EncodeChars(p[1..]);
      CharsAreEncoded(p[1..]);
      TripletReads(c);
      HexIsByte(c);
      var s := EncodeChar(c) + rest;
      assert s[|EncodeChar(c)|..] == rest;
      if !IsKept(c) {
        assert IsTripletAt(s, 0);
      }
    }
  }

  lemma HexIsByte(c: char)
    requires c < 256 as char
    ensures IsBytes(Triplet(c))
  {
  }

  /** Text before the first triplet is still before the first triplet when nothing is changed. */
  lemma {:induction false} SameFirst(p: string, x: string)
    requires FirstTriplet(p + x) == |p|
    ensures FirstTriplet(p) == |p|
    ensures forall i: nat :: i < |p| ==> !IsTripletAt(p + x, i)
  {
    if p != "" {
      assert (p + x)[1..] == p[1..] + x;
      SameFirst(p[1..], x);
      InFront(p, x);
      forall i: nat | 0 < i < |p|
        ensures !IsTripletAt(p + x, i)
      {
        TripletLater(p + x, i);
      }
    }
  }

  lemma TripletLater(s: string, i: nat)
    requires 0 < i && s != ""
    ensures IsTripletAt(s, i) <==> IsTripletAt(s[1..], i - 1)
  {
  }

  lemma InFront(p: string, x: string)
    ensures IsTripletAt(p, 0) ==> IsTripletAt(p + x, 0)
  {
  }

  /** No triplet starts in `p` and ends in what follows. */
  lemma NotAcross(p: string, x: string)
    requires p != "" && (x == "" || IsTripletAt(x, 0))
    ensures IsTripletAt(p + x, 0) ==> IsTripletAt(p, 0)
  {
    assert x != "" ==> (p + x)[|p|] == '%';
  }

  /** A text without triplets before something that starts with one, or the end, holds the first of them off. */
  lemma {:induction false} HoldsOff(p: string, x: string)
    requires FirstTriplet(p) == |p|
    requires x == "" || IsTripletAt(x, 0)
    ensures FirstTriplet(p + x) == |p|
  {
    if p == "" {
      assert p + x == x;
    } else {
      HoldsOff(p[1..], x);
      assert (p + x)[1..] == p[1..] + x;
      NotAcross(p, x);
    }
  }

  lemma {:induction false} ReservedIsBytes(s: string)
    requires IsBytes(s)
    ensures IsBytes(EncodeReserved(s))
    decreases |s|
  {
    hide EncodeReserved, EncodePart;
    var i := FirstTriplet(s);
    var p := s[..i];
    ReservedParts(s);
    PartIsBytes(p);
    if i == |s| {
      assert p == s;
    } else {
      ReservedIsBytes(s[i + 3..]);
    }
  }

  lemma PartIsBytes(p: string)
    requires IsBytes(p)
    ensures IsBytes(EncodePart(p))
  {
    if !HasPercentDigit(p) {
      PartByCharacter(p);
      CharsAreEncoded(p);
    }
  }

  lemma CutAt(p: string, x: string)
    requires |x| >= 3
    ensures (p + x)[..|p|] == p && (p + x)[|p|..|p| + 3] == x[..3] && (p + x)[|p| + 3..] == x[3..]
  {
  }

  /** A part that is in front of a triplet or the end is not changed by encoding it again. */
  lemma PartAgain(p: string, x: string)
    requires IsBytes(p) && IsBytes(x) && FirstTriplet(p) == |p| && (x == "" || IsTripletAt(x, 0))
    ensures IsBytes(EncodePart(p)) && EncodeReserved(EncodePart(p) + x) == EncodePart(p) + EncodeReserved(x)
  {
    hide EncodeReserved, EncodePart, HasPercentDigit, FirstTriplet;
    PartIsBytes(p);
    if HasPercentDigit(p) {
      KeptWhole(p);
      PartWhole(p, x);
    } else {
      PartByCharacter(p);
      CharsAreEncoded(p);
      EncodedPasses(EncodeChars(p), x);
    }
  }

  lemma PartWhole(p: string, x: string)
    requires IsBytes(p) && IsBytes(x) && FirstTriplet(p) == |p| && (x == "" || IsTripletAt(x, 0))
    requires EncodePart(p) == p
    ensures EncodeReserved(p + x) == p + EncodeReserved(x)
  {
    hide EncodeReserved, EncodePart, FirstTriplet, IsBytes;
    BytesConcat(p, x);
    HoldsOff(p, x);
    ReservedParts(p + x);
    if x == "" {
      Nothing(p);
      EmptyPart();
    } else {
      CutAt(p, x);
      BytesWithin(x, 0);
      assert x == x[..3] + x[3..] && x[0..3] == x[..3];
      TripletStep(x[..3], x[3..]);
      Assoc(p, x[..3], EncodeReserved(x[3..]));
    }
  }

  lemma BytesConcat(p: string, x: string)
    requires IsBytes(p) && IsBytes(x)
    ensures IsBytes(p + x)
  {
  }

  /** `encodeReserved` is idempotent, incomplete escapes and all. */
  lemma {:induction false} EncodeReservedTwice(s: string)
    requires IsBytes(s)
    ensures IsBytes(EncodeReserved(s)) && EncodeReserved(EncodeReserved(s)) == EncodeReserved(s)
    decreases |s|
  {
    hide EncodeReserved, EncodePart, FirstTriplet;
    var i := FirstTriplet(s);
    var p := s[..i];
    ReservedIsBytes(s);
    ReservedParts(s);
    if i == |s| {
      assert p == s;
      PartAgain(p, "");
      EmptyPart();
      Nothing(EncodePart(p));
    } else {
      var t, rest := s[i..i + 3], s[i + 3..];
      EncodeReservedTwice(rest);
      assert s == p + s[i..];
      SameFirst(p, s[i..]);
      PartAgain(p, t + EncodeReserved(rest));
      TripletStep(t, EncodeReserved(rest));
      Assoc(EncodePart(p), t, EncodeReserved(rest));
    }
  }

  // ---------------------------------------------------------------- what the text stands for is kept

  /** Triplets read as the bytes they stand for, anything else as itself. */
  function Meaning(s: string): string
    decreases |s|
  {
    if s == "" then ""
    else if IsTripletAt(s, 0) then [(16 * HexValue(s[1]) + HexValue(s[2])) as char] + Meaning(s[3..])
    else [s[0]] + Meaning(s[1..])
  }

  lemma {:induction false} MeaningOfPlain(p: string, x: string)
    requires forall i: nat :: i < |p| ==> !IsTripletAt(p + x, i)
    ensures Meaning(p + x) == p + Meaning(x)
    decreases |p|
  {
    if p == "" {
      assert p + x == x;
    } else {
      assert (p + x)[1..] == p[1..] + x;
      forall i: nat | i < |p| - 1
        ensures !IsTripletAt(p[1..] + x, i)
      {
        TripletLater(p + x, i + 1);
      }
      MeaningOfPlain(p[1..], x);
      assert !IsTripletAt(p + x, 0);
      assert [p[0]] + (p[1..] + Meaning(x)) == p + Meaning(x);
    }
  }

  lemma {:induction false} MeaningOfChars(p: string, x: string)
    requires IsBytes(p)
    ensures Meaning(EncodeChars(p) + x) == p + Meaning(x)
  {
    hide Meaning, EncodeChar, EncodeChars;
    CharsHead(p);
    if p == "" {
      Nothing(x);
      Nothing(Meaning(x));
    } else {
      var c, rest := p[0], EncodeChars(p[1..]) + x;
      MeaningOfChars(p[1..], x);
      MeaningOfChar(c, rest);
      Assoc(EncodeChar(c), EncodeChars(p[1..]), x);
      assert [c] + (p[1..] + Meaning(x)) == p + Meaning(x);
    }
  }

  lemma CharsHead(p: string)
    requires IsBytes(p)
    ensures EncodeChars(p) == if p == "" then "" else EncodeChar(p[0]) + EncodeChars(p[1..])
  {
    hide EncodeChar;
  }

  lemma MeaningOfChar(c: char, rest: string)
    requires c < 256 as char
    ensures Meaning(EncodeChar(c) + rest) == [c] + Meaning(rest)
  {
    hide Triplet, IsKept;
    TripletReads(c);
    KeptIsNoPercent(c);
    var s := EncodeChar(c) + rest;
    assert s[0] == EncodeChar(c)[0] && s[|EncodeChar(c)|..] == rest;
    if !IsKept(c) {
      assert s[1] == Triplet(c)[1] && s[2] == Triplet(c)[2];
      assert IsTripletAt(s, 0);
    }
  }

  lemma KeptIsNoPercent(c: char)
    ensures IsKept(c) ==> c != '%'
  {
  }

  lemma MeaningOfTriplet(t: string, w: string)
    requires |t| == 3 && IsTripletAt(t, 0)
    ensures Meaning(t + w) == [(16 * HexValue(t[1]) + HexValue(t[2])) as char] + Meaning(w)
  {
    var s := t + w;
    assert s[1] == t[1] && s[2] == t[2] && s[3..] == w && IsTripletAt(s, 0);
  }

  lemma MeaningOfPart(p: string, x: string)
    requires IsBytes(p) && FirstTriplet(p) == |p| && (x == "" || IsTripletAt(x, 0))
    ensures Meaning(EncodePart(p) + x) == p + Meaning(x) && Meaning(p + x) == p + Meaning(x)
  {
    hide EncodePart, Meaning;
    HoldsOff(p, x);
    SameFirst(p, x);
    MeaningOfPlain(p, x);
    if HasPercentDigit(p) {
      KeptWhole(p);
    } else {
      PartByCharacter(p);
      MeaningOfChars(p, x);
    }
  }

  /** Encoding never changes what a text stands for. */
  lemma {:induction false} EncodeReservedKeepsMeaning(s: string)
    requires IsBytes(s)
    ensures Meaning(EncodeReserved(s)) == Meaning(s)
    decreases |s|
  {
    hide EncodeReserved, EncodePart, Meaning;
    var i := FirstTriplet(s);
    var p := s[..i];
    ReservedParts(s);
    assert s == p + s[i..];
    SameFirst(p, s[i..]);
    if i == |s| {
      assert p == s;
      MeaningOfPart(p, "");
      Nothing(EncodePart(p));
      Nothing(p);
    } else {
      var t, rest := s[i..i + 3], s[i + 3..];
      assert s[i..] == t + rest;
      BytesWithin(s, i);
      EncodeReservedKeepsMeaning(rest);
      InFront(t, EncodeReserved(rest));
      InFront(t, rest);
      hide IsTripletAt, FirstTriplet;
      MeaningOfPart(p, t + EncodeReserved(rest));
      MeaningOfPart(p, t + rest);
      MeaningOfTriplet(t, rest);
      MeaningOfTriplet(t, EncodeReserved(rest));
      Assoc(EncodePart(p), t, EncodeReserved(rest));
    }
  }

  // ---------------------------------------------------------------- when everything illegal is encoded

  /** A percent sign before exactly one hexadecimal digit. */
  predicate HasLoneDigit(s: string)
    decreases |s|
  {
    s != "" &&
    if IsTripletAt(s, 0) then HasLoneDigit(s[3..])
    else (|s| > 1 && s[0] == '%' && IsHex(s[1])) || HasLoneDigit(s[1..])
  }

  lemma {:induction false} LoneInFront(p: string, x: string)
    requires FirstTriplet(p) == |p| && (x == "" || IsTripletAt(x, 0))
    ensures HasLoneDigit(p + x) <==> HasPercentDigit(p) || HasLoneDigit(x)
  {
    if p == "" {
      assert p + x == x;
    } else {
      HoldsOff(p, x);
      LoneInFront(p[1..], x);
      assert (p + x)[0] == p[0] && (p + x)[1..] == p[1..] + x;
      assert |p| == 1 && x != "" ==> (p + x)[1] == '%';
      assert |p| > 1 ==> (p + x)[1] == p[1];
    }
  }

  /** A text with a percent sign that starts no triplet is not encoded. */
  lemma {:induction false} NotEncoded(p: string, x: string)
    requires FirstTriplet(p) == |p| && (x == "" || IsTripletAt(x, 0)) && HasPercentDigit(p)
    ensures !Encoded(p + x)
  {
    hide IsKept;
    HoldsOff(p, x);
    assert (p + x)[0] == p[0] && (p + x)[1..] == p[1..] + x;
    assert !IsTripletAt(p + x, 0);
    if p[0] == '%' {
      PercentIsNotKept();
    } else {
      NotEncoded(p[1..], x);
    }
  }

  lemma PercentIsNotKept()
    ensures !IsKept('%')
  {
  }

  lemma {:induction false} EncodedConcat(q: string, x: string)
    requires Encoded(q)
    ensures Encoded(q + x) <==> Encoded(x)
    decreases |q|
  {
    hide IsKept;
    PercentIsNotKept();
    if q == "" {
      assert q + x == x;
    } else if IsKept(q[0]) {
      EncodedConcat(q[1..], x);
      assert (q + x)[1..] == q[1..] + x && (q + x)[0] == q[0];
    } else {
      EncodedConcat(q[3..], x);
      assert (q + x)[3..] == q[3..] + x && IsTripletAt(q + x, 0) && (q + x)[0] == '%';
    }
  }

  lemma TripletFront(t: string, x: string)
    requires |t| == 3 && IsTripletAt(t, 0)
    ensures Encoded(t + x) <==> Encoded(x)
    ensures HasLoneDigit(t + x) <==> HasLoneDigit(x)
    ensures IsTripletAt(t + x, 0)
  {
    hide IsKept;
    PercentIsNotKept();
    assert (t + x)[3..] == x && IsTripletAt(t + x, 0);
  }

  lemma EncodedPart(p: string, x: string)
    requires IsBytes(p) && FirstTriplet(p) == |p| && (x == "" || IsTripletAt(x, 0))
    ensures Encoded(EncodePart(p) + x) <==> !HasPercentDigit(p) && Encoded(x)
  {
    hide EncodePart, Encoded;
    if HasPercentDigit(p) {
      KeptWhole(p);
      NotEncoded(p, x);
    } else {
      PartByCharacter(p);
      CharsAreEncoded(p);
      EncodedConcat(EncodeChars(p), x);
    }
  }

  lemma NothingEncoded()
    ensures Encoded("") && !HasLoneDigit("")
  {
  }

  /**
   * The result holds legal characters and triplets only exactly when the text has no percent sign before exactly one
   * hexadecimal digit: the test for an escape is content with one digit and then leaves the whole part as it is.
   */
  lemma {:induction false} EncodedUnlessLoneDigit(s: string)
    requires IsBytes(s)
    ensures Encoded(EncodeReserved(s)) <==> !HasLoneDigit(s)
    decreases |s|
  {
    hide EncodeReserved, EncodePart, HasPercentDigit;
    NothingEncoded();
    hide Encoded, HasLoneDigit;
    var i := FirstTriplet(s);
    var p := s[..i];
    ReservedParts(s);
    assert s == p + s[i..];
    SameFirst(p, s[i..]);
    LoneInFront(p, s[i..]);
    if i == |s| {
      assert p == s;
      EncodedPart(p, "");
      Nothing(EncodePart(p));
    } else {
      var t, rest := s[i..i + 3], s[i + 3..];
      EncodedUnlessLoneDigit(rest);
      assert s[i..] == t + rest && IsTripletAt(t, 0);
      TripletFront(t, rest);
      TripletFront(t, EncodeReserved(rest));
      EncodedPart(p, t + EncodeReserved(rest));
      Assoc(EncodePart(p), t, EncodeReserved(rest));
    }
  }

  /** Such a text: the space is not encoded. */
  lemma LoneDigitStays()
    ensures EncodeReserved("%4 ") == "%4 " && HasLoneDigit("%4 ") && !Encoded(EncodeReserved("%4 "))
  {
    var s := "%4 ";
    assert s[1..] == "4 " && "4 "[1..] == " " && " "[1..] == "";
    assert FirstTriplet(s) == 3 && HasPercentDigit(s);
    ReservedParts(s);
    EncodedUnlessLoneDigit(s);
  }

  // ---------------------------------------------------------------- the characters by name

  /** Section 2.2 of RFC 3986: the delimiters of addresses and those of their parts. */
  predicate RfcReserved(c: char) {
    c in ":/?#[]@" || c in "!$&'()*+,;="
  }

  /**
   * Reserved expansion in section 3.2.3 of RFC 6570: triplets, unreserved and reserved characters stay as they are,
   * and every other byte becomes its triplet.
   */
  function RfcExpansion(s: string): string
    requires IsBytes(s)
    decreases |s|
  {
    if s == "" then ""
    else if |s| >= 3 && s[0] == '%' && RfcHex(s[1]) && RfcHex(s[2]) then s[..3] + RfcExpansion(s[3..])
    else (if RfcUnreserved(s[0]) || RfcReserved(s[0]) then [s[0]] else RfcTriplet(s[0])) + RfcExpansion(s[1..])
  }

  lemma KeptIsRfc(c: char)
    ensures IsKept(c) <==> RfcUnreserved(c) || RfcReserved(c)
  {
    if IsKept(c) && !RfcUnreserved(c) {
      assert c in "!*'()" || c in ";,/?:@&=+$#" || c == '[' || c == ']';
    }
  }

  /** One step of the expansion, in the terms of the program. */
  lemma ExpansionStep(s: string)
    requires IsBytes(s) && s != ""
    ensures RfcExpansion(s) ==
            if IsTripletAt(s, 0) then s[..3] + RfcExpansion(s[3..]) else EncodeChar(s[0]) + RfcExpansion(s[1..])
  {
    hide IsKept, RfcUnreserved, RfcReserved, Triplet, RfcTriplet, IsHex, RfcHex;
    KeptIsRfc(s[0]);
    TripletIsRfc(s[0]);
    if |s| >= 3 {
      HexByName(s[1]);
      HexByName(s[2]);
    }
  }

  /** Text in front of the first triplet is expanded character by character. */
  lemma {:induction false} ExpansionInFront(p: string, x: string)
    requires IsBytes(p) && IsBytes(x) && FirstTriplet(p + x) == |p|
    ensures RfcExpansion(p + x) == EncodeChars(p) + RfcExpansion(x)
  {
    hide EncodeChar, RfcExpansion;
    if p == "" {
      assert p + x == x;
      Nothing(RfcExpansion(x));
    } else {
      var s := p + x;
      assert s[0] == p[0] && s[1..] == p[1..] + x;
      ExpansionStep(s);
      ExpansionInFront(p[1..], x);
      Assoc(EncodeChar(p[0]), EncodeChars(p[1..]), RfcExpansion(x));
    }
  }

  lemma ExpansionTriplet(t: string, rest: string)
    requires IsBytes(t) && IsBytes(rest) && |t| == 3 && IsTripletAt(t, 0)
    ensures RfcExpansion(t + rest) == t + RfcExpansion(rest)
  {
    hide RfcExpansion;
    assert (t + rest)[..3] == t && (t + rest)[3..] == rest;
    ExpansionStep(t + rest);
  }

  lemma ExpansionNothing()
    ensures RfcExpansion("") == ""
  {
  }

  lemma FirstSplit(s: string)
    ensures var i := FirstTriplet(s);
            s == s[..i] + s[i..] && (s[i..] == "" || IsTripletAt(s[i..], 0)) && FirstTriplet(s[..i]) == i
    ensures var i := FirstTriplet(s);
            i < |s| ==> i + 3 <= |s| && s[i..] == s[i..i + 3] + s[i + 3..] && IsTripletAt(s[i..i + 3], 0)
  {
    hide IsTripletAt;
    var i := FirstTriplet(s);
    Cut(s, i);
    SameFirst(s[..i], s[i..]);
    if i < |s| {
      TripletHere(s, i);
    }
  }

  lemma Cut(s: string, i: nat)
    requires i <= |s|
    ensures s == s[..i] + s[i..] && (i == |s| ==> s[i..] == "")
  {
  }

  lemma TripletHere(s: string, i: nat)
    requires IsTripletAt(s, i)
    ensures i + 3 <= |s| && s[i..] == s[i..i + 3] + s[i + 3..]
    ensures IsTripletAt(s[i..i + 3], 0) && IsTripletAt(s[i..], 0)
  {
  }

  /** The text in front of the first triplet. */
  lemma FrontExpanded(s: string)
    requires IsBytes(s) && !HasLoneDigit(s)
    ensures var i := FirstTriplet(s);
            && EncodePart(s[..i]) == EncodeChars(s[..i]) && !HasLoneDigit(s[i..])
            && RfcExpansion(s) == EncodeChars(s[..i]) + RfcExpansion(s[i..])
  {
    hide EncodePart, EncodeChars, EncodeChar, HasPercentDigit, RfcExpansion, HasLoneDigit, FirstTriplet, IsTripletAt;
    var i := FirstTriplet(s);
    FirstSplit(s);
    LoneInFront(s[..i], s[i..]);
    PartByCharacter(s[..i]);
    ExpansionInFront(s[..i], s[i..]);
  }

  lemma {:induction false} EncodesAsExpansion(s: string)
    requires IsBytes(s) && !HasLoneDigit(s)
    ensures EncodeReserved(s) == RfcExpansion(s)
    decreases |s|
  {
    hide EncodeReserved, EncodePart, EncodeChars, RfcExpansion, HasLoneDigit, FirstTriplet, IsTripletAt;
    var i := FirstTriplet(s);
    FirstSplit(s);
    FrontExpanded(s);
    ReservedParts(s);
    if i == |s| {
      assert s[i..] == "" && s[..i] == s;
      ExpansionNothing();
      Nothing(EncodeChars(s));
    } else {
      var t, rest := s[i..i + 3], s[i + 3..];
      ExpansionTriplet(t, rest);
      TripletFront(t, rest);
      EncodesAsExpansion(rest);
      Assoc(EncodeChars(s[..i]), t, RfcExpansion(rest));
    }
  }

  /** What the expansion gives is always encoded throughout. */
  lemma {:induction false} ExpansionEncoded(s: string)
    requires IsBytes(s)
    ensures Encoded(RfcExpansion(s))
    decreases |s|
  {
    hide IsKept, RfcExpansion;
    if s == "" {
      ExpansionNothing();
    } else {
      ExpansionStep(s);
      if IsTripletAt(s, 0) {
        ExpansionEncoded(s[3..]);
        TripletFront(s[..3], RfcExpansion(s[3..]));
      } else {
        ExpansionEncoded(s[1..]);
        if IsKept(s[0]) {
          Head(s[0], RfcExpansion(s[1..]));
        } else {
          TripletReads(s[0]);
          TripletFront(Triplet(s[0]), RfcExpansion(s[1..]));
        }
      }
    }
  }

  /** Reserved text is encoded as RFC 6570 has it exactly when no percent sign stands before one hexadecimal digit. */
  lemma ReservedIsRfc(s: string)
    requires IsBytes(s)
    ensures EncodeReserved(s) == RfcExpansion(s) <==> !HasLoneDigit(s)
  {
    hide EncodeReserved, RfcExpansion, HasLoneDigit, Encoded;
    if !HasLoneDigit(s) {
      EncodesAsExpansion(s);
    } else {
      EncodedUnlessLoneDigit(s);
      ExpansionEncoded(s);
    }
  }
}
