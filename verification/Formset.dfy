/** Inline formsets: adding and deleting forms, with every index rewritten in place. */
module Formset {
  import opened Basics
  import opened Numerals

  // ---------------------------------------------------------------- rewriting one attribute

  const PLACEHOLDER := "__prefix__"

  function DigitRun(s: string): (n: nat)
    ensures n <= |s| && AllDigits(s[..n]) && (n < |s| ==> !IsDigit(s[n]))
  {
    if s == "" || !IsDigit(s[0]) then 0
    else
      var n := 1 + DigitRun(s[1..]);
      assert s[..n] == [s[0]] + s[1..][..n - 1];
      n
  }

  /** The length of what `(\d+|__prefix__)` matches at the start of `s`; 0 when it does not match. */
  function IndexLength(s: string): (n: nat)
    ensures n <= |s|
  {
    if DigitRun(s) > 0 then DigitRun(s) else if PLACEHOLDER <= s then |PLACEHOLDER| else 0
  }

  /** Does `prefix-(\d+|__prefix__)` match at `i`? */
  predicate MatchesAt(s: string, prefix: string, i: nat) {
    var k := i + |prefix|;
    k < |s| && s[i..k] == prefix && s[k] == '-' && IndexLength(s[k + 1..]) > 0
  }

  /** The first match from `i` on, or the length. */
  function FirstMatch(s: string, prefix: string, i: nat): (r: nat)
    requires i <= |s|
    ensures i <= r <= |s| && (r < |s| ==> MatchesAt(s, prefix, r))
    ensures forall j :: i <= j < r ==> !MatchesAt(s, prefix, j)
    decreases |s| - i
  {
    if i == |s| || MatchesAt(s, prefix, i) then i else FirstMatch(s, prefix, i + 1)
  }

  /** The text up to the index of the first match, and the text after it. */
  function HeadOf(s: string, prefix: string): string
    requires FirstMatch(s, prefix, 0) < |s|
  {
    s[..FirstMatch(s, prefix, 0) + |prefix| + 1]
  }

  function TailOf(s: string, prefix: string): string
    requires FirstMatch(s, prefix, 0) < |s|
  {
    var rest := s[FirstMatch(s, prefix, 0) + |prefix| + 1..];
    rest[IndexLength(rest)..]
  }

  /** `s.replace(id_regex, prefix + "-" + index)`. */
  function Rewrite(s: string, prefix: string, index: string): string {
    if FirstMatch(s, prefix, 0) == |s| then s else HeadOf(s, prefix) + index + TailOf(s, prefix)
  }

  /** The first match is the placeholder with a digit right after it. */
  predicate DigitAfterPlaceholder(s: string, prefix: string) {
    var q := FirstMatch(s, prefix, 0);
    q < |s| &&
    var rest := s[q + |prefix| + 1..];
    DigitRun(rest) == 0 && |rest| > |PLACEHOLDER| && IsDigit(rest[|PLACEHOLDER|])
  }

  lemma FirstMatchIs(s: string, prefix: string, i: nat, q: nat)
    requires i <= q < |s| && MatchesAt(s, prefix, q)
    requires forall j :: i <= j < q ==> !MatchesAt(s, prefix, j)
    ensures FirstMatch(s, prefix, i) == q
  {
  }

  lemma {:induction false} RunOf(index: string, rest: string)
    requires AllDigits(index)
    ensures DigitRun(index + rest) == |index| + DigitRun(rest)
  {
    if index == "" {
      assert index + rest == rest;
    } else {
      assert (index + rest)[0] == index[0] && (index + rest)[1..] == index[1..] + rest;
      RunOf(index[1..], rest);
    }
  }

  lemma {:induction false} RunWithin(a: string, b: string)
    requires a != "" && b != "" && a[0] == b[0]
    ensures DigitRun(a) > 0 <==> DigitRun(b) > 0
  {
  }

  /**
   * No match starts earlier once an index is rewritten: a match that starts before `q` ends, up to and including
   * the first character of its index or its placeholder, in text that both have in common.
   */
  lemma NoEarlierMatch(s: string, t: string, prefix: string, q: nat, j: nat)
    requires j < q && MatchesAt(s, prefix, q) && MatchesAt(t, prefix, j)
    requires |t| >= q + |prefix| + 1 && s[..q + |prefix| + 1] == t[..q + |prefix| + 1]
    ensures MatchesAt(s, prefix, j)
  {
    hide DigitRun, IndexLength;
    var c := q + |prefix| + 1;
    var k := j + |prefix|;
    SameSlice(s, t, c, j, k);
    SameAfter(s, t, c, k + 1);
    SharedIndex(s[k + 1..], t[k + 1..], q - j);
  }

  lemma SameAfter(s: string, t: string, c: nat, k: nat)
    requires k < c <= |s| && c <= |t| && s[..c] == t[..c]
    ensures forall i :: 0 <= i < c - k ==> s[k..][i] == t[k..][i]
    ensures t[k..][c - k - 1] == s[c - 1] && k > 0 ==> t[k - 1] == s[k - 1]
  {
    Common(s, t, c);
    assert forall i :: 0 <= i < c - k ==> s[k..][i] == s[k + i] && t[k..][i] == t[k + i];
  }

  lemma SameSlice(s: string, t: string, c: nat, j: nat, k: nat)
    requires j <= k <= c <= |s| && c <= |t| && s[..c] == t[..c]
    ensures s[j..k] == t[j..k]
  {
    Common(s, t, c);
    assert forall i :: j <= i < k ==> s[j..k][i - j] == s[i] && t[j..k][i - j] == t[i];
  }

  /** An index at the start of `v` is one at the start of `u` when both agree up to a dash. */
  lemma SharedIndex(u: string, v: string, m: nat)
    requires 1 <= m <= |u| && m <= |v| && (forall i :: 0 <= i < m ==> u[i] == v[i]) && v[m - 1] == '-'
    requires IndexLength(v) > 0
    ensures IndexLength(u) > 0
  {
    RunWithin(u, v);
    if DigitRun(v) == 0 {
      PlaceholderHasNoDash(v, m - 1);
      assert forall i :: 0 <= i < |PLACEHOLDER| ==> PLACEHOLDER[i] == v[i] == u[i];
      assert PLACEHOLDER <= u;
    }
  }

  lemma Common(s: string, t: string, c: nat)
    requires c <= |s| && c <= |t| && s[..c] == t[..c]
    ensures forall i :: 0 <= i < c ==> s[i] == t[i]
  {
    forall i | 0 <= i < c
      ensures s[i] == t[i]
    {
      assert s[..c][i] == t[..c][i];
    }
  }

  lemma PlaceholderHasNoDash(v: string, i: nat)
    requires PLACEHOLDER <= v && i < |v| && v[i] == '-'
    ensures i >= |PLACEHOLDER|
  {
    assert forall j :: 0 <= j < |PLACEHOLDER| ==> PLACEHOLDER[j] == v[j];
    assert forall j :: 0 <= j < |PLACEHOLDER| ==> PLACEHOLDER[j] != '-';
  }

  /** Putting an index where one was keeps the match there and the text before it. */
  lemma MatchKept(s: string, t: string, prefix: string, q: nat, index: string, rest: string)
    requires MatchesAt(s, prefix, q) && AllDigits(index) && index != ""
    requires q + |prefix| + 1 <= |s| && t == s[..q + |prefix| + 1] + index + rest
    ensures var k := q + |prefix| + 1;
            && t[..k] == s[..k] && t[k..] == index + rest && MatchesAt(t, prefix, q)
            && IndexLength(t[k..]) == |index| + DigitRun(rest)
  {
    hide DigitRun;
    var k := q + |prefix| + 1;
    assert t[..k] == s[..k] && t[k..] == index + rest;
    RunOf(index, rest);
    assert t[q..q + |prefix|] == t[..k][q..q + |prefix|] == s[..k][q..q + |prefix|] == prefix;
    assert t[k - 1] == s[..k][k - 1] == '-';
  }

  lemma FirstKept(s: string, t: string, prefix: string, q: nat)
    requires q == FirstMatch(s, prefix, 0) < |s| && q < |t| && MatchesAt(t, prefix, q)
    requires var k := q + |prefix| + 1; k <= |s| && k <= |t| && t[..k] == s[..k]
    ensures FirstMatch(t, prefix, 0) == q
  {
    hide MatchesAt, FirstMatch;
    forall j | 0 <= j < q
      ensures !MatchesAt(t, prefix, j)
    {
      if MatchesAt(t, prefix, j) {
        NoEarlierMatch(s, t, prefix, q, j);
      }
    }
    FirstMatchIs(t, prefix, 0, q);
  }

  /** A rewritten attribute has its match where the attribute had it, and loses only digits after the index. */
  lemma RewrittenParts(s: string, prefix: string, index: string)
    requires AllDigits(index) && index != "" && FirstMatch(s, prefix, 0) < |s|
    ensures var t, rest := Rewrite(s, prefix, index), TailOf(s, prefix);
            && FirstMatch(t, prefix, 0) < |t| && HeadOf(t, prefix) == HeadOf(s, prefix)
            && TailOf(t, prefix) == rest[DigitRun(rest)..]
  {
    hide IndexLength, MatchesAt, FirstMatch, DigitRun, HeadOf, TailOf;
    var q := FirstMatch(s, prefix, 0);
    var t, rest := Rewrite(s, prefix, index), TailOf(s, prefix);
    PartsAt(s, prefix);
    MatchKept(s, t, prefix, q, index, rest);
    FirstKept(s, t, prefix, q);
    PartsAt(t, prefix);
    DropBoth(index, rest, DigitRun(rest));
  }

  lemma PartsAt(s: string, prefix: string)
    requires FirstMatch(s, prefix, 0) < |s|
    ensures var k := FirstMatch(s, prefix, 0) + |prefix| + 1;
            && k <= |s| && HeadOf(s, prefix) == s[..k]
            && TailOf(s, prefix) == s[k..][IndexLength(s[k..])..]
  {
    hide IndexLength, DigitRun;
  }

  lemma DropBoth(index: string, rest: string, d: nat)
    requires d <= |rest|
    ensures (index + rest)[|index| + d..] == rest[d..]
  {
  }

  /** After an index only what is not a digit can come, except after the placeholder. */
  lemma AfterIndex(s: string, prefix: string)
    requires FirstMatch(s, prefix, 0) < |s|
    ensures DigitRun(TailOf(s, prefix)) > 0 <==> DigitAfterPlaceholder(s, prefix)
  {
    var rest := s[FirstMatch(s, prefix, 0) + |prefix| + 1..];
    var tail := TailOf(s, prefix);
    assert tail != "" ==> tail[0] == rest[IndexLength(rest)];
    assert DigitRun(tail) > 0 <==> tail != "" && IsDigit(tail[0]);
  }

  /**
   * Rewriting twice is rewriting once with the last index, exactly when the attribute has no placeholder with a
   * digit right after it as its first match.
   */
  lemma RewriteTwice(s: string, prefix: string, i: string, j: string)
    requires AllDigits(i) && i != "" && AllDigits(j) && j != ""
    ensures Rewrite(Rewrite(s, prefix, i), prefix, j) == Rewrite(s, prefix, j) <==> !DigitAfterPlaceholder(s, prefix)
  {
    hide HeadOf, TailOf, FirstMatch, DigitRun;
    if FirstMatch(s, prefix, 0) < |s| {
      RewrittenParts(s, prefix, i);
      AfterIndex(s, prefix);
      var rest := TailOf(s, prefix);
      assert rest[0..] == rest;
      assert DigitRun(rest) > 0 ==> |HeadOf(s, prefix) + j + rest[DigitRun(rest)..]| < |HeadOf(s, prefix) + j + rest|;
    }
  }

  /** Such an attribute: the digit becomes part of the first index, and is replaced with it. */
  lemma DigitIsTakenIn(prefix: string)
    ensures var s := prefix + "-" + (PLACEHOLDER + "5");
            && DigitAfterPlaceholder(s, prefix)
            && Rewrite(Rewrite(s, prefix, "1"), prefix, "2") != Rewrite(s, prefix, "2")
  {
    var index := PLACEHOLDER + "5";
    var s := prefix + "-" + index;
    assert s[..|prefix|] == prefix && s[0..|prefix|] == prefix && s[|prefix| + 1..] == index;
    assert DigitRun(index) == 0 && PLACEHOLDER <= index;
    FirstMatchIs(s, prefix, 0, 0);
    assert DigitAfterPlaceholder(s, prefix);
    RewriteTwice(s, prefix, "1", "2");
  }

  // ---------------------------------------------------------------- rewriting by substrings

  /** At `k` stand the prefix, a dash, and an index, which is a number or the placeholder. */
  predicate IndexedAt(s: string, prefix: string, k: nat) {
    k <= |s| &&
    (prefix + "-" + "__prefix__" <= s[k..] || exists d: char :: '0' <= d <= '9' && prefix + "-" + [d] <= s[k..])
  }

  predicate Unindexed(s: string, prefix: string, n: nat) {
    forall k :: 0 <= k < n ==> !IndexedAt(s, prefix, k)
  }

  /** An index: the placeholder, or a number that `b` does not go on with. */
  predicate IsIndex(i: string, b: string) {
    i == "__prefix__" || (i != "" && AllDigits(i) && (b == "" || !('0' <= b[0] <= '9')))
  }

  lemma FrontAt(s: string, k: nat, p: string, i: string)
    requires k <= |s|
    ensures p + "-" + i <= s[k..] <==>
            k + |p| < |s| && s[k..k + |p|] == p && s[k + |p|] == '-' && i <= s[k + |p| + 1..]
  {
    var t, n := s[k..], |p|;
    if p + "-" + i <= t {
      assert t[..n] == p && t[n] == '-' && t[n + 1..][..|i|] == i by {
        var whole := p + "-" + i;
        assert whole[..n] == p && whole[n] == '-' && whole[n + 1..] == i;
        assert t[..n] == t[..|whole|][..n] && t[n + 1..][..|i|] == t[..|whole|][n + 1..];
      }
      assert s[k..k + n] == t[..n] && s[k + n + 1..] == t[n + 1..];
    }
    if k + n < |s| && s[k..k + n] == p && s[k + n] == '-' && i <= s[k + n + 1..] {
      assert t == p + "-" + s[k + n + 1..];
      assert s[k + n + 1..] == i + s[k + n + 1..][|i|..];
      assert t == (p + "-" + i) + s[k + n + 1..][|i|..];
    }
  }

  /** The expression matches where an index stands. */
  lemma MatchIsIndexed(s: string, prefix: string, k: nat)
    requires k <= |s|
    ensures MatchesAt(s, prefix, k) <==> IndexedAt(s, prefix, k)
  {
    hide DigitRun;
    FrontAt(s, k, prefix, PLACEHOLDER);
    forall d: char
      ensures prefix + "-" + [d] <= s[k..] <==>
              k + |prefix| < |s| && s[k..k + |prefix|] == prefix && s[k + |prefix|] == '-' &&
              [d] <= s[k + |prefix| + 1..]
    {
      FrontAt(s, k, prefix, [d]);
    }
    var n := k + |prefix|;
    if n < |s| {
      var rest := s[n + 1..];
      assert IndexLength(rest) > 0 <==> (rest != "" && IsDigit(rest[0])) || PLACEHOLDER <= rest by {
        IndexStarts(rest);
      }
      assert rest != "" ==> [rest[0]] <= rest;
    }
  }

  lemma IndexStarts(rest: string)
    ensures IndexLength(rest) > 0 <==> (rest != "" && IsDigit(rest[0])) || PLACEHOLDER <= rest
  {
  }

  lemma FirstIsIndexed(s: string, prefix: string, q: nat)
    requires q <= |s| && Unindexed(s, prefix, q) && (q < |s| ==> IndexedAt(s, prefix, q))
    ensures FirstMatch(s, prefix, 0) == q
  {
    hide MatchesAt, IndexedAt;
    forall k | 0 <= k <= q
      ensures MatchesAt(s, prefix, k) <==> IndexedAt(s, prefix, k)
    {
      MatchIsIndexed(s, prefix, k);
    }
    if q < |s| {
      FirstMatchIs(s, prefix, 0, q);
    }
  }

  lemma IndexLengthIs(i: string, b: string)
    requires IsIndex(i, b)
    ensures IndexLength(i + b) == |i|
  {
    if i == PLACEHOLDER {
      assert (i + b)[0] == '_' && i <= i + b;
    } else {
      RunOf(i, b);
    }
  }

  /** The first index in a text is replaced, whatever stands in front of it and behind it. */
  lemma FirstIndexReplaced(a: string, prefix: string, i: string, b: string, j: string)
    requires IsIndex(i, b) && Unindexed(a + prefix + "-" + (i + b), prefix, |a|)
    ensures Rewrite(a + prefix + "-" + (i + b), prefix, j) == a + prefix + "-" + j + b
  {
    hide IndexLength, IndexedAt, MatchesAt, Unindexed, IsIndex;
    var s := a + prefix + "-" + (i + b);
    var n := |a| + |prefix|;
    assert s[|a|..n] == prefix && s[n] == '-' && s[n + 1..] == i + b && s[..n + 1] == a + prefix + "-";
    IndexLengthIs(i, b);
    IndexIsSome(i, b);
    assert MatchesAt(s, prefix, |a|) by {
      MatchAt(s, prefix, |a|);
    }
    MatchIsIndexed(s, prefix, |a|);
    FirstIsIndexed(s, prefix, |a|);
    PartsAt(s, prefix);
    assert (i + b)[|i|..] == b;
  }

  lemma MatchAt(s: string, prefix: string, k: nat)
    requires k + |prefix| < |s| && s[k..k + |prefix|] == prefix && s[k + |prefix|] == '-'
    requires IndexLength(s[k + |prefix| + 1..]) > 0
    ensures MatchesAt(s, prefix, k)
  {
  }

  lemma IndexIsSome(i: string, b: string)
    requires IsIndex(i, b)
    ensures i != ""
  {
  }

  /** A text without an index stays as it is. */
  lemma NoIndexKept(s: string, prefix: string, j: string)
    requires Unindexed(s, prefix, |s|)
    ensures Rewrite(s, prefix, j) == s
  {
    FirstIsIndexed(s, prefix, |s|);
  }

  /** The first index of the text, if it has one, is this one, and no digit follows it. */
  predicate Bears(s: string, prefix: string, index: string) {
    forall k :: 0 <= k < |s| && IndexedAt(s, prefix, k) && Unindexed(s, prefix, k) ==>
      prefix + "-" + index <= s[k..] &&
      var n := k + |prefix| + 1 + |index|;
      n <= |s| && (n < |s| ==> !('0' <= s[n] <= '9'))
  }

  predicate BearsHere(s: string, prefix: string, index: string, q: nat)
    requires q <= |s|
  {
    prefix + "-" + index <= s[q..] &&
    var n := q + |prefix| + 1 + |index|;
    n <= |s| && (n < |s| ==> !('0' <= s[n] <= '9'))
  }

  /** It is the first match that counts. */
  lemma BearsAtFirst(s: string, prefix: string, index: string)
    ensures var q := FirstMatch(s, prefix, 0);
            Bears(s, prefix, index) <==> (q < |s| ==> BearsHere(s, prefix, index, q))
  {
    hide IndexedAt, MatchesAt;
    var q := FirstMatch(s, prefix, 0);
    forall k | 0 <= k < |s|
      ensures MatchesAt(s, prefix, k) <==> IndexedAt(s, prefix, k)
    {
      MatchIsIndexed(s, prefix, k);
    }
    assert Unindexed(s, prefix, q);
    assert forall k :: 0 <= k < |s| && IndexedAt(s, prefix, k) && Unindexed(s, prefix, k) ==> k == q;
  }

  /** An attribute bears a number exactly when rewriting it with the number, now or later, changes nothing more. */
  lemma BearsIsKept(s: string, prefix: string, index: string)
    requires AllDigits(index) && index != ""
    ensures Bears(s, prefix, index) <==> Rewrite(s, prefix, index) == s && !DigitAfterPlaceholder(s, prefix)
  {
    hide FirstMatch, BearsHere, Bears, HeadOf, TailOf, DigitRun;
    BearsAtFirst(s, prefix, index);
    if FirstMatch(s, prefix, 0) < |s| {
      BearsAt(s, prefix, index);
      AfterIndex(s, prefix);
    }
  }

  lemma BearsAt(s: string, prefix: string, index: string)
    requires AllDigits(index) && index != "" && FirstMatch(s, prefix, 0) < |s|
    ensures BearsHere(s, prefix, index, FirstMatch(s, prefix, 0)) <==>
            HeadOf(s, prefix) + index + TailOf(s, prefix) == s && DigitRun(TailOf(s, prefix)) == 0
  {
    hide FirstMatch, IndexLength, DigitRun;
    var q := FirstMatch(s, prefix, 0);
    var k := q + |prefix| + 1;
    var head, rest, tail := HeadOf(s, prefix), s[k..], TailOf(s, prefix);
    PartsAt(s, prefix);
    FrontAt(s, q, prefix, index);
    assert s == head + rest;
    assert |index| < |rest| ==> s[k + |index|] == rest[|index|];
    hide TailOf, HeadOf;
    assert BearsHere(s, prefix, index, q) <==> StartsWithIndex(rest, index);
    hide BearsHere;
    StartKept(rest, index);
    Assoc(head, index, tail);
    SameBehind(head, index + tail, rest);
  }

  predicate StartsWithIndex(rest: string, index: string) {
    index <= rest && (|index| < |rest| ==> !('0' <= rest[|index|] <= '9'))
  }

  lemma StartKept(rest: string, index: string)
    requires AllDigits(index) && index != ""
    ensures var tail := rest[IndexLength(rest)..];
            StartsWithIndex(rest, index) <==> index + tail == rest && DigitRun(tail) == 0
  {
    hide IndexLength, DigitRun;
    var tail := rest[IndexLength(rest)..];
    NoRun(tail);
    if StartsWithIndex(rest, index) {
      var b := rest[|index|..];
      assert rest == index + b;
      assert b != "" ==> b[0] == rest[|index|];
      IndexLengthIs(index, b);
    }
    if index + tail == rest {
      assert tail != "" ==> rest[|index|] == tail[0];
      assert index <= index + tail;
    }
  }

  lemma NoRun(b: string)
    ensures DigitRun(b) == 0 <==> b == "" || !('0' <= b[0] <= '9')
  {
  }

  lemma SameBehind(a: string, b: string, c: string)
    ensures a + b == a + c <==> b == c
  {
    if a + b == a + c {
      assert b == (a + b)[|a|..] && c == (a + c)[|a|..];
    }
  }

  // ---------------------------------------------------------------- forms

  datatype Control = Control(labelFor: string, id: string, name: string)

  /** A form of the page: its row's id and the controls inside; forms that came with the page have no delete link. */
  datatype Form = Form(row: string, controls: seq<Control>, removable: bool)

  /** `updateElementIndex`. */
  function UpdateIndex(c: Control, prefix: string, index: string): Control {
    Control(Rewrite(c.labelFor, prefix, index), Rewrite(c.id, prefix, index), Rewrite(c.name, prefix, index))
  }

  function UpdateAll(cs: seq<Control>, prefix: string, index: string): (r: seq<Control>)
    ensures |r| == |cs| && forall i :: 0 <= i < |cs| ==> r[i] == UpdateIndex(cs[i], prefix, index)
  {
    if cs == [] then [] else UpdateAll(cs[..|cs| - 1], prefix, index) + [UpdateIndex(cs[|cs| - 1], prefix, index)]
  }

  function Reindexed(f: Form, prefix: string, index: string): Form {
    f.(row := Rewrite(f.row, prefix, index), controls := UpdateAll(f.controls, prefix, index))
  }

  predicate FreeOfDigits(c: Control, prefix: string) {
    !DigitAfterPlaceholder(c.labelFor, prefix) && !DigitAfterPlaceholder(c.id, prefix) &&
    !DigitAfterPlaceholder(c.name, prefix)
  }

  predicate AllFree(cs: seq<Control>, prefix: string) {
    forall k :: 0 <= k < |cs| ==> FreeOfDigits(cs[k], prefix)
  }

  predicate AllBear(cs: seq<Control>, prefix: string, index: string) {
    forall k :: 0 <= k < |cs| ==>
      Bears(cs[k].labelFor, prefix, index) && Bears(cs[k].id, prefix, index) && Bears(cs[k].name, prefix, index)
  }

  /** The row is named after the index, and the first index in each attribute of the controls is it. */
  predicate Carries(f: Form, prefix: string, i: nat) {
    f.row == prefix + "-" + Decimal(i) && AllBear(f.controls, prefix, Decimal(i))
  }

  /** Controls bear a number exactly when rewriting them with it changes nothing, now and later. */
  lemma BearingIsKept(cs: seq<Control>, prefix: string, index: string)
    requires AllDigits(index) && index != ""
    ensures AllBear(cs, prefix, index) <==> UpdateAll(cs, prefix, index) == cs && AllFree(cs, prefix)
  {
    hide Bears, Rewrite, DigitAfterPlaceholder;
    forall k | 0 <= k < |cs|
      ensures Bears(cs[k].labelFor, prefix, index) && Bears(cs[k].id, prefix, index) &&
              Bears(cs[k].name, prefix, index) <==>
              UpdateIndex(cs[k], prefix, index) == cs[k] && FreeOfDigits(cs[k], prefix)
    {
      BearsIsKept(cs[k].labelFor, prefix, index);
      BearsIsKept(cs[k].id, prefix, index);
      BearsIsKept(cs[k].name, prefix, index);
    }
    hide UpdateIndex, FreeOfDigits;
    if UpdateAll(cs, prefix, index) == cs {
      assert forall k :: 0 <= k < |cs| ==> UpdateAll(cs, prefix, index)[k] == cs[k];
    }
  }

  lemma RewriteKeepsFree(s: string, prefix: string, i: string)
    requires AllDigits(i) && i != ""
    ensures !DigitAfterPlaceholder(s, prefix) ==> !DigitAfterPlaceholder(Rewrite(s, prefix, i), prefix)
  {
    hide HeadOf, TailOf, FirstMatch, DigitAfterPlaceholder;
    if FirstMatch(s, prefix, 0) < |s| {
      RewrittenParts(s, prefix, i);
      AfterIndex(s, prefix);
      AfterIndex(Rewrite(s, prefix, i), prefix);
      RunEnds(TailOf(s, prefix));
    }
  }

  lemma {:induction false} RunEnds(s: string)
    ensures DigitRun(s[DigitRun(s)..]) == 0
  {
  }

  /** Rewriting a control twice is rewriting it once exactly when that holds of each of its attributes. */
  lemma UpdateTwice(c: Control, prefix: string, i: string, j: string)
    requires AllDigits(i) && i != "" && AllDigits(j) && j != ""
    ensures UpdateIndex(UpdateIndex(c, prefix, i), prefix, j) == UpdateIndex(c, prefix, j) <==> FreeOfDigits(c, prefix)
    ensures FreeOfDigits(c, prefix) ==> FreeOfDigits(UpdateIndex(c, prefix, i), prefix)
  {
    hide Rewrite, DigitAfterPlaceholder;
    RewriteTwice(c.labelFor, prefix, i, j);
    RewriteTwice(c.id, prefix, i, j);
    RewriteTwice(c.name, prefix, i, j);
    RewriteKeepsFree(c.labelFor, prefix, i);
    RewriteKeepsFree(c.id, prefix, i);
    RewriteKeepsFree(c.name, prefix, i);
  }

  lemma UpdateAllTwice(cs: seq<Control>, prefix: string, i: string, j: string)
    requires AllDigits(i) && i != "" && AllDigits(j) && j != "" && AllFree(cs, prefix)
    ensures UpdateAll(UpdateAll(cs, prefix, i), prefix, j) == UpdateAll(cs, prefix, j)
    ensures AllFree(UpdateAll(cs, prefix, i), prefix)
  {
    hide UpdateIndex, FreeOfDigits, UpdateAll;
    var ds := UpdateAll(cs, prefix, i);
    forall k | 0 <= k < |cs|
      ensures UpdateIndex(ds[k], prefix, j) == UpdateIndex(cs[k], prefix, j) && FreeOfDigits(ds[k], prefix)
    {
      UpdateTwice(cs[k], prefix, i, j);
    }
  }

  /** A row's id is rewritten to the id of the new position. */
  lemma RowRewritten(prefix: string, i: string, j: string)
    requires AllDigits(i) && i != "" && AllDigits(j) && j != ""
    ensures Rewrite(prefix + "-" + i, prefix, j) == prefix + "-" + j
  {
    var id := prefix + "-" + i;
    var k := |prefix| + 1;
    assert id[0..|prefix|] == prefix && id[|prefix|] == '-' && id[k..] == i;
    AllRun(i);
    FirstMatchIs(id, prefix, 0, 0);
    assert HeadOf(id, prefix) == prefix + "-" && TailOf(id, prefix) == "";
    Nothing(prefix + "-" + j);
  }

  lemma AllRun(i: string)
    requires AllDigits(i)
    ensures DigitRun(i) == |i|
  {
    Nothing(i);
    RunOf(i, "");
  }

  lemma ReindexCarries(f: Form, prefix: string, i: nat, j: nat)
    requires Carries(f, prefix, i)
    ensures Carries(Reindexed(f, prefix, Decimal(j)), prefix, j)
  {
    hide UpdateAll, AllFree, AllBear, Decimal, Rewrite;
    RowRewritten(prefix, Decimal(i), Decimal(j));
    BearingIsKept(f.controls, prefix, Decimal(i));
    UpdateAllTwice(f.controls, prefix, Decimal(j), Decimal(j));
    BearingIsKept(UpdateAll(f.controls, prefix, Decimal(j)), prefix, Decimal(j));
  }

  // ---------------------------------------------------------------- the formset

  datatype State = State(forms: seq<Form>, total: nat, nextIndex: int, addShown: bool)

  /**
   * What a formset is made of, for good: the empty form's controls, no maximum for a blank one, and how many forms
   * the page came with, which may be more than the maximum.
   */
  datatype Setup = Setup(prefix: string, template: seq<Control>, max: Option<int>, arrived: nat)

  predicate Room(u: Setup, total: int) {
    u.max == None || u.max.value - total > 0
  }

  /** The counters agree with the forms, every form carries its position, and the button knows the bound. */
  predicate Consistent(u: Setup, st: State) {
    && st.total == |st.forms| && st.nextIndex == |st.forms|
    && (st.addShown <==> Room(u, st.total))
    && (u.max.Some? ==> st.total <= Max(u.max.value, u.arrived))
    && AllFree(u.template, u.prefix)
    && forall i :: 0 <= i < |st.forms| ==> Carries(st.forms[i], u.prefix, i)
  }

  datatype Click = Add | Delete(k: nat)

  /** The button must be shown, and the form must have a delete link. */
  predicate Possible(st: State, c: Click) {
    match c
    case Add => st.addShown && st.nextIndex >= 0
    case Delete(k) => k < |st.forms| && st.forms[k].removable
  }

  function NewForm(u: Setup, st: State): Form
    requires st.nextIndex >= 0
  {
    Form(u.prefix + "-" + Decimal(st.nextIndex), UpdateAll(u.template, u.prefix, Decimal(st.total)), true)
  }

  function Renumbered(forms: seq<Form>, prefix: string): (r: seq<Form>)
    ensures |r| == |forms| && forall i :: 0 <= i < |forms| ==> r[i] == Reindexed(forms[i], prefix, Decimal(i))
  {
    if forms == [] then []
    else
      var n := |forms| - 1;
      Renumbered(forms[..n], prefix) + [Reindexed(forms[n], prefix, Decimal(n))]
  }

  function Without(forms: seq<Form>, k: nat): seq<Form>
    requires k < |forms|
  {
    forms[..k] + forms[k + 1..]
  }

  function Clicked(u: Setup, st: State, c: Click): State
    requires Possible(st, c)
  {
    match c
    case Add => State(st.forms + [NewForm(u, st)], st.total + 1, st.nextIndex + 1, st.addShown && Room(u, st.total + 1))
    case Delete(k) =>
      var left := Without(st.forms, k);
      State(Renumbered(left, u.prefix), |left|, st.nextIndex - 1, st.addShown || Room(u, |left|))
  }

  lemma AddConsistent(u: Setup, st: State)
    requires Consistent(u, st) && Possible(st, Add)
    ensures Consistent(u, Clicked(u, st, Add))
  {
    hide UpdateAll, AllFree, AllBear, Decimal;
    UpdateAllTwice(u.template, u.prefix, Decimal(st.total), Decimal(st.total));
    BearingIsKept(UpdateAll(u.template, u.prefix, Decimal(st.total)), u.prefix, Decimal(st.total));
    assert Carries(NewForm(u, st), u.prefix, st.total);
  }

  lemma DeleteConsistent(u: Setup, st: State, k: nat)
    requires Consistent(u, st) && Possible(st, Delete(k))
    ensures Consistent(u, Clicked(u, st, Delete(k)))
  {
    hide UpdateAll, AllFree, Decimal, Carries, Reindexed, Renumbered;
    var left := Without(st.forms, k);
    forall i | 0 <= i < |left|
      ensures Carries(Reindexed(left[i], u.prefix, Decimal(i)), u.prefix, i)
    {
      var j := if i < k then i else i + 1;
      assert left[i] == st.forms[j];
      ReindexCarries(left[i], u.prefix, j, i);
    }
  }

  predicate IsRun(u: Setup, states: seq<State>, clicks: seq<Click>) {
    && |states| == |clicks| + 1
    && forall i :: 0 <= i < |clicks| ==>
         Possible(states[i], clicks[i]) && states[i + 1] == Clicked(u, states[i], clicks[i])
  }

  /**
   * Through every run of clicks the counters agree with the forms, each form carries its position in every
   * attribute, and the maximum is kept.
   */
  lemma {:induction false} RunStaysConsistent(u: Setup, states: seq<State>, clicks: seq<Click>, n: nat)
    requires IsRun(u, states, clicks) && Consistent(u, states[0]) && n < |states|
    ensures Consistent(u, states[n])
  {
    hide Consistent, Clicked;
    if n > 0 {
      RunStaysConsistent(u, states, clicks, n - 1);
      match clicks[n - 1]
      case Add => AddConsistent(u, states[n - 1]);
      case Delete(k) => DeleteConsistent(u, states[n - 1], k);
    }
  }

  /** A form as it came or as the template makes it, before any rewriting. */
  function FromTemplate(u: Setup): Form {
    Form(u.prefix + "-" + Decimal(0), u.template, true)
  }

  function After(u: Setup, forms: seq<Form>, c: Click): seq<Form> {
    match c
    case Add => forms + [FromTemplate(u)]
    case Delete(k) => if k < |forms| then Without(forms, k) else forms
  }

  /** The forms that a run of clicks leaves, in order, had no form ever been rewritten. */
  function Survivors(u: Setup, forms: seq<Form>, clicks: seq<Click>): seq<Form> {
    if clicks == [] then forms else After(u, Survivors(u, forms, clicks[..|clicks| - 1]), clicks[|clicks| - 1])
  }

  ghost predicate Rewritable(f: Form, prefix: string) {
    AllFree(f.controls, prefix) && exists i: nat :: f.row == prefix + "-" + Decimal(i)
  }

  lemma ReindexTwice(f: Form, prefix: string, i: nat, j: nat)
    requires Rewritable(f, prefix)
    ensures Reindexed(Reindexed(f, prefix, Decimal(i)), prefix, Decimal(j)) == Reindexed(f, prefix, Decimal(j))
  {
    hide UpdateAll, AllFree, Decimal, Rewrite;
    var k: nat :| f.row == prefix + "-" + Decimal(k);
    RowRewritten(prefix, Decimal(k), Decimal(i));
    RowRewritten(prefix, Decimal(k), Decimal(j));
    RowRewritten(prefix, Decimal(i), Decimal(j));
    UpdateAllTwice(f.controls, prefix, Decimal(i), Decimal(j));
  }

  lemma CarriedIsRewritten(f: Form, prefix: string, i: nat)
    requires Carries(f, prefix, i)
    ensures Rewritable(f, prefix) && Reindexed(f, prefix, Decimal(i)) == f
  {
    hide UpdateAll, AllFree, AllBear, Decimal, Rewrite;
    RowRewritten(prefix, Decimal(i), Decimal(i));
    BearingIsKept(f.controls, prefix, Decimal(i));
  }

  /** Numbering what is left of numbered forms is numbering what is left of the forms. */
  lemma NumberedOnce(forms: seq<Form>, prefix: string, k: nat)
    requires k < |forms| && forall i :: 0 <= i < |forms| ==> Rewritable(forms[i], prefix)
    ensures Renumbered(Without(Renumbered(forms, prefix), k), prefix) == Renumbered(Without(forms, k), prefix)
  {
    hide Renumbered, Reindexed, Rewritable, Decimal;
    var a, b := Without(Renumbered(forms, prefix), k), Without(forms, k);
    forall i | 0 <= i < |b|
      ensures Reindexed(a[i], prefix, Decimal(i)) == Reindexed(b[i], prefix, Decimal(i))
    {
      var j := if i < k then i else i + 1;
      assert b[i] == forms[j] && a[i] == Reindexed(forms[j], prefix, Decimal(j));
      ReindexTwice(forms[j], prefix, j, i);
    }
  }

  lemma AddNumbers(u: Setup, st: State, forms: seq<Form>)
    requires Consistent(u, st) && Possible(st, Add) && st.forms == Renumbered(forms, u.prefix)
    ensures Clicked(u, st, Add).forms == Renumbered(forms + [FromTemplate(u)], u.prefix)
    ensures Rewritable(FromTemplate(u), u.prefix)
  {
    hide UpdateAll, AllFree, Decimal, Rewrite, Carries, Renumbered;
    RowRewritten(u.prefix, Decimal(0), Decimal(st.total));
    RenumberedMore(forms, FromTemplate(u), u.prefix);
  }

  lemma RenumberedMore(forms: seq<Form>, f: Form, prefix: string)
    ensures Renumbered(forms + [f], prefix) == Renumbered(forms, prefix) + [Reindexed(f, prefix, Decimal(|forms|))]
  {
    assert (forms + [f])[..|forms|] == forms;
  }

  lemma AlreadyNumbered(u: Setup, st: State)
    requires Consistent(u, st)
    ensures Renumbered(st.forms, u.prefix) == st.forms
    ensures forall i :: 0 <= i < |st.forms| ==> Rewritable(st.forms[i], u.prefix)
  {
    hide Renumbered, Reindexed, Rewritable, Carries, Decimal, AllFree;
    forall i | 0 <= i < |st.forms|
      ensures Rewritable(st.forms[i], u.prefix) && Reindexed(st.forms[i], u.prefix, Decimal(i)) == st.forms[i]
    {
      CarriedIsRewritten(st.forms[i], u.prefix, i);
    }
  }

  lemma ClickNumbers(u: Setup, st: State, forms: seq<Form>, c: Click)
    requires Consistent(u, st) && Possible(st, c) && st.forms == Renumbered(forms, u.prefix)
    requires forall i :: 0 <= i < |forms| ==> Rewritable(forms[i], u.prefix)
    ensures Clicked(u, st, c).forms == Renumbered(After(u, forms, c), u.prefix)
    ensures forall i :: 0 <= i < |After(u, forms, c)| ==> Rewritable(After(u, forms, c)[i], u.prefix)
  {
    hide Consistent, Rewritable, Renumbered, Reindexed;
    match c
    case Add => AddNumbers(u, st, forms);
    case Delete(k) => NumberedOnce(forms, u.prefix, k);
  }

  /**
   * Whatever the clicks, the page holds the forms that survive them, in their order, each as if it had been given
   * its last index and no other.
   */
  lemma {:induction false} RunNumbersSurvivors(u: Setup, states: seq<State>, clicks: seq<Click>, n: nat)
    requires IsRun(u, states, clicks) && Consistent(u, states[0]) && n < |states|
    ensures var left := Survivors(u, states[0].forms, clicks[..n]);
            && states[n].forms == Renumbered(left, u.prefix)
            && forall i :: 0 <= i < |left| ==> Rewritable(left[i], u.prefix)
  {
    hide Consistent, Rewritable, Renumbered, Reindexed, Clicked, Possible, After;
    if n == 0 {
      AlreadyNumbered(u, states[0]);
    } else {
      RunNumbersSurvivors(u, states, clicks, n - 1);
      RunStaysConsistent(u, states, clicks, n - 1);
      assert clicks[..n][..n - 1] == clicks[..n - 1];
      ClickNumbers(u, states[n - 1], Survivors(u, states[0].forms, clicks[..n - 1]), clicks[n - 1]);
    }
  }

  // ---------------------------------------------------------------- the handlers

  class Formset {
    const setup: Setup
    var forms: seq<Form>
    var total: nat
    var nextIndex: int
    var addShown: bool

    ghost function Now(): State
      reads this
    {
      State(forms, total, nextIndex, addShown)
    }

    constructor (prefix: string, template: seq<Control>, max: Option<int>, forms: seq<Form>)
      ensures setup == Setup(prefix, template, max, |forms|) && this.forms == forms
      ensures Now() == State(forms, |forms|, |forms|, Room(setup, |forms|))
      ensures AllFree(template, prefix) && (forall i :: 0 <= i < |forms| ==> Carries(forms[i], prefix, i)) ==>
                Consistent(setup, Now())
    {
      setup, this.forms := Setup(prefix, template, max, |forms|), forms;
      total, nextIndex := |forms|, |forms|;
      addShown := max == None || max.value - |forms| > 0;
    }

    method ClickAdd()
      requires Possible(Now(), Add)
      modifies this
      ensures Now() == Clicked(setup, old(Now()), Add)
      ensures old(Consistent(setup, Now())) ==> Consistent(setup, Now())
    {
      hide Consistent, UpdateAll, Decimal;
      if Consistent(setup, Now()) {
        AddConsistent(setup, Now());
      }
      var row := setup.prefix + "-" + Decimal(nextIndex);
      var controls := UpdateControls(setup.template, setup.prefix, Decimal(total));
      forms := forms + [Form(row, controls, true)];
      total := total + 1;
      nextIndex := nextIndex + 1;
      if setup.max.Some? && setup.max.value - total <= 0 {
        addShown := false;
      }
    }

    /** Rewrites every form left to its position. */
    method UpdateForms()
      modifies `forms
      ensures forms == Renumbered(old(forms), setup.prefix)
    {
      hide Reindexed, Decimal;
      ghost var left := forms;
      assert left[..0] == [];
      for i := 0 to |forms|
        invariant |forms| == |left| && forms[..i] == Renumbered(left[..i], setup.prefix) && forms[i..] == left[i..]
      {
        assert forms[i] == left[i] && left[..i + 1][..i] == left[..i];
        ghost var done := forms[..i];
        forms := forms[i := Reindexed(forms[i], setup.prefix, Decimal(i))];
        assert forms[..i + 1] == done + [Reindexed(left[i], setup.prefix, Decimal(i))];
      }
      assert left[..|left|] == left && forms[..|left|] == forms;
    }

    method ClickDelete(k: nat)
      requires Possible(Now(), Delete(k))
      modifies this
      ensures Now() == Clicked(setup, old(Now()), Delete(k))
      ensures old(Consistent(setup, Now())) ==> Consistent(setup, Now())
    {
      hide Consistent, Renumbered;
      if Consistent(setup, Now()) {
        DeleteConsistent(setup, Now(), k);
      }
      forms := forms[..k] + forms[k + 1..];
      nextIndex := nextIndex - 1;
      total := |forms|;
      if setup.max == None || setup.max.value - |forms| > 0 {
        addShown := true;
      }
      UpdateForms();
    }
  }

  /** The loop over the elements of a form. */
  method UpdateControls(cs: seq<Control>, prefix: string, index: string) returns (r: seq<Control>)
    ensures r == UpdateAll(cs, prefix, index)
  {
    hide UpdateIndex;
    r := [];
    for k := 0 to |cs|
      invariant r == UpdateAll(cs[..k], prefix, index)
    {
      assert cs[..k + 1][..k] == cs[..k];
      r := r + [UpdateIndex(cs[k], prefix, index)];
    }
    assert cs[..|cs|] == cs;
  }
}
