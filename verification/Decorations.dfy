/** The decoration array of the prettifier: position, style, position, style, ... with styles told apart by number. */
module Decorations {
  import opened Basics

  datatype Decoration = Decoration(pos: int, style: int)

  /** The flat array as decorations. */
  function View(flat: seq<int>): seq<Decoration> {
    if |flat| < 2 then [] else View(flat[..|flat| - 2]) + [Decoration(flat[|flat| - 2], flat[|flat| - 1])]
  }

  /** The style in force at a position: that of the last decoration not after it. */
  function StyleAt(d: seq<Decoration>, i: int): int {
    if d == [] then 0 else if d[|d| - 1].pos <= i then d[|d| - 1].style else StyleAt(d[..|d| - 1], i)
  }

  /** What a lexer leaves behind: from 0 on, not decreasing, within the text. */
  predicate Listed(d: seq<Decoration>, s: int) {
    && d != [] && d[0].pos == 0 && d[|d| - 1].pos <= s
    && forall i, j :: 0 <= i < j < |d| ==> d[i].pos <= d[j].pos
  }

  /** From 0 on, strictly increasing, ending within the text. */
  predicate Increasing(d: seq<Decoration>, s: int) {
    && (s > 0 ==> d != []) && (d != [] ==> d[0].pos == 0 && d[|d| - 1].pos < s)
    && forall i, j :: 0 <= i < j < |d| ==> d[i].pos < d[j].pos
  }

  /** Moreover neighbouring styles differ. */
  predicate Compact(d: seq<Decoration>, s: int) {
    Increasing(d, s) && forall i :: 0 < i < |d| ==> d[i - 1].style != d[i].style
  }

  // ---------------------------------------------------------------- what the two passes compute

  /** The decorations that are not empty; `next` is the position after the last. */
  function NonEmpty(d: seq<Decoration>, next: int): seq<Decoration> {
    if d == [] then []
    else
      var last := d[|d| - 1];
      NonEmpty(d[..|d| - 1], last.pos) + if last.pos != next then [last] else []
  }

  /** Neighbours of one style merged into the first. */
  function Merged(d: seq<Decoration>): (r: seq<Decoration>)
    ensures r == [] <==> d == []
    ensures d != [] ==> r[|r| - 1].style == d[|d| - 1].style
  {
    if d == [] then []
    else
      var before, last := Merged(d[..|d| - 1]), d[|d| - 1];
      if before != [] && before[|before| - 1].style == last.style then before else before + [last]
  }

  /** `d[r++] = p, d[r++] = f`: everything from `keep` on stays. */
  method Put(d: array<int>, r: nat, p: int, f: int, ghost keep: nat)
    requires r + 2 <= keep <= d.Length
    modifies d
    ensures d[..r + 2] == old(d[..r]) + [p, f]
    ensures forall i :: keep <= i < d.Length ==> d[i] == old(d[i])
  {
    d[r] := p;
    d[r + 1] := f;
  }

  /** The first pass; the last element of the array is the slot that the program adds for the text length. */
  method DropEmpty(d: array<int>, s: int) returns (r: nat)
    requires d.Length % 2 == 1
    modifies d
    ensures r < d.Length && r % 2 == 0 && View(d[..r]) == NonEmpty(old(View(d[..d.Length - 1])), s)
  {
    hide View, NonEmpty;
    var g := d.Length - 1;
    d[g] := s;
    ghost var full := d[..];
    assert full[..g] == old(d[..g]);
    var n := 0;
    r := 0;
    Start();
    assert d[..0] == [] && full[..0] == [];
    ghost var m, k := 0, 0;
    while n < g
      invariant 0 <= r <= n <= g && n == 2 * m && r == 2 * k
      invariant forall i :: n <= i < d.Length ==> d[i] == full[i]
      invariant View(d[..r]) == NonEmpty(View(full[..n]), full[n])
    {
      assert n + 2 <= g;
      NonEmptyNext(full, n);
      ViewSnoc(d[..r], full[n], full[n + 1]);
      if d[n] != d[n + 2] {
        Put(d, r, d[n], d[n + 1], n + 2);
        r, n, m, k := r + 2, n + 2, m + 1, k + 1;
      } else {
        n, m := n + 2, m + 1;
      }
    }
  }

  /** The second pass, over the first `g` elements. */
  method MergeRuns(d: array<int>, g: nat) returns (r: nat)
    requires g <= d.Length && g % 2 == 0
    modifies d
    ensures r <= g && r % 2 == 0 && View(d[..r]) == Merged(old(View(d[..g])))
  {
    hide View, Merged;
    ghost var flat := d[..g];
    var n := 0;
    r := 0;
    Start();
    assert flat[..0] == [] && d[..0] == [];
    ghost var m, k := 0, 0;
    while n < g
      invariant 0 <= r <= n <= g && n == 2 * m && r == 2 * k
      invariant forall i :: n <= i < g ==> d[i] == flat[i]
      invariant View(d[..r]) == Merged(View(flat[..n]))
      invariant 0 < n < g ==> flat[n + 1] != flat[n - 1]
    {
      assert n + 2 <= g;
      var z, f := d[n], d[n + 1];
      var b := n + 2;
      m := m + 1;
      MergeFirst(flat, n);
      ghost var done := d[..r];
      while b + 2 <= g && d[b + 1] == f
        invariant n + 2 <= b <= g && b == 2 * m
        invariant flat[b - 1] == f
        invariant Merged(View(flat[..b])) == Merged(View(flat[..n])) + [Decoration(z, f)]
        modifies {}
      {
        MergeMore(flat, b, f);
        b, m := b + 2, m + 1;
      }
      assert b < g ==> b + 2 <= g;
      assert d[..r] == done;
      ViewSnoc(done, z, f);
      Put(d, r, z, f, b);
      r, n, k := r + 2, b, k + 1;
    }
    assert flat[..g] == flat;
  }

  /** Both passes. Every text position keeps its style, and the array is left compact. */
  method CompactInPlace(d: array<int>, s: int) returns (r: nat)
    requires d.Length % 2 == 1 && Listed(View(d[..d.Length - 1]), s)
    modifies d
    ensures r < d.Length && r % 2 == 0 && Compact(View(d[..r]), s)
    ensures forall i :: 0 <= i < s ==> StyleAt(View(d[..r]), i) == StyleAt(old(View(d[..d.Length - 1])), i)
  {
    hide View, NonEmpty, Merged, StyleAt, Listed;
    ghost var listed := View(d[..d.Length - 1]);
    var g := DropEmpty(d, s);
    r := MergeRuns(d, g);
    ghost var kept := NonEmpty(listed, s);
    NonEmptyIncreases(listed, s);
    MergedIsCompact(kept, s);
    forall i | 0 <= i < s
      ensures StyleAt(View(d[..r]), i) == StyleAt(listed, i)
    {
      MergedKeepsStyle(kept, s, i);
      NonEmptyKeepsStyle(listed, s, i);
    }
  }

  lemma Start()
    ensures View([]) == [] && Merged([]) == [] && forall next: int :: NonEmpty([], next) == []
  {
  }

  lemma ViewSnoc(flat: seq<int>, p: int, f: int)
    requires |flat| % 2 == 0
    ensures View(flat + [p, f]) == View(flat) + [Decoration(p, f)]
  {
    assert (flat + [p, f])[..|flat|] == flat;
  }

  lemma NonEmptyNext(full: seq<int>, n: nat)
    requires n % 2 == 0 && n + 2 < |full|
    ensures NonEmpty(View(full[..n + 2]), full[n + 2]) ==
            NonEmpty(View(full[..n]), full[n]) +
            if full[n] != full[n + 2] then [Decoration(full[n], full[n + 1])] else []
    ensures NonEmpty(View(full[..n]), full[n]) + [] == NonEmpty(View(full[..n]), full[n])
  {
    assert full[..n + 2] == full[..n] + [full[n], full[n + 1]];
    ViewSnoc(full[..n], full[n], full[n + 1]);
    var d, x := View(full[..n]), Decoration(full[n], full[n + 1]);
    assert (d + [x])[..|d|] == d;
  }

  lemma MergedSnoc(d: seq<Decoration>, x: Decoration)
    ensures Merged(d + [x]) == if d != [] && d[|d| - 1].style == x.style then Merged(d) else Merged(d) + [x]
  {
    var e := d + [x];
    assert e[..|d|] == d && e[|d|] == x;
    assert Merged(e) == if Merged(d) != [] && Merged(d)[|Merged(d)| - 1].style == x.style then Merged(d)
                        else Merged(d) + [x];
  }

  lemma ViewLast(flat: seq<int>)
    requires |flat| >= 2
    ensures View(flat) != [] && View(flat)[|View(flat)| - 1] == Decoration(flat[|flat| - 2], flat[|flat| - 1])
  {
  }

  lemma MergeFirst(flat: seq<int>, n: nat)
    requires |flat| % 2 == 0 && n % 2 == 0 && n < |flat|
    requires 0 < n ==> flat[n + 1] != flat[n - 1]
    ensures Merged(View(flat[..n + 2])) == Merged(View(flat[..n])) + [Decoration(flat[n], flat[n + 1])]
  {
    hide View, Merged;
    assert flat[..n + 2] == flat[..n] + [flat[n], flat[n + 1]];
    ViewSnoc(flat[..n], flat[n], flat[n + 1]);
    MergedSnoc(View(flat[..n]), Decoration(flat[n], flat[n + 1]));
    if n > 0 {
      ViewLast(flat[..n]);
    } else {
      assert flat[..n] == [];
      Start();
    }
  }

  lemma MergeMore(flat: seq<int>, b: nat, f: int)
    requires |flat| % 2 == 0 && b % 2 == 0 && 2 <= b < |flat| && flat[b - 1] == f && flat[b + 1] == f
    ensures Merged(View(flat[..b + 2])) == Merged(View(flat[..b]))
  {
    hide View;
    assert flat[..b + 2] == flat[..b] + [flat[b], flat[b + 1]];
    ViewSnoc(flat[..b], flat[b], flat[b + 1]);
    ViewLast(flat[..b]);
    MergedSnoc(View(flat[..b]), Decoration(flat[b], flat[b + 1]));
  }

  // ---------------------------------------------------------------- the first pass

  lemma StyleSnoc(d: seq<Decoration>, x: Decoration, i: int)
    ensures StyleAt(d + [x], i) == if x.pos <= i then x.style else StyleAt(d, i)
  {
    assert (d + [x])[..|d|] == d;
  }

  lemma IncreasingSnoc(d: seq<Decoration>, x: Decoration, s: int)
    requires Increasing(d, x.pos) && x.pos < s && (d == [] ==> x.pos == 0)
    ensures Increasing(d + [x], s)
  {
    var e := d + [x];
    assert forall i :: 0 <= i < |d| ==> e[i] == d[i];
    if d != [] {
      assert forall i :: 0 <= i < |d| ==> d[i].pos <= d[|d| - 1].pos;
    }
  }

  lemma ListedPrefix(d: seq<Decoration>, s: int)
    requires Listed(d, s) && |d| > 1
    ensures Listed(d[..|d| - 1], d[|d| - 1].pos)
  {
  }

  lemma {:induction false} NonEmptyIncreases(d: seq<Decoration>, s: int)
    requires Listed(d, s)
    ensures Increasing(NonEmpty(d, s), s)
    decreases |d|
  {
    var last := d[|d| - 1];
    var before := NonEmpty(d[..|d| - 1], last.pos);
    if |d| > 1 {
      ListedPrefix(d, s);
      NonEmptyIncreases(d[..|d| - 1], last.pos);
    } else {
      assert d[..0] == [];
    }
    if last.pos != s {
      IncreasingSnoc(before, last, s);
    } else {
      Nothing(before);
    }
  }

  lemma {:induction false} NonEmptyKeepsStyle(d: seq<Decoration>, s: int, i: int)
    requires Listed(d, s) && 0 <= i < s
    ensures StyleAt(NonEmpty(d, s), i) == StyleAt(d, i)
    decreases |d|
  {
    var last := d[|d| - 1];
    var before := NonEmpty(d[..|d| - 1], last.pos);
    StyleSnoc(before, last, i);
    Nothing(before);
    if i < last.pos {
      ListedPrefix(d, s);
      NonEmptyKeepsStyle(d[..|d| - 1], last.pos, i);
    }
  }

  // ---------------------------------------------------------------- the second pass

  lemma IncreasingPrefix(d: seq<Decoration>, s: int)
    requires Increasing(d, s) && d != []
    ensures Increasing(d[..|d| - 1], d[|d| - 1].pos)
  {
    if |d| > 1 {
      assert d[|d| - 2].pos < d[|d| - 1].pos;
    }
  }

  lemma CompactSnoc(d: seq<Decoration>, x: Decoration, s: int)
    requires Compact(d, x.pos) && x.pos < s && (d == [] ==> x.pos == 0)
    requires d != [] ==> d[|d| - 1].style != x.style
    ensures Compact(d + [x], s)
  {
    IncreasingSnoc(d, x, s);
    var e := d + [x];
    assert forall i :: 0 <= i < |d| ==> e[i] == d[i];
  }

  lemma {:induction false} MergedIsCompact(d: seq<Decoration>, s: int)
    requires Increasing(d, s)
    ensures Compact(Merged(d), s)
    decreases |d|
  {
    if d != [] {
      var last := d[|d| - 1];
      var before := Merged(d[..|d| - 1]);
      IncreasingPrefix(d, s);
      MergedIsCompact(d[..|d| - 1], last.pos);
      if before == [] || before[|before| - 1].style != last.style {
        CompactSnoc(before, last, s);
      }
    }
  }

  lemma {:induction false} MergedKeepsStyle(d: seq<Decoration>, s: int, i: int)
    requires Increasing(d, s)
    ensures StyleAt(Merged(d), i) == StyleAt(d, i)
    decreases |d|
  {
    if d != [] {
      var last := d[|d| - 1];
      var before := Merged(d[..|d| - 1]);
      IncreasingPrefix(d, s);
      MergedKeepsStyle(d[..|d| - 1], last.pos, i);
      MergedIsCompact(d[..|d| - 1], last.pos);
      StyleSnoc(before, last, i);
    }
  }

  // ---------------------------------------------------------------- a compact array is the only one for its styles

  lemma CompactPrefix(d: seq<Decoration>, s: int)
    requires Compact(d, s) && d != []
    ensures Compact(d[..|d| - 1], d[|d| - 1].pos)
  {
    IncreasingPrefix(d, s);
  }

  /** Where the last decoration starts, the style changes. */
  lemma StyleChanges(d: seq<Decoration>, s: int)
    requires Compact(d, s) && |d| >= 2
    ensures var p := d[|d| - 1].pos; 0 < p && StyleAt(d, p - 1) != StyleAt(d, p)
  {
    var k := |d| - 1;
    assert d[k - 1].pos < d[k].pos && d[k - 1].style != d[k].style;
    assert d[0].pos < d[k].pos;
    assert d[..k][k - 1] == d[k - 1];
  }

  lemma LastStart(a: seq<Decoration>, b: seq<Decoration>, s: int)
    requires s > 0 && Compact(a, s) && Compact(b, s)
    requires forall i :: 0 <= i < s ==> StyleAt(a, i) == StyleAt(b, i)
    ensures a[|a| - 1].pos <= b[|b| - 1].pos
  {
    var p := a[|a| - 1].pos;
    if p > b[|b| - 1].pos {
      assert b[0].pos <= b[|b| - 1].pos;
      StyleChanges(a, s);
    }
  }

  lemma StylesBelow(d: seq<Decoration>, front: seq<Decoration>, p: int)
    requires d != [] && d[|d| - 1].pos == p && front == d[..|d| - 1]
    ensures forall i :: i < p ==> StyleAt(front, i) == StyleAt(d, i)
  {
  }

  /** A compact array is the only one with its styles, so the two passes leave nothing to choice. */
  lemma {:induction false} CompactIsUnique(a: seq<Decoration>, b: seq<Decoration>, s: int)
    requires Compact(a, s) && Compact(b, s)
    requires forall i :: 0 <= i < s ==> StyleAt(a, i) == StyleAt(b, i)
    ensures a == b
    decreases |a|
  {
    if s > 0 {
      LastStart(a, b, s);
      LastStart(b, a, s);
      var p := a[|a| - 1].pos;
      assert StyleAt(a, p) == StyleAt(b, p);
      CompactPrefix(a, s);
      CompactPrefix(b, s);
      var a', b' := a[..|a| - 1], b[..|b| - 1];
      StylesBelow(a, a', p);
      StylesBelow(b, b', p);
      CompactIsUnique(a', b', p);
      SplitLast(a);
      SplitLast(b);
    }
  }
}
