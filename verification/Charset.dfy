/** Normalising the ranges of a character class for a case-insensitive expression. */
module Charset {
  import opened Basics

  datatype Range = Range(lo: int, hi: int) {
    predicate Has(c: int) {
      lo <= c <= hi
    }
  }

  predicate Member(rs: seq<Range>, c: int) {
    exists r <- rs :: r.Has(c)
  }

  /** Each range has a first code not after its last, as the syntax of expressions demands. */
  predicate Ranges(rs: seq<Range>) {
    forall r <- rs :: 0 <= r.lo <= r.hi
  }

  function SwapCase(c: int): int {
    if 65 <= c <= 90 then c + 32 else if 97 <= c <= 122 then c - 32 else c
  }

  /** In increasing order with at least one code left out in between. */
  predicate Separated(rs: seq<Range>) {
    && (forall k :: 0 <= k < |rs| ==> rs[k].lo <= rs[k].hi)
    && (forall k :: 0 < k < |rs| ==> rs[k - 1].hi + 1 < rs[k].lo)
  }

  /** `x | 32` and `x & -33` on a code that is not negative: the bit of weight 32 set and cleared. */
  function SetBit(x: int): int {
    if (x / 32) % 2 == 1 then x else x + 32
  }

  function ClearBit(x: int): int {
    if (x / 32) % 2 == 1 then x - 32 else x
  }

  /** A range together with its other-case copies. */
  function WithCases(r: Range): seq<Range> {
    var j, d := r.lo, r.hi;
    if d < 65 || j > 122 then [r]
    else
      [r]
      + (if d < 65 || j > 90 then [] else [Range(SetBit(Max(65, j)), SetBit(Min(d, 90)))])
      + (if d < 97 || j > 122 then [] else [Range(ClearBit(Max(97, j)), ClearBit(Min(d, 122)))])
  }

  // ---------------------------------------------------------------- the program

  /** The order of the sort: by first code, longer ranges first. */
  predicate Before(a: Range, b: Range) {
    a.lo < b.lo || (a.lo == b.lo && a.hi >= b.hi)
  }

  predicate Sorted(rs: seq<Range>) {
    forall i, j :: 0 <= i < j < |rs| ==> Before(rs[i], rs[j])
  }

  /** Stands for the built-in sort. */
  method Sort(b: seq<Range>) returns (r: seq<Range>)
    ensures multiset(r) == multiset(b) && Sorted(r)
  {
    r := [];
    var i := 0;
    assert b[..0] == [];
    while i < |b|
      invariant 0 <= i <= |b|
      invariant multiset(r) == multiset(b[..i]) && Sorted(r)
    {
      var k := 0;
      while k < |r| && Before(r[k], b[i])
        invariant 0 <= k <= |r|
        invariant forall m :: 0 <= m < k ==> Before(r[m], b[i])
      {
        k := k + 1;
      }
      InsertKeeps(r, k, b[i]);
      r := r[..k] + [b[i]] + r[k..];
      assert b[..i + 1] == b[..i] + [b[i]];
      i := i + 1;
    }
    assert b[..|b|] == b;
  }

  lemma InsertKeeps(r: seq<Range>, k: nat, x: Range)
    requires k <= |r| && Sorted(r)
    requires forall m :: 0 <= m < k ==> Before(r[m], x)
    requires k < |r| ==> !Before(r[k], x)
    ensures Sorted(r[..k] + [x] + r[k..])
    ensures multiset(r[..k] + [x] + r[k..]) == multiset(r) + multiset{x}
  {
    var s := r[..k] + [x] + r[k..];
    assert r == r[..k] + r[k..];
    forall i, j | 0 <= i < j < |s|
      ensures Before(s[i], s[j])
    {
      if j > k {
        assert s[j] == r[j - 1];
        assert k < j - 1 ==> Before(r[k], r[j - 1]);
      }
      if i > k {
        assert s[i] == r[i - 1];
      }
    }
  }

  /**
   * The list of ranges: a code is in it exactly when that code or its other case was in the class, and no two
   * ranges could be written as one.
   */
  method Normalise(ranges: seq<Range>) returns (f: seq<Range>)
    requires Ranges(ranges)
    ensures Separated(f)
    ensures forall c: int :: Member(f, c) <==> Member(ranges, c) || Member(ranges, SwapCase(c))
  {
    hide Member, Folded, WithCases, Sorted;
    var b: seq<Range> := [];
    var c := 0;
    Empty(ranges);
    while c < |ranges|
      invariant 0 <= c <= |ranges| && Ranges(b)
      invariant Folded(ranges[..c], b)
    {
      FoldOne(ranges, c, b);
      b := b + WithCases(ranges[c]);
      c := c + 1;
    }
    assert ranges[..|ranges|] == ranges;
    var sorted := Sort(b);
    SameMembers(b, sorted);
    f := [];
    c := 0;
    EmptyMerge(sorted);
    while c < |sorted|
      invariant 0 <= c <= |sorted|
      invariant Merging(sorted, c, f)
    {
      var i := sorted[c];
      MergeOne(sorted, c, f);
      if f != [] && i.lo <= f[|f| - 1].hi + 1 {
        f := f[|f| - 1 := Range(f[|f| - 1].lo, Max(f[|f| - 1].hi, i.hi))];
      } else {
        f := f + [i];
      }
      c := c + 1;
    }
    assert sorted[..|sorted|] == sorted;
    FoldedMembers(ranges, b, f);
  }

  lemma FoldedMembers(ranges: seq<Range>, b: seq<Range>, f: seq<Range>)
    requires Folded(ranges, b) && forall c: int :: Member(f, c) <==> Member(b, c)
    ensures forall c: int :: Member(f, c) <==> Member(ranges, c) || Member(ranges, SwapCase(c))
  {
    hide Member;
  }

  // ---------------------------------------------------------------- case folding

  ghost predicate Folded(ranges: seq<Range>, b: seq<Range>) {
    forall c: int :: Member(b, c) <==> Member(ranges, c) || Member(ranges, SwapCase(c))
  }

  lemma MemberConcat(a: seq<Range>, b: seq<Range>, c: int)
    ensures Member(a + b, c) <==> Member(a, c) || Member(b, c)
  {
    if Member(a, c) {
      var r :| r in a && r.Has(c);
      assert r in a + b;
    }
    if Member(b, c) {
      var r :| r in b && r.Has(c);
      assert r in a + b;
    }
  }

  lemma MemberOne(r: Range, c: int)
    ensures Member([r], c) <==> r.Has(c)
  {
    assert r in [r];
  }

  lemma Empty(ranges: seq<Range>)
    ensures Folded(ranges[..0], [])
  {
  }

  /** The copies add exactly the other cases of the range's letters. */
  lemma CasesOfOne(r: Range, c: int)
    requires 0 <= r.lo <= r.hi
    ensures Member(WithCases(r), c) <==> r.Has(c) || r.Has(SwapCase(c))
    ensures Ranges(WithCases(r))
  {
    var j, d := r.lo, r.hi;
    var lower := Range(Max(65, j) + 32, Min(d, 90) + 32);
    var upper := Range(Max(97, j) - 32, Min(d, 122) - 32);
    var a: seq<Range> := if d < 65 || j > 90 then [] else [lower];
    var b: seq<Range> := if d < 97 || j > 122 then [] else [upper];
    MemberOne(r, c);
    MemberOne(lower, c);
    MemberOne(upper, c);
    MemberConcat([r], a, c);
    MemberConcat([r] + a, b, c);
    assert !(d < 65 || j > 122) ==> WithCases(r) == [r] + a + b;
  }

  lemma FoldOne(ranges: seq<Range>, k: nat, b: seq<Range>)
    requires Ranges(ranges) && k < |ranges| && Folded(ranges[..k], b) && Ranges(b)
    ensures Folded(ranges[..k + 1], b + WithCases(ranges[k])) && Ranges(b + WithCases(ranges[k]))
  {
    hide Member;
    var r := ranges[k];
    assert ranges[..k + 1] == ranges[..k] + [r];
    CasesOfOne(r, 0);
    forall c: int
      ensures Member(b + WithCases(r), c) <==> Member(ranges[..k + 1], c) || Member(ranges[..k + 1], SwapCase(c))
    {
      CasesOfOne(r, c);
      MemberConcat(b, WithCases(r), c);
      MemberConcat(ranges[..k], [r], c);
      MemberConcat(ranges[..k], [r], SwapCase(c));
      MemberOne(r, c);
      MemberOne(r, SwapCase(c));
    }
  }

  lemma SameMembers(a: seq<Range>, b: seq<Range>)
    requires multiset(a) == multiset(b)
    ensures forall c: int :: Member(a, c) <==> Member(b, c)
    ensures Ranges(a) <==> Ranges(b)
  {
    assert forall r :: r in a <==> r in multiset(a);
    assert forall r :: r in b <==> r in multiset(b);
  }

  // ---------------------------------------------------------------- merging

  ghost predicate Merging(b: seq<Range>, c: nat, f: seq<Range>)
    requires c <= |b|
  {
    && Ranges(b) && Sorted(b) && Separated(f)
    && (f != [] ==> c > 0 && f[|f| - 1].lo <= b[c - 1].lo)
    && (f == [] ==> c == 0)
    && forall x: int :: Member(f, x) <==> Member(b[..c], x)
  }

  lemma EmptyMerge(b: seq<Range>)
    requires Ranges(b) && Sorted(b)
    ensures Merging(b, 0, [])
  {
  }

  lemma MergeOne(b: seq<Range>, c: nat, f: seq<Range>)
    requires c < |b| && Merging(b, c, f)
    ensures var i := b[c];
            Merging(b, c + 1,
                    if f != [] && i.lo <= f[|f| - 1].hi + 1
                    then f[|f| - 1 := Range(f[|f| - 1].lo, Max(f[|f| - 1].hi, i.hi))] else f + [i])
  {
    hide Member;
    var i := b[c];
    assert i in b && b[..c + 1] == b[..c] + [i];
    assert c > 0 ==> Before(b[c - 1], i);
    if f != [] && i.lo <= f[|f| - 1].hi + 1 {
      var k := |f| - 1;
      var last := f[k];
      var g := f[k := Range(last.lo, Max(last.hi, i.hi))];
      assert f == f[..k] + [last] && g == f[..k] + [g[k]];
      forall x: int
        ensures Member(g, x) <==> Member(b[..c + 1], x)
      {
        MemberConcat(f[..k], [last], x);
        MemberConcat(f[..k], [g[k]], x);
        MemberConcat(b[..c], [i], x);
        MemberOne(last, x);
        MemberOne(g[k], x);
        MemberOne(i, x);
      }
    } else {
      forall x: int
        ensures Member(f + [i], x) <==> Member(b[..c + 1], x)
      {
        MemberConcat(f, [i], x);
        MemberConcat(b[..c], [i], x);
      }
    }
  }

  // ---------------------------------------------------------------- one list for each set of codes

  lemma {:induction false} SeparatedAbove(rs: seq<Range>, c: int)
    requires Separated(rs) && rs != [] && c < rs[0].lo
    ensures !Member(rs, c)
    decreases |rs|
  {
    forall r | r in rs
      ensures !r.Has(c)
    {
      var k :| 0 <= k < |rs| && rs[k] == r;
      Ascending(rs, k);
    }
  }

  lemma {:induction false} Ascending(rs: seq<Range>, k: nat)
    requires Separated(rs) && k < |rs|
    ensures rs[0].lo <= rs[k].lo && (k > 0 ==> rs[0].hi + 1 < rs[k].lo)
  {
    if k > 0 {
      Ascending(rs, k - 1);
    }
  }

  lemma FirstMember(rs: seq<Range>, c: int)
    requires Separated(rs) && rs != []
    ensures rs[0].Has(c) ==> Member(rs, c)
    ensures c == rs[0].hi + 1 ==> !Member(rs, c)
    ensures Member(rs[1..], c) <==> Member(rs, c) && !rs[0].Has(c)
  {
    assert rs == [rs[0]] + rs[1..];
    MemberConcat([rs[0]], rs[1..], c);
    MemberOne(rs[0], c);
    forall k | 0 < k < |rs|
      ensures rs[0].hi + 1 < rs[k].lo
    {
      Ascending(rs, k);
    }
    assert forall r <- rs[1..] :: rs[0].hi + 1 < r.lo;
  }

  /** The ranges in order are fixed by their codes, so neither order nor splitting of the input shows. */
  lemma {:induction false} SeparatedIsUnique(a: seq<Range>, b: seq<Range>)
    requires Separated(a) && Separated(b)
    requires forall c: int :: Member(a, c) <==> Member(b, c)
    ensures a == b
    decreases |a| + |b|
  {
    hide Member;
    if a == [] || b == [] {
      NoneLeft(a, b);
      NoneLeft(b, a);
    } else {
      var x, y := a[0], b[0];
      FirstMember(a, x.lo);
      FirstMember(b, y.lo);
      if y.lo > x.lo {
        SeparatedAbove(b, x.lo);
      }
      if x.lo > y.lo {
        SeparatedAbove(a, y.lo);
      }
      FirstMember(a, x.hi + 1);
      FirstMember(b, x.hi + 1);
      FirstMember(a, y.hi + 1);
      FirstMember(b, y.hi + 1);
      assert x == y;
      var a', b' := a[1..], b[1..];
      forall c: int
        ensures Member(a', c) <==> Member(b', c)
      {
        FirstMember(a, c);
        FirstMember(b, c);
      }
      SeparatedIsUnique(a', b');
      assert a == [x] + a' && b == [y] + b';
    }
  }

  lemma NoneLeft(a: seq<Range>, b: seq<Range>)
    requires Separated(b)
    requires forall c: int :: Member(a, c) <==> Member(b, c)
    ensures a == [] ==> b == []
  {
    if a == [] && b != [] {
      FirstMember(b, b[0].lo);
    }
  }
}
