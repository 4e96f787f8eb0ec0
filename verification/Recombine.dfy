/** Laying the decorations over the text nodes: two cursors, each moved when the nearer boundary is its own. */
module Recombine {
  import opened Basics
  import opened Decorations

  /** Where a node starts, and whether it is a text node; an element (a line break) gets no span. */
  datatype PageNode = PageNode(pos: nat, isText: bool)

  /** A span made: the characters [lo, hi) of one node, in one style. */
  datatype Piece = Piece(node: nat, style: int, lo: nat, hi: nat) {
    predicate Holds(i: nat) {
      lo <= i < hi
    }
  }

  /** Nodes start at 0 and at increasing offsets; one may start at the very end of the text. */
  predicate Laid(l: seq<PageNode>, s: nat) {
    && (s > 0 ==> l != []) && (l != [] ==> l[0].pos == 0 && l[|l| - 1].pos <= s)
    && forall i, j :: 0 <= i < j < |l| ==> l[i].pos < l[j].pos
  }

  /** The node that holds a position: the last that starts not after it. */
  function NodeAt(l: seq<PageNode>, i: nat): (r: nat)
    requires l != [] && l[0].pos == 0
    ensures r < |l|
  {
    if |l| == 1 || l[|l| - 1].pos <= i then |l| - 1 else NodeAt(l[..|l| - 1], i)
  }

  predicate IsTextAt(l: seq<PageNode>, i: nat)
    requires l != [] && l[0].pos == 0
  {
    l[NodeAt(l, i)].isText
  }

  /** `l[h + 2] || s`: a missing entry and a zero both fall back to the text length. */
  function NextNode(l: seq<PageNode>, h: nat, s: nat): nat {
    if h + 1 < |l| && l[h + 1].pos != 0 then l[h + 1].pos else s
  }

  function NextDecoration(d: seq<Decoration>, a: nat, s: nat): int {
    if a + 1 < |d| && d[a + 1].pos != 0 then d[a + 1].pos else s
  }

  predicate IsBoundary(l: seq<PageNode>, d: seq<Decoration>, s: nat, x: nat) {
    x == s || (exists n <- l :: n.pos == x) || (exists c <- d :: c.pos == x)
  }

  /** A piece lies in one text node and one decoration, from one boundary to another. */
  predicate Proper(l: seq<PageNode>, d: seq<Decoration>, s: nat, p: Piece)
    requires l != [] && l[0].pos == 0
  {
    && p.lo < p.hi <= s && IsBoundary(l, d, s, p.lo) && IsBoundary(l, d, s, p.hi)
    && forall i: nat :: p.lo <= i < p.hi ==> NodeAt(l, i) == p.node && IsTextAt(l, i) && StyleAt(d, i) == p.style
  }

  /** Up to `e`: the pieces are proper, in order without overlap, and hold every character of the text nodes. */
  ghost predicate Drawn(l: seq<PageNode>, d: seq<Decoration>, s: nat, e: nat, pieces: seq<Piece>) {
    && (l != [] ==> l[0].pos == 0)
    && (pieces != [] ==> l != [] && pieces[|pieces| - 1].hi <= e)
    && (forall k :: 0 <= k < |pieces| ==> Proper(l, d, s, pieces[k]))
    && (forall k :: 0 < k < |pieces| ==> pieces[k - 1].hi <= pieces[k].lo)
    && (forall i: nat :: i < e && l != [] && IsTextAt(l, i) ==> exists p <- pieces :: p.Holds(i))
  }

  /** Both cursors stand on what holds the position `e`. */
  ghost predicate OnCursor(l: seq<PageNode>, d: seq<Decoration>, s: nat, e: nat, h: nat, a: nat) {
    && e <= s && h <= |l|
    && (if h < |l| then l[h].pos <= e && (e < NextNode(l, h, s) || e == s == NextNode(l, h, s)) else e == s)
    && (if a < |d| then d[a].pos <= e && (e < NextDecoration(d, a, s) || e == s == NextDecoration(d, a, s)) else e == s)
    && (h < |l| || a < |d| || e == s)
    && IsBoundary(l, d, s, e)
  }

  /**
   * The walk visits the common refinement of the nodes and the decorations; the number of rounds is at most the
   * number of nodes and decorations together.
   */
  method Walk(l: seq<PageNode>, d: seq<Decoration>, s: nat) returns (pieces: seq<Piece>, rounds: nat)
    requires Laid(l, s) && Increasing(d, s)
    ensures Drawn(l, d, s, s, pieces)
    ensures rounds <= |l| + |d|
  {
    hide Drawn, Laid, Increasing, IsBoundary;
    var e: nat, h: nat, a: nat := 0, 0, 0;
    pieces, rounds := [], 0;
    Begin(l, d, s);
    while h < |l|
      invariant OnCursor(l, d, s, e, h, a)
      invariant Drawn(l, d, s, e, pieces)
      invariant rounds <= h + Min(a, |d|)
      decreases |l| - h + |d| - Min(a, |d|)
    {
      var o, c := NextNode(l, h, s), NextDecoration(d, a, s);
      var b := Min(o, c);
      NearerBoundary(l, d, s, e, h, a);
      if l[h].isText && e < b {
        AddPiece(l, d, s, e, h, a, pieces);
        pieces := pieces + [Piece(h, d[a].style, e, b)];
      } else {
        SkipGap(l, d, s, e, h, a, pieces);
      }
      Advance(l, d, s, e, h, a);
      e := b;
      if e >= o {
        h := h + 1;
      }
      if e >= c {
        a := a + 1;
      }
      rounds := rounds + 1;
    }
  }

  /**
   * Both passes and the walk: every character of a text node stands in a span, every span in one text node, and its
   * style is the one the lexer listed for each of its characters.
   */
  method Render(l: seq<PageNode>, d: array<int>, s: nat) returns (pieces: seq<Piece>)
    requires Laid(l, s) && d.Length % 2 == 1 && Listed(View(d[..d.Length - 1]), s)
    modifies d
    ensures l == [] ==> pieces == []
    ensures l != [] ==> forall p <- pieces, i: nat :: p.Holds(i) ==>
              i < s && NodeAt(l, i) == p.node && IsTextAt(l, i) &&
              StyleAt(old(View(d[..d.Length - 1])), i) == p.style
    ensures forall i: nat :: i < s && IsTextAt(l, i) ==> exists p <- pieces :: p.Holds(i)
    ensures forall k :: 0 < k < |pieces| ==> pieces[k - 1].hi <= pieces[k].lo
  {
    hide View, Listed, StyleAt, NodeAt, IsTextAt, IsBoundary;
    var r := CompactInPlace(d, s);
    var compact := View(d[..r]);
    var rounds;
    pieces, rounds := Walk(l, compact, s);
    forall p: Piece, i: nat | p in pieces && p.Holds(i)
      ensures l != [] && i < s && NodeAt(l, i) == p.node && IsTextAt(l, i) && StyleAt(compact, i) == p.style
    {
    }
  }

  lemma Begin(l: seq<PageNode>, d: seq<Decoration>, s: nat)
    requires Laid(l, s) && Increasing(d, s)
    ensures OnCursor(l, d, s, 0, 0, 0) && Drawn(l, d, s, 0, [])
  {
    assert l != [] ==> l[0] in l;
    assert |l| > 1 ==> l[0].pos < l[1].pos;
    assert |d| > 1 ==> d[0].pos < d[1].pos && d[1].pos <= d[|d| - 1].pos;
    assert d != [] ==> d[0].pos <= d[|d| - 1].pos;
    assert l != [] ==> IsBoundary(l, d, s, l[0].pos);
  }

  lemma NearerBoundary(l: seq<PageNode>, d: seq<Decoration>, s: nat, e: nat, h: nat, a: nat)
    requires Laid(l, s) && Increasing(d, s) && OnCursor(l, d, s, e, h, a) && h < |l|
    ensures var b := Min(NextNode(l, h, s), NextDecoration(d, a, s));
            e <= b <= s && IsBoundary(l, d, s, b) && (e < b ==> a < |d|)
  {
    var o, c := NextNode(l, h, s), NextDecoration(d, a, s);
    assert h + 1 < |l| ==> l[h + 1] in l && l[h + 1].pos <= l[|l| - 1].pos && l[h].pos < l[h + 1].pos;
    assert a + 1 < |d| ==> d[a + 1] in d && d[a + 1].pos <= d[|d| - 1].pos && d[a].pos < d[a + 1].pos;
    assert d != [] && a + 1 < |d| ==> d[0].pos <= d[a].pos;
  }

  lemma {:induction false} NodeAtIs(l: seq<PageNode>, s: nat, h: nat, i: nat)
    requires Laid(l, s) && h < |l| && l[h].pos <= i && (h + 1 < |l| ==> i < l[h + 1].pos)
    ensures NodeAt(l, i) == h
    decreases |l|
  {
    if h + 1 < |l| {
      assert l[h + 1].pos <= l[|l| - 1].pos;
      NodeAtIs(l[..|l| - 1], l[|l| - 1].pos, h, i);
    }
  }

  lemma {:induction false} StyleAtIs(d: seq<Decoration>, s: int, a: nat, i: int)
    requires Increasing(d, s) && a < |d| && d[a].pos <= i && (a + 1 < |d| ==> i < d[a + 1].pos)
    ensures StyleAt(d, i) == d[a].style
    decreases |d|
  {
    if a + 1 < |d| {
      assert d[a + 1].pos <= d[|d| - 1].pos;
      IncreasingPrefix(d, s);
      StyleAtIs(d[..|d| - 1], d[|d| - 1].pos, a, i);
    }
  }

  lemma Inside(l: seq<PageNode>, d: seq<Decoration>, s: nat, e: nat, h: nat, a: nat, i: nat)
    requires Laid(l, s) && Increasing(d, s) && OnCursor(l, d, s, e, h, a) && h < |l|
    requires e <= i < Min(NextNode(l, h, s), NextDecoration(d, a, s))
    ensures NodeAt(l, i) == h && (a < |d| ==> StyleAt(d, i) == d[a].style)
  {
    if h + 1 < |l| {
      assert l[h].pos < l[h + 1].pos;
    }
    NodeAtIs(l, s, h, i);
    if a < |d| {
      if a + 1 < |d| {
        assert d[a].pos < d[a + 1].pos && d[0].pos <= d[a].pos;
      }
      StyleAtIs(d, s, a, i);
    }
  }

  lemma AddPiece(l: seq<PageNode>, d: seq<Decoration>, s: nat, e: nat, h: nat, a: nat, pieces: seq<Piece>)
    requires Laid(l, s) && Increasing(d, s) && OnCursor(l, d, s, e, h, a) && h < |l| && l[h].isText
    requires Drawn(l, d, s, e, pieces)
    requires var b := Min(NextNode(l, h, s), NextDecoration(d, a, s)); e < b <= s && IsBoundary(l, d, s, b)
    requires a < |d|
    ensures var b := Min(NextNode(l, h, s), NextDecoration(d, a, s));
            Drawn(l, d, s, b, pieces + [Piece(h, d[a].style, e, b)])
  {
    hide IsBoundary;
    var b := Min(NextNode(l, h, s), NextDecoration(d, a, s));
    var p := Piece(h, d[a].style, e, b);
    forall i: nat | e <= i < b
      ensures NodeAt(l, i) == h && StyleAt(d, i) == d[a].style
    {
      Inside(l, d, s, e, h, a, i);
    }
    assert Proper(l, d, s, p);
    DrawnMore(l, d, s, e, b, pieces, p);
  }

  lemma DrawnMore(l: seq<PageNode>, d: seq<Decoration>, s: nat, e: nat, b: nat, pieces: seq<Piece>, p: Piece)
    requires Drawn(l, d, s, e, pieces) && l != [] && l[0].pos == 0 && Proper(l, d, s, p) && p.lo == e && p.hi == b
    ensures Drawn(l, d, s, b, pieces + [p])
  {
    hide Proper, NodeAt, IsTextAt;
    var more := pieces + [p];
    forall i: nat | i < b && IsTextAt(l, i)
      ensures exists q <- more :: q.Holds(i)
    {
      if i < e {
        var q :| q in pieces && q.Holds(i);
        assert q in more;
      } else {
        assert p in more && p.Holds(i);
      }
    }
  }

  lemma SkipGap(l: seq<PageNode>, d: seq<Decoration>, s: nat, e: nat, h: nat, a: nat, pieces: seq<Piece>)
    requires Laid(l, s) && Increasing(d, s) && OnCursor(l, d, s, e, h, a) && h < |l|
    requires Drawn(l, d, s, e, pieces)
    requires var b := Min(NextNode(l, h, s), NextDecoration(d, a, s)); e <= b <= s && (!l[h].isText || e == b)
    ensures Drawn(l, d, s, Min(NextNode(l, h, s), NextDecoration(d, a, s)), pieces)
  {
    hide Proper;
    var b := Min(NextNode(l, h, s), NextDecoration(d, a, s));
    forall i: nat | e <= i < b
      ensures !IsTextAt(l, i)
    {
      Inside(l, d, s, e, h, a, i);
    }
  }

  lemma Advance(l: seq<PageNode>, d: seq<Decoration>, s: nat, e: nat, h: nat, a: nat)
    requires Laid(l, s) && Increasing(d, s) && OnCursor(l, d, s, e, h, a) && h < |l|
    requires var b := Min(NextNode(l, h, s), NextDecoration(d, a, s)); e <= b <= s && IsBoundary(l, d, s, b)
    ensures var o, c := NextNode(l, h, s), NextDecoration(d, a, s);
            var b := Min(o, c);
            OnCursor(l, d, s, b, if b >= o then h + 1 else h, if b >= c then a + 1 else a)
    ensures var o, c := NextNode(l, h, s), NextDecoration(d, a, s);
            o > c ==> a + 1 < |d|
  {
    hide IsBoundary;
    assert forall i, j :: 0 <= i < j < |l| ==> l[i].pos < l[j].pos;
    assert forall i, j :: 0 <= i < j < |d| ==> d[i].pos < d[j].pos;
    assert a + 1 < |d| ==> d[a + 1].pos <= d[|d| - 1].pos && d[0].pos <= d[a].pos;
    assert h + 1 < |l| ==> l[h + 1].pos <= l[|l| - 1].pos;
    assert h + 2 < |l| ==> l[h + 1].pos < l[h + 2].pos <= l[|l| - 1].pos;
    assert a + 2 < |d| ==> d[a + 1].pos < d[a + 2].pos <= d[|d| - 1].pos;
  }
}
