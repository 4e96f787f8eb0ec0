/** The flat event stream of a DOM tree, and how it keeps the tree's nesting. */
module NodeStream {
  import opened Basics
  import opened Markup

  /** A DOM child list through `firstChild` and `nextSibling`; `Other` is a comment or the like. */
  datatype Forest =
    | Nil
    | Txt(s: string, next: Forest)
    | Element(node: Node, kids: Forest, next: Forest)
    | Other(next: Forest)

  datatype Event = Start(offset: nat, node: Node) | Stop(offset: nat, node: Node)

  // ---------------------------------------------------------------- streams

  function Apply(open: seq<Node>, e: Event): seq<Node> {
    match e
    case Start(_, n) => if IsVoid(n) then open else open + [n]
    case Stop(_, n) => if IsVoid(n) then open else Closed(open, n)
  }

  predicate Fits(open: seq<Node>, e: Event) {
    e.Stop? && !IsVoid(e.node) ==> open != [] && Tag(open[|open| - 1]) == Tag(e.node)
  }

  /** Every stop event of an element that can be open names the innermost, and nothing is left open. */
  predicate WellNested(open: seq<Node>, events: seq<Event>)
    decreases |events|
  {
    if events == [] then open == []
    else
      Fits(open, events[0]) && WellNested(Apply(open, events[0]), events[1..])
  }

  /** Offsets do not decrease and lie in [lo, hi]. */
  predicate Ordered(lo: nat, events: seq<Event>, hi: nat)
    decreases |events|
  {
    if events == [] then lo <= hi
    else lo <= events[0].offset && Ordered(events[0].offset, events[1..], hi)
  }

  /** The elements open around the character at `i`: every event up to and including `i` has happened. */
  function OpenAt(open: seq<Node>, events: seq<Event>, i: nat): seq<Node>
    decreases |events|
  {
    if events == [] || i < events[0].offset then open
    else OpenAt(Apply(open, events[0]), events[1..], i)
  }

  predicate StreamOver(events: seq<Event>, length: nat) {
    WellNested([], events) && Ordered(0, events, length)
  }

  function Nodes(events: seq<Event>): set<Node> {
    set e <- events :: e.node
  }

  function Begun(events: seq<Event>): set<Node> {
    set e <- events | e.Start? :: e.node
  }

  // ---------------------------------------------------------------- trees

  function TextOf(f: Forest): string {
    match f
    case Nil => ""
    case Txt(s, next) => s + TextOf(next)
    case Element(_, kids, next) => TextOf(kids) + TextOf(next)
    case Other(next) => TextOf(next)
  }

  function Elements(f: Forest): set<Node> {
    match f
    case Nil => {}
    case Txt(_, next) => Elements(next)
    case Element(n, kids, next) => {n} + Elements(kids) + Elements(next)
    case Other(next) => Elements(next)
  }

  /** The elements of the tree that hold its `i`-th character, outermost first. */
  function Path(f: Forest, i: nat): seq<Node>
    requires i < |TextOf(f)|
  {
    match f
    case Txt(s, next) => if i < |s| then [] else Path(next, i - |s|)
    case Element(n, kids, next) =>
      if i < |TextOf(kids)| then [n] + Path(kids, i) else Path(next, i - |TextOf(kids)|)
    case Other(next) => Path(next, i)
  }

  /** The program's test for elements without an end tag, `/br|hr|img|input/` anywhere in the name. */
  predicate LooksVoid(n: Node) {
    var tag := Tag(n);
    Contains(tag, "br") || Contains(tag, "hr") || Contains(tag, "img") || Contains(tag, "input")
  }

  /** Every element that gets no stop event is one that needs none. */
  predicate NamesFit(f: Forest) {
    match f
    case Nil => true
    case Txt(_, next) => NamesFit(next)
    case Element(n, kids, next) => (LooksVoid(n) ==> IsVoid(n)) && NamesFit(kids) && NamesFit(next)
    case Other(next) => NamesFit(next)
  }

  /** What an element leaves open behind it, and what a child list does, outermost first. */
  function LeftBy(n: Node, kids: Forest): seq<Node>
    decreases kids, 1
  {
    if IsVoid(n) then LeftOpen(kids) else if LooksVoid(n) then [n] + LeftOpen(kids) else []
  }

  function LeftOpen(f: Forest): seq<Node>
    decreases f, 0
  {
    match f
    case Nil => []
    case Txt(_, next) => LeftOpen(next)
    case Element(n, kids, next) => LeftBy(n, kids) + LeftOpen(next)
    case Other(next) => LeftOpen(next)
  }

  /** No void element holds text, and no text follows an element, in its own list, that leaves something open. */
  predicate Placed(f: Forest) {
    match f
    case Nil => true
    case Txt(_, next) => Placed(next)
    case Element(n, kids, next) =>
      && (IsVoid(n) ==> TextOf(kids) == "") && (LeftBy(n, kids) != [] ==> TextOf(next) == "")
      && Placed(kids) && Placed(next)
    case Other(next) => Placed(next)
  }

  /** Where a reader of the stream puts the `i`-th character. */
  function Seen(f: Forest, i: nat): seq<Node>
    requires i < |TextOf(f)|
  {
    match f
    case Txt(s, next) => if i < |s| then [] else Seen(next, i - |s|)
    case Element(n, kids, next) =>
      if i < |TextOf(kids)| then (if IsVoid(n) then [] else [n]) + Seen(kids, i)
      else LeftBy(n, kids) + Seen(next, i - |TextOf(kids)|)
    case Other(next) => Seen(next, i)
  }

  /** What walking the child list `f` from offset `a` pushes. */
  function Stream(f: Forest, a: nat): seq<Event> {
    match f
    case Nil => []
    case Txt(s, next) => Stream(next, a + |s|)
    case Element(n, kids, next) =>
      var b := a + |TextOf(kids)|;
      [Start(a, n)] + Stream(kids, a) + (if LooksVoid(n) then [] else [Stop(b, n)]) + Stream(next, b)
    case Other(next) => Stream(next, a)
  }

  /** The walker with its event array. */
  class Walker {
    var events: seq<Event>

    constructor ()
      ensures events == []
    {
      events := [];
    }

    method Walk(f: Forest, a: nat) returns (end: nat)
      modifies this
      ensures events == old(events) + Stream(f, a)
      ensures end == a + |TextOf(f)|
      decreases f
    {
      end := a;
      var child := f;
      assert events + Stream(child, end) == old(events) + Stream(f, a);
      while child != Nil
        invariant events + Stream(child, end) == old(events) + Stream(f, a)
        invariant end + |TextOf(child)| == a + |TextOf(f)|
        invariant child == f || child < f
        decreases child
      {
        ghost var before, start := events, end;
        match child
        case Txt(s, next) =>
          end := end + |s|;
          child := next;
        case Element(n, kids, next) =>
          events := events + [Start(end, n)];
          end := Walk(kids, end);
          if !LooksVoid(n) {
            events := events + [Stop(end, n)];
          }
          StreamElement(before, start, n, kids, next);
          child := next;
        case Other(next) =>
          child := next;
      }
    }
  }

  lemma StreamElement(before: seq<Event>, a: nat, n: Node, kids: Forest, next: Forest)
    ensures var b := a + |TextOf(kids)|;
            before + Stream(Element(n, kids, next), a) ==
            before + [Start(a, n)] + Stream(kids, a) + (if LooksVoid(n) then [] else [Stop(b, n)]) + Stream(next, b)
  {
  }

  // ---------------------------------------------------------------- in order, and when well nested

  lemma WellNestedCons(open: seq<Node>, e: Event, rest: seq<Event>)
    ensures WellNested(open, [e] + rest) <==> Fits(open, e) && WellNested(Apply(open, e), rest)
  {
    Head(e, rest);
  }

  lemma OrderedCons(lo: nat, e: Event, rest: seq<Event>, hi: nat)
    ensures Ordered(lo, [e] + rest, hi) <==> lo <= e.offset && Ordered(e.offset, rest, hi)
  {
    Head(e, rest);
  }

  lemma OpenAtCons(open: seq<Node>, e: Event, rest: seq<Event>, i: nat)
    ensures OpenAt(open, [e] + rest, i) == if i < e.offset then open else OpenAt(Apply(open, e), rest, i)
  {
    Head(e, rest);
  }

  /** What follows the children of an element: its stop event, if it gets one, and the siblings. */
  function AfterKids(n: Node, b: nat, tail: seq<Event>): seq<Event> {
    if LooksVoid(n) then tail else [Stop(b, n)] + tail
  }

  lemma ElementStream(n: Node, kids: Forest, next: Forest, a: nat, rest: seq<Event>)
    ensures var b := a + |TextOf(kids)|;
            Stream(Element(n, kids, next), a) + rest ==
            [Start(a, n)] + (Stream(kids, a) + AfterKids(n, b, Stream(next, b) + rest))
  {
    hide LooksVoid, TextOf;
    var b := a + |TextOf(kids)|;
    var stop := if LooksVoid(n) then [] else [Stop(b, n)];
    var siblings := Stream(next, b);
    assert Stream(Element(n, kids, next), a) == [Start(a, n)] + Stream(kids, a) + stop + siblings;
    hide Stream;
    Assoc([Start(a, n)] + Stream(kids, a) + stop, siblings, rest);
    Assoc([Start(a, n)] + Stream(kids, a), stop, siblings + rest);
    Assoc([Start(a, n)], Stream(kids, a), stop + (siblings + rest));
    Nothing(siblings + rest);
  }

  lemma {:induction false} StreamNested(f: Forest, a: nat, open: seq<Node>, rest: seq<Event>)
    requires NamesFit(f)
    ensures WellNested(open, Stream(f, a) + rest) == WellNested(open, rest)
    decreases f
  {
    hide IsVoid, LooksVoid, Closed, Tag, TextOf;
    match f
    case Nil =>
      Nothing(rest);
    case Txt(s, next) =>
      StreamNested(next, a + |s|, open, rest);
    case Element(n, kids, next) =>
      var b := a + |TextOf(kids)|;
      var tail := Stream(next, b) + rest;
      ElementStream(n, kids, next, a, rest);
      WellNestedCons(open, Start(a, n), Stream(kids, a) + AfterKids(n, b, tail));
      StreamNested(kids, a, Apply(open, Start(a, n)), AfterKids(n, b, tail));
      StreamNested(next, b, open, rest);
      ClosedTop(open, n, n);
      WellNestedCons(Apply(open, Start(a, n)), Stop(b, n), tail);
    case Other(next) =>
      StreamNested(next, a, open, rest);
  }

  /** No event stops an element that the walk would give no stop event. */
  predicate Unstopped(events: seq<Event>) {
    forall e <- events :: e.Stop? ==> !LooksVoid(e.node)
  }

  lemma {:induction false} StreamUnstopped(f: Forest, a: nat)
    ensures Unstopped(Stream(f, a))
    decreases f
  {
    hide LooksVoid;
    match f
    case Nil =>
    case Txt(s, next) => StreamUnstopped(next, a + |s|);
    case Element(n, kids, next) =>
      StreamUnstopped(kids, a);
      StreamUnstopped(next, a + |TextOf(kids)|);
    case Other(next) => StreamUnstopped(next, a);
  }

  lemma SameTest(m: Node, n: Node)
    requires Tag(m) == Tag(n)
    ensures LooksVoid(m) <==> LooksVoid(n)
  {
  }

  /** Once such an element is open, the rest cannot be well nested. */
  lemma {:induction false} Stuck(open: seq<Node>, n: Node, events: seq<Event>)
    requires n in open && LooksVoid(n) && Unstopped(events)
    ensures !WellNested(open, events)
    decreases |events|
  {
    hide LooksVoid, IsVoid, Tag;
    if events != [] && Fits(open, events[0]) {
      var e := events[0];
      assert e in events;
      if e.Stop? && !IsVoid(e.node) {
        SplitLast(open);
        ClosedTop(open[..|open| - 1], open[|open| - 1], e.node);
        SameTest(open[|open| - 1], e.node);
      }
      Stuck(Apply(open, e), n, events[1..]);
    }
  }

  lemma {:induction false} MisnamedSticks(f: Forest, a: nat, open: seq<Node>, rest: seq<Event>)
    requires !NamesFit(f) && Unstopped(rest)
    ensures !WellNested(open, Stream(f, a) + rest)
    decreases f
  {
    hide IsVoid, LooksVoid, Closed, Tag;
    match f
    case Txt(s, next) =>
      MisnamedSticks(next, a + |s|, open, rest);
    case Element(n, kids, next) =>
      var b := a + |TextOf(kids)|;
      var tail := Stream(next, b) + rest;
      var inner := Apply(open, Start(a, n));
      StreamUnstopped(kids, a);
      StreamUnstopped(next, b);
      ElementStream(n, kids, next, a, rest);
      WellNestedCons(open, Start(a, n), Stream(kids, a) + AfterKids(n, b, tail));
      if LooksVoid(n) && !IsVoid(n) {
        Stuck(inner, n, Stream(kids, a) + AfterKids(n, b, tail));
      } else if !NamesFit(kids) {
        MisnamedSticks(kids, a, inner, AfterKids(n, b, tail));
      } else {
        StreamNested(kids, a, inner, AfterKids(n, b, tail));
        MisnamedSticks(next, b, open, rest);
        ClosedTop(open, n, n);
        WellNestedCons(inner, Stop(b, n), tail);
      }
    case Other(next) =>
      MisnamedSticks(next, a, open, rest);
  }

  lemma OrderedFrom(lo: nat, a: nat, events: seq<Event>, hi: nat)
    requires lo <= a && Ordered(a, events, hi)
    ensures Ordered(lo, events, hi)
  {
  }

  lemma {:induction false} StreamOrdered(f: Forest, a: nat, rest: seq<Event>, hi: nat)
    requires Ordered(a + |TextOf(f)|, rest, hi)
    ensures Ordered(a, Stream(f, a) + rest, hi)
    decreases f
  {
    hide LooksVoid;
    match f
    case Nil =>
      Nothing(rest);
    case Txt(s, next) =>
      StreamOrdered(next, a + |s|, rest, hi);
      OrderedFrom(a, a + |s|, Stream(f, a) + rest, hi);
    case Element(n, kids, next) =>
      var b := a + |TextOf(kids)|;
      var tail := Stream(next, b) + rest;
      ElementStream(n, kids, next, a, rest);
      StreamOrdered(next, b, rest, hi);
      OrderedCons(b, Stop(b, n), tail, hi);
      StreamOrdered(kids, a, AfterKids(n, b, tail), hi);
      OrderedCons(a, Start(a, n), Stream(kids, a) + AfterKids(n, b, tail), hi);
    case Other(next) =>
      StreamOrdered(next, a, rest, hi);
  }

  /**
   * Every tree flattens into events in order; they are well nested exactly when no name passes the program's test
   * without being that of a void element.
   */
  lemma StreamIsWellFormed(f: Forest)
    ensures Ordered(0, Stream(f, 0), |TextOf(f)|)
    ensures WellNested([], Stream(f, 0)) <==> NamesFit(f)
  {
    Nothing(Stream(f, 0));
    StreamOrdered(f, 0, [], |TextOf(f)|);
    if NamesFit(f) {
      StreamNested(f, 0, [], []);
    } else {
      MisnamedSticks(f, 0, [], []);
    }
  }

  // ---------------------------------------------------------------- the nodes of a stream

  lemma NodesConcat(a: seq<Event>, b: seq<Event>)
    ensures Nodes(a + b) == Nodes(a) + Nodes(b) && Begun(a + b) == Begun(a) + Begun(b)
  {
  }

  lemma NodesCons(e: Event, rest: seq<Event>)
    ensures Nodes([e] + rest) == {e.node} + Nodes(rest)
    ensures Begun([e] + rest) == (if e.Start? then {e.node} else {}) + Begun(rest)
  {
    Head(e, rest);
  }

  lemma ElementNodes(n: Node, kids: Forest, next: Forest, a: nat, inner: seq<Event>, rest: seq<Event>)
    requires inner == Stream(kids, a) && rest == Stream(next, a + |TextOf(kids)|)
    ensures Nodes(Stream(Element(n, kids, next), a)) == {n} + Nodes(inner) + Nodes(rest)
    ensures Begun(Stream(Element(n, kids, next), a)) == {n} + Begun(inner) + Begun(rest)
  {
    hide Nodes, Begun, LooksVoid, TextOf, Stream;
    var b := a + |TextOf(kids)|;
    Nothing(rest);
    Nothing(Stream(Element(n, kids, next), a));
    ElementStream(n, kids, next, a, []);
    NodesCons(Stop(b, n), rest);
    NodesConcat(inner, AfterKids(n, b, rest));
    NodesCons(Start(a, n), inner + AfterKids(n, b, rest));
  }

  /** Every element has a start event, and no other node an event at all. */
  lemma {:induction false} StreamNodes(f: Forest, a: nat)
    ensures Nodes(Stream(f, a)) == Elements(f) && Begun(Stream(f, a)) == Elements(f)
    decreases f
  {
    hide Nodes, Begun, LooksVoid, TextOf;
    match f
    case Nil =>
      NoNodes();
    case Txt(s, next) =>
      StreamNodes(next, a + |s|);
    case Element(n, kids, next) =>
      StreamNodes(kids, a);
      StreamNodes(next, a + |TextOf(kids)|);
      ElementNodes(n, kids, next, a, Stream(kids, a), Stream(next, a + |TextOf(kids)|));
    case Other(next) =>
      StreamNodes(next, a);
  }

  lemma NoNodes()
    ensures Nodes([]) == {} && Begun([]) == {}
  {
  }

  /** Among elements that have end tags nothing is left open and nothing displaced. */
  lemma {:induction false} PlainIsPlaced(f: Forest)
    requires forall n <- Elements(f) :: !IsVoid(n) && !LooksVoid(n)
    ensures NamesFit(f) && Placed(f) && LeftOpen(f) == []
    decreases f
  {
    hide IsVoid, LooksVoid;
    match f
    case Nil =>
    case Txt(_, next) => PlainIsPlaced(next);
    case Element(n, kids, next) =>
      assert n in Elements(f);
      PlainIsPlaced(kids);
      PlainIsPlaced(next);
    case Other(next) => PlainIsPlaced(next);
  }

  // ---------------------------------------------------------------- the stream tells where each character stands

  lemma {:induction false} LeftLooksVoid(f: Forest)
    ensures forall m <- LeftOpen(f) :: LooksVoid(m) && !IsVoid(m)
  {
    hide IsVoid, LooksVoid;
    match f
    case Nil =>
    case Txt(_, next) => LeftLooksVoid(next);
    case Element(n, kids, next) =>
      LeftLooksVoid(kids);
      LeftLooksVoid(next);
    case Other(next) => LeftLooksVoid(next);
  }

  lemma {:induction false} InnermostUnder(open: seq<Node>, n: Node, left: seq<Node>)
    requires forall m <- left :: Tag(m) != Tag(n)
    ensures Innermost(open + [n] + left, n) == |open|
    decreases |left|
  {
    var under := open + [n];
    if left == [] {
      Nothing(under);
    } else {
      var k := |left| - 1;
      InnermostUnder(open, n, left[..k]);
      SplitLast(left);
      Assoc(under, left[..k], [left[k]]);
      InnermostSnoc(under + left[..k], left[k], n);
    }
  }

  lemma InnermostSnoc(open: seq<Node>, m: Node, n: Node)
    requires Tag(m) != Tag(n)
    ensures Innermost(open + [m], n) == Innermost(open, n)
  {
    assert (open + [m])[..|open|] == open;
  }

  /** An end tag closes what its element's children left open with it. */
  lemma ClosedOver(open: seq<Node>, n: Node, left: seq<Node>)
    requires forall m <- left :: Tag(m) != Tag(n)
    ensures Closed(open + [n] + left, n) == open
  {
    hide Innermost;
    InnermostUnder(open, n, left);
    assert (open + [n] + left)[..|open|] == open;
  }

  /** From the end of the children on, all that is left open is what the element leaves. */
  lemma KidsOver(open: seq<Node>, n: Node, kids: Forest, b: nat, tail: seq<Event>, i: nat)
    requires b <= i
    ensures OpenAt(Apply(open, Start(b, n)) + LeftOpen(kids), AfterKids(n, b, tail), i) ==
            OpenAt(open + LeftBy(n, kids), tail, i)
  {
    hide IsVoid, Closed, LeftOpen, OpenAt;
    var left := LeftOpen(kids);
    LeftLooksVoid(kids);
    if !LooksVoid(n) {
      OpenAtCons(Apply(open, Start(b, n)) + left, Stop(b, n), tail, i);
      if !IsVoid(n) {
        ClosedOver(open, n, left);
        Nothing(open);
      }
    } else if !IsVoid(n) {
      Assoc(open, [n], left);
    }
  }

  lemma {:induction false} StreamOpenAfter(f: Forest, a: nat, open: seq<Node>, rest: seq<Event>, i: nat)
    requires a + |TextOf(f)| <= i
    ensures OpenAt(open, Stream(f, a) + rest, i) == OpenAt(open + LeftOpen(f), rest, i)
    decreases f
  {
    hide IsVoid, LooksVoid, LeftBy, OpenAt, Apply;
    match f
    case Nil =>
      Nothing(rest);
      Nothing(open);
    case Txt(s, next) =>
      StreamOpenAfter(next, a + |s|, open, rest, i);
    case Element(n, kids, next) =>
      var b := a + |TextOf(kids)|;
      var tail := Stream(next, b) + rest;
      var inner := Apply(open, Start(a, n));
      ElementStream(n, kids, next, a, rest);
      OpenAtCons(open, Start(a, n), Stream(kids, a) + AfterKids(n, b, tail), i);
      StreamOpenAfter(kids, a, inner, AfterKids(n, b, tail), i);
      SameApply(open, n, a, b);
      KidsOver(open, n, kids, b, tail, i);
      StreamOpenAfter(next, b, open + LeftBy(n, kids), rest, i);
      Assoc(open, LeftBy(n, kids), LeftOpen(next));
    case Other(next) =>
      StreamOpenAfter(next, a, open, rest, i);
  }

  lemma SameApply(open: seq<Node>, n: Node, a: nat, b: nat)
    ensures Apply(open, Start(a, n)) == Apply(open, Start(b, n)) == open + if IsVoid(n) then [] else [n]
  {
    Nothing(open);
  }

  lemma {:induction false} StreamOpenInside(f: Forest, a: nat, open: seq<Node>, rest: seq<Event>, i: nat)
    requires a <= i < a + |TextOf(f)|
    requires rest != [] ==> i < rest[0].offset
    ensures OpenAt(open, Stream(f, a) + rest, i) == open + Seen(f, i - a)
    decreases f
  {
    hide IsVoid, LooksVoid;
    match f
    case Txt(s, next) =>
      if i < a + |s| {
        StreamStarts(next, a + |s|, rest);
        Nothing(open);
      } else {
        StreamOpenInside(next, a + |s|, open, rest, i);
      }
    case Element(n, kids, next) =>
      ElementOpenInside(n, kids, next, a, open, rest, i);
    case Other(next) =>
      StreamOpenInside(next, a, open, rest, i);
  }

  lemma {:induction false} ElementOpenInside(n: Node, kids: Forest, next: Forest, a: nat, open: seq<Node>,
                                             rest: seq<Event>, i: nat)
    requires a <= i < a + |TextOf(Element(n, kids, next))|
    requires rest != [] ==> i < rest[0].offset
    ensures OpenAt(open, Stream(Element(n, kids, next), a) + rest, i) == open + Seen(Element(n, kids, next), i - a)
    decreases Element(n, kids, next), 0
  {
    hide IsVoid, LooksVoid, OpenAt, Stream, Apply, LeftBy, LeftOpen;
    var b := a + |TextOf(kids)|;
    var tail := Stream(next, b) + rest;
    var inner := Apply(open, Start(a, n));
    ElementStream(n, kids, next, a, rest);
    OpenAtCons(open, Start(a, n), Stream(kids, a) + AfterKids(n, b, tail), i);
    SameApply(open, n, a, b);
    if i < b {
      Head(Stop(b, n), tail);
      StreamStarts(next, b, rest);
      StreamOpenInside(kids, a, inner, AfterKids(n, b, tail), i);
      Assoc(open, if IsVoid(n) then [] else [n], Seen(kids, i - a));
    } else {
      StreamOpenAfter(kids, a, inner, AfterKids(n, b, tail), i);
      KidsOver(open, n, kids, b, tail, i);
      StreamOpenInside(next, b, open + LeftBy(n, kids), rest, i);
      Assoc(open, LeftBy(n, kids), Seen(next, i - b));
    }
  }

  /** The first event of a stream is not before the offset it starts from. */
  lemma {:induction false} StreamStarts(f: Forest, a: nat, rest: seq<Event>)
    ensures Stream(f, a) != [] ==> Stream(f, a)[0].offset >= a
    ensures Stream(f, a) + rest != [] ==>
              (Stream(f, a) + rest)[0] == if Stream(f, a) == [] then rest[0] else Stream(f, a)[0]
    decreases f
  {
    match f
    case Nil =>
    case Txt(s, next) => StreamStarts(next, a + |s|, rest);
    case Element(_, _, _) =>
    case Other(next) => StreamStarts(next, a, rest);
  }

  lemma {:induction false} SeenHasNoVoid(f: Forest, i: nat)
    requires i < |TextOf(f)|
    ensures forall n <- Seen(f, i) :: !IsVoid(n)
    decreases f
  {
    hide IsVoid, LooksVoid;
    match f
    case Txt(s, next) =>
      if i >= |s| {
        SeenHasNoVoid(next, i - |s|);
      }
    case Element(n, kids, next) =>
      LeftLooksVoid(kids);
      if i < |TextOf(kids)| {
        SeenHasNoVoid(kids, i);
      } else {
        SeenHasNoVoid(next, i - |TextOf(kids)|);
      }
    case Other(next) => SeenHasNoVoid(next, i);
  }

  /** Apart from void elements, a reader sees a character inside no fewer elements than hold it. */
  lemma {:induction false} SeenIsLonger(f: Forest, i: nat)
    requires i < |TextOf(f)| && forall n <- Path(f, i) :: !IsVoid(n)
    ensures |Seen(f, i)| >= |Path(f, i)|
    decreases f
  {
    hide IsVoid, LooksVoid, LeftBy;
    match f
    case Txt(s, next) =>
      if i >= |s| {
        SeenIsLonger(next, i - |s|);
      }
    case Element(n, kids, next) =>
      if i < |TextOf(kids)| {
        assert n in [n] + Path(kids, i);
        assert forall m <- Path(kids, i) :: m in [n] + Path(kids, i);
        SeenIsLonger(kids, i);
      } else {
        SeenIsLonger(next, i - |TextOf(kids)|);
      }
    case Other(next) => SeenIsLonger(next, i);
  }

  lemma {:induction false} PlacedIsSeen(f: Forest, i: nat)
    requires i < |TextOf(f)| && Placed(f)
    ensures Seen(f, i) == Path(f, i)
    decreases f
  {
    hide IsVoid, LooksVoid, LeftBy;
    match f
    case Txt(s, next) =>
      if i >= |s| {
        PlacedIsSeen(next, i - |s|);
      }
    case Element(n, kids, next) =>
      if i < |TextOf(kids)| {
        PlacedIsSeen(kids, i);
      } else {
        PlacedIsSeen(next, i - |TextOf(kids)|);
        Nothing(Seen(next, i - |TextOf(kids)|));
      }
    case Other(next) => PlacedIsSeen(next, i);
  }

  /** Elements where a reader cannot have put a character: the numbers differ, or one of them is void. */
  predicate Elsewhere(seen: seq<Node>, path: seq<Node>) {
    |seen| != |path| || exists n <- path :: IsVoid(n)
  }

  /** What is left open in front of a character is never made up for. */
  lemma ExtraIsSeen(left: seq<Node>, f: Forest, i: nat)
    requires i < |TextOf(f)| && left != []
    ensures Elsewhere(left + Seen(f, i), Path(f, i))
  {
    hide IsVoid, Seen, Path, TextOf;
    if forall n <- Path(f, i) :: !IsVoid(n) {
      SeenIsLonger(f, i);
    }
  }

  /** A character that a reader puts elsewhere. */
  lemma {:induction false} Misplaced(f: Forest) returns (i: nat)
    requires !Placed(f)
    ensures i < |TextOf(f)| && Elsewhere(Seen(f, i), Path(f, i))
    decreases f
  {
    hide IsVoid, LooksVoid;
    match f
    case Txt(s, next) =>
      i := Misplaced(next);
      i := i + |s|;
    case Element(n, kids, next) =>
      i := MisplacedElement(n, kids, next);
    case Other(next) =>
      i := Misplaced(next);
  }

  lemma {:induction false} MisplacedElement(n: Node, kids: Forest, next: Forest) returns (i: nat)
    requires !Placed(Element(n, kids, next))
    ensures var f := Element(n, kids, next); i < |TextOf(f)| && Elsewhere(Seen(f, i), Path(f, i))
    decreases Element(n, kids, next), 0
  {
    hide IsVoid, LooksVoid;
    var k := |TextOf(kids)|;
    if IsVoid(n) && k > 0 {
      i := 0;
      assert ([n] + Path(kids, 0))[0] == n;
    } else if !Placed(kids) {
      i := Misplaced(kids);
      assert !IsVoid(n);
      assert forall m <- Path(kids, i) :: m in [n] + Path(kids, i);
    } else if LeftBy(n, kids) != [] && TextOf(next) != "" {
      i := k;
      ExtraIsSeen(LeftBy(n, kids), next, 0);
    } else {
      i := Misplaced(next);
      Nothing(Seen(next, i));
      i := i + k;
    }
  }

  /**
   * The stream has every character inside the elements that hold it in the tree exactly when no void element holds
   * text and no text follows an element that leaves something open.
   */
  lemma StreamKeepsNesting(f: Forest)
    ensures forall i: nat :: i < |TextOf(f)| ==> OpenAt([], Stream(f, 0), i) == Seen(f, i)
    ensures (forall i: nat :: i < |TextOf(f)| ==> OpenAt([], Stream(f, 0), i) == Path(f, i)) <==> Placed(f)
  {
    hide OpenAt, Stream, Path, Seen, TextOf, Placed;
    Nothing(Stream(f, 0));
    forall i: nat | i < |TextOf(f)|
      ensures OpenAt([], Stream(f, 0), i) == Seen(f, i)
    {
      StreamOpenInside(f, 0, [], [], i);
      Nothing(Seen(f, i));
    }
    if Placed(f) {
      forall i: nat | i < |TextOf(f)|
        ensures OpenAt([], Stream(f, 0), i) == Path(f, i)
      {
        PlacedIsSeen(f, i);
      }
    } else {
      var i := Misplaced(f);
      SeenHasNoVoid(f, i);
      assert OpenAt([], Stream(f, 0), i) != Path(f, i);
    }
  }

  /**
   * The test is not anchored, so `<abbr>` gets no end tag, and what follows it falls into it: in `<abbr>x</abbr>y`
   * the `y`, and in `<abbr></abbr>y`, where the element is empty, just the same.
   */
  lemma AbbrTakesInWhatFollows(id: int, x: string)
    ensures var n := Node(id, "ABBR", []);
            var f := Element(n, Txt(x, Nil), Txt("y", Nil));
            && !NamesFit(f) && !Placed(f)
            && Path(f, |x|) == [] && OpenAt([], Stream(f, 0), |x|) == [n]
  {
    var n := Node(id, "ABBR", []);
    Abbr(n);
    BeforeY(n, x);
    hide *;
    StreamKeepsNesting(Element(n, Txt(x, Nil), Txt("y", Nil)));
  }

  lemma BeforeY(n: Node, x: string)
    requires LooksVoid(n) && !IsVoid(n)
    ensures var f := Element(n, Txt(x, Nil), Txt("y", Nil));
            |TextOf(f)| == |x| + 1 && Path(f, |x|) == [] && Seen(f, |x|) == [n] && !NamesFit(f) && !Placed(f)
  {
    hide IsVoid, LooksVoid;
    var kids, next := Txt(x, Nil), Txt("y", Nil);
    Nothing(x);
    Nothing([n]);
    assert TextOf(kids) == x && TextOf(next) == "y" && LeftOpen(kids) == [];
    assert LeftBy(n, kids) == [n] && Seen(next, 0) == [];
  }

  lemma Abbr(n: Node)
    requires n.name == "ABBR"
    ensures LooksVoid(n) && !IsVoid(n)
  {
    assert n.name[1..] == "BBR" && "BBR"[1..] == "BR" && "BR"[1..] == "R";
    assert Tag(n) == "abbr";
    assert "abbr"[1..] == "bbr" && "bbr"[1..] == "br";
  }

  // ---------------------------------------------------------------- the test by substrings

  /** One of the four names stands somewhere in the text. */
  predicate NamesOne(tag: string) {
    exists i :: 0 <= i <= |tag| &&
      ("br" <= tag[i..] || "hr" <= tag[i..] || "img" <= tag[i..] || "input" <= tag[i..])
  }

  lemma {:induction false} ContainsIs(s: string, p: string)
    ensures Contains(s, p) <==> exists i :: 0 <= i <= |s| && p <= s[i..]
  {
    if s == "" {
      assert s[0..] == s;
    } else {
      ContainsIs(s[1..], p);
      assert s[0..] == s;
      forall i | 0 <= i <= |s[1..]|
        ensures s[1..][i..] == s[i + 1..]
      {
      }
      if i :| 0 <= i <= |s| && p <= s[i..] {
        if i > 0 {
          assert p <= s[1..][i - 1..];
        }
      }
    }
  }

  /** An element gets a stop event unless one of the four names stands somewhere in its own. */
  lemma StopUnlessNamed(n: Node, a: nat)
    ensures Stream(Element(n, Nil, Nil), a) == if NamesOne(Tag(n)) then [Start(a, n)] else [Start(a, n), Stop(a, n)]
  {
    hide Contains, Tag;
    var tag := Tag(n);
    ContainsIs(tag, "br");
    ContainsIs(tag, "hr");
    ContainsIs(tag, "img");
    ContainsIs(tag, "input");
    assert LooksVoid(n) <==> NamesOne(tag);
  }
}
