/** The nodes that a browser builds from markup, and that `Read` says where its characters stand in them. */
module PageTree {
  import opened Basics
  import opened Markup
  import opened NodeStream
  import opened HtmlText

  function Append(f: Forest, g: Forest): Forest {
    match f
    case Nil => g
    case Txt(s, next) => Txt(s, Append(next, g))
    case Element(n, kids, next) => Element(n, kids, Append(next, g))
    case Other(next) => Other(Append(next, g))
  }

  /** A character goes into the last text node, if one stands last. */
  function AppendChar(f: Forest, c: char): Forest {
    match f
    case Nil => Txt([c], Nil)
    case Txt(s, next) => if next == Nil then Txt(s + [c], Nil) else Txt(s, AppendChar(next, c))
    case Element(n, kids, next) => Element(n, kids, AppendChar(next, c))
    case Other(next) => Other(AppendChar(next, c))
  }

  /** An element that is open, and its older siblings. */
  datatype Frame = Frame(before: Forest, node: Node)

  /** The elements open, outermost first, and the children of the innermost so far. */
  datatype Building = Building(kids: Forest, frames: seq<Frame>) {

    /** The innermost open element ends. */
    function Shut(): Building
      requires frames != []
    {
      var last := frames[|frames| - 1];
      Building(Append(last.before, Element(last.node, kids, Nil)), frames[..|frames| - 1])
    }

    function ShutTo(k: nat): Building
      requires k <= |frames|
      decreases |frames|
    {
      if |frames| == k then this else Shut().ShutTo(k)
    }

    function Then(t: Token): Building {
      match t
      case Open(n) =>
        if IsVoid(n) then this.(kids := Append(kids, Element(n, Nil, Nil)))
        else Building(Nil, frames + [Frame(kids, n)])
      case Close(n) =>
        var k := Innermost(OpenIn(frames), n);
        if IsVoid(n) || k < 0 then this else ShutTo(k)
      case Chr(c) => this.(kids := AppendChar(kids, c))
    }

    /** The child list when all that is open ends here. */
    function Whole(): Forest {
      ShutTo(0).kids
    }
  }

  function OpenIn(frames: seq<Frame>): (open: seq<Node>)
    ensures |open| == |frames|
  {
    seq(|frames|, i requires 0 <= i < |frames| => frames[i].node)
  }

  function Build(ts: seq<Token>): Building {
    if ts == [] then Building(Nil, []) else Build(ts[..|ts| - 1]).Then(ts[|ts| - 1])
  }

  /** The nodes for a piece of markup. */
  function Parsed(ts: seq<Token>): Forest {
    Build(ts).Whole()
  }

  // ---------------------------------------------------------------- lists

  lemma {:induction false} AppendText(f: Forest, g: Forest)
    ensures TextOf(Append(f, g)) == TextOf(f) + TextOf(g)
    decreases f
  {
    match f
    case Nil =>
      Nothing(TextOf(g));
    case Txt(s, next) =>
      AppendText(next, g);
      Assoc(s, TextOf(next), TextOf(g));
    case Element(n, kids, next) =>
      AppendText(next, g);
      Assoc(TextOf(kids), TextOf(next), TextOf(g));
    case Other(next) =>
      AppendText(next, g);
  }

  lemma {:induction false} AppendPath(f: Forest, g: Forest, i: nat)
    requires i < |TextOf(f)| + |TextOf(g)|
    ensures |TextOf(Append(f, g))| == |TextOf(f)| + |TextOf(g)|
    ensures Path(Append(f, g), i) == if i < |TextOf(f)| then Path(f, i) else Path(g, i - |TextOf(f)|)
    decreases f
  {
    AppendText(f, g);
    match f
    case Nil =>
    case Txt(s, next) =>
      if i >= |s| {
        AppendPath(next, g, i - |s|);
      }
    case Element(n, kids, next) =>
      if i >= |TextOf(kids)| {
        AppendPath(next, g, i - |TextOf(kids)|);
      }
    case Other(next) =>
      AppendPath(next, g, i);
  }

  /** `g` is `f` with the characters of `s` behind its own, inside the elements `context`. */
  ghost predicate Grew(f: Forest, g: Forest, s: string, context: seq<Node>) {
    && TextOf(g) == TextOf(f) + s
    && (forall i: nat :: i < |TextOf(f)| ==> Path(g, i) == Path(f, i))
    && (forall i: nat :: |TextOf(f)| <= i < |TextOf(g)| ==> Path(g, i) == context)
  }

  lemma AppendGrew(f: Forest, g: Forest, h: Forest, s: string, context: seq<Node>)
    requires Grew(g, h, s, context)
    ensures Grew(Append(f, g), Append(f, h), s, context)
  {
    hide TextOf, Path, Append;
    AppendText(f, g);
    AppendText(f, h);
    Assoc(TextOf(f), TextOf(g), s);
    var n := |TextOf(f)|;
    forall i: nat | i < n + |TextOf(h)|
      ensures Path(Append(f, h), i) ==
              if i < n + |TextOf(g)| then Path(Append(f, g), i) else context
    {
      AppendPath(f, h, i);
      if i < n + |TextOf(g)| {
        AppendPath(f, g, i);
      }
    }
  }

  lemma ElementGrew(n: Node, kids: Forest, more: Forest, s: string, context: seq<Node>)
    requires Grew(kids, more, s, context)
    ensures Grew(Element(n, kids, Nil), Element(n, more, Nil), s, [n] + context)
  {
    hide TextOf, Path;
    ElementPath(n, kids);
    ElementPath(n, more);
  }

  lemma ElementPath(n: Node, kids: Forest)
    ensures TextOf(Element(n, kids, Nil)) == TextOf(kids)
    ensures forall i: nat :: i < |TextOf(kids)| ==> Path(Element(n, kids, Nil), i) == [n] + Path(kids, i)
  {
    Nothing(TextOf(kids));
  }

  lemma {:induction false} CharGrew(f: Forest, c: char)
    ensures Grew(f, AppendChar(f, c), [c], [])
    decreases f
  {
    match f
    case Nil =>
    case Txt(s, next) =>
      if next == Nil {
        Nothing(s);
      } else {
        CharGrew(next, c);
        AppendGrew(Txt(s, Nil), next, AppendChar(next, c), [c], []);
      }
    case Element(n, kids, next) =>
      CharGrew(next, c);
      AppendGrew(Element(n, kids, Nil), next, AppendChar(next, c), [c], []);
    case Other(next) =>
      CharGrew(next, c);
      AppendGrew(Other(Nil), next, AppendChar(next, c), [c], []);
  }

  lemma EmptyGrew(f: Forest, n: Node)
    ensures Grew(f, Append(f, Element(n, Nil, Nil)), "", [])
  {
    AppendText(f, Element(n, Nil, Nil));
    Nothing(TextOf(f));
    forall i: nat | i < |TextOf(f)|
      ensures Path(Append(f, Element(n, Nil, Nil)), i) == Path(f, i)
    {
      AppendPath(f, Element(n, Nil, Nil), i);
    }
  }

  // ---------------------------------------------------------------- ending elements

  lemma {:induction false} ShutKeeps(b: Building, k: nat)
    requires k <= |b.frames|
    ensures b.ShutTo(k).Whole() == b.Whole() && b.ShutTo(k).frames == b.frames[..k]
    decreases |b.frames|
  {
    if |b.frames| > k {
      ShutKeeps(b.Shut(), k);
    }
  }

  /** What grows inside the innermost element grows in the whole. */
  lemma {:induction false} WholeGrew(b: Building, kids: Forest, s: string, context: seq<Node>)
    requires Grew(b.kids, kids, s, context)
    ensures Grew(b.Whole(), b.(kids := kids).Whole(), s, OpenIn(b.frames) + context)
    decreases |b.frames|
  {
    hide Grew, Append;
    if b.frames == [] {
      Nothing(context);
    } else {
      var k := |b.frames| - 1;
      var last := b.frames[k];
      ElementGrew(last.node, b.kids, kids, s, context);
      AppendGrew(last.before, Element(last.node, b.kids, Nil), Element(last.node, kids, Nil), s, [last.node] + context);
      WholeGrew(b.Shut(), b.(kids := kids).Shut().kids, s, [last.node] + context);
      assert OpenIn(b.frames) == OpenIn(b.frames[..k]) + [last.node];
      Assoc(OpenIn(b.frames[..k]), [last.node], context);
    }
  }

  /** A start tag adds an empty element, whether it stays open or not. */
  lemma OpenWhole(b: Building, n: Node)
    ensures b.Then(Open(n)).Whole() == b.(kids := Append(b.kids, Element(n, Nil, Nil))).Whole()
  {
    hide Append;
    var frames := b.frames + [Frame(b.kids, n)];
    assert frames[..|b.frames|] == b.frames;
  }

  // ---------------------------------------------------------------- reading is building

  /** What reading has found out is so of the nodes. */
  ghost predicate Agree(p: Page, b: Building) {
    && p.open == OpenIn(b.frames)
    && TextOf(b.Whole()) == p.text && |p.contexts| == |p.text|
    && forall i: nat :: i < |p.text| ==> Path(b.Whole(), i) == p.contexts[i]
  }

  lemma AgreeGrew(p: Page, b: Building, q: Page, c: Building, s: string, context: seq<Node>)
    requires Agree(p, b) && Grew(b.Whole(), c.Whole(), s, context)
    requires q.open == OpenIn(c.frames) && q.text == p.text + s
    requires q.contexts == p.contexts + Under(s, context)
    ensures Agree(q, c)
  {
  }

  lemma OpenAgrees(p: Page, b: Building, n: Node)
    requires Agree(p, b)
    ensures Agree(p.Then(Open(n)), b.Then(Open(n)))
  {
    hide Grew, Append, IsVoid;
    EmptyGrew(b.kids, n);
    WholeGrew(b, Append(b.kids, Element(n, Nil, Nil)), "", []);
    OpenWhole(b, n);
    Nothing(p.text);
    Nothing(p.contexts);
    Nothing(OpenIn(b.frames));
    assert Under("", OpenIn(b.frames)) == [];
    assert OpenIn(b.frames + [Frame(b.kids, n)]) == OpenIn(b.frames) + [n];
    AgreeGrew(p, b, p.Then(Open(n)), b.Then(Open(n)), "", OpenIn(b.frames));
  }

  lemma CharAgrees(p: Page, b: Building, c: char)
    requires Agree(p, b)
    ensures Agree(p.Then(Chr(c)), b.Then(Chr(c)))
  {
    hide Grew, AppendChar;
    CharGrew(b.kids, c);
    WholeGrew(b, AppendChar(b.kids, c), [c], []);
    Nothing(OpenIn(b.frames));
    assert Under([c], p.open) == [p.open];
    AgreeGrew(p, b, p.Then(Chr(c)), b.Then(Chr(c)), [c], OpenIn(b.frames));
  }

  lemma CloseAgrees(p: Page, b: Building, n: Node)
    requires Agree(p, b)
    ensures Agree(p.Then(Close(n)), b.Then(Close(n)))
  {
    hide IsVoid, Tag;
    var k := Innermost(p.open, n);
    if k >= 0 {
      ShutKeeps(b, k);
      assert OpenIn(b.frames[..k]) == OpenIn(b.frames)[..k];
    }
  }

  /**
   * Of any markup `Read` finds the text of the nodes a browser builds, and for each character the elements that hold
   * it, end tags that fit nothing and elements left open included.
   */
  lemma {:induction false} ReadFindsNodes(ts: seq<Token>)
    ensures Read(ts).open == OpenIn(Build(ts).frames)
    ensures TextOf(Parsed(ts)) == Read(ts).text && |Read(ts).contexts| == |Read(ts).text|
    ensures forall i: nat :: i < |Read(ts).text| ==> Path(Parsed(ts), i) == Read(ts).contexts[i]
    decreases |ts|
  {
    if ts != [] {
      var init, t := ts[..|ts| - 1], ts[|ts| - 1];
      ReadFindsNodes(init);
      hide Building.Whole;
      match t
      case Open(n) => OpenAgrees(Read(init), Build(init), n);
      case Close(n) => CloseAgrees(Read(init), Build(init), n);
      case Chr(c) => CharAgrees(Read(init), Build(init), c);
    }
  }

  // ---------------------------------------------------------------- which elements there are

  lemma {:induction false} AppendElements(f: Forest, g: Forest)
    ensures Elements(Append(f, g)) == Elements(f) + Elements(g)
    decreases f
  {
    match f
    case Nil =>
    case Txt(_, next) => AppendElements(next, g);
    case Element(_, _, next) => AppendElements(next, g);
    case Other(next) => AppendElements(next, g);
  }

  lemma {:induction false} AppendCharElements(f: Forest, c: char)
    ensures Elements(AppendChar(f, c)) == Elements(f)
    decreases f
  {
    match f
    case Nil =>
    case Txt(_, next) => AppendCharElements(next, c);
    case Element(_, _, next) => AppendCharElements(next, c);
    case Other(next) => AppendCharElements(next, c);
  }

  lemma {:induction false} WholeElements(b: Building, kids: Forest, more: set<Node>)
    requires Elements(kids) == Elements(b.kids) + more
    ensures Elements(b.(kids := kids).Whole()) == Elements(b.Whole()) + more
    decreases |b.frames|
  {
    hide Elements, Append;
    if b.frames != [] {
      var last := b.frames[|b.frames| - 1];
      AppendElements(last.before, Element(last.node, b.kids, Nil));
      AppendElements(last.before, Element(last.node, kids, Nil));
      OneElement(last.node, b.kids);
      OneElement(last.node, kids);
      WholeElements(b.Shut(), b.(kids := kids).Shut().kids, more);
    }
  }

  lemma OneElement(n: Node, kids: Forest)
    ensures Elements(Element(n, kids, Nil)) == {n} + Elements(kids)
  {
  }

  lemma ThenElements(b: Building, t: Token)
    ensures Elements(b.Then(t).Whole()) == Elements(b.Whole()) + if t.Open? then {t.node} else {}
  {
    hide Elements, Append, AppendChar, IsVoid, Tag, Building.Whole;
    match t
    case Open(n) =>
      AppendElements(b.kids, Element(n, Nil, Nil));
      OneElement(n, Nil);
      NoElements();
      WholeElements(b, Append(b.kids, Element(n, Nil, Nil)), {n});
      OpenWhole(b, n);
    case Close(n) =>
      var k := Innermost(OpenIn(b.frames), n);
      if k >= 0 {
        ShutKeeps(b, k);
      }
    case Chr(c) =>
      AppendCharElements(b.kids, c);
      WholeElements(b, AppendChar(b.kids, c), {});
  }

  lemma NoElements()
    ensures Elements(Nil) == {}
  {
  }

  /** The elements are those of the start tags. */
  lemma {:induction false} ParsedElements(ts: seq<Token>)
    ensures Elements(Parsed(ts)) == Opened(ts)
    decreases |ts|
  {
    if ts != [] {
      var k := |ts| - 1;
      ParsedElements(ts[..k]);
      ThenElements(Build(ts[..k]), ts[k]);
      SplitLast(ts);
      OpenedConcat(ts[..k], [ts[k]]);
    }
  }

  // ---------------------------------------------------------------- end tags

  lemma BareBuilds(b: Building, t: Token)
    requires t.Open? ==> Bare(t.node) == t.node
    ensures b.Then(BareToken(t)) == b.Then(t)
  {
    hide Bare, IsElement;
    match t
    case Open(n) =>
    case Close(n) =>
      LowerTag(n);
      InnermostNamed(OpenIn(b.frames), n, Node(0, Tag(n), []));
    case Chr(_) =>
  }

  lemma {:induction false} InnermostNamed(open: seq<Node>, n: Node, m: Node)
    requires Tag(n) == Tag(m)
    ensures Innermost(open, n) == Innermost(open, m)
    decreases |open|
  {
    if open != [] {
      InnermostNamed(open[..|open| - 1], n, m);
    }
  }

  /** An end tag counts for its name only. */
  lemma {:induction false} BuildBared(ts: seq<Token>)
    requires forall t <- ts :: t.Open? ==> Bare(t.node) == t.node
    ensures Build(Bared(ts)) == Build(ts)
    decreases |ts|
  {
    hide BareToken, Bare;
    if ts != [] {
      var k := |ts| - 1;
      assert Bared(ts)[..k] == Bared(ts[..k]) && Bared(ts)[k] == BareToken(ts[k]);
      BuildBared(ts[..k]);
      assert ts[k] in ts;
      BareBuilds(Build(ts[..k]), ts[k]);
    }
  }
}
