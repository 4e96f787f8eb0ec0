/** The markup that highlight.js writes, as a sequence of tokens, and what reading it back means. */
module Markup {
  import opened Basics
  import opened Strings

  type Attribute = (string, string)                  // name and value

  /** An element as far as its tags go; `id` stands for the identity of the DOM object. */
  datatype Node = Node(id: int, name: string, attributes: seq<Attribute>)

  datatype Token = Open(node: Node) | Close(node: Node) | Chr(c: char)

  function Tag(n: Node): string {
    ToLower(n.name)
  }

  const VOID_NAMES := ["area", "base", "br", "col", "embed", "hr", "img", "input", "link", "meta", "param", "source",
                       "track", "wbr"]

  /** The elements that HTML closes where they start: section 13.1.2 of the HTML Standard, and `param`. */
  predicate IsVoid(n: Node) {
    Tag(n) in VOID_NAMES
  }

  // ---------------------------------------------------------------- reading

  /** The place of the innermost open element that has the tag of `n`, or -1. */
  function Innermost(open: seq<Node>, n: Node): (k: int)
    ensures -1 <= k < |open|
  {
    if open == [] || Tag(open[|open| - 1]) == Tag(n) then |open| - 1 else Innermost(open[..|open| - 1], n)
  }

  /** What an end tag leaves open: it closes the innermost element it names and all inside, or does nothing. */
  function Closed(open: seq<Node>, n: Node): seq<Node> {
    var k := Innermost(open, n);
    if k < 0 then open else open[..k]
  }

  /** What reading markup from left to right has found out so far. */
  datatype Page = Page(
    open: seq<Node>,               // the elements open now, outermost first
    nested: bool,                  // so far every end tag named the innermost open element
    plain: bool,                   // so far no void element
    text: string,                  // the characters, unescaped and without tags
    contexts: seq<seq<Node>>)      // for each character, the elements it stands in
  {
    predicate Balanced() {
      nested && open == []
    }

    function Then(t: Token): Page {
      match t
      case Open(n) => if IsVoid(n) then this.(plain := false) else this.(open := open + [n])
      case Close(n) =>
        if IsVoid(n) then this.(plain := false)
        else this.(open := Closed(open, n), nested := nested && open != [] && Tag(open[|open| - 1]) == Tag(n))
      case Chr(c) => this.(text := text + [c], contexts := contexts + [open])
    }
  }

  const BLANK := Page([], true, true, "", [])

  function Read(ts: seq<Token>): Page {
    if ts == [] then BLANK else Read(ts[..|ts| - 1]).Then(ts[|ts| - 1])
  }

  /** Markup without void elements that is balanced on its own and whose text is `s`. */
  predicate Spells(ts: seq<Token>, s: string) {
    match Read(ts)
    case Page(open, nested, plain, text, _) => nested && plain && open == [] && text == s
  }

  /** The elements that have a start tag, and those that have a tag at all. */
  function Opened(ts: seq<Token>): set<Node> {
    set t <- ts | t.Open? :: t.node
  }

  function Tagged(ts: seq<Token>): set<Node> {
    set t <- ts | !t.Chr? :: t.node
  }

  lemma OpenedConcat(a: seq<Token>, b: seq<Token>)
    ensures Opened(a + b) == Opened(a) + Opened(b) && Tagged(a + b) == Tagged(a) + Tagged(b)
  {
  }

  /** The markup without the tags of the nodes in `drop`. */
  function Erase(ts: seq<Token>, drop: set<Node>): seq<Token> {
    if ts == [] then []
    else
      var t := ts[|ts| - 1];
      Erase(ts[..|ts| - 1], drop) + (if !t.Chr? && t.node in drop then [] else [t])
  }

  // ---------------------------------------------------------------- writing

  function Chars(s: string): seq<Token> {
    seq(|s|, i requires 0 <= i < |s| => Chr(s[i]))
  }

  lemma CharsSnoc(s: string)
    requires s != ""
    ensures Chars(s) == Chars(s[..|s| - 1]) + [Chr(s[|s| - 1])]
  {
  }

  lemma CharsConcat(a: string, b: string)
    ensures Chars(a + b) == Chars(a) + Chars(b)
  {
  }

  function Closing(nodes: seq<Node>): seq<Token> {
    if nodes == [] then [] else [Close(nodes[|nodes| - 1])] + Closing(nodes[..|nodes| - 1])
  }

  function Opening(nodes: seq<Node>): seq<Token> {
    if nodes == [] then [] else Opening(nodes[..|nodes| - 1]) + [Open(nodes[|nodes| - 1])]
  }

  lemma Snoc(ts: seq<Token>, t: Token)
    ensures Read(ts + [t]) == Read(ts).Then(t)
  {
    assert (ts + [t])[..|ts|] == ts;
  }

  lemma EraseSnoc(ts: seq<Token>, t: Token, drop: set<Node>)
    ensures Erase(ts + [t], drop) == Erase(ts, drop) + (if !t.Chr? && t.node in drop then [] else [t])
  {
    assert (ts + [t])[..|ts|] == ts;
  }

  function Under(s: string, open: seq<Node>): seq<seq<Node>> {
    seq(|s|, i requires 0 <= i < |s| => open)
  }

  lemma {:induction false} AppendChars(ts: seq<Token>, s: string)
    ensures Read(ts + Chars(s)) ==
            Read(ts).(text := Read(ts).text + s, contexts := Read(ts).contexts + Under(s, Read(ts).open))
    decreases |s|
  {
    if s == "" {
      assert ts + Chars(s) == ts;
    } else {
      var n := |s| - 1;
      AppendChars(ts, s[..n]);
      Snoc(ts + Chars(s[..n]), Chr(s[n]));
      CharsSnoc(s);
      Assoc(ts, Chars(s[..n]), [Chr(s[n])]);
      assert Under(s[..n], Read(ts).open) + [Read(ts).open] == Under(s, Read(ts).open);
      assert s[..n] + [s[n]] == s;
    }
  }

  lemma {:induction false} EraseChars(ts: seq<Token>, s: string, drop: set<Node>)
    ensures Erase(ts + Chars(s), drop) == Erase(ts, drop) + Chars(s)
    decreases |s|
  {
    if s == "" {
      assert ts + Chars(s) == ts;
    } else {
      var n := |s| - 1;
      EraseChars(ts, s[..n], drop);
      EraseSnoc(ts + Chars(s[..n]), Chr(s[n]), drop);
      CharsSnoc(s);
      Assoc(ts, Chars(s[..n]), [Chr(s[n])]);
      Assoc(Erase(ts, drop), Chars(s[..n]), [Chr(s[n])]);
    }
  }

  lemma ClosedTop(open: seq<Node>, m: Node, n: Node)
    requires Tag(m) == Tag(n)
    ensures Closed(open + [m], n) == open
  {
    assert (open + [m])[..|open|] == open;
  }

  /** Closing the innermost elements, top first. */
  lemma {:induction false} AppendClosing(ts: seq<Token>, base: seq<Node>, nodes: seq<Node>)
    requires Read(ts).open == base + nodes && forall n <- nodes :: !IsVoid(n)
    ensures Read(ts + Closing(nodes)) == Read(ts).(open := base)
    decreases |nodes|
  {
    if nodes == [] {
      assert ts + Closing(nodes) == ts && base + nodes == base;
    } else {
      var k := |nodes| - 1;
      var t := Close(nodes[k]);
      Snoc(ts, t);
      assert nodes[k] in nodes;
      assert base + nodes == (base + nodes[..k]) + [nodes[k]];
      ClosedTop(base + nodes[..k], nodes[k], nodes[k]);
      AppendClosing(ts + [t], base, nodes[..k]);
      Assoc(ts, [t], Closing(nodes[..k]));
    }
  }

  /** Reopening them, outermost first. */
  lemma {:induction false} AppendOpening(ts: seq<Token>, nodes: seq<Node>)
    requires forall n <- nodes :: !IsVoid(n)
    ensures Read(ts + Opening(nodes)) == Read(ts).(open := Read(ts).open + nodes)
    decreases |nodes|
  {
    if nodes == [] {
      assert ts + Opening(nodes) == ts && Read(ts).open + nodes == Read(ts).open;
    } else {
      var k := |nodes| - 1;
      AppendOpening(ts, nodes[..k]);
      Snoc(ts + Opening(nodes[..k]), Open(nodes[k]));
      Assoc(ts, Opening(nodes[..k]), [Open(nodes[k])]);
      SplitLast(nodes);
      Assoc(Read(ts).open, nodes[..k], [nodes[k]]);
    }
  }

  /** `q` is what `p` becomes when the same markup is read after `base`. */
  predicate Shifted(base: Page, p: Page, q: Page) {
    && q.open == base.open + p.open && q.nested == base.nested
    && q.plain == (base.plain && p.plain) && q.text == base.text + p.text
  }

  lemma ShiftedThen(base: Page, p: Page, q: Page, t: Token)
    requires Shifted(base, p, q) && p.Then(t).nested
    ensures Shifted(base, p.Then(t), q.Then(t))
  {
    hide IsVoid, Tag;
    match t
    case Open(n) =>
      Assoc(base.open, p.open, [n]);
    case Close(n) =>
      if !IsVoid(n) {
        var k := |p.open| - 1;
        var top := p.open[k];
        SplitLast(p.open);
        ClosedTop(p.open[..k], top, n);
        assert q.open == (base.open + p.open[..k]) + [top];
        ClosedTop(base.open + p.open[..k], top, n);
      }
    case Chr(c) =>
      Assoc(base.text, p.text, [c]);
  }

  /** Markup that is nested on its own reads the same wherever it is put. */
  lemma {:induction false} AppendNested(ts: seq<Token>, inner: seq<Token>)
    requires Read(inner).nested
    ensures Shifted(Read(ts), Read(inner), Read(ts + inner))
    decreases |inner|
  {
    if inner == [] {
      assert ts + inner == ts;
    } else {
      var k := |inner| - 1;
      AppendNested(ts, inner[..k]);
      ShiftedThen(Read(ts), Read(inner[..k]), Read(ts + inner[..k]), inner[k]);
      Snoc(ts + inner[..k], inner[k]);
      SplitLast(inner);
      Assoc(ts, inner[..k], [inner[k]]);
    }
  }

  /** Places of characters, inside the elements `open`. */
  function Nest(open: seq<Node>, places: seq<seq<Node>>): seq<seq<Node>> {
    seq(|places|, i requires 0 <= i < |places| => open + places[i])
  }

  lemma ContextsThen(base: Page, p: Page, q: Page, t: Token)
    requires q.contexts == base.contexts + Nest(base.open, p.contexts) && q.open == base.open + p.open
    ensures q.Then(t).contexts == base.contexts + Nest(base.open, p.Then(t).contexts)
  {
    hide IsVoid, Closed, Tag;
    match t
    case Open(_) =>
    case Close(_) =>
    case Chr(_) =>
      assert Nest(base.open, p.contexts + [p.open]) == Nest(base.open, p.contexts) + [base.open + p.open];
      Assoc(base.contexts, Nest(base.open, p.contexts), [base.open + p.open]);
  }

  /** Its characters stand in their own elements and, around those, in the ones that are open there. */
  lemma {:induction false} AppendContexts(ts: seq<Token>, inner: seq<Token>)
    requires Read(inner).nested
    ensures Read(ts + inner).contexts == Read(ts).contexts + Nest(Read(ts).open, Read(inner).contexts)
    decreases |inner|
  {
    if inner == [] {
      assert ts + inner == ts;
      Nothing(Read(ts).contexts);
    } else {
      var k := |inner| - 1;
      AppendContexts(ts, inner[..k]);
      AppendNested(ts, inner[..k]);
      ContextsThen(Read(ts), Read(inner[..k]), Read(ts + inner[..k]), inner[k]);
      Snoc(ts + inner[..k], inner[k]);
      SplitLast(inner);
      Assoc(ts, inner[..k], [inner[k]]);
    }
  }

  lemma {:induction false} EraseClosing(ts: seq<Token>, nodes: seq<Node>, drop: set<Node>)
    requires forall n <- nodes :: n in drop
    ensures Erase(ts + Closing(nodes), drop) == Erase(ts, drop)
    decreases |nodes|
  {
    if nodes == [] {
      assert ts + Closing(nodes) == ts;
    } else {
      var k := |nodes| - 1;
      EraseSnoc(ts, Close(nodes[k]), drop);
      EraseClosing(ts + [Close(nodes[k])], nodes[..k], drop);
      Assoc(ts, [Close(nodes[k])], Closing(nodes[..k]));
    }
  }

  lemma {:induction false} EraseOpening(ts: seq<Token>, nodes: seq<Node>, drop: set<Node>)
    requires forall n <- nodes :: n in drop
    ensures Erase(ts + Opening(nodes), drop) == Erase(ts, drop)
    decreases |nodes|
  {
    if nodes == [] {
      assert ts + Opening(nodes) == ts;
    } else {
      var k := |nodes| - 1;
      EraseOpening(ts, nodes[..k], drop);
      EraseSnoc(ts + Opening(nodes[..k]), Open(nodes[k]), drop);
      Assoc(ts, Opening(nodes[..k]), [Open(nodes[k])]);
    }
  }

  // ---------------------------------------------------------------- escaping

  /** Three global replacements, the ampersand first. */
  function Escape(s: string): string {
    Replace(Replace(Replace(s, '&', "&amp;"), '<', "&lt;"), '>', "&gt;")
  }

  /** What an HTML reader makes of the front of the text: a character, and how much of the text it stands for. */
  function Reference(s: string): (r: (char, nat))
    requires s != ""
    ensures 0 < r.1 <= |s|
  {
    if "&amp;" <= s then ('&', 5)
    else if "&lt;" <= s then ('<', 4)
    else if "&gt;" <= s then ('>', 4)
    else (s[0], 1)
  }

  /** The three entities read in one pass. */
  function Unescape(s: string): string {
    if s == "" then "" else [Reference(s).0] + Unescape(s[Reference(s).1..])
  }

  function Entity(c: char): string {
    if c == '&' then "&amp;" else if c == '<' then "&lt;" else if c == '>' then "&gt;" else [c]
  }

  /** The three passes act on each character on its own: no pass touches what an earlier one wrote. */
  lemma {:induction false} EscapeHead(c: char, rest: string)
    ensures Escape([c] + rest) == Entity(c) + Escape(rest)
  {
    var one := Replace([c], '&', "&amp;");
    var two := Replace(one, '<', "&lt;");
    ReplaceConcat([c], rest, '&', "&amp;");
    ReplaceConcat(one, Replace(rest, '&', "&amp;"), '<', "&lt;");
    ReplaceConcat(two, Replace(Replace(rest, '&', "&amp;"), '<', "&lt;"), '>', "&gt;");
    ReplaceOne(c, '&', "&amp;");
    if c == '&' {
      ReplaceAbsent("&amp;", '<', "&lt;");
      ReplaceAbsent("&amp;", '>', "&gt;");
    } else {
      ReplaceOne(c, '<', "&lt;");
      ReplaceOne(c, '>', "&gt;");
      ReplaceAbsent("&lt;", '>', "&gt;");
    }
  }

  /** Every character reads back, whatever follows it. */
  lemma EntityReads(c: char, rest: string)
    ensures var s := Entity(c) + rest;
            Reference(s) == (c, |Entity(c)|) && s[|Entity(c)|..] == rest
  {
    var e := Entity(c);
    var s := e + rest;
    assert s[..|e|] == e && s[|e|..] == rest;
    if c == '<' {
      assert s[1] == 'l';
    } else if c == '>' {
      assert s[1] == 'g';
    } else if c != '&' {
      assert s[0] != '&';
    }
  }

  lemma EscapeNothing()
    ensures Escape("") == ""
  {
  }

  /** Escaped text holds no raw angle bracket and reads back as the text it came from. */
  lemma {:induction false} EscapeReadsBack(s: string)
    ensures Unescape(Escape(s)) == s
    ensures '<' !in Escape(s) && '>' !in Escape(s)
  {
    hide Escape;
    if s == "" {
      EscapeNothing();
    } else {
      var c, rest := s[0], s[1..];
      assert s == [c] + rest;
      EscapeHead(c, rest);
      EscapeReadsBack(rest);
      EntityReads(c, Escape(rest));
    }
  }
}
