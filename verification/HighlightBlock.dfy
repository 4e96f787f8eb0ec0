/** Highlighting a block of the page: the engine, the two event streams, their merge, and what a browser shows then. */
module HighlightBlock {
  import opened Basics
  import opened Markup
  import opened HtmlText
  import opened NodeStream
  import opened PageTree
  import opened Highlight
  import opened HighlightNames
  import opened HighlightProofs
  import opened HighlightTrace
  import Highlighter
  import MergeStreams

  /** What highlighting the text of a block comes to, with a named language or by detection. */
  function Value(g: Engine, fuel: nat, language: Option<string>, text: string): Outcome<Highlighted> {
    match language
    case Some(name) => HighlightText(g, fuel, name, text, true, None)
    case None => Auto(g, fuel, g.names, text, NoLanguage(text))
  }

  function ValueAccount(g: Engine, fuel: nat, language: Option<string>, text: string): Account {
    match language
    case Some(name) => TextAccount(g, fuel, name, text, true, None)
    case None => AutoAccount(g, fuel, g.names, text, NoLanguage(text), WholeText(text))
  }

  /** Highlighting spells the text without the characters it passes over. */
  lemma ValueSpells(g: Engine, fuel: nat, language: Option<string>, text: string)
    requires RootsSteady(g) && NoEcho(g)
    ensures var r := Value(g, fuel, language, text);
            r.Done? ==> Spells(r.result.value, Omit(text, ValueAccount(g, fuel, language, text).skipped))
  {
    hide HighlightText, TextAccount, Auto, AutoAccount, Read, RootsSteady, NoEcho;
    match language {
      case Some(name) =>
        TextSound(g, fuel, name, text, true, None);
        TextWhole(g, fuel, name, text, true, None);
      case None =>
        PlainGood(text);
        WholeIsComplete(text);
        AutoSound(g, fuel, g.names, text, NoLanguage(text), WholeText(text));
        AutoWhole(g, fuel, g.names, text, NoLanguage(text), WholeText(text));
    }
    assert text[..|text|] == text;
    PickPositions(text, |text|, ValueAccount(g, fuel, language, text).skipped);
  }

  lemma {:induction false} OrderedWithin(lo: nat, events: seq<Event>, hi: nat, wider: nat)
    requires Ordered(lo, events, hi) && hi <= wider
    ensures Ordered(lo, events, wider)
    decreases |events|
  {
    if events != [] {
      OrderedWithin(events[0].offset, events[1..], hi, wider);
    }
  }

  lemma ValuePlain(g: Engine, fuel: nat, language: Option<string>, text: string)
    requires PlainNames(g)
    ensures var r := Value(g, fuel, language, text);
            r.Done? ==> PlainSpans(r.result.value)
  {
    hide HighlightText, Auto, PlainNames, PlainSpans;
    match language
    case Some(name) => TextPlain(g, fuel, name, text, true, None);
    case None =>
      PlainText(text);
      AutoPlain(g, fuel, g.names, text, NoLanguage(text));
  }

  // ---------------------------------------------------------------- the nodes of the value

  lemma SpanLooksPlain(n: Node)
    requires Tag(n) == "span"
    ensures !IsVoid(n) && !LooksVoid(n)
  {
    hide Contains;
    assert !IsVoid(n) by {
      SpanIsNoVoid("");
      assert Tag(Span("")) == "span";
    }
    FirstIsAbsent("span", "br");
    FirstIsAbsent("span", "hr");
    FirstIsAbsent("span", "img");
    FirstIsAbsent("span", "input");
  }

  lemma {:induction false} FirstIsAbsent(s: string, p: string)
    requires p != "" && p[0] !in s
    ensures !Contains(s, p)
  {
    if s != "" {
      FirstIsAbsent(s[1..], p);
    }
  }

  lemma PlainSpanIs(n: Node)
    requires PlainSpan(n)
    ensures IsElement(n) && Unquoted(n) && Bare(n) == n && !IsVoid(n) && !LooksVoid(n)
  {
    hide IsVoid, LooksVoid, IsElement, Unquoted, Bare;
    PlainOpen(n);
    SpanIsElement(ClassOf(n));
    SpanLooksPlain(n);
  }

  /** All the elements the browser builds from the value are plain spans. */
  lemma ParsedPlain(value: seq<Token>)
    requires PlainSpans(value)
    ensures forall n <- Elements(Parsed(value)) :: PlainSpan(n)
  {
    hide Elements, PlainSpan;
    ParsedElements(value);
  }

  /** The stream of those nodes is well nested, and puts each character where reading the value finds it. */
  lemma ValueStream(value: seq<Token>, spelled: string, text: string)
    requires Spells(value, spelled) && |spelled| <= |text| && PlainSpans(value)
    ensures var events := Stream(Parsed(value), 0);
            && StreamOver(events, |text|) && MergeStreams.NoVoids(events)
            && (forall n <- Nodes(events) + Begun(events) :: IsElement(n) && Unquoted(n))
            && |Read(value).contexts| == |spelled|
            && forall i: nat :: i < |spelled| ==> OpenAt([], events, i) == Read(value).contexts[i]
  {
    hide IsVoid, LooksVoid, IsElement, Unquoted, PlainSpan, Parsed, Elements, Stream, OpenAt, Ordered, WellNested;
    var f := Parsed(value);
    ParsedPlain(value);
    forall n <- Elements(f)
      ensures IsElement(n) && Unquoted(n) && !IsVoid(n) && !LooksVoid(n)
    {
      PlainSpanIs(n);
    }
    ReadFindsNodes(value);
    PlainIsPlaced(f);
    StreamIsWellFormed(f);
    StreamKeepsNesting(f);
    StreamNodes(f, 0);
    OrderedWithin(0, Stream(f, 0), |spelled|, |text|);
  }

  // ---------------------------------------------------------------- the block with its new markup

  /** The elements have the names that a reader of markup can give them. */
  ghost predicate FromMarkup(block: Forest) {
    forall n <- Elements(block) :: IsElement(n)
  }

  /** Whatever text a browser was given for the page, its elements are such. */
  lemma PagesAreFromMarkup(page: string)
    ensures FromMarkup(Parsed(Tokens(page)))
  {
    hide Tokens, Elements, IsElement, Parsed;
    TokensAreElements(page);
    ParsedElements(Tokens(page));
  }

  /** No attribute of theirs holds a quotation mark. */
  ghost predicate NoQuotes(block: Forest) {
    forall n <- Elements(block) :: Unquoted(n)
  }

  /** What merging the page's events with those of the value ensures. */
  ghost predicate Merged(original: seq<Event>, value: seq<Token>, text: string, out: seq<Token>) {
    && Read(out).text == text && |Read(out).contexts| == |Read(value).contexts| == |text|
    && (Read(out).Balanced() <==> WellNested([], original))
    && forall i: nat :: i < |text| ==>
         Read(out).contexts[i] == OpenAt([], original, i) + Read(value).contexts[i]
  }

  /** The markup of a block: where each character stands, and when nothing is left open. */
  ghost predicate Rendered(block: Forest, value: seq<Token>, out: seq<Token>) {
    var text := TextOf(block);
    && Read(out).text == text && |Read(out).contexts| == |text| && |Read(value).contexts| == |text|
    && (Read(out).Balanced() <==> NamesFit(block))
    && (forall i: nat :: i < |text| ==> Read(out).contexts[i] == Seen(block, i) + Read(value).contexts[i])
  }

  /**
   * The new child list of a block: the text it had, and every character inside the elements it had around it and,
   * within those, the spans of the value, exactly when no element displaces it.
   */
  ghost predicate Shown(block: Forest, value: seq<Token>, after: Forest) {
    var text := TextOf(block);
    && TextOf(after) == text && |Read(value).contexts| == |text|
    && (forall i: nat :: i < |text| ==> Path(after, i) == BareNodes(Seen(block, i)) + Read(value).contexts[i])
    && ((forall i: nat :: i < |text| ==> Path(after, i) == BareNodes(Path(block, i)) + Read(value).contexts[i])
        <==> Placed(block))
  }

  lemma MergedIsRendered(block: Forest, value: seq<Token>, out: seq<Token>)
    requires Spells(value, TextOf(block))
    requires if Stream(block, 0) == [] then out == value else Merged(Stream(block, 0), value, TextOf(block), out)
    ensures Rendered(block, value, out)
  {
    ReadFindsNodes(value);
    StreamIsWellFormed(block);
    hide Seen, OpenAt, NamesFit, TextOf, Stream;
    StreamKeepsNesting(block);
    SpellsBalanced(value, TextOf(block));
    hide Read;
    forall i: nat | i < |TextOf(block)|
      ensures Read(out).contexts[i] == OpenAt([], Stream(block, 0), i) + Read(value).contexts[i]
    {
      if Stream(block, 0) == [] {
        NoEvents(i);
        Nothing(Read(value).contexts[i]);
      }
    }
  }

  lemma NoEvents(i: nat)
    ensures OpenAt([], [], i) == []
  {
  }

  /** What a browser makes of markup that reads back. */
  lemma BaredPaths(out: seq<Token>, html: string)
    requires Tokens(html) == Bared(out)
    ensures var after := Parsed(Tokens(html));
            && TextOf(after) == Read(out).text && |Read(out).contexts| == |Read(out).text|
            && (forall i: nat :: i < |Read(out).text| ==> Path(after, i) == BareNodes(Read(out).contexts[i]))
            && (Read(Tokens(html)).Balanced() <==> Read(out).Balanced())
  {
    hide Read, Parsed, Bared, Tokens, BareNodes;
    ReadFindsNodes(Bared(out));
    ReadBared(out);
    BareOpen(Read(out));
  }

  lemma BareOpen(p: Page)
    ensures BarePage(p).Balanced() <==> p.Balanced()
  {
  }

  lemma BareConcat(a: seq<Node>, b: seq<Node>)
    ensures BareNodes(a + b) == BareNodes(a) + BareNodes(b)
  {
  }

  lemma BareElsewhere(a: seq<Node>, b: seq<Node>)
    requires Elsewhere(a, b) && forall n <- a :: !IsVoid(n)
    ensures BareNodes(a) != BareNodes(b)
  {
    hide Bare, VOID_NAMES;
    if |a| == |b| {
      var n :| n in b && IsVoid(n);
      var k :| 0 <= k < |b| && b[k] == n;
      SameTag(a[k]);
      SameTag(b[k]);
      assert a[k] in a && Tag(a[k]) != Tag(b[k]);
      assert BareNodes(a)[k] == Bare(a[k]) && BareNodes(b)[k] == Bare(b[k]);
    }
  }

  lemma {:induction false} PlainContexts(ts: seq<Token>)
    requires PlainSpans(ts)
    ensures forall n <- Read(ts).open :: PlainSpan(n)
    ensures forall i :: 0 <= i < |Read(ts).contexts| ==> forall n <- Read(ts).contexts[i] :: PlainSpan(n)
    decreases |ts|
  {
    hide PlainSpan, IsVoid, Innermost;
    if ts != [] {
      var init, t := ts[..|ts| - 1], ts[|ts| - 1];
      assert t in ts;
      PlainContexts(init);
    }
  }

  /** The spans are there as they were. */
  lemma PlainIsBare(nodes: seq<Node>)
    requires forall n <- nodes :: PlainSpan(n)
    ensures BareNodes(nodes) == nodes
  {
    hide PlainSpan, Bare, IsVoid, LooksVoid, IsElement, Unquoted;
    forall i | 0 <= i < |nodes|
      ensures Bare(nodes[i]) == nodes[i]
    {
      PlainSpanIs(nodes[i]);
    }
  }

  /** The places in the page's elements are those of the block exactly when nothing is displaced. */
  lemma BarePlaces(block: Forest)
    ensures (forall i: nat :: i < |TextOf(block)| ==> BareNodes(Seen(block, i)) == BareNodes(Path(block, i)))
            <==> Placed(block)
  {
    hide Seen, Path, TextOf, Placed, BareNodes, IsVoid;
    if Placed(block) {
      forall i: nat | i < |TextOf(block)|
        ensures Seen(block, i) == Path(block, i)
      {
        PlacedIsSeen(block, i);
      }
    } else {
      var i := Misplaced(block);
      SeenHasNoVoid(block, i);
      BareElsewhere(Seen(block, i), Path(block, i));
    }
  }

  lemma RenderedIsShown(block: Forest, value: seq<Token>, out: seq<Token>, html: string)
    requires Rendered(block, value, out) && PlainSpans(value) && Tokens(html) == Bared(out)
    ensures Shown(block, value, Parsed(Tokens(html)))
    ensures Read(Tokens(html)).Balanced() <==> NamesFit(block)
  {
    hide Read, Seen, Path, TextOf, Placed, NamesFit, BareNodes, Parsed, Tokens, Bared, PlainSpan, PlainSpans;
    var after := Parsed(Tokens(html));
    BaredPaths(out, html);
    PlainContexts(value);
    forall i: nat | i < |TextOf(block)|
      ensures Path(after, i) == BareNodes(Seen(block, i)) + Read(value).contexts[i]
      ensures Path(after, i) == BareNodes(Path(block, i)) + Read(value).contexts[i] <==>
              BareNodes(Seen(block, i)) == BareNodes(Path(block, i))
    {
      BareConcat(Seen(block, i), Read(value).contexts[i]);
      PlainIsBare(Read(value).contexts[i]);
      SameFront(BareNodes(Seen(block, i)), BareNodes(Path(block, i)), Read(value).contexts[i]);
    }
    BarePlaces(block);
    assert (forall i: nat :: i < |TextOf(block)| ==>
              Path(after, i) == BareNodes(Path(block, i)) + Read(value).contexts[i]) <==> Placed(block);
  }

  /** What setting the block's markup to `html` comes to where no attribute holds a quotation mark. */
  ghost predicate Renewed(block: Forest, value: seq<Token>, spelled: string, html: string) {
    && (Stream(block, 0) != [] ==> TextOf(Parsed(Tokens(html))) == TextOf(block))
    && (spelled == TextOf(block) ==>
         Shown(block, value, Parsed(Tokens(html))) && (Read(Tokens(html)).Balanced() <==> NamesFit(block)))
  }

  /** `html` is the text of the markup `out`, and reads as such exactly when no attribute holds a quotation mark. */
  ghost predicate Meant(block: Forest, value: seq<Token>, spelled: string, out: seq<Token>, html: string) {
    && html == Html(out) && (Tokens(html) == Bared(out) <==> NoQuotes(block))
    && (Stream(block, 0) != [] ==> Read(out).text == TextOf(block))
    && (spelled == TextOf(block) ==> Rendered(block, value, out))
  }

  lemma MeantIsRenewed(block: Forest, value: seq<Token>, spelled: string, out: seq<Token>, html: string)
    requires Meant(block, value, spelled, out, html) && PlainSpans(value) && NoQuotes(block)
    ensures Renewed(block, value, spelled, html)
  {
    hide Read, Tokens, Bared, Parsed, TextOf, Html, NoQuotes, Rendered, Shown, NamesFit, PlainSpans;
    BaredPaths(out, html);
    if spelled == TextOf(block) {
      RenderedIsShown(block, value, out, html);
    }
  }

  /** Without elements in the block the value stays as it is. */
  lemma ValueIsMeant(block: Forest, value: seq<Token>, spelled: string)
    requires Stream(block, 0) == [] && Spells(value, spelled) && PlainSpans(value)
    ensures Meant(block, value, spelled, value, Raw(value))
  {
    hide Read, Tokens, Bared, Spells, TextOf, Html, Raw, Rendered, PlainSpans, Stream;
    RawReads(value);
    HtmlReadsBack(value);
    StreamNodes(block, 0);
    NoNodes();
    assert Elements(block) == {};
    if spelled == TextOf(block) {
      MergedIsRendered(block, value, value);
    }
  }

  lemma MergeIsMeant(block: Forest, value: seq<Token>, spelled: string, out: seq<Token>, events: seq<Event>)
    requires Spells(value, spelled) && |spelled| <= |TextOf(block)| && PlainSpans(value) && FromMarkup(block)
    requires Stream(block, 0) != [] && events == Stream(Parsed(value), 0)
    requires Read(out).text == TextOf(block) && |Read(out).contexts| == |TextOf(block)|
    requires Read(out).Balanced() <==> WellNested([], Stream(block, 0))
    requires forall i: nat :: i < |TextOf(block)| ==>
               Read(out).contexts[i] == OpenAt([], Stream(block, 0), i) + OpenAt([], events, i)
    requires MergeStreams.AllElements(Stream(block, 0), events) ==>
               (Tokens(Html(out)) == Bared(out) <==> MergeStreams.NoneQuoted(Stream(block, 0), events))
    ensures Meant(block, value, spelled, out, Html(out))
  {
    hide Read, Tokens, Bared, Spells, Parsed, TextOf, Html, Rendered, Stream, OpenAt, WellNested;
    hide PlainSpans, Ordered, IsElement, Unquoted, Elements, Nodes, Begun;
    ValueStream(value, spelled, TextOf(block));
    StreamNodes(block, 0);
    if spelled == TextOf(block) {
      MergedIsRendered(block, value, out);
    }
  }

  /** Merging the value, which spells `spelled`, into the block's own elements, if there are any. */
  method MergeValue(value: seq<Token>, ghost spelled: string, block: Forest)
      returns (html: string, ghost out: seq<Token>)
    requires Spells(value, spelled) && |spelled| <= |TextOf(block)| && PlainSpans(value) && FromMarkup(block)
    ensures Meant(block, value, spelled, out, html)
    ensures NoQuotes(block) ==> Renewed(block, value, spelled, html)
  {
    hide Read, Spells, OpenAt, WellNested, Raw, Tokens, Parsed, Html, Bared, PlainSpans, FromMarkup;
    hide Renewed, Meant, NoQuotes, MergeStreams.ReadsAsMeant;
    hide MergeStreams.AllElements, MergeStreams.NoneQuoted, MergeStreams.Apart, Erase, MergeStreams.Weave;
    var walker := new Walker();
    var end := walker.Walk(block, 0);
    Nothing(Stream(block, 0));
    html, out := Raw(value), value;
    if walker.events == [] {
      ValueIsMeant(block, value, spelled);
    } else {
      ghost var text := TextOf(block);
      RawBuilds(value);
      ValueStream(value, spelled, text);
      StreamIsWellFormed(block);
      var inner := new Walker();
      var last := inner.Walk(Parsed(Tokens(html)), 0);
      Nothing(Stream(Parsed(value), 0));
      html, out := MergeStreams.Merge(walker.events, inner.events, TextOf(block));
      MergeIsMeant(block, value, spelled, out, inner.events);
    }
    if NoQuotes(block) {
      MeantIsRenewed(block, value, spelled, out, html);
    }
  }

  /**
   * `highlightBlock`. A browser reads the new markup as it is meant exactly when no attribute of the block's elements
   * holds a quotation mark. Then, where highlighting passes over nothing, the block has its text as before; the
   * markup is balanced exactly when no element of the page is taken for void that is not, and every character is
   * inside the elements the page had around it and, within those, the highlighter's spans exactly when no void
   * element holds text and no text follows an element that is left open. A block with elements keeps its text
   * whether or not highlighting passes over characters.
   */
  method RenderBlock(g: Engine, fuel: nat, language: Option<string>, block: Forest)
      returns (o: Outcome<string>, ghost out: seq<Token>)
    requires RootsSteady(g) && NoEcho(g) && PlainNames(g) && FromMarkup(block)
    ensures o.Done? <==> Value(g, fuel, language, TextOf(block)).Done?
    ensures o.Done? && NoQuotes(block) ==>
              var spelled := Omit(TextOf(block), ValueAccount(g, fuel, language, TextOf(block)).skipped);
              Renewed(block, Value(g, fuel, language, TextOf(block)).result.value, spelled, o.result)
    ensures o.Done? ==>
              var spelled := Omit(TextOf(block), ValueAccount(g, fuel, language, TextOf(block)).skipped);
              Meant(block, Value(g, fuel, language, TextOf(block)).result.value, spelled, out, o.result)
  {
    hide HighlightText, Auto, ValueAccount, Spells, RootsSteady, NoEcho, PlainNames, PlainSpans, FromMarkup;
    hide Renewed, Meant, NoQuotes;
    var text := TextOf(block);
    ghost var skipped := ValueAccount(g, fuel, language, text).skipped;
    var r: Outcome<Highlighted>;
    match language {
      case Some(name) => r := Highlighter.HighlightOne(g, fuel, name, text, true, None);
      case None => r := Highlighter.HighlightAuto(g, fuel, text);
    }
    out := [];
    match r
    case Done(h) =>
      ValueSpells(g, fuel, language, text);
      ValuePlain(g, fuel, language, text);
      OmitLength(text, skipped);
      var html;
      html, out := MergeValue(h.value, Omit(text, skipped), block);
      o := Done(html);
    case Illegal => o := Illegal;
    case Thrown => o := Thrown;
    case Unfinished => o := Unfinished;
  }

  lemma SpellsBalanced(ts: seq<Token>, text: string)
    requires Spells(ts, text)
    ensures Read(ts).Balanced() && Read(ts).text == text
  {
  }

  lemma SameFront(a: seq<Node>, b: seq<Node>, back: seq<Node>)
    ensures a + back == b + back <==> a == b
  {
    if a + back == b + back {
      assert a == (a + back)[..|a|] && b == (b + back)[..|b|];
    }
  }

  // ---------------------------------------------------------------- a block that is lost

  lemma QuotedTitleStream(n: Node)
    requires Tag(n) == "span"
    ensures var block := Element(n, Txt("x", Nil), Nil);
            && Stream(block, 0) == [Start(0, n), Stop(1, n)]
            && MergeStreams.Weave(Stream(block, 0), 0, "x") == [Open(n), Chr('x'), Close(n)]
            && NamesFit(block) && Placed(block)
  {
    hide IsVoid, LooksVoid, Tag;
    SpanLooksPlain(n);
    var e := [Start(0, n), Stop(1, n)];
    assert TextOf(Txt("x", Nil)) == "x";
    assert Stream(Element(n, Txt("x", Nil), Nil), 0) == e;
    assert e[1..] == [Stop(1, n)] && e[1..][1..] == [];
    assert MergeStreams.Weave([], 1, "x") == [];
    assert MergeStreams.Weave(e[1..], 0, "x") == [Chr('x'), Close(n)];
  }

  /**
   * The condition on attributes is needed: in a block whose only element has the title `a"b=` all its text is lost
   * with the element, even where no span is to be written.
   */
  lemma QuotedTitleLosesText(id: int)
    ensures var block := Element(QuotedTitle(id), Txt("x", Nil), Nil);
            var out := MergeStreams.Weave(Stream(block, 0), 0, "x");
            && FromMarkup(block) && !NoQuotes(block) && NamesFit(block) && Placed(block)
            && TextOf(block) == "x" && Tokens(Html(out)) == []
  {
    var n := QuotedTitle(id);
    var block := Element(n, Txt("x", Nil), Nil);
    assert Elements(block) == {n};
    OneElementText(n, "x");
    SpanTag(id);
    hide *;
    QuotedTitleStream(n);
    QuotedHtml(n);
    NoQuoteThere();
    QuoteSwallows(id, "x</span>");
    OneElementBlock(block, n);
  }

  lemma OneElementText(n: Node, x: string)
    ensures TextOf(Element(n, Txt(x, Nil), Nil)) == x
  {
    Nothing(x);
    assert TextOf(Txt(x, Nil)) == x;
  }

  lemma OneElementBlock(block: Forest, n: Node)
    requires Elements(block) == {n} && IsElement(n) && !Unquoted(n)
    ensures FromMarkup(block) && !NoQuotes(block)
  {
    hide IsElement, Unquoted;
  }

  lemma NoQuoteThere()
    ensures '"' !in "x</span>"
  {
    forall i | 0 <= i < |"x</span>"|
      ensures "x</span>"[i] != '"'
    {
    }
  }

  lemma QuotedHtml(n: Node)
    requires Tag(n) == "span"
    ensures Html([Open(n), Chr('x'), Close(n)]) == TokenText(Open(n)) + "x</span>"
  {
    hide AttributesText;
    var out := [Open(n), Chr('x'), Close(n)];
    assert out[1..] == [Chr('x'), Close(n)] && out[1..][1..] == [Close(n)] && out[1..][1..][1..] == [];
    assert TokenText(Close(n)) == "</span>" && TokenText(Chr('x')) == "x";
    assert "x" + "</span>" == "x</span>" && Html([]) == "";
    Nothing("</span>");
    hide TokenText;
    assert Html([Chr('x'), Close(n)]) == "x</span>";
  }

  lemma SpanTag(id: int)
    ensures Tag(QuotedTitle(id)) == "span"
  {
    assert "SPAN"[1..] == "PAN" && "PAN"[1..] == "AN" && "AN"[1..] == "N";
  }
}
