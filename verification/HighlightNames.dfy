/** What the engine writes around text: spans, whose class needs no escaping when no name in the grammars does. */
module HighlightNames {
  import opened Basics
  import opened Markup
  import opened HtmlText
  import opened Highlight
  import opened NodeStream
  import opened PageTree

  /** A name that stands in a tag as it is. */
  predicate PlainName(s: string) {
    '"' !in s && '&' !in s && '<' !in s && '>' !in s
  }

  predicate PlainMode(m: Mode) {
    && PlainName(m.className) && (m.subLanguage.Some? ==> PlainName(m.subLanguage.value))
    && (m.keywords.Some? ==> forall w <- m.keywords.value :: PlainName(m.keywords.value[w].0))
  }

  /** The classes and languages that the grammars name. */
  ghost predicate PlainNames(g: Engine) {
    (forall id: ModeId :: PlainMode(g.mode(id))) && forall name <- g.names :: PlainName(name)
  }

  function ClassOf(n: Node): string {
    if |n.attributes| == 1 then n.attributes[0].1 else ""
  }

  predicate PlainSpan(n: Node) {
    n == Span(ClassOf(n)) && PlainName(ClassOf(n))
  }

  predicate PlainSpans(ts: seq<Token>) {
    forall t <- ts :: !t.Chr? ==> PlainSpan(t.node)
  }

  /** The engine's text for a token: the class stands between the quotation marks as it is. */
  function RawToken(t: Token): string {
    match t
    case Open(n) => "<span class=\"" + ClassOf(n) + "\">"
    case Close(_) => "</span>"
    case Chr(c) => Entity(c)
  }

  function Raw(ts: seq<Token>): string {
    if ts == [] then "" else RawToken(ts[0]) + Raw(ts[1..])
  }

  // ---------------------------------------------------------------- the engine writes plain spans

  lemma PlainConcat(a: seq<Token>, b: seq<Token>)
    requires PlainSpans(a) && PlainSpans(b)
    ensures PlainSpans(a + b)
  {
  }

  lemma PlainChars(s: string)
    ensures PlainSpans(Chars(s))
  {
  }

  lemma PlainTags(cls: string)
    requires PlainName(cls)
    ensures PlainSpan(Span(cls)) && PlainSpans([Open(Span(cls))]) && PlainSpans([Close(Span(cls))])
  {
  }

  /** Where the prefix is plain, the class with it is. */
  lemma PlainClass(g: Engine, id: ModeId)
    requires PlainNames(g)
    ensures PlainName(CLASS_PREFIX + g.mode(id).className)
  {
    assert PlainMode(g.mode(id));
  }

  lemma {:induction false} PlainSpansOf(g: Engine, ids: seq<ModeId>)
    requires PlainNames(g)
    ensures forall n <- SpansOf(g, ids) :: PlainSpan(n)
    decreases |ids|
  {
    hide PlainNames, PlainSpan;
    if ids != [] {
      var k := |ids| - 1;
      PlainSpansOf(g, ids[..k]);
      PlainClass(g, ids[k]);
      PlainTags(CLASS_PREFIX + g.mode(ids[k]).className);
    }
  }

  lemma {:induction false} PlainOpening(nodes: seq<Node>)
    requires forall n <- nodes :: PlainSpan(n)
    ensures PlainSpans(Opening(nodes)) && PlainSpans(Closing(nodes))
    decreases |nodes|
  {
    hide PlainSpan;
    if nodes != [] {
      PlainOpening(nodes[..|nodes| - 1]);
    }
  }

  lemma PlainWord(g: Engine, id: ModeId, word: string, lower: bool)
    requires PlainNames(g)
    ensures PlainSpans(Word(g.mode(id), word, lower).0)
  {
    hide PlainSpans, PlainNames;
    PlainChars(word);
    match KeywordMatch(g.mode(id), word, lower)
    case None =>
    case Some(k) =>
      assert PlainMode(g.mode(id)) by {
        PlainAt(g, id);
      }
      PlainTags(CLASS_PREFIX + k.0);
      PlainConcat([Open(Span(CLASS_PREFIX + k.0))], Chars(word));
      PlainConcat([Open(Span(CLASS_PREFIX + k.0))] + Chars(word), [Close(Span(CLASS_PREFIX + k.0))]);
  }

  lemma PlainAt(g: Engine, id: ModeId)
    requires PlainNames(g)
    ensures PlainMode(g.mode(id))
  {
  }

  lemma {:induction false} PlainKeywords(g: Engine, id: ModeId, lower: bool, text: string, from: nat)
    requires PlainNames(g) && from <= |text|
    ensures var r := Keywords(g, g.mode(id), lower, text, from);
            r.Done? ==> PlainSpans(r.result.0)
    decreases |text| - from
  {
    hide PlainSpans, PlainNames, Word, Chars;
    var m := g.mode(id);
    match g.exec(m.lexemes, text, from)
    case None => PlainChars(text[from..]);
    case Some(hit) =>
      var next := hit.index + hit.length;
      if hit.length != 0 && from <= hit.index && next <= |text| {
        PlainKeywords(g, id, lower, text, next);
        var rest := Keywords(g, m, lower, text, next);
        if rest.Done? {
          PlainChars(text[from..hit.index]);
          PlainWord(g, id, text[hit.index..next], lower);
          PlainConcat(Chars(text[from..hit.index]), Word(m, text[hit.index..next], lower).0);
          PlainConcat(Chars(text[from..hit.index]) + Word(m, text[hit.index..next], lower).0, rest.result.0);
        }
      }
  }

  lemma PlainStart(g: Engine, st: State, id: ModeId, lexeme: string)
    requires PlainNames(g) && PlainSpans(st.out)
    ensures PlainSpans(StartMode(g, st, id, lexeme).out)
  {
    hide PlainSpans, PlainNames, Chars;
    var cls := g.mode(id).className;
    var span := if cls == "" then [] else [Open(Span(CLASS_PREFIX + cls))];
    PlainClass(g, id);
    PlainTags(CLASS_PREFIX + cls);
    PlainChars(lexeme);
    PlainNothing();
    PlainConcat(st.out, span);
    PlainConcat(Chars(lexeme), span);
    PlainConcat(st.out, Chars(lexeme) + span);
  }

  lemma PlainNothing()
    ensures PlainSpans([])
  {
  }

  lemma PlainLeave(g: Engine, st: State, at: nat, lexeme: string)
    requires PlainNames(g) && PlainSpans(st.out) && at < |st.chain|
    ensures PlainSpans(LeaveModes(g, st, at, lexeme).out)
  {
    hide PlainSpans, PlainNames, Chars, SpansOf, Closing, Total;
    var spans := SpansOf(g, st.chain[at..]);
    var tokens := if g.mode(st.chain[|st.chain| - 1]).excludeEnd then Chars(lexeme) else [];
    PlainSpansOf(g, st.chain[at..]);
    PlainOpening(spans);
    PlainChars(lexeme);
    PlainNothing();
    PlainConcat(Closing(spans), tokens);
    PlainConcat(st.out, Closing(spans) + tokens);
  }

  lemma PlainAct(g: Engine, st: State, plan: Plan, lexeme: string)
    requires PlainNames(g) && PlainSpans(st.out) && (plan.Begin? || (plan.End? && plan.at < |st.chain|))
    ensures PlainSpans(Act(g, st, plan, lexeme).out)
  {
    hide PlainSpans, PlainNames, StartMode, LeaveModes;
    if plan.Begin? {
      PlainStart(g, st, plan.id, lexeme);
    } else {
      PlainLeave(g, st, plan.at, lexeme);
      match g.mode(st.chain[plan.at]).starts
      case None =>
      case Some(id) => PlainStart(g, LeaveModes(g, st, plan.at, lexeme), id, "");
    }
  }

  predicate PlainResult(h: Highlighted) {
    match h
    case Highlighted(_, value, language, _) => PlainSpans(value) && (language.Some? ==> PlainName(language.value))
  }

  lemma PlainText(text: string)
    ensures PlainResult(NoLanguage(text))
  {
    PlainChars(text);
  }

  lemma PlainEmbed(st: State, m: Mode, name: string, e: Highlighted)
    requires PlainSpans(st.out) && PlainResult(e)
    ensures PlainSpans(Embed(st, m, name, e).out)
  {
    hide PlainSpans;
    var cls := e.language.GetOr("undefined");
    PlainTags(cls);
    PlainConcat([Open(Span(cls))], e.value);
    PlainConcat([Open(Span(cls))] + e.value, [Close(Span(cls))]);
    PlainConcat(st.out, [Open(Span(cls))] + e.value + [Close(Span(cls))]);
  }

  lemma PlainFlushed(job: Job, st: State, e: Outcome<Highlighted>)
    requires PlainNames(job.g) && st.chain != [] && PlainSpans(st.out)
    requires SubLanguage(job.g, job.g.mode(st.chain[|st.chain| - 1])).Some? && e.Done? ==> PlainResult(e.result)
    ensures var r := Flush(job, st, e);
            r.Done? ==> PlainSpans(r.result.out)
  {
    hide PlainSpans, PlainNames, PlainResult, Keywords, Chars, Embed;
    var id := st.chain[|st.chain| - 1];
    var m := job.g.mode(id);
    match SubLanguage(job.g, m)
    case None =>
      PlainChars(st.pending);
      PlainConcat(st.out, Chars(st.pending));
      PlainKeywords(job.g, id, job.lower, st.pending, 0);
      var words := Keywords(job.g, m, job.lower, st.pending, 0);
      if words.Done? {
        PlainConcat(st.out, words.result.0);
      }
    case Some(name) =>
      if e.Done? {
        PlainEmbed(st, m, name, e.result);
      }
  }

  lemma {:induction false} SubPlain(g: Engine, fuel: nat, st: State)
    requires PlainNames(g) && st.chain != []
    ensures var r := Sub(g, fuel, st);
            r.Done? ==> PlainResult(r.result)
    decreases fuel, 5, 0
  {
    hide PlainNames, PlainResult;
    match SubLanguage(g, g.mode(st.chain[|st.chain| - 1]))
    case None =>
    case Some(name) =>
      PlainAt(g, st.chain[|st.chain| - 1]);
      if name == "" {
        PlainText(st.pending);
        AutoPlain(g, fuel, g.names, st.pending, NoLanguage(st.pending));
      } else {
        TextPlain(g, fuel, name, st.pending, true, if name in st.tops then Some(st.tops[name]) else None);
      }
  }

  lemma {:induction false} RoundPlain(job: Job, fuel: nat, st: State, i: nat, at: nat, to: nat)
    requires PlainNames(job.g) && st.chain != [] && PlainSpans(st.out)
    ensures var r := Round(job, fuel, st, i, at, to);
            r.Done? ==> PlainSpans(r.result.0.out)
    decreases fuel, 6, 0
  {
    hide Sub, Flush, Decide, Act, Advance, PlainNames, PlainResult, PlainSpans;
    if i <= at <= to <= |job.text| {
      var read := Meet(job, st, i, at);
      var plan := Decide(job, st.chain, job.text[at..to]);
      var ready := Ready(job, read, plan, job.text[at..to]);
      SubPlain(job.g, fuel, ready);
      PlainFlushed(job, ready, Sub(job.g, fuel, ready));
      var flushed := Flush(job, ready, Sub(job.g, fuel, ready));
      if flushed.Done? && (plan.Begin? || plan.End?) {
        PlainAct(job.g, flushed.result, plan, job.text[at..to]);
      }
    }
  }

  lemma {:induction false} RoundsPlain(job: Job, fuel: nat, st: State, i: nat)
    requires PlainNames(job.g) && PlainSpans(st.out)
    ensures var r := Rounds(job, fuel, st, i);
            r.Done? ==> PlainSpans(r.result.out)
    decreases fuel, 2, 0
  {
    hide Round, Sub, Flush, PlainNames, PlainResult, PlainSpans;
    if fuel == 0 || st.chain == [] {
      return;
    }
    match Terminator(job, st.chain, i)
    case None =>
      var read := st.(pending := st.pending + Rest(job.text, i));
      SubPlain(job.g, fuel - 1, read);
      PlainFlushed(job, read, Sub(job.g, fuel - 1, read));
    case Some(hit) =>
      RoundPlain(job, fuel - 1, st, i, hit.index, hit.index + hit.length);
      var next := Round(job, fuel - 1, st, i, hit.index, hit.index + hit.length);
      if next.Done? {
        RoundsPlain(job, fuel - 1, next.result.0, hit.index + next.result.1);
      }
  }

  /** Every tag that a call writes is that of a span with a plain class. */
  lemma {:induction false} TextPlain(g: Engine, fuel: nat, name: string, text: string, ignoreIllegals: bool,
                                     continuation: Option<seq<ModeId>>)
    requires PlainNames(g)
    ensures var r := HighlightText(g, fuel, name, text, ignoreIllegals, continuation);
            r.Done? ==> PlainSpans(r.result.value) && (PlainName(name) ==> PlainResult(r.result))
    decreases fuel, 3, 0
  {
    hide Rounds, SpansOf, Opening, Closing, PlainNames, PlainSpans, PlainSpan;
    var found := g.Find(name);
    PlainText(text);
    if found.Some? && ReachesRoot(continuation, found.value) {
      var job := Job(g, text, ignoreIllegals, g.mode(found.value).caseInsensitive);
      var chain := continuation.GetOr([found.value]);
      PlainSpansOf(g, Inner(chain));
      PlainOpening(SpansOf(g, Inner(chain)));
      RoundsPlain(job, fuel, Initial(g, chain), 0);
      var done := Rounds(job, fuel, Initial(g, chain), 0);
      if done.Done? {
        PlainSpansOf(g, Inner(done.result.chain));
        PlainOpening(SpansOf(g, Inner(done.result.chain)));
        PlainConcat(done.result.out, Closing(SpansOf(g, Inner(done.result.chain))));
      }
    }
  }

  lemma {:induction false} AutoPlain(g: Engine, fuel: nat, names: seq<string>, text: string, best: Highlighted)
    requires PlainNames(g) && PlainResult(best) && forall name <- names :: name in g.names
    ensures var r := Auto(g, fuel, names, text, best);
            r.Done? ==> PlainResult(r.result)
    decreases fuel, 4, |names|
  {
    hide HighlightText, PlainSpans;
    if names != [] {
      if g.Find(names[0]) == None {
        AutoPlain(g, fuel, names[1..], text, best);
      } else {
        assert PlainName(names[0]);
        hide PlainNames, PlainName;
        TextPlain(g, fuel, names[0], text, false, None);
        var t := HighlightText(g, fuel, names[0], text, false, None);
        if t.Done? {
          AutoPlain(g, fuel, names[1..], text,
                    if t.result.relevance > best.relevance then t.result.(language := Some(names[0])) else best);
        }
      }
    }
  }

  // ---------------------------------------------------------------- and a reader finds them as they are

  /** A plain span's tag needs no escaping, and reads back as the span. */
  lemma PlainToken(t: Token)
    requires !t.Chr? ==> PlainSpan(t.node)
    ensures RawToken(t) == TokenText(t)
    ensures (!t.Chr? ==> IsElement(t.node)) && (t.Open? ==> BareToken(t) == t && Unquoted(t.node))
  {
    match t
    case Open(n) => PlainOpen(n);
    case Close(n) => PlainOpen(n);
    case Chr(_) =>
  }

  lemma SpanIsElement(cls: string)
    ensures IsElement(Span(cls)) && Tag(Span(cls)) == "span"
  {
  }

  lemma SpanIsBare(cls: string)
    ensures Bare(Span(cls)) == Span(cls)
  {
    SpanIsElement(cls);
    assert ToLower("class") == "class";
    assert BareAttributes([("class", cls)]) == [("class", cls)];
  }

  lemma SpanText(cls: string)
    requires Escape(cls) == cls
    ensures AttributesText([("class", cls)]) == " class=\"" + cls + "\""
  {
    hide Escape;
    var attributes := [("class", cls)];
    assert attributes[1..] == [] && AttributesText([]) == "";
    Nothing(" " + "class" + "=\"" + cls + "\"");
    assert " " + "class" + "=\"" == " class=\"";
  }

  lemma PlainOpen(n: Node)
    requires PlainSpan(n)
    ensures "<span class=\"" + ClassOf(n) + "\">" == TokenText(Open(n)) && "</span>" == TokenText(Close(n))
    ensures IsElement(n) && Bare(n) == n && Unquoted(n)
  {
    hide IsElement, Bare, AttributesText, Escape, Tag;
    var cls := ClassOf(n);
    SpanIsElement(cls);
    SpanIsBare(cls);
    EscapesNone(cls);
    SpanText(cls);
    Quotes(cls);
  }

  lemma Quotes(cls: string)
    ensures "<span class=\"" + cls + "\">" == "<" + "span" + (" class=\"" + cls + "\"") + ">"
    ensures "</span>" == "</" + "span" + ">"
  {
    assert "<span class=\"" == "<" + "span" + " class=\"";
    assert "\">" == "\"" + ">";
    Assoc("<" + "span", " class=\"" + cls, "\"");
    Assoc("<" + "span", " class=\"", cls);
    Assoc("<span class=\"" + cls, "\"", ">");
  }

  /** What the engine writes is read as the spans it stands for. */
  lemma {:induction false} RawReads(ts: seq<Token>)
    requires PlainSpans(ts)
    ensures Raw(ts) == Html(ts) && AreElements(ts) && AllUnquoted(ts)
    decreases |ts|
  {
    hide RawToken, TokenText, IsElement, Unquoted, PlainSpan, BareToken;
    if ts != [] {
      assert ts[0] in ts;
      PlainToken(ts[0]);
      RawReads(ts[1..]);
    }
  }

  /** A browser builds the same nodes from the engine's text as from the tokens it stands for. */
  lemma RawBuilds(ts: seq<Token>)
    requires PlainSpans(ts)
    ensures Parsed(Tokens(Raw(ts))) == Parsed(ts)
  {
    hide Raw, Html, Tokens, Bared, TokenText, RawToken, IsElement, Unquoted, PlainSpan, Build;
    RawReads(ts);
    HtmlReadsBack(ts);
    forall t <- ts | t.Open?
      ensures Bare(t.node) == t.node
    {
      PlainToken(t);
    }
    BuildBared(ts);
  }
}
