/** In which spans the engine puts every character, and what it counts for relevance. */
module HighlightPlaces {
  import opened Basics
  import opened Markup
  import opened Highlight
  import opened HighlightRuns
  import opened HighlightTrace
  import opened HighlightProofs

  // ---------------------------------------------------------------- keywords

  predicate Inside(hit: Hit, i: nat) {
    hit.index <= i < hit.index + hit.length
  }

  /** The lexemes that the loop over a pending text meets from an index on. */
  function Lexemes(g: Engine, m: Mode, text: string, from: nat): (hits: seq<Hit>)
    requires from <= |text|
    ensures forall h <- hits :: from <= h.index && h.length > 0 && h.index + h.length <= |text|
    decreases |text| - from
  {
    match g.exec(m.lexemes, text, from)
    case None => []
    case Some(hit) =>
      if hit.length == 0 || hit.index < from || hit.index + hit.length > |text| then []
      else [hit] + Lexemes(g, m, text, hit.index + hit.length)
  }

  function Spelled(text: string, hit: Hit, lower: bool): string
    requires hit.index + hit.length <= |text|
  {
    var word := text[hit.index..hit.index + hit.length];
    if lower then ToLower(word) else word
  }

  predicate IsKeyword(m: Mode, word: string) {
    m.keywords.Some? && word in m.keywords.value
  }

  /** The span around a lexeme that is a keyword. */
  function KeywordSpan(m: Mode, word: string): seq<Node> {
    if IsKeyword(m, word) then [Node(0, "span", [("class", "hljs-" + m.keywords.value[word].0)])] else []
  }

  function KeywordsWorth(m: Mode, text: string, hits: seq<Hit>, lower: bool): int
    requires forall h <- hits :: h.index + h.length <= |text|
  {
    if hits == [] then 0
    else
      var word := Spelled(text, hits[0], lower);
      (if IsKeyword(m, word) then m.keywords.value[word].1 else 0) + KeywordsWorth(m, text, hits[1..], lower)
  }

  /** Characters inside a lexeme are in its span, if it is a keyword, and all others in none. */
  predicate KeywordsAt(m: Mode, text: string, from: nat, hits: seq<Hit>, lower: bool, places: seq<seq<Node>>)
    requires forall h <- hits :: h.index + h.length <= |text|
  {
    && from + |places| == |text|
    && (forall h <- hits, j: nat :: j < |places| && Inside(h, from + j) ==>
          places[j] == KeywordSpan(m, Spelled(text, h, lower)))
    && (forall j: nat :: j < |places| && (forall h <- hits :: !Inside(h, from + j)) ==> places[j] == [])
  }

  lemma CharPlaces(s: string)
    ensures Read(Chars(s)).contexts == Under(s, []) && Spells(Chars(s), s)
  {
    AppendChars([], s);
    Nothing(Chars(s));
    Nothing(s);
    Nothing(Under(s, []));
  }

  lemma ConcatPlaces(a: seq<Token>, s: string, b: seq<Token>, t: string)
    requires Spells(a, s) && Spells(b, t)
    ensures Spells(a + b, s + t) && Read(a + b).contexts == Read(a).contexts + Read(b).contexts
  {
    SpellConcat(a, s, b, t);
    AppendContexts(a, b);
    assert Nest([], Read(b).contexts) == Read(b).contexts by {
      NoneAround(Read(b).contexts);
    }
  }

  lemma NoneAround(places: seq<seq<Node>>)
    ensures Nest([], places) == places
  {
    forall i | 0 <= i < |places|
      ensures [] + places[i] == places[i]
    {
      Nothing(places[i]);
    }
  }

  lemma SpanPlaces(n: Node, inner: seq<Token>, text: string)
    requires !IsVoid(n) && Spells(inner, text)
    ensures Spells([Open(n)] + inner + [Close(n)], text)
    ensures Read([Open(n)] + inner + [Close(n)]).contexts == Nest([n], Read(inner).contexts)
  {
    hide IsVoid;
    InElement(n, inner, text);
    Snoc([], Open(n));
    Nothing([Open(n)]);
    Nothing([n]);
    AppendContexts([Open(n)], inner);
    Nothing(Nest([n], Read(inner).contexts));
    Snoc([Open(n)] + inner, Close(n));
  }

  lemma WordPlaces(m: Mode, word: string, lower: bool)
    ensures Spells(Word(m, word, lower).0, word)
    ensures Read(Word(m, word, lower).0).contexts ==
            Under(word, KeywordSpan(m, if lower then ToLower(word) else word))
    ensures Word(m, word, lower).1 ==
            if IsKeyword(m, if lower then ToLower(word) else word)
            then m.keywords.value[if lower then ToLower(word) else word].1 else 0
  {
    CharPlaces(word);
    match KeywordMatch(m, word, lower)
    case None =>
    case Some(k) =>
      hide Read;
      SpanIsNoVoid(CLASS_PREFIX + k.0);
      SpanPlaces(Span(CLASS_PREFIX + k.0), Chars(word), word);
      UnderSpan(word, Span(CLASS_PREFIX + k.0));
  }

  lemma UnderSpan(word: string, n: Node)
    ensures Nest([n], Under(word, [])) == Under(word, [n])
  {
    Nothing([n]);
  }

  /** One lexeme more in front. */
  lemma KeywordsFront(m: Mode, text: string, from: nat, hit: Hit, hits: seq<Hit>, lower: bool,
                      rest: seq<seq<Node>>)
    requires hit.length > 0 && from <= hit.index && hit.index + hit.length <= |text|
    requires forall h <- hits :: hit.index + hit.length <= h.index && h.index + h.length <= |text|
    requires KeywordsAt(m, text, hit.index + hit.length, hits, lower, rest)
    ensures (forall h <- [hit] + hits :: h.index + h.length <= |text|) &&
            KeywordsAt(m, text, from, [hit] + hits, lower,
                       Under(text[from..hit.index], []) +
                       Under(text[hit.index..hit.index + hit.length], KeywordSpan(m, Spelled(text, hit, lower))) + rest)
  {
    hide KeywordSpan, Spelled;
    var to := hit.index + hit.length;
    var span := KeywordSpan(m, Spelled(text, hit, lower));
    var places := Under(text[from..hit.index], []) + Under(text[hit.index..to], span) + rest;
    forall h <- [hit] + hits, j: nat | j < |places| && Inside(h, from + j)
      ensures places[j] == KeywordSpan(m, Spelled(text, h, lower))
    {
      if h != hit {
        assert Inside(h, to + (j + from - to)) && places[j] == rest[j + from - to];
      }
    }
    forall j: nat | j < |places| && forall h <- [hit] + hits :: !Inside(h, from + j)
      ensures places[j] == []
    {
      assert hit in [hit] + hits && !Inside(hit, from + j);
      if to <= from + j {
        assert forall h <- hits :: h in [hit] + hits;
        assert forall h <- hits :: !Inside(h, to + (j + from - to));
        assert places[j] == rest[j + from - to];
      }
    }
  }

  /**
   * In the markup of a pending text a character is in the span of a keyword exactly if the lexeme it lies in is one,
   * in lower case where the language asks for that; the keywords' relevance is summed up.
   */
  lemma {:induction false} KeywordsArePlaced(g: Engine, m: Mode, lower: bool, text: string, from: nat)
    requires from <= |text|
    ensures var r, hits := Keywords(g, m, lower, text, from), Lexemes(g, m, text, from);
            r.Done? ==>
              && Spells(r.result.0, text[from..])
              && KeywordsAt(m, text, from, hits, lower, Read(r.result.0).contexts)
              && r.result.1 == KeywordsWorth(m, text, hits, lower)
    decreases |text| - from
  {
    hide Chars, Word, Read, Spells, KeywordsAt, IsKeyword, Under;
    match g.exec(m.lexemes, text, from)
    case None =>
      CharPlaces(text[from..]);
      NoKeywords(m, text, from, lower);
    case Some(hit) =>
      var to := hit.index + hit.length;
      if hit.length != 0 && from <= hit.index && to <= |text| {
        var before, word := text[from..hit.index], text[hit.index..to];
        KeywordsArePlaced(g, m, lower, text, to);
        var rest := Keywords(g, m, lower, text, to);
        if rest.Done? {
          CharPlaces(before);
          WordPlaces(m, word, lower);
          ConcatPlaces(Chars(before), before, Word(m, word, lower).0, word);
          ConcatPlaces(Chars(before) + Word(m, word, lower).0, before + word, rest.result.0, text[to..]);
          ThreeParts(text, from, hit.index, to);
          KeywordsFront(m, text, from, hit, Lexemes(g, m, text, to), lower, Read(rest.result.0).contexts);
          Head(hit, Lexemes(g, m, text, to));
        }
      }
  }

  lemma NoKeywords(m: Mode, text: string, from: nat, lower: bool)
    requires from <= |text|
    ensures KeywordsAt(m, text, from, [], lower, Under(text[from..], []))
  {
  }

  /** The place of one character among the keywords of a text. */
  function Mark(m: Mode, text: string, hits: seq<Hit>, lower: bool, i: nat): seq<Node>
    requires forall h <- hits :: h.index + h.length <= |text|
  {
    if hits == [] then []
    else if Inside(hits[0], i) then KeywordSpan(m, Spelled(text, hits[0], lower))
    else Mark(m, text, hits[1..], lower, i)
  }

  function Marks(g: Engine, m: Mode, text: string, lower: bool): seq<seq<Node>> {
    seq(|text|, i requires 0 <= i < |text| => Mark(m, text, Lexemes(g, m, text, 0), lower, i))
  }

  lemma {:induction false} MarkFinds(m: Mode, text: string, hits: seq<Hit>, lower: bool, i: nat)
    requires forall h <- hits :: h.index + h.length <= |text|
    ensures var mark := Mark(m, text, hits, lower, i);
            || (exists h <- hits :: Inside(h, i) && mark == KeywordSpan(m, Spelled(text, h, lower)))
            || ((forall h <- hits :: !Inside(h, i)) && mark == [])
  {
    hide KeywordSpan, Spelled;
    if hits != [] {
      assert hits[0] in hits;
      if !Inside(hits[0], i) {
        MarkFinds(m, text, hits[1..], lower, i);
      }
    }
  }

  lemma MarksAre(g: Engine, m: Mode, text: string, lower: bool, places: seq<seq<Node>>)
    requires KeywordsAt(m, text, 0, Lexemes(g, m, text, 0), lower, places)
    ensures places == Marks(g, m, text, lower)
  {
    hide KeywordSpan, Spelled, Mark, Lexemes;
    var hits := Lexemes(g, m, text, 0);
    forall j: nat | j < |text|
      ensures places[j] == Mark(m, text, hits, lower, j)
    {
      MarkFinds(m, text, hits, lower, j);
      assert 0 + j == j;
    }
  }

  // ---------------------------------------------------------------- what a step writes and counts

  /** The places of the characters written, and the relevance counted. */
  datatype Gain = Gain(places: seq<seq<Node>>, relevance: int)

  predicate Gained(st: State, next: State, gain: Gain) {
    match st
    case State(_, out, _, relevance, _) =>
      Read(next.out).contexts == Read(out).contexts + gain.places && next.relevance == relevance + gain.relevance
  }

  /** The spans of the class-bearing modes on a chain, the root apart. */
  function Around(g: Engine, chain: seq<ModeId>): seq<Node> {
    SpansOf(g, Inner(chain))
  }

  /** The relevance of modes, one by one. */
  function Worth(g: Engine, ids: seq<ModeId>): int {
    if ids == [] then 0 else g.mode(ids[0]).relevance + Worth(g, ids[1..])
  }

  /**
   * Pending text stands in the spans around it, and inside those in a span that names its language where another
   * one is embedded, or in the spans of keywords where the mode has some.
   */
  predicate EmbedsHere(g: Engine, m: Mode) {
    m.subLanguage.Some? && (m.subLanguage.value == "" || m.subLanguage.value in g.languages)
  }

  function FlushGain(job: Job, chain: seq<ModeId>, pending: string, e: Outcome<Highlighted>): Gain
    requires chain != []
  {
    var g, m, spans := job.g, job.g.mode(chain[|chain| - 1]), Around(job.g, chain);
    if EmbedsHere(g, m) then
      match e
      case Done(h) =>
        var language := Node(0, "span", [("class", h.language.GetOr("undefined"))]);
        Gain(Nest(spans + [language], Read(h.value).contexts), if m.relevance > 0 then h.relevance else 0)
      case _ => Gain([], 0)
    else if m.subLanguage.Some? || m.keywords == None then Gain(Under(pending, spans), 0)
    else
      Gain(Nest(spans, Marks(g, m, pending, job.lower)),
           KeywordsWorth(m, pending, Lexemes(g, m, pending, 0), job.lower))
  }

  /** An excluded beginning or end stands outside the mode, and leaving modes counts their relevance. */
  function LexemeGain(job: Job, chain: seq<ModeId>, pending: string, plan: Plan, lexeme: string,
                      e: Outcome<Highlighted>): Gain
    requires chain != [] && (plan.End? ==> plan.at < |chain|)
  {
    match plan
    case Begin(id) =>
      var m, flushed := job.g.mode(id), FlushGain(job, chain, pending, e);
      if m.excludeBegin && !m.returnBegin then
        flushed.(places := flushed.places + Under(lexeme, Around(job.g, chain)))
      else flushed
    case End(at) =>
      var m := job.g.mode(chain[|chain| - 1]);
      var flushed := FlushGain(job, chain, if m.returnEnd || m.excludeEnd then pending else pending + lexeme, e);
      Gain(flushed.places + (if m.excludeEnd then Under(lexeme, Around(job.g, chain[..at])) else []),
           flushed.relevance + Worth(job.g, chain[at..]))
    case _ => Gain([], 0)
  }

  lemma KeywordsGained(job: Job, root: ModeId, m: Mode, st: State)
    requires SpansMatch(job.g, root, st) && m.subLanguage == None && m.keywords.Some?
    ensures var r := PlainFlush(job, m, st);
            r.Done? ==>
              Gained(st, r.result, Gain(Nest(Around(job.g, st.chain), Marks(job.g, m, st.pending, job.lower)),
                                        KeywordsWorth(m, st.pending, Lexemes(job.g, m, st.pending, 0), job.lower)))
  {
    hide Read, Marks, KeywordsWorth, Lexemes, KeywordsAt, Anchored, TopsSound;
    KeywordsArePlaced(job.g, m, job.lower, st.pending, 0);
    var words := Keywords(job.g, m, job.lower, st.pending, 0);
    if words.Done? {
      SpellsNested(words.result.0, st.pending[0..]);
      MarksAre(job.g, m, st.pending, job.lower, Read(words.result.0).contexts);
      AppendContexts(st.out, words.result.0);
    }
  }

  lemma SpellsNested(ts: seq<Token>, text: string)
    requires Spells(ts, text)
    ensures Read(ts).nested
  {
  }

  lemma PlainGained(g: Engine, root: ModeId, st: State)
    requires SpansMatch(g, root, st)
    ensures Gained(st, st.Write(Chars(st.pending)), Gain(Under(st.pending, Around(g, st.chain)), 0))
  {
    hide Read, Anchored, TopsSound;
    AppendChars(st.out, st.pending);
  }

  lemma EmbedGained(g: Engine, root: ModeId, st: State, m: Mode, name: string, h: Highlighted)
    requires SpansMatch(g, root, st) && Spells(h.value, Read(h.value).text)
    ensures var language := Node(0, "span", [("class", h.language.GetOr("undefined"))]);
            Gained(st, Embed(st, m, name, h),
                   Gain(Nest(Around(g, st.chain) + [language], Read(h.value).contexts),
                        if m.relevance > 0 then h.relevance else 0))
  {
    hide Read, Anchored, TopsSound, IsVoid, Spells;
    var n := Span(h.language.GetOr("undefined"));
    SpanIsNoVoid(h.language.GetOr("undefined"));
    SpanPlaces(n, h.value, Read(h.value).text);
    SpellsNested([Open(n)] + h.value + [Close(n)], Read(h.value).text);
    AppendContexts(st.out, [Open(n)] + h.value + [Close(n)]);
    NestBoth(Around(g, st.chain), n, Read(h.value).contexts);
  }

  lemma NestBoth(open: seq<Node>, n: Node, places: seq<seq<Node>>)
    ensures Nest(open, Nest([n], places)) == Nest(open + [n], places)
  {
    forall i | 0 <= i < |places|
      ensures open + ([n] + places[i]) == open + [n] + places[i]
    {
      Assoc(open, [n], places[i]);
    }
  }

  lemma FlushGained(job: Job, root: ModeId, st: State, e: Outcome<Highlighted>)
    requires SpansMatch(job.g, root, st) && st.chain != []
    requires e.Done? && SubLanguage(job.g, job.g.mode(st.chain[|st.chain| - 1])).Some? ==>
               Spells(e.result.value, Read(e.result.value).text)
    ensures var r := Flush(job, st, e);
            r.Done? ==> Gained(st, r.result, FlushGain(job, st.chain, st.pending, e))
  {
    hide Read, Marks, Spells, Around, Nest, Under, Embed, KeywordsWorth, Lexemes, SpansMatch, Gained;
    var m := job.g.mode(st.chain[|st.chain| - 1]);
    match SubLanguage(job.g, m)
    case None =>
      if m.subLanguage.Some? || m.keywords == None {
        PlainGained(job.g, root, st);
      } else {
        KeywordsGained(job, root, m, st);
      }
    case Some(name) =>
      if e.Done? {
        EmbedGained(job.g, root, st, m, name, e.result);
      }
  }

  // ---------------------------------------------------------------- entering and leaving modes

  lemma OpenPlaces(g: Engine, out: seq<Token>, id: ModeId)
    ensures var cls := g.mode(id).className;
            var span := if cls == "" then [] else [Open(Span(CLASS_PREFIX + cls))];
            Read(out + span).contexts == Read(out).contexts
  {
    SpansOne(g, id);
    SpansNoVoid(g, [id]);
    AppendOpening(out, SpansOf(g, [id]));
  }

  /** A beginning that is excluded is written before the mode's span opens. */
  lemma StartGained(g: Engine, root: ModeId, st: State, id: ModeId, lexeme: string)
    requires SpansMatch(g, root, st)
    ensures var m := g.mode(id);
            Gained(st, StartMode(g, st, id, lexeme),
                   Gain(if m.excludeBegin && !m.returnBegin then Under(lexeme, Around(g, st.chain)) else [], 0))
  {
    hide Read, Anchored, TopsSound;
    var m := g.mode(id);
    Nothing(Read(st.out).contexts);
    OpenPlaces(g, st.out, id);
    if m.excludeBegin && !m.returnBegin {
      var span := if m.className == "" then [] else [Open(Span(CLASS_PREFIX + m.className))];
      AppendChars(st.out, lexeme);
      OpenPlaces(g, st.out + Chars(lexeme), id);
      Assoc(st.out, Chars(lexeme), span);
    }
  }

  /** Starting a mode on the empty lexeme, whatever is open, writes no character. */
  lemma StartsNothing(g: Engine, st: State, id: ModeId)
    ensures Gained(st, StartMode(g, st, id, ""), Gain([], 0))
  {
    hide Read;
    Nothing(Read(st.out).contexts);
    OpenPlaces(g, st.out, id);
    assert Chars("") == [];
    Nothing(if g.mode(id).className == "" then [] else [Open(Span(CLASS_PREFIX + g.mode(id).className))]);
  }

  lemma {:induction false} TotalIsWorth(g: Engine, ids: seq<ModeId>)
    ensures Total(g, ids) == Worth(g, ids)
    decreases |ids|
  {
    if |ids| == 1 {
      assert ids[..0] == [] && ids[1..] == [];
    } else if ids != [] {
      var k := |ids| - 1;
      TotalIsWorth(g, ids[..k]);
      TotalIsWorth(g, ids[1..]);
      TotalIsWorth(g, ids[1..][..k - 1]);
      assert ids[..k][1..] == ids[1..][..k - 1] && ids[..k][0] == ids[0];
      assert ids[1..][k - 1] == ids[k];
    }
  }

  lemma CloseRead(g: Engine, root: ModeId, st: State, at: nat)
    requires at < |st.chain| && SpansMatch(g, root, st) && (at == 0 ==> g.mode(st.chain[0]).className == "")
    ensures Read(st.out + Closing(SpansOf(g, st.chain[at..]))) ==
            Read(st.out).(open := Around(g, st.chain[..at]))
  {
    hide Anchored, TopsSound;
    SpansNoVoid(g, st.chain[at..]);
    if at == 0 {
      assert st.chain[0..] == [st.chain[0]] + Inner(st.chain) && Inner(st.chain[..0]) == [];
      SpansConcat(g, [st.chain[0]], Inner(st.chain));
      assert [st.chain[0]][..0] == [] && SpansOf(g, [st.chain[0]]) == [];
      Nothing(SpansOf(g, Inner(st.chain)));
      AppendClosing(st.out, [], SpansOf(g, st.chain[0..]));
    } else {
      assert Inner(st.chain) == Inner(st.chain[..at]) + st.chain[at..];
      SpansConcat(g, Inner(st.chain[..at]), st.chain[at..]);
      AppendClosing(st.out, SpansOf(g, Inner(st.chain[..at])), SpansOf(g, st.chain[at..]));
    }
  }

  /** An end that is excluded is written once the spans are closed. */
  lemma LeaveGained(g: Engine, root: ModeId, st: State, at: nat, lexeme: string)
    requires at < |st.chain| && SpansMatch(g, root, st) && (at == 0 ==> g.mode(st.chain[0]).className == "")
    ensures var excluded := g.mode(st.chain[|st.chain| - 1]).excludeEnd;
            Gained(st, LeaveModes(g, st, at, lexeme),
                   Gain(if excluded then Under(lexeme, Around(g, st.chain[..at])) else [], Worth(g, st.chain[at..])))
  {
    hide Read, SpansMatch, SpansOf, Closing, Around, Total, Worth;
    var closing := Closing(SpansOf(g, st.chain[at..]));
    CloseRead(g, root, st, at);
    TotalIsWorth(g, st.chain[at..]);
    Nothing(Read(st.out).contexts);
    Nothing(closing);
    if g.mode(st.chain[|st.chain| - 1]).excludeEnd {
      AppendChars(st.out + closing, lexeme);
      Assoc(st.out, closing, Chars(lexeme));
    }
  }

  lemma GainedTwice(a: State, b: State, c: State, first: Gain, second: Gain)
    requires Gained(a, b, first) && Gained(b, c, second)
    ensures Gained(a, c, Gain(first.places + second.places, first.relevance + second.relevance))
  {
    hide Read;
    Assoc(Read(a.out).contexts, first.places, second.places);
  }

  lemma EndGained(g: Engine, root: ModeId, st: State, at: nat, lexeme: string)
    requires at < |st.chain| && SpansMatch(g, root, st) && (at == 0 ==> g.mode(st.chain[0]).className == "")
    ensures var excluded := g.mode(st.chain[|st.chain| - 1]).excludeEnd;
            Gained(st, EndMode(g, st, at, lexeme),
                   Gain(if excluded then Under(lexeme, Around(g, st.chain[..at])) else [], Worth(g, st.chain[at..])))
  {
    hide SpansMatch, LeaveModes, StartMode, Around, Worth, Gained;
    LeaveGained(g, root, st, at, lexeme);
    match g.mode(st.chain[at]).starts
    case None =>
    case Some(id) =>
      var left := LeaveModes(g, st, at, lexeme);
      var excluded := g.mode(st.chain[|st.chain| - 1]).excludeEnd;
      var places := if excluded then Under(lexeme, Around(g, st.chain[..at])) else [];
      StartsNothing(g, left, id);
      GainedTwice(st, left, StartMode(g, left, id, ""), Gain(places, Worth(g, st.chain[at..])), Gain([], 0));
      Nothing(places);
  }

  // ---------------------------------------------------------------- one lexeme

  lemma ActGained(job: Job, root: ModeId, st: State, plan: Plan, lexeme: string)
    requires st.chain != [] && SpansMatch(job.g, root, st) && plan == Decide(job, st.chain, lexeme)
    requires plan.Begin? || plan.End?
    ensures var next := Act(job.g, st, plan, lexeme);
            next.chain != [] ==>
              Gained(st, next,
                     if plan.Begin? then
                       var m := job.g.mode(plan.id);
                       Gain(if m.excludeBegin && !m.returnBegin then Under(lexeme, Around(job.g, st.chain)) else [], 0)
                     else
                       var excluded := job.g.mode(st.chain[|st.chain| - 1]).excludeEnd;
                       Gain(if excluded then Under(lexeme, Around(job.g, st.chain[..plan.at])) else [],
                            Worth(job.g, st.chain[plan.at..])))
  {
    hide Decide, Around, Worth, Under, StartMode, EndMode, Gained;
    DecideAnchored(job, root, st.chain, lexeme);
    hide SpansMatch, Anchored, Replaces;
    if plan.Begin? {
      StartGained(job.g, root, st, plan.id, lexeme);
    } else if plan.at > 0 || job.g.mode(st.chain[0]).starts.Some? {
      EndGained(job.g, root, st, plan.at, lexeme);
    } else {
      RootGone(job.g, st, lexeme);
    }
  }

  lemma ReadyIs(job: Job, st: State, plan: Plan, lexeme: string)
    requires st.chain != []
    ensures var m := job.g.mode(st.chain[|st.chain| - 1]);
            Ready(job, st, plan, lexeme).pending ==
            if plan.End? && !(m.returnEnd || m.excludeEnd) then st.pending + lexeme else st.pending
    ensures var next := Ready(job, st, plan, lexeme);
            next.out == st.out && next.relevance == st.relevance && next.chain == st.chain && next.tops == st.tops
  {
  }

  lemma SubSpells(g: Engine, st: State, e: Outcome<Highlighted>, a: Account)
    requires st.chain != [] && SubGood(g, st, e, a)
    ensures e.Done? && SubLanguage(g, g.mode(st.chain[|st.chain| - 1])).Some? ==>
              Spells(e.result.value, Read(e.result.value).text)
  {
    hide Spells, Read, From;
  }

  /** One call of `processLexeme`: where its characters stand, and what it counts. */
  lemma LexemeGained(job: Job, root: ModeId, st: State, l: Ledger, at: nat, to: nat, e: Outcome<Highlighted>,
                     a: Account)
    requires st.chain != [] && at <= to <= |job.text| && Sound(job.g, root, job.text, st, l)
    requires SubGood(job.g, Ready(job, st, Decide(job, st.chain, job.text[at..to]), job.text[at..to]), e, a)
    ensures var lexeme := job.text[at..to];
            var plan := Decide(job, st.chain, lexeme);
            var r := Lexeme(job, st, plan, lexeme, Flush(job, Ready(job, st, plan, lexeme), e));
            r.Done? && r.result.0.chain != [] ==>
              Gained(st, r.result.0, LexemeGain(job, st.chain, st.pending, plan, lexeme, e))
  {
    hide Sound, Flushed, SubGood, Flush, FlushLedger, Act, Advance, Decide, FlushGain, Gained, Around, Worth, Under;
    var lexeme, m := job.text[at..to], job.g.mode(st.chain[|st.chain| - 1]);
    var plan := Decide(job, st.chain, lexeme);
    if plan.Keep? {
      KeepGains(st, lexeme);
    } else if plan.Begin? || plan.End? {
      var ready, readied := Ready(job, st, plan, lexeme), ReadyLedger(m, plan, l, Range(at, to));
      TakeSound(job.g, root, job.text, st, l, at, to);
      ReadyIs(job, st, plan, lexeme);
      SubSpells(job.g, ready, e, a);
      FlushSound(job, root, ready, readied, e, a);
      SoundSpans(job.g, root, job.text, ready, readied);
      FlushGained(job, root, ready, e);
      var flushed := Flush(job, ready, e);
      if flushed.Done? {
        FlushedSpans(job.g, root, job.text, flushed.result, FlushLedger(job.g, m, readied, a));
        ActGained(job, root, flushed.result, plan, lexeme);
        Together(job, st, ready, plan, lexeme, e, flushed.result);
      }
    }
  }

  lemma KeepGains(st: State, lexeme: string)
    ensures Gained(st, KeepLexeme(st, lexeme).0, Gain([], 0))
  {
    hide Read;
    Nothing(Read(st.out).contexts);
  }

  lemma SoundSpans(g: Engine, root: ModeId, text: string, st: State, l: Ledger)
    requires Sound(g, root, text, st, l)
    ensures SpansMatch(g, root, st)
  {
  }

  lemma FlushedSpans(g: Engine, root: ModeId, text: string, st: State, l: Ledger)
    requires Flushed(g, root, text, st, l)
    ensures SpansMatch(g, root, st)
  {
  }

  /** Flushing and acting one after the other. */
  lemma Together(job: Job, st: State, ready: State, plan: Plan, lexeme: string, e: Outcome<Highlighted>, f: State)
    requires st.chain != [] && ready.chain == st.chain == f.chain
    requires plan.Begin? || (plan.End? && plan.at < |st.chain|)
    requires ready.out == st.out && ready.relevance == st.relevance
    requires var m := job.g.mode(st.chain[|st.chain| - 1]);
             ready.pending == if plan.End? && !(m.returnEnd || m.excludeEnd) then st.pending + lexeme else st.pending
    requires Gained(ready, f, FlushGain(job, st.chain, ready.pending, e))
    requires var next := Act(job.g, f, plan, lexeme);
             next.chain != [] ==>
               Gained(f, next,
                      if plan.Begin? then
                        var m := job.g.mode(plan.id);
                        Gain(if m.excludeBegin && !m.returnBegin then Under(lexeme, Around(job.g, st.chain)) else [], 0)
                      else
                        var excluded := job.g.mode(st.chain[|st.chain| - 1]).excludeEnd;
                        Gain(if excluded then Under(lexeme, Around(job.g, st.chain[..plan.at])) else [],
                             Worth(job.g, st.chain[plan.at..])))
    ensures var next := Act(job.g, f, plan, lexeme);
            next.chain != [] ==> Gained(st, next, LexemeGain(job, st.chain, st.pending, plan, lexeme, e))
  {
    hide Act, FlushGain, Around, Worth, Under, Read;
    var next, first := Act(job.g, f, plan, lexeme), FlushGain(job, st.chain, ready.pending, e);
    if next.chain != [] {
      var places := Read(next.out).contexts;
      Nothing(first.places);
      assert Gained(st, f, first);
      if plan.Begin? {
        var m := job.g.mode(plan.id);
        var more := if m.excludeBegin && !m.returnBegin then Under(lexeme, Around(job.g, st.chain)) else [];
        GainedTwice(st, f, next, first, Gain(more, 0));
      } else {
        var excluded := job.g.mode(st.chain[|st.chain| - 1]).excludeEnd;
        var more := if excluded then Under(lexeme, Around(job.g, st.chain[..plan.at])) else [];
        GainedTwice(st, f, next, first, Gain(more, Worth(job.g, st.chain[plan.at..])));
      }
    }
  }

  // ---------------------------------------------------------------- whole runs

  /** What the loop from index `i` on writes and counts: lexeme by lexeme, and the rest of the text. */
  function RoundsGain(job: Job, fuel: nat, st: State, i: nat): Gain
    decreases fuel
  {
    if fuel == 0 || st.chain == [] then Gain([], 0)
    else
      match Terminator(job, st.chain, i)
      case None =>
        var pending := st.pending + if i <= |job.text| then job.text[i..] else "";
        FlushGain(job, st.chain, pending, Sub(job.g, fuel - 1, st.(pending := pending)))
      case Some(hit) =>
        var at, to := hit.index, hit.index + hit.length;
        match Round(job, fuel - 1, st, i, at, to)
        case Done(next) =>
          RoundInside(job, fuel - 1, st, i, at, to);
          var read, lexeme := st.(pending := st.pending + job.text[i..at]), job.text[at..to];
          var plan := Decide(job, st.chain, lexeme);
          var e := Sub(job.g, fuel - 1, Ready(job, read, plan, lexeme));
          var now := LexemeGain(job, st.chain, read.pending, plan, lexeme, e);
          var later := RoundsGain(job, fuel - 1, next.0, at + next.1);
          Gain(now.places + later.places, now.relevance + later.relevance)
        case _ => Gain([], 0)
  }

  lemma RoundGained(job: Job, fuel: nat, root: ModeId, st: State, l: Ledger, i: nat, at: nat, to: nat)
    requires RootsSteady(job.g) && st.chain != [] && Sound(job.g, root, job.text, st, l)
    requires i <= at <= to <= |job.text|
    ensures var r := Round(job, fuel, st, i, at, to);
            var read, lexeme := st.(pending := st.pending + job.text[i..at]), job.text[at..to];
            var plan := Decide(job, st.chain, lexeme);
            var e := Sub(job.g, fuel, Ready(job, read, plan, lexeme));
            r.Done? && r.result.0.chain != [] ==>
              Gained(st, r.result.0, LexemeGain(job, st.chain, read.pending, plan, lexeme, e))
  {
    hide Sub, SubAccount, Lexeme, Flush, Ready, Decide, RootsSteady, Sound, LexemeGain;
    var read := Meet(job, st, i, at);
    var met := l.(pending := l.pending + Range(i, at));
    var ready := Ready(job, read, Decide(job, st.chain, job.text[at..to]), job.text[at..to]);
    TakeSound(job.g, root, job.text, st, l, i, at);
    SoundTops(job.g, root, job.text, st, l);
    SubSound(job.g, fuel, ready);
    LexemeGained(job, root, read, met, at, to, Sub(job.g, fuel, ready), SubAccount(job.g, fuel, ready));
    hide Gained;
    assert read == st.(pending := st.pending + job.text[i..at]);
    SamePlaces(st, read);
  }

  /** Reading text writes nothing. */
  lemma SamePlaces(st: State, read: State)
    requires read.out == st.out && read.relevance == st.relevance
    ensures forall next, gain :: Gained(read, next, gain) <==> Gained(st, next, gain)
  {
  }

  lemma LastGained(job: Job, fuel: nat, root: ModeId, st: State, l: Ledger, i: nat)
    requires RootsSteady(job.g) && st.chain != [] && Sound(job.g, root, job.text, st, l)
    ensures var read := st.(pending := st.pending + Rest(job.text, i));
            var e := Sub(job.g, fuel, read);
            var r := Flush(job, read, e);
            r.Done? ==> Gained(st, r.result, FlushGain(job, st.chain, read.pending, e))
  {
    hide RootsSteady, Sound, Flush, FlushGain, Sub, SubAccount, Gained, SpansMatch;
    var n := if i <= |job.text| then i else |job.text|;
    var read := st.(pending := st.pending + Rest(job.text, i));
    var all := l.(pending := l.pending + Range(n, |job.text|));
    TakeSound(job.g, root, job.text, st, l, n, |job.text|);
    assert job.text[n..|job.text|] == Rest(job.text, i);
    SoundTops(job.g, root, job.text, st, l);
    SubSound(job.g, fuel, read);
    SubSpells(job.g, read, Sub(job.g, fuel, read), SubAccount(job.g, fuel, read));
    SoundSpans(job.g, root, job.text, read, all);
    FlushGained(job, root, read, Sub(job.g, fuel, read));
    SamePlaces(st, read);
  }

  lemma {:induction false} RoundsGained(job: Job, fuel: nat, root: ModeId, st: State, l: Ledger, i: nat)
    requires RootsSteady(job.g) && (st.chain != [] ==> Sound(job.g, root, job.text, st, l))
    ensures var r := Rounds(job, fuel, st, i);
            r.Done? ==> Gained(st, r.result, RoundsGain(job, fuel, st, i))
    decreases fuel
  {
    hide Round, Flush, Sub, RootsSteady, Sound, LexemeGain, FlushGain, Gained, RoundLedger, Decide;
    if fuel == 0 || st.chain == [] {
      return;
    }
    match Terminator(job, st.chain, i)
    case None =>
      LastGained(job, fuel - 1, root, st, l, i);
    case Some(hit) =>
      var at, to := hit.index, hit.index + hit.length;
      var next := Round(job, fuel - 1, st, i, at, to);
      if next.Done? {
        RoundInside(job, fuel - 1, st, i, at, to);
        RoundSound(job, fuel - 1, root, st, l, i, at, to);
        RoundGained(job, fuel - 1, root, st, l, i, at, to);
        var l' := RoundLedger(job, fuel - 1, st, l, i, at, to);
        RoundsGained(job, fuel - 1, root, next.result.0, l', at + next.result.1);
        var done := Rounds(job, fuel - 1, next.result.0, at + next.result.1);
        if done.Done? {
          var read, lexeme := st.(pending := st.pending + job.text[i..at]), job.text[at..to];
          var plan := Decide(job, st.chain, lexeme);
          var e := Sub(job.g, fuel - 1, Ready(job, read, plan, lexeme));
          EmptyChainEnds(job, fuel - 1, next.result.0, at + next.result.1);
          GainedTwice(st, next.result.0, done.result, LexemeGain(job, st.chain, read.pending, plan, lexeme, e),
                      RoundsGain(job, fuel - 1, next.result.0, at + next.result.1));
        }
      }
  }

  lemma EmptyChainEnds(job: Job, fuel: nat, st: State, i: nat)
    ensures st.chain == [] ==> !Rounds(job, fuel, st, i).Done?
  {
  }

  /**
   * Whatever the matcher answers: where every character of the markup stands, and the relevance of the language; an
   * illegal lexeme leaves the text as it is and counts nothing.
   */
  lemma HighlightIsPlaced(g: Engine, fuel: nat, name: string, text: string, ignoreIllegals: bool)
    requires RootsSteady(g) && g.Find(name).Some?
    ensures var root := g.Find(name).value;
            var job := Job(g, text, ignoreIllegals, g.mode(root).caseInsensitive);
            var st := State([root], [], "", 0, map[]);
            var r, gain := HighlightText(g, fuel, name, text, ignoreIllegals, None), RoundsGain(job, fuel, st, 0);
            r.Done? ==>
              if Rounds(job, fuel, st, 0).Illegal?
              then r.result.value == Chars(text) && r.result.relevance == 0 && r.result.language == None
              else
                && Read(r.result.value).contexts == gain.places
                && r.result.relevance == gain.relevance && r.result.language == Some(name)
  {
    hide Rounds, RoundsGain, Sound, RootsSteady, Read, Anchored;
    var root := g.Find(name).value;
    var job := Job(g, text, ignoreIllegals, g.mode(root).caseInsensitive);
    var st := Initial(g, [root]);
    assert Inner([root]) == [] && st == State([root], [], "", 0, map[]);
    FoundSteady(g, name);
    InitialSound(g, root, text, [root]);
    RoundsGained(job, fuel, root, st, Ledger([], [], {}), 0);
    var done := Rounds(job, fuel, st, 0);
    if done.Done? {
      RoundsSound(job, fuel, root, st, Ledger([], [], {}), 0);
      var a := RoundsAccount(job, fuel, st, Ledger([], [], {}), 0);
      var last: Ledger :| last.out == a.origins && Flushed(g, root, text, done.result, last);
      FlushedSpans(g, root, text, done.result, last);
      ClosesPlaces(g, root, done.result);
      assert Read([]).contexts == [] by {
        BlankPlaces();
      }
      Nothing(RoundsGain(job, fuel, st, 0).places);
    }
  }

  lemma BlankPlaces()
    ensures Read([]).contexts == []
  {
  }

  lemma ClosesPlaces(g: Engine, root: ModeId, st: State)
    requires SpansMatch(g, root, st)
    ensures Read(st.out + Closing(SpansOf(g, Inner(st.chain)))).contexts == Read(st.out).contexts
  {
    hide Anchored;
    Nothing(SpansOf(g, Inner(st.chain)));
    SpansNoVoid(g, Inner(st.chain));
    AppendClosing(st.out, [], SpansOf(g, Inner(st.chain)));
  }

  // ---------------------------------------------------------------- what a lexeme is taken for

  predicate BeginsFirst(g: Engine, ids: seq<ModeId>, lexeme: string, k: nat) {
    && k < |ids| && g.test(g.mode(ids[k]).begin, lexeme)
    && forall j :: 0 <= j < k ==> !g.test(g.mode(ids[j]).begin, lexeme)
  }

  predicate BeginsNone(g: Engine, ids: seq<ModeId>, lexeme: string) {
    forall j :: 0 <= j < |ids| ==> !g.test(g.mode(ids[j]).begin, lexeme)
  }

  predicate HasEnd(g: Engine, id: ModeId, lexeme: string) {
    g.mode(id).end.Some? && g.test(g.mode(id).end.value, lexeme)
  }

  /** From `n` on every mode lacks this end and asks its parent. */
  predicate AskFrom(g: Engine, chain: seq<ModeId>, lexeme: string, n: nat) {
    forall j :: n <= j < |chain| ==> !HasEnd(g, chain[j], lexeme) && g.mode(chain[j]).endsWithParent
  }

  /** The mode at `q` has the end, and takes along parents down to `at`. */
  predicate EndsFrom(g: Engine, chain: seq<ModeId>, lexeme: string, q: nat, at: nat) {
    && at <= q < |chain| && AskFrom(g, chain, lexeme, q + 1) && HasEnd(g, chain[q], lexeme)
    && (forall j :: at < j <= q ==> g.mode(chain[j]).endsParent) && (at > 0 ==> !g.mode(chain[at]).endsParent)
  }

  /** The search stops at `q` without an end. */
  predicate StopsAsking(g: Engine, chain: seq<ModeId>, lexeme: string, q: nat) {
    && q < |chain| && AskFrom(g, chain, lexeme, q + 1)
    && !HasEnd(g, chain[q], lexeme) && !g.mode(chain[q]).endsWithParent
  }

  lemma {:induction false} SubModeIs(g: Engine, ids: seq<ModeId>, lexeme: string)
    ensures match SubMode(g, ids, lexeme)
            case None => BeginsNone(g, ids, lexeme)
            case Some(id) => exists k: nat :: BeginsFirst(g, ids, lexeme, k) && ids[k] == id
  {
    if ids != [] {
      var rest := ids[1..];
      SubModeIs(g, rest, lexeme);
      if g.test(g.mode(ids[0]).begin, lexeme) {
        assert BeginsFirst(g, ids, lexeme, 0);
      } else if SubMode(g, rest, lexeme).Some? {
        var k: nat :| BeginsFirst(g, rest, lexeme, k) && rest[k] == SubMode(g, rest, lexeme).value;
        assert ids[k + 1] == rest[k] && forall j :: 1 <= j < k + 1 ==> ids[j] == rest[j - 1];
        assert BeginsFirst(g, ids, lexeme, k + 1);
      }
    }
  }

  lemma {:induction false} ClimbIs(g: Engine, chain: seq<ModeId>, q: nat)
    requires q < |chain|
    ensures var at := Climb(g, chain, q);
            && (forall j :: at < j <= q ==> g.mode(chain[j]).endsParent)
            && (at > 0 ==> !g.mode(chain[at]).endsParent)
  {
    if q > 0 && g.mode(chain[q]).endsParent {
      ClimbIs(g, chain, q - 1);
    }
  }

  lemma {:induction false} EndIs(g: Engine, chain: seq<ModeId>, q: nat, lexeme: string)
    requires q < |chain| && AskFrom(g, chain, lexeme, q + 1)
    ensures var r := EndOfMode(g, chain, q, lexeme);
            if !r.Done? then AskFrom(g, chain, lexeme, 0)
            else if r.result.Some? then exists k: nat :: EndsFrom(g, chain, lexeme, k, r.result.value)
            else exists k: nat :: StopsAsking(g, chain, lexeme, k)
  {
    if HasEnd(g, chain[q], lexeme) {
      ClimbIs(g, chain, q);
      assert EndsFrom(g, chain, lexeme, q, Climb(g, chain, q));
    } else if !g.mode(chain[q]).endsWithParent {
      assert StopsAsking(g, chain, lexeme, q);
    } else if q > 0 {
      EndIs(g, chain, q - 1, lexeme);
    }
  }

  /**
   * A lexeme begins the first contained mode that it begins; otherwise it ends what the innermost mode with this end
   * ends, or is illegal, or text.
   */
  lemma DecideIs(job: Job, chain: seq<ModeId>, lexeme: string)
    requires chain != []
    ensures var m := job.g.mode(chain[|chain| - 1]);
            var plan := Decide(job, chain, lexeme);
            && (!plan.Begin? ==> BeginsNone(job.g, m.contains, lexeme))
            && match plan
               case Begin(id) => exists k: nat :: BeginsFirst(job.g, m.contains, lexeme, k) && m.contains[k] == id
               case End(at) => exists q: nat :: EndsFrom(job.g, chain, lexeme, q, at)
               case Keep =>
                 && (exists q: nat :: StopsAsking(job.g, chain, lexeme, q))
                 && (job.ignoreIllegals || m.illegal == None || !job.g.test(m.illegal.value, lexeme))
               case Reject =>
                 && (exists q: nat :: StopsAsking(job.g, chain, lexeme, q))
                 && !job.ignoreIllegals && m.illegal.Some? && job.g.test(m.illegal.value, lexeme)
               case Fail => AskFrom(job.g, chain, lexeme, 0)
  {
    hide BeginsFirst, BeginsNone, EndsFrom, StopsAsking;
    SubModeIs(job.g, job.g.mode(chain[|chain| - 1]).contains, lexeme);
    EndIs(job.g, chain, |chain| - 1, lexeme);
  }

  // ---------------------------------------------------------------- embedded languages

  /**
   * What an embedded text is highlighted as: a registered language, which goes on where its last text in a
   * continuous mode ended, or whatever is detected.
   */
  lemma SubIs(g: Engine, fuel: nat, st: State)
    requires st.chain != [] && EmbedsHere(g, g.mode(st.chain[|st.chain| - 1]))
    ensures var name := g.mode(st.chain[|st.chain| - 1]).subLanguage.value;
            Sub(g, fuel, st) ==
            if name == "" then Auto(g, fuel, g.names, st.pending, Highlighted(0, Chars(st.pending), None, None))
            else if name in st.tops then HighlightText(g, fuel, name, st.pending, true, Some(st.tops[name]))
            else HighlightText(g, fuel, name, st.pending, true, None)
  {
    hide HighlightText, Auto;
  }

  /** After an embedded text the chain it ended with is kept in a continuous mode, and in no other. */
  lemma EmbedRemembers(job: Job, st: State, h: Highlighted)
    requires st.chain != [] && EmbedsHere(job.g, job.g.mode(st.chain[|st.chain| - 1]))
    ensures var m := job.g.mode(st.chain[|st.chain| - 1]);
            var name := m.subLanguage.value;
            var r := Flush(job, st, Done(h));
            && r.Done? && r.result.chain == st.chain && r.result.tops - {name} == st.tops - {name}
            && if m.continuous then if h.top.Some? then name in r.result.tops && r.result.tops[name] == h.top.value
                                    else name !in r.result.tops
               else r.result.tops == st.tops
  {
  }

  /** A continuation whose root has been replaced cannot be gone on from. */
  lemma LostRootThrows(g: Engine, fuel: nat, name: string, text: string, ignoreIllegals: bool, chain: seq<ModeId>)
    requires g.Find(name).Some? && (chain == [] || chain[0] != g.Find(name).value)
    ensures HighlightText(g, fuel, name, text, ignoreIllegals, Some(chain)) == Thrown
  {
  }

  /** A language is known by its name, and else by an alias of a name that is one. */
  lemma FindIs(g: Engine, name: string)
    ensures name in g.languages ==> g.Find(name) == Some(g.languages[name])
    ensures name !in g.languages && name in g.aliases ==>
              g.Find(name) == if g.aliases[name] in g.languages then Some(g.languages[g.aliases[name]]) else None
    ensures name !in g.languages && name !in g.aliases ==> g.Find(name) == None
  {
  }

  // ---------------------------------------------------------------- the language detected

  /** The outcome for one of the names, if it is a known language. */
  predicate Rates(g: Engine, fuel: nat, name: string, text: string, h: Highlighted) {
    match HighlightText(g, fuel, name, text, false, None)
    case Done(t) => g.Find(name).Some? && h == t.(language := Some(name))
    case _ => false
  }

  ghost predicate NoneBetter(g: Engine, fuel: nat, names: seq<string>, text: string, relevance: int) {
    forall name <- names, h: Highlighted :: Rates(g, fuel, name, text, h) ==> h.relevance <= relevance
  }

  ghost predicate NoneAsGood(g: Engine, fuel: nat, names: seq<string>, text: string, relevance: int) {
    forall name <- names, h: Highlighted :: Rates(g, fuel, name, text, h) ==> h.relevance < relevance
  }

  /** Detection gives the first of the most relevant results, or the one to beat where none is more relevant. */
  lemma {:induction false} AutoPicksFirstBest(g: Engine, fuel: nat, names: seq<string>, text: string,
                                              best: Highlighted)
    requires Auto(g, fuel, names, text, best).Done?
    ensures var r := Auto(g, fuel, names, text, best).result;
            && NoneBetter(g, fuel, names, text, r.relevance) && best.relevance <= r.relevance
            && (r == best || (best.relevance < r.relevance &&
                 exists k :: 0 <= k < |names| && Rates(g, fuel, names[k], text, r) &&
                   NoneAsGood(g, fuel, names[..k], text, r.relevance)))
    decreases |names|
  {
    hide HighlightText;
    if names != [] {
      var name, rest := names[0], names[1..];
      var t := HighlightText(g, fuel, name, text, false, None);
      var next := if g.Find(name).Some? && t.Done? && t.result.relevance > best.relevance
                  then t.result.(language := Some(name)) else best;
      AutoPicksFirstBest(g, fuel, rest, text, next);
      var r := Auto(g, fuel, rest, text, next).result;
      assert forall n <- names :: n == name || n in rest;
      if r != next {
        var k :| 0 <= k < |rest| && Rates(g, fuel, rest[k], text, r) &&
                 NoneAsGood(g, fuel, rest[..k], text, r.relevance);
        assert names[k + 1] == rest[k];
        assert forall n <- names[..k + 1] :: n == name || n in rest[..k];
      } else if next != best {
        assert Rates(g, fuel, names[0], text, r) && names[..0] == [];
      }
    }
  }
}
