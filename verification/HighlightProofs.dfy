/** What every run of the highlighting engine keeps, for every matcher. */
module HighlightProofs {
  import opened Basics
  import opened Markup
  import opened Highlight
  import opened HighlightRuns
  import opened HighlightTrace

  // ---------------------------------------------------------------- what is kept

  /** Neither the root nor what can take its place has a class, and the root does not take its own place. */
  ghost predicate Classless(g: Engine, root: ModeId) {
    forall n: nat :: var heir := Heir(g, root, n);
      heir.Some? ==> g.mode(heir.value).className == "" && (n > 0 ==> heir.value != root)
  }

  ghost predicate IsHeir(g: Engine, root: ModeId, id: ModeId) {
    exists n: nat :: Heir(g, root, n) == Some(id)
  }

  /** A language's own mode starts no other when it ends, or nothing ends it, or no class can get lost with it. */
  ghost predicate Steady(g: Engine, root: ModeId) {
    g.mode(root).starts == None || NeverEnds(g, root) || Classless(g, root)
  }

  ghost predicate RootsSteady(g: Engine) {
    forall name <- g.languages :: Steady(g, g.languages[name])
  }

  /** A chain with the language's own mode at the root, or what took its place where no class can get lost. */
  ghost predicate Anchored(g: Engine, root: ModeId, chain: seq<ModeId>) {
    && chain != []
    && if Classless(g, root) then IsHeir(g, root, chain[0])
       else chain[0] == root && (g.mode(root).starts == None || Rooted(g, chain))
  }

  ghost predicate ContinuesFrom(g: Engine, name: string, chain: seq<ModeId>) {
    g.Find(name).Some? && Anchored(g, g.Find(name).value, chain)
  }

  ghost predicate TopsSound(g: Engine, tops: map<string, seq<ModeId>>) {
    forall name <- tops :: name != "" ==> ContinuesFrom(g, name, tops[name])
  }

  /** The spans left open are those of the class-bearing modes on the chain, the root apart. */
  ghost predicate SpansMatch(g: Engine, root: ModeId, st: State) {
    match st
    case State(chain, out, _, _, tops) =>
      && Anchored(g, root, chain)
      && Read(out).nested && Read(out).plain
      && Read(out).open == SpansOf(g, Inner(chain))
      && TopsSound(g, tops)
  }

  /** The characters of `s` are those of the text at the given positions. */
  predicate From(s: string, text: string, at: seq<nat>) {
    s == Pick(text, at) && Below(at, |text|)
  }

  /** Between lexemes: what is written, and what is pending, comes from the text as the ledger says. */
  ghost predicate Sound(g: Engine, root: ModeId, text: string, st: State, l: Ledger) {
    match st
    case State(_, out, pending, _, _) =>
      SpansMatch(g, root, st) && From(Read(out).text, text, l.out) && From(pending, text, l.pending)
  }

  /** Right after a flush: the pending text is written. */
  ghost predicate Flushed(g: Engine, root: ModeId, text: string, st: State, l: Ledger) {
    match st
    case State(_, out, _, _, _) => SpansMatch(g, root, st) && From(Read(out).text, text, l.out)
  }

  ghost predicate Good(r: Highlighted, text: string, a: Account) {
    match r
    case Highlighted(_, value, _, _) => Spells(value, Read(value).text) && From(Read(value).text, text, a.origins)
  }

  // ---------------------------------------------------------------- spans

  lemma SpanIsNoVoid(cls: string)
    ensures !IsVoid(Span(cls))
  {
    assert Tag(Span(cls)) == "span";
    forall k | 0 <= k < |VOID_NAMES|
      ensures VOID_NAMES[k] != "span"
    {
      assert VOID_NAMES[k][0] != 's' || VOID_NAMES[k][1] != 'p';
    }
  }

  lemma {:induction false} SpansNoVoid(g: Engine, ids: seq<ModeId>)
    ensures forall n <- SpansOf(g, ids) :: !IsVoid(n)
    decreases |ids|
  {
    if ids != [] {
      SpansNoVoid(g, ids[..|ids| - 1]);
      SpanIsNoVoid(CLASS_PREFIX + g.mode(ids[|ids| - 1]).className);
    }
  }

  lemma {:induction false} SpansConcat(g: Engine, a: seq<ModeId>, b: seq<ModeId>)
    ensures SpansOf(g, a + b) == SpansOf(g, a) + SpansOf(g, b)
    decreases |b|
  {
    if b == [] {
      assert a + b == a && SpansOf(g, a) + [] == SpansOf(g, a);
    } else {
      var k := |b| - 1;
      SpansConcat(g, a, b[..k]);
      assert (a + b)[..|a + b| - 1] == a + b[..k];
    }
  }

  /** A whole span reads as its text, wherever it is put. */
  lemma SpanSpells(cls: string, inner: seq<Token>, text: string)
    requires Spells(inner, text)
    ensures Spells([Open(Span(cls))] + inner + [Close(Span(cls))], text)
  {
    SpanIsNoVoid(cls);
    InElement(Span(cls), inner, text);
  }

  lemma InElement(n: Node, inner: seq<Token>, text: string)
    requires !IsVoid(n) && Spells(inner, text)
    ensures Spells([Open(n)] + inner + [Close(n)], text)
  {
    assert Opening([n]) == [Open(n)] by {
      assert [n][..0] == [];
    }
    AppendOpening([], [n]);
    assert [] + [Open(n)] == [Open(n)] && [] + [n] == [n];
    AppendNested([Open(n)], inner);
    Snoc([Open(n)] + inner, Close(n));
    assert [n] + [] == [n] && [n][..0] == [] && "" + text == text;
  }

  lemma CharsSpell(s: string)
    ensures Spells(Chars(s), s)
  {
    AppendChars([], s);
    assert [] + Chars(s) == Chars(s) && "" + s == s;
  }

  lemma NothingSpells()
    ensures Spells([], "")
  {
  }

  lemma SpellConcat(a: seq<Token>, s: string, b: seq<Token>, t: string)
    requires Spells(a, s) && Spells(b, t)
    ensures Spells(a + b, s + t)
  {
    AppendNested(a, b);
  }

  // ---------------------------------------------------------------- keywords

  lemma WordSpells(m: Mode, word: string, lower: bool)
    ensures Spells(Word(m, word, lower).0, word)
  {
    CharsSpell(word);
    match KeywordMatch(m, word, lower)
    case None =>
    case Some(k) => SpanSpells(CLASS_PREFIX + k.0, Chars(word), word);
  }

  lemma WordBetween(m: Mode, text: string, from: nat, at: nat, to: nat, lower: bool, rest: seq<Token>)
    requires from <= at <= to <= |text| && Spells(rest, text[to..])
    ensures Spells(Chars(text[from..at]) + Word(m, text[at..to], lower).0 + rest, text[from..])
  {
    hide Spells, Chars, Word;
    var before, word := text[from..at], text[at..to];
    CharsSpell(before);
    WordSpells(m, word, lower);
    SpellConcat(Chars(before), before, Word(m, word, lower).0, word);
    SpellConcat(Chars(before) + Word(m, word, lower).0, before + word, rest, text[to..]);
    ThreeParts(text, from, at, to);
  }

  lemma ThreeParts(text: string, from: nat, at: nat, to: nat)
    requires from <= at <= to <= |text|
    ensures text[from..] == text[from..at] + text[at..to] + text[to..]
  {
  }

  /** Marking keywords changes no character of the pending text. */
  lemma {:induction false} KeywordsSpell(g: Engine, m: Mode, lower: bool, text: string, from: nat)
    requires from <= |text|
    ensures var r := Keywords(g, m, lower, text, from);
            r.Done? ==> Spells(r.result.0, text[from..])
    decreases |text| - from
  {
    hide Spells, Chars, Word;
    match g.exec(m.lexemes, text, from)
    case None =>
      CharsSpell(text[from..]);
    case Some(hit) =>
      if hit.length != 0 && from <= hit.index && hit.index + hit.length <= |text| {
        var next := hit.index + hit.length;
        KeywordsSpell(g, m, lower, text, next);
        var rest := Keywords(g, m, lower, text, next);
        if rest.Done? {
          WordBetween(m, text, from, hit.index, next, lower, rest.result.0);
        }
      }
  }

  // ---------------------------------------------------------------- origins

  lemma FromNothing(text: string)
    ensures From("", text, [])
  {
  }

  lemma FromRange(text: string, i: nat, j: nat)
    requires i <= j <= |text|
    ensures From(text[i..j], text, Range(i, j))
  {
  }

  lemma FromSum(a: string, b: string, text: string, at: seq<nat>, bt: seq<nat>)
    requires From(a, text, at) && From(b, text, bt)
    ensures From(a + b, text, at + bt)
  {
  }

  lemma FromInside(s: string, pending: string, text: string, at: seq<nat>, outer: seq<nat>)
    requires From(s, pending, at) && From(pending, text, outer)
    ensures From(s, text, Compose(outer, at))
  {
  }

  lemma FromWhole(text: string)
    ensures From(text, text, Range(0, |text|))
  {
    FromRange(text, 0, |text|);
    assert text[0..|text|] == text;
  }

  // ---------------------------------------------------------------- steps that do not recurse

  lemma WriteInner(g: Engine, root: ModeId, st: State, inner: seq<Token>, text: string)
    requires SpansMatch(g, root, st) && Spells(inner, text)
    ensures Read(st.Write(inner).out).text == Read(st.out).text + text
    ensures SpansMatch(g, root, st.Write(inner))
  {
    AppendNested(st.out, inner);
    Nothing(Read(st.out).open);
  }

  /** Putting a mode on the chain and opening its span go together. */
  lemma EnterSpan(g: Engine, root: ModeId, st: State, id: ModeId)
    requires SpansMatch(g, root, st) && Anchored(g, root, st.chain + [id])
    ensures SpansMatch(g, root, st.Write(Opening(SpansOf(g, [id]))).(chain := st.chain + [id]))
    ensures Read(st.out + Opening(SpansOf(g, [id]))).text == Read(st.out).text
  {
    hide Anchored;
    AnchoredSome(g, root, st.chain);
    SpansNoVoid(g, [id]);
    AppendOpening(st.out, SpansOf(g, [id]));
    assert Inner(st.chain + [id]) == Inner(st.chain) + [id];
    SpansConcat(g, Inner(st.chain), [id]);
  }

  lemma AnchoredSome(g: Engine, root: ModeId, chain: seq<ModeId>)
    requires Anchored(g, root, chain)
    ensures chain != []
  {
  }

  lemma SpansOne(g: Engine, id: ModeId)
    ensures var cls := g.mode(id).className;
            Opening(SpansOf(g, [id])) == if cls == "" then [] else [Open(Span(CLASS_PREFIX + cls))]
  {
    assert [id][..0] == [];
  }

  /** Entering a mode, with the flags its beginning has, keeps the account. */
  lemma StartSound(g: Engine, root: ModeId, text: string, st: State, l: Ledger, id: ModeId, at: nat, to: nat)
    requires Flushed(g, root, text, st, l) && Anchored(g, root, st.chain + [id]) && at <= to <= |text|
    ensures Sound(g, root, text, StartMode(g, st, id, text[at..to]), StartLedger(g.mode(id), l, Range(at, to)))
  {
    hide Read, SpansOf, Anchored, From;
    var m, lexeme := g.mode(id), text[at..to];
    SpansOne(g, id);
    FromRange(text, at, to);
    FromNothing(text);
    if !m.returnBegin && m.excludeBegin {
      CharsSpell(lexeme);
      WriteInner(g, root, st, Chars(lexeme), lexeme);
      EnterSpan(g, root, st.Write(Chars(lexeme)), id);
      FromSum(Read(st.out).text, lexeme, text, l.out, Range(at, to));
      Assoc(st.out, Chars(lexeme), Opening(SpansOf(g, [id])));
    } else {
      EnterSpan(g, root, st, id);
    }
  }

  /** Closing the spans of the modes left and taking them off the chain go together. */
  lemma LeaveSpans(g: Engine, root: ModeId, st: State, at: nat)
    requires 0 < at < |st.chain| && SpansMatch(g, root, st) && Anchored(g, root, st.chain[..at])
    ensures SpansMatch(g, root, st.Write(Closing(SpansOf(g, st.chain[at..]))).(chain := st.chain[..at]))
    ensures Read(st.out + Closing(SpansOf(g, st.chain[at..]))).text == Read(st.out).text
  {
    hide Anchored;
    assert Inner(st.chain) == Inner(st.chain[..at]) + st.chain[at..];
    SpansConcat(g, Inner(st.chain[..at]), st.chain[at..]);
    SpansNoVoid(g, st.chain[at..]);
    AppendClosing(st.out, SpansOf(g, Inner(st.chain[..at])), SpansOf(g, st.chain[at..]));
  }

  lemma LeaveSound(g: Engine, root: ModeId, text: string, st: State, l: Ledger, at: nat, lexeme: string,
                   range: seq<nat>)
    requires 0 < at < |st.chain| && Flushed(g, root, text, st, l) && Anchored(g, root, st.chain[..at])
    requires From(lexeme, text, range)
    ensures var excluded := g.mode(st.chain[|st.chain| - 1]).excludeEnd;
            var left := l.(out := l.out + (if excluded then range else []), pending := []);
            Sound(g, root, text, LeaveModes(g, st, at, lexeme), left)
  {
    hide Read, SpansOf, Closing, From, Anchored;
    var excluded := g.mode(st.chain[|st.chain| - 1]).excludeEnd;
    var closing := Closing(SpansOf(g, st.chain[at..]));
    LeaveSpans(g, root, st, at);
    CharsSpell(lexeme);
    NothingSpells();
    FromNothing(text);
    var closed := st.Write(closing).(chain := st.chain[..at]);
    var tokens, chars := if excluded then Chars(lexeme) else [], if excluded then lexeme else "";
    WriteInner(g, root, closed, tokens, chars);
    Assoc(st.out, closing, tokens);
    FromSum(Read(st.out).text, chars, text, l.out, if excluded then range else []);
  }

  lemma EndSound(g: Engine, root: ModeId, text: string, st: State, l: Ledger, e: nat, at: nat, to: nat)
    requires 0 < e < |st.chain| && Flushed(g, root, text, st, l) && at <= to <= |text|
    requires Anchored(g, root, st.chain[..e])
    requires g.mode(st.chain[e]).starts.Some? ==> Anchored(g, root, st.chain[..e] + [g.mode(st.chain[e]).starts.value])
    ensures Sound(g, root, text, EndMode(g, st, e, text[at..to]), EndLedger(g, st.chain, e, l, Range(at, to)))
  {
    hide Read, SpansOf, From, Anchored, SpansMatch, LeaveModes, StartMode, StartLedger;
    FromRange(text, at, to);
    LeaveSound(g, root, text, st, l, e, text[at..to], Range(at, to));
    match g.mode(st.chain[e]).starts
    case None =>
    case Some(id) =>
      var left := LeaveModes(g, st, e, text[at..to]);
      LeaveChain(g, st, e, text[at..to]);
      assert text[0..0] == "" && Range(0, 0) == [];
      StartSound(g, root, text, left,
                 l.(out := l.out + (if g.mode(st.chain[|st.chain| - 1]).excludeEnd then Range(at, to) else []),
                    pending := []),
                 id, 0, 0);
  }

  lemma LeaveChain(g: Engine, st: State, at: nat, lexeme: string)
    requires at < |st.chain|
    ensures LeaveModes(g, st, at, lexeme).chain == st.chain[..at]
  {
  }

  // ---------------------------------------------------------------- one lexeme

  lemma PlainFlushSound(job: Job, root: ModeId, m: Mode, st: State, l: Ledger)
    requires Sound(job.g, root, job.text, st, l)
    ensures var r := PlainFlush(job, m, st);
            r.Done? ==> Flushed(job.g, root, job.text, r.result, l.(out := l.out + l.pending))
  {
    hide Read, Anchored, From;
    FromSum(Read(st.out).text, st.pending, job.text, l.out, l.pending);
    CharsSpell(st.pending);
    WriteInner(job.g, root, st, Chars(st.pending), st.pending);
    KeywordsSpell(job.g, m, job.lower, st.pending, 0);
    assert st.pending[0..] == st.pending;
    var words := Keywords(job.g, m, job.lower, st.pending, 0);
    if words.Done? {
      WriteInner(job.g, root, st, words.result.0, st.pending);
    }
  }

  lemma EmbedSound(g: Engine, root: ModeId, text: string, st: State, l: Ledger, m: Mode, name: string, e: Highlighted,
                   sub: Account)
    requires Sound(g, root, text, st, l) && Good(e, st.pending, sub)
    requires name != "" && e.top.Some? ==> ContinuesFrom(g, name, e.top.value)
    ensures Flushed(g, root, text, Embed(st, m, name, e), l.(out := l.out + Compose(l.pending, sub.origins)))
  {
    hide Read, Anchored, From, ContinuesFrom;
    var cls, inner := e.language.GetOr("undefined"), Read(e.value).text;
    SpanSpells(cls, e.value, inner);
    WriteInner(g, root, st, [Open(Span(cls))] + e.value + [Close(Span(cls))], inner);
    FromInside(inner, st.pending, text, sub.origins, l.pending);
    FromSum(Read(st.out).text, inner, text, l.out, Compose(l.pending, sub.origins));
  }

  /** `e` is a sound answer to what writing the pending text of `st` asks for. */
  ghost predicate SubGood(g: Engine, st: State, e: Outcome<Highlighted>, a: Account)
    requires st.chain != []
  {
    var name := SubLanguage(g, g.mode(st.chain[|st.chain| - 1]));
    name.Some? && e.Done? ==>
      Good(e.result, st.pending, a) &&
      (name.value != "" && e.result.top.Some? ==> ContinuesFrom(g, name.value, e.result.top.value))
  }

  lemma FlushSound(job: Job, root: ModeId, st: State, l: Ledger, e: Outcome<Highlighted>, a: Account)
    requires st.chain != [] && Sound(job.g, root, job.text, st, l) && SubGood(job.g, st, e, a)
    ensures var m := job.g.mode(st.chain[|st.chain| - 1]);
            var r := Flush(job, st, e);
            r.Done? ==> Flushed(job.g, root, job.text, r.result, FlushLedger(job.g, m, l, a))
  {
    hide Sound, Good, PlainFlush, Embed, ContinuesFrom, Flushed;
    var m := job.g.mode(st.chain[|st.chain| - 1]);
    match SubLanguage(job.g, m)
    case None =>
      PlainFlushSound(job, root, m, st, l);
    case Some(name) =>
      if e.Done? {
        EmbedSound(job.g, root, job.text, st, l, m, name, e.result, a);
        var written := l.(out := l.out + Compose(l.pending, a.origins));
        SkippedApart(job.g, root, job.text, Embed(st, m, name, e.result), written,
                     l.skipped + Image(l.pending, a.skipped));
      }
  }

  lemma SkippedApart(g: Engine, root: ModeId, text: string, st: State, l: Ledger, skipped: set<nat>)
    requires Flushed(g, root, text, st, l)
    ensures Flushed(g, root, text, st, l.(skipped := skipped))
  {
  }

  /** Reading on: the text between takes its place in the pending text. */
  lemma TakeSound(g: Engine, root: ModeId, text: string, st: State, l: Ledger, i: nat, j: nat)
    requires Sound(g, root, text, st, l) && i <= j <= |text|
    ensures Sound(g, root, text, st.(pending := st.pending + text[i..j]), l.(pending := l.pending + Range(i, j)))
  {
    hide Read, Anchored, From;
    FromRange(text, i, j);
    FromSum(st.pending, text[i..j], text, l.pending, Range(i, j));
  }

  lemma KeepSound(g: Engine, root: ModeId, text: string, st: State, l: Ledger, at: nat, to: nat)
    requires Sound(g, root, text, st, l) && at <= to <= |text|
    ensures Sound(g, root, text, KeepLexeme(st, text[at..to]).0, KeepLedger(l, at, to, |text|))
  {
    hide Read, Anchored, From;
    if at == to < |text| {
      assert text[at..to] == "";
      Nothing(st.pending);
    } else {
      TakeSound(g, root, text, st, l, at, to);
    }
  }

  /** The root can be replaced only where no class can get lost. */
  ghost predicate Replaces(g: Engine, root: ModeId, id: ModeId) {
    Classless(g, root) && g.mode(id).className == "" && IsHeir(g, root, id)
  }

  lemma NextHeir(g: Engine, root: ModeId, id: ModeId)
    requires Classless(g, root) && IsHeir(g, root, id)
    ensures g.mode(id).className == ""
    ensures g.mode(id).starts.Some? ==> Replaces(g, root, g.mode(id).starts.value)
  {
    var n: nat :| Heir(g, root, n) == Some(id);
    HeirOfHeir(g, root, n);
    if g.mode(id).starts.Some? {
      assert Heir(g, root, n + 1) == g.mode(id).starts;
    }
  }

  /** What a lexeme does to the chain leaves it anchored, or empty. */
  lemma DecideAnchored(job: Job, root: ModeId, chain: seq<ModeId>, lexeme: string)
    requires Anchored(job.g, root, chain)
    ensures var plan := Decide(job, chain, lexeme);
            && (plan.Begin? ==> Anchored(job.g, root, chain + [plan.id]))
            && (plan.End? && plan.at > 0 ==> Anchored(job.g, root, chain[..plan.at]))
    ensures var plan := Decide(job, chain, lexeme);
            plan.End? && job.g.mode(chain[plan.at]).starts.Some? ==>
              var next := job.g.mode(chain[plan.at]).starts.value;
              if plan.at > 0 then Anchored(job.g, root, chain[..plan.at] + [next])
              else Replaces(job.g, root, next) && job.g.mode(chain[0]).className == ""
  {
    hide Decide, Rooted, Classless, IsHeir;
    if Classless(job.g, root) {
      NextHeir(job.g, root, chain[0]);
    } else if job.g.mode(root).starts.Some? {
      DecideStays(job, chain, lexeme);
    }
  }

  lemma ReplacedAnchored(g: Engine, root: ModeId, id: ModeId)
    requires Replaces(g, root, id)
    ensures Anchored(g, root, [id]) && g.mode(id).className == "" && SpansOf(g, Inner([id])) == []
  {
  }

  /** The spans closed when the whole chain ends under a root without a class are those that are open. */
  lemma ReplaceSpans(g: Engine, root: ModeId, st: State, id: ModeId)
    requires st.chain != [] && SpansMatch(g, root, st)
    requires g.mode(st.chain[0]).className == "" && Replaces(g, root, id)
    ensures SpansMatch(g, root, st.Write(Closing(SpansOf(g, st.chain[0..]))).(chain := [id]))
    ensures Read(st.out + Closing(SpansOf(g, st.chain[0..]))).text == Read(st.out).text
  {
    hide Anchored, Replaces;
    ReplacedAnchored(g, root, id);
    var spans := SpansOf(g, Inner(st.chain));
    assert st.chain[0..] == [st.chain[0]] + Inner(st.chain);
    SpansConcat(g, [st.chain[0]], Inner(st.chain));
    assert [st.chain[0]][..0] == [] && SpansOf(g, [st.chain[0]]) == [];
    Nothing(spans);
    SpansNoVoid(g, Inner(st.chain));
    AppendClosing(st.out, [], spans);
  }

  /** Ending the whole chain, with another mode in the root's place, keeps the account. */
  lemma ReplaceSound(g: Engine, root: ModeId, text: string, st: State, l: Ledger, at: nat, to: nat)
    requires Flushed(g, root, text, st, l) && at <= to <= |text| && st.chain != []
    requires g.mode(st.chain[0]).className == "" && g.mode(st.chain[0]).starts.Some?
    requires Replaces(g, root, g.mode(st.chain[0]).starts.value)
    ensures Sound(g, root, text, EndMode(g, st, 0, text[at..to]), EndLedger(g, st.chain, 0, l, Range(at, to)))
  {
    hide Read, SpansOf, Closing, From, Anchored, Replaces, SpansMatch;
    var lexeme, id := text[at..to], g.mode(st.chain[0]).starts.value;
    var closing := Closing(SpansOf(g, st.chain[0..]));
    var excluded := g.mode(st.chain[|st.chain| - 1]).excludeEnd;
    ReplaceSpans(g, root, st, id);
    ReplacedAnchored(g, root, id);
    var closed := st.Write(closing).(chain := [id]);
    var tokens, chars := if excluded then Chars(lexeme) else [], if excluded then lexeme else "";
    CharsSpell(lexeme);
    NothingSpells();
    WriteInner(g, root, closed, tokens, chars);
    Assoc(st.out, closing, tokens);
    FromRange(text, at, to);
    FromNothing(text);
    FromSum(Read(st.out).text, chars, text, l.out, if excluded then Range(at, to) else []);
    EndReplaced(g, st, id, lexeme, at, to, l);
    SameSpans(g, root, closed.Write(tokens), EndMode(g, st, 0, lexeme));
  }

  /** Of the state it is the chain, the output and the embedded languages' chains that count. */
  lemma SameSpans(g: Engine, root: ModeId, st: State, next: State)
    requires SpansMatch(g, root, st) && st.chain == next.chain && st.out == next.out && st.tops == next.tops
    ensures SpansMatch(g, root, next)
  {
    hide Anchored, Read, TopsSound;
  }

  lemma EndReplaced(g: Engine, st: State, id: ModeId, lexeme: string, at: nat, to: nat, l: Ledger)
    requires at <= to && st.chain != [] && g.mode(st.chain[0]).starts == Some(id) && g.mode(id).className == ""
    ensures var next := EndMode(g, st, 0, lexeme);
            var excluded := g.mode(st.chain[|st.chain| - 1]).excludeEnd;
            var closed := st.out + Closing(SpansOf(g, st.chain[0..]));
            && next.chain == [id] && next.pending == "" && next.tops == st.tops
            && next.out == closed + if excluded then Chars(lexeme) else []
    ensures var excluded := g.mode(st.chain[|st.chain| - 1]).excludeEnd;
            EndLedger(g, st.chain, 0, l, Range(at, to)) ==
            l.(out := l.out + (if excluded then Range(at, to) else []), pending := [])
  {
    hide Closing, SpansOf, Total;
    var excluded := g.mode(st.chain[|st.chain| - 1]).excludeEnd;
    var closing := Closing(SpansOf(g, st.chain[0..]));
    var tokens := if excluded then Chars(lexeme) else [];
    Assoc(st.out, closing, tokens);
    assert Chars("") == [];
    Nothing([id]);
    Nothing(st.out + (closing + tokens));
    Nothing(l.out + if excluded then Range(at, to) else []);
  }

  lemma ActSound(job: Job, root: ModeId, st: State, l: Ledger, plan: Plan, at: nat, to: nat)
    requires st.chain != [] && at <= to <= |job.text| && plan == Decide(job, st.chain, job.text[at..to])
    requires plan.Begin? || plan.End?
    requires Flushed(job.g, root, job.text, st, l)
    ensures var next := Act(job.g, st, plan, job.text[at..to]);
            next.chain != [] ==>
              Sound(job.g, root, job.text, next, ActLedger(job.g, st.chain, plan, l, Range(at, to)))
  {
    hide Decide, Anchored, Replaces, Sound, StartMode, StartLedger, EndMode, EndLedger, From;
    var lexeme := job.text[at..to];
    DecideAnchored(job, root, st.chain, lexeme);
    if plan.Begin? {
      StartSound(job.g, root, job.text, st, l, plan.id, at, to);
    } else if plan.at > 0 {
      EndSound(job.g, root, job.text, st, l, plan.at, at, to);
    } else if job.g.mode(st.chain[0]).starts.Some? {
      ReplaceSound(job.g, root, job.text, st, l, at, to);
    } else {
      RootGone(job.g, st, lexeme);
    }
  }

  lemma RootGone(g: Engine, st: State, lexeme: string)
    requires st.chain != [] && g.mode(st.chain[0]).starts == None
    ensures EndMode(g, st, 0, lexeme).chain == []
  {
  }

  // ---------------------------------------------------------------- the recursion

  /** One call of `processLexeme`, whatever it comes to. */
  lemma LexemeSound(job: Job, root: ModeId, st: State, l: Ledger, at: nat, to: nat, e: Outcome<Highlighted>, a: Account)
    requires st.chain != [] && at <= to <= |job.text| && Sound(job.g, root, job.text, st, l)
    requires SubGood(job.g, Ready(job, st, Decide(job, st.chain, job.text[at..to]), job.text[at..to]), e, a)
    ensures var lexeme, m := job.text[at..to], job.g.mode(st.chain[|st.chain| - 1]);
            var plan := Decide(job, st.chain, lexeme);
            var r := Lexeme(job, st, plan, lexeme, Flush(job, Ready(job, st, plan, lexeme), e));
            r.Done? && r.result.0.chain != [] ==>
              Sound(job.g, root, job.text, r.result.0,
                    if plan.Keep? then KeepLedger(l, at, to, |job.text|)
                    else ActLedger(job.g, st.chain, plan,
                                   FlushLedger(job.g, m, ReadyLedger(m, plan, l, Range(at, to)), a), Range(at, to)))
  {
    hide Sound, Flushed, SubGood, Flush, FlushLedger, Act, ActLedger, Advance, Decide, KeepLexeme, KeepLedger;
    var lexeme, m := job.text[at..to], job.g.mode(st.chain[|st.chain| - 1]);
    var plan := Decide(job, st.chain, lexeme);
    if plan.Keep? {
      KeepSound(job.g, root, job.text, st, l, at, to);
    } else if plan.Begin? || plan.End? {
      TakeSound(job.g, root, job.text, st, l, at, to);
      var ready, readied := Ready(job, st, plan, lexeme), ReadyLedger(m, plan, l, Range(at, to));
      FlushSound(job, root, ready, readied, e, a);
      var flushed := Flush(job, ready, e);
      if flushed.Done? {
        ActSound(job, root, flushed.result, FlushLedger(job.g, m, readied, a), plan, at, to);
      }
    }
  }

  lemma {:induction false} SubSound(g: Engine, fuel: nat, st: State)
    requires RootsSteady(g) && st.chain != [] && TopsSound(g, st.tops)
    ensures SubGood(g, st, Sub(g, fuel, st), SubAccount(g, fuel, st))
    decreases fuel, 5, 0
  {
    hide RootsSteady, ContinuesFrom, Good;
    match SubLanguage(g, g.mode(st.chain[|st.chain| - 1]))
    case None =>
    case Some(name) =>
      if name == "" {
        PlainGood(st.pending);
        AutoSound(g, fuel, g.names, st.pending, NoLanguage(st.pending), WholeText(st.pending));
      } else {
        TextSound(g, fuel, name, st.pending, true, if name in st.tops then Some(st.tops[name]) else None);
      }
  }

  lemma PlainGood(text: string)
    ensures Good(NoLanguage(text), text, WholeText(text))
  {
    CharsSpell(text);
    FromWhole(text);
  }

  lemma SoundTops(g: Engine, root: ModeId, text: string, st: State, l: Ledger)
    requires Sound(g, root, text, st, l)
    ensures TopsSound(g, st.tops) && st.chain != []
  {
  }

  lemma {:induction false} LastSound(job: Job, fuel: nat, root: ModeId, st: State, l: Ledger, i: nat)
    requires RootsSteady(job.g) && st.chain != [] && Sound(job.g, root, job.text, st, l)
    ensures var read := st.(pending := st.pending + Rest(job.text, i));
            var all := l.(pending := l.pending + if i <= |job.text| then Range(i, |job.text|) else []);
            var r := Flush(job, read, Sub(job.g, fuel, read));
            r.Done? ==>
              Flushed(job.g, root, job.text, r.result,
                      FlushLedger(job.g, job.g.mode(st.chain[|st.chain| - 1]), all, SubAccount(job.g, fuel, read)))
    decreases fuel, 6, 0
  {
    hide RootsSteady, Sound, Flushed, Flush, FlushLedger, Sub, SubAccount;
    var n := if i <= |job.text| then i else |job.text|;
    var read := st.(pending := st.pending + Rest(job.text, i));
    var all := l.(pending := l.pending + if i <= |job.text| then Range(i, |job.text|) else []);
    TakeSound(job.g, root, job.text, st, l, n, |job.text|);
    assert job.text[n..|job.text|] == Rest(job.text, i);
    assert Range(n, |job.text|) == if i <= |job.text| then Range(i, |job.text|) else [];
    SoundTops(job.g, root, job.text, st, l);
    SubSound(job.g, fuel, read);
    FlushSound(job, root, read, all, Sub(job.g, fuel, read), SubAccount(job.g, fuel, read));
  }

  lemma {:induction false} RoundSound(job: Job, fuel: nat, root: ModeId, st: State, l: Ledger, i: nat, at: nat, to: nat)
    requires RootsSteady(job.g) && st.chain != [] && Sound(job.g, root, job.text, st, l)
    requires i <= at <= to <= |job.text|
    ensures var r := Round(job, fuel, st, i, at, to);
            r.Done? && r.result.0.chain != [] ==>
              Sound(job.g, root, job.text, r.result.0, RoundLedger(job, fuel, st, l, i, at, to))
    decreases fuel, 6, 0
  {
    hide Sub, SubAccount, Lexeme, Flush, FlushLedger, Ready, ReadyLedger, Decide;
    hide RootsSteady, Sound, KeepLedger, ActLedger;
    var read := Meet(job, st, i, at);
    var met := l.(pending := l.pending + Range(i, at));
    var ready := Ready(job, read, Decide(job, st.chain, job.text[at..to]), job.text[at..to]);
    TakeSound(job.g, root, job.text, st, l, i, at);
    SoundTops(job.g, root, job.text, st, l);
    SubSound(job.g, fuel, ready);
    LexemeSound(job, root, read, met, at, to, Sub(job.g, fuel, ready), SubAccount(job.g, fuel, ready));
    RejectStops(job, read, Decide(job, st.chain, job.text[at..to]), job.text[at..to],
                Flush(job, ready, Sub(job.g, fuel, ready)));
  }

  lemma RejectStops(job: Job, st: State, plan: Plan, lexeme: string, flushed: Outcome<State>)
    requires st.chain != [] && (plan.End? && flushed.Done? ==> plan.at < |flushed.result.chain|)
    ensures plan.Reject? || plan.Fail? ==> !Lexeme(job, st, plan, lexeme, flushed).Done?
  {
  }

  /** Every run of the main loop keeps the account. */
  lemma {:induction false} RoundsSound(job: Job, fuel: nat, root: ModeId, st: State, l: Ledger, i: nat)
    requires RootsSteady(job.g)
    requires st.chain != [] ==> Sound(job.g, root, job.text, st, l)
    ensures var r := Rounds(job, fuel, st, i);
            var a := RoundsAccount(job, fuel, st, l, i);
            r.Done? ==> exists last: Ledger :: last.out == a.origins && Flushed(job.g, root, job.text, r.result, last)
    decreases fuel, 2, 0
  {
    hide Round, RoundLedger, Flush, FlushLedger, Sub, SubAccount, RootsSteady, Sound, Flushed;
    if fuel == 0 || st.chain == [] {
      return;
    }
    match Terminator(job, st.chain, i)
    case None =>
      LastSound(job, fuel - 1, root, st, l, i);
    case Some(hit) =>
      var at, to := hit.index, hit.index + hit.length;
      var next := Round(job, fuel - 1, st, i, at, to);
      if next.Done? {
        RoundInside(job, fuel - 1, st, i, at, to);
        RoundSound(job, fuel - 1, root, st, l, i, at, to);
        var l' := RoundLedger(job, fuel - 1, st, l, i, at, to);
        RoundsSound(job, fuel - 1, root, next.result.0, l', at + next.result.1);
      }
  }

  lemma InitialSound(g: Engine, root: ModeId, text: string, chain: seq<ModeId>)
    requires Anchored(g, root, chain)
    ensures Sound(g, root, text, Initial(g, chain), Ledger([], [], {}))
  {
    hide Anchored;
    var spans := SpansOf(g, Inner(chain));
    SpansNoVoid(g, Inner(chain));
    AppendOpening([], spans);
    Nothing(Opening(spans));
    Nothing(spans);
    FromNothing(text);
  }

  lemma FinalGood(g: Engine, root: ModeId, text: string, st: State, l: Ledger)
    requires Flushed(g, root, text, st, l)
    ensures Spells(st.out + Closing(SpansOf(g, Inner(st.chain))), Read(st.out).text)
    ensures From(Read(st.out).text, text, l.out) && Anchored(g, root, st.chain)
  {
    hide Anchored;
    var spans := SpansOf(g, Inner(st.chain));
    Nothing(spans);
    SpansNoVoid(g, Inner(st.chain));
    AppendClosing(st.out, [], spans);
  }

  lemma FoundSteady(g: Engine, name: string)
    requires RootsSteady(g) && g.Find(name).Some?
    ensures Anchored(g, g.Find(name).value, [g.Find(name).value])
  {
    var root := g.Find(name).value;
    assert Heir(g, root, 0) == Some(root);
  }

  /** One call: whatever it returns is balanced, and the account says where each character comes from. */
  lemma {:induction false} TextSound(g: Engine, fuel: nat, name: string, text: string, ignoreIllegals: bool,
                                     continuation: Option<seq<ModeId>>)
    requires RootsSteady(g)
    requires continuation.Some? ==> ContinuesFrom(g, name, continuation.value)
    ensures var r := HighlightText(g, fuel, name, text, ignoreIllegals, continuation);
            r.Done? ==>
              && Good(r.result, text, TextAccount(g, fuel, name, text, ignoreIllegals, continuation))
              && (r.result.top.Some? ==> ContinuesFrom(g, name, r.result.top.value))
    decreases fuel, 3, 0
  {
    hide Rounds, RoundsAccount, Initial, Sound, Flushed, Read, SpansOf, RootsSteady, Anchored, From;
    var found := g.Find(name);
    if found.Some? && ReachesRoot(continuation, found.value) {
      var root := found.value;
      var job := Job(g, text, ignoreIllegals, g.mode(root).caseInsensitive);
      var chain := continuation.GetOr([root]);
      FoundSteady(g, name);
      InitialSound(g, root, text, chain);
      RoundsSound(job, fuel, root, Initial(g, chain), Ledger([], [], {}), 0);
      var done := Rounds(job, fuel, Initial(g, chain), 0);
      var a := RoundsAccount(job, fuel, Initial(g, chain), Ledger([], [], {}), 0);
      if done.Done? {
        var last: Ledger :| last.out == a.origins && Flushed(g, root, text, done.result, last);
        FinalGood(g, root, text, done.result, last);
      }
      PlainGood(text);
    }
  }

  lemma {:induction false} AutoSound(g: Engine, fuel: nat, names: seq<string>, text: string, best: Highlighted,
                                     account: Account)
    requires RootsSteady(g) && Good(best, text, account)
    ensures var r := Auto(g, fuel, names, text, best);
            r.Done? ==> Good(r.result, text, AutoAccount(g, fuel, names, text, best, account))
    decreases fuel, 4, |names|
  {
    hide HighlightText, TextAccount, RootsSteady, ContinuesFrom, Spells, From;
    if names != [] {
      if g.Find(names[0]) == None {
        AutoSound(g, fuel, names[1..], text, best, account);
      } else {
        TextSound(g, fuel, names[0], text, false, None);
        var t := HighlightText(g, fuel, names[0], text, false, None);
        if t.Done? {
          if t.result.relevance > best.relevance {
            AutoSound(g, fuel, names[1..], text, t.result.(language := Some(names[0])),
                      TextAccount(g, fuel, names[0], text, false, None));
          } else {
            AutoSound(g, fuel, names[1..], text, best, account);
          }
        }
      }
    }
  }

  // ---------------------------------------------------------------- main results

  /**
   * Whatever the matcher answers, the markup returned is balanced, and each of its characters comes from the
   * position of the input that the account names.
   */
  lemma HighlightIsBalanced(g: Engine, fuel: nat, name: string, text: string, ignoreIllegals: bool)
    requires RootsSteady(g)
    ensures var r := HighlightText(g, fuel, name, text, ignoreIllegals, None);
            r.Done? ==>
              && Read(r.result.value).Balanced() && Read(r.result.value).plain
              && Read(r.result.value).text == Pick(text, TextAccount(g, fuel, name, text, ignoreIllegals, None).origins)
  {
    hide HighlightText, TextAccount, Read;
    TextSound(g, fuel, name, text, ignoreIllegals, None);
  }

  /**
   * If no end is both excluded and returned, the text of the markup is the input without the characters that the
   * forced advance passes over, and so the whole input exactly when it passes over none.
   */
  lemma HighlightKeepsText(g: Engine, fuel: nat, name: string, text: string, ignoreIllegals: bool)
    requires RootsSteady(g) && NoEcho(g)
    ensures var r := HighlightText(g, fuel, name, text, ignoreIllegals, None);
            var passed := PassedOver(g, fuel, name, text, ignoreIllegals);
            r.Done? ==>
              && Read(r.result.value).text == Omit(text, passed)
              && (Read(r.result.value).text == text <==> passed == {})
  {
    hide HighlightText, TextAccount, Read, RootsSteady, NoEcho;
    TextSound(g, fuel, name, text, ignoreIllegals, None);
    TextWhole(g, fuel, name, text, ignoreIllegals, None);
    var passed := PassedOver(g, fuel, name, text, ignoreIllegals);
    assert text[..|text|] == text;
    PickPositions(text, |text|, passed);
    OmitLength(text, passed);
  }

  /** A grammar that claims its empty lexemes never loses a character. */
  lemma ClaimingKeepsText(g: Engine, fuel: nat, name: string, text: string, ignoreIllegals: bool)
    requires RootsSteady(g) && NoEcho(g) && EmptyIsClaimed(g)
    ensures var r := HighlightText(g, fuel, name, text, ignoreIllegals, None);
            r.Done? ==> Read(r.result.value).text == text
  {
    hide HighlightText, TextAccount, Read, RootsSteady, NoEcho, EmptyIsClaimed;
    HighlightKeepsText(g, fuel, name, text, ignoreIllegals);
    TextSkipsNothing(g, fuel, name, text, ignoreIllegals, None);
  }
}
