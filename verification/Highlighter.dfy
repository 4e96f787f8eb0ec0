/** The engine as it runs: one object for the variables that a call's inner functions share. */
module Highlighter {
  import opened Basics
  import opened Markup
  import opened Highlight

  class Run {
    const job: Job
    var chain: seq<ModeId>
    var out: seq<Token>
    var pending: string
    var relevance: int
    var tops: map<string, seq<ModeId>>

    ghost function Now(): State
      reads this
    {
      State(chain, out, pending, relevance, tops)
    }

    /** Reopens the spans of a continuation, walking from its innermost mode out. */
    constructor (job: Job, chain: seq<ModeId>)
      ensures this.job == job && Now() == Initial(job.g, chain)
    {
      this.job := job;
      this.chain := chain;
      pending, relevance, tops := "", 0, map[];
      var k: seq<Token> := [];
      var inner := Inner(chain);
      var n := |inner|;
      assert inner[..n] == inner;
      Nothing(Opening(SpansOf(job.g, inner)));
      while n > 0
        invariant 0 <= n <= |inner|
        invariant Opening(SpansOf(job.g, inner[..n])) + k == Opening(SpansOf(job.g, inner))
      {
        n := n - 1;
        var cls := job.g.mode(inner[n]).className;
        var span := if cls == "" then [] else [Open(Span(CLASS_PREFIX + cls))];
        SpanBefore(job.g, inner, n);
        Assoc(Opening(SpansOf(job.g, inner[..n])), span, k);
        k := span + k;
      }
      assert inner[..0] == [];
      Nothing(k);
      out := k;
    }

    /** `processKeywords`: everything between words as it is, the words in spans where they are keywords. */
    method ProcessKeywords(m: Mode) returns (done: bool)
      requires m.keywords.Some? && m.subLanguage == None
      modifies this`out, this`relevance
      ensures var r := PlainFlush(job, m, old(Now()));
              done == r.Done? && (done ==> Now() == r.result)
    {
      hide Keywords, Word, Chars;
      var g, y := job.g, pending;
      var e: seq<Token>, b, t := [], 0, 0;
      ghost var all := Keywords(g, m, job.lower, y, 0);
      KeywordsNothing(all);
      while true
        invariant 0 <= t <= |y| && out == old(out) && relevance == old(relevance)
        invariant KeywordsGo(all, Keywords(g, m, job.lower, y, t), e, b)
        decreases |y| - t
      {
        KeywordStep(g, m, job.lower, y, t, all, e, b);
        match g.exec(m.lexemes, y, t)
        case None =>
          e := e + Chars(y[t..]);
          break;
        case Some(hit) =>
          if hit.length == 0 || hit.index < t || hit.index + hit.length > |y| {
            return false;
          }
          var word := Word(m, y[hit.index..hit.index + hit.length], job.lower);
          e := e + Chars(y[t..hit.index]) + word.0;
          b := b + word.1;
          t := hit.index + hit.length;
      }
      out := out + e;
      relevance := relevance + b;
      return true;
    }

    /** Takes over what highlighting an embedded language came to. */
    method EmbedResult(m: Mode, name: string, h: Highlighted)
      modifies this`out, this`relevance, this`tops
      ensures Now() == Embed(old(Now()), m, name, h)
    {
      var span := Span(h.language.GetOr("undefined"));
      relevance := relevance + if m.relevance > 0 then h.relevance else 0;
      if m.continuous {
        tops := if h.top == None then tops - {name} else tops[name := h.top.value];
      }
      out := out + ([Open(span)] + h.value + [Close(span)]);
    }

    /** Writes the pending text, embedding a sub-language where the mode asks for one. */
    method WritePending(fuel: nat) returns (o: Outcome<()>)
      requires chain != []
      modifies this`out, this`relevance, this`tops
      ensures var r := Flush(job, old(Now()), Sub(job.g, fuel, old(Now())));
              SameOutcome(o, r) && (o.Done? ==> Now() == r.result)
      decreases fuel, 4
    {
      hide HighlightText, Auto, Keywords, Chars;
      var m := job.g.mode(chain[|chain| - 1]);
      match SubLanguage(job.g, m)
      case None =>
        if m.subLanguage.Some? || m.keywords == None {
          out := out + Chars(pending);
          o := Done(());
        } else {
          var done := ProcessKeywords(m);
          o := if done then Done(()) else Unfinished;
        }
      case Some(name) =>
        var e: Outcome<Highlighted>;
        if name == "" {
          e := HighlightAuto(job.g, fuel, pending);
        } else {
          e := HighlightOne(job.g, fuel, name, pending, true, if name in tops then Some(tops[name]) else None);
        }
        match e
        case Done(h) =>
          EmbedResult(m, name, h);
          o := Done(());
        case Illegal => o := Illegal;
        case Thrown => o := Thrown;
        case Unfinished => o := Unfinished;
    }

    /** `startNewMode`. */
    method StartNewMode(id: ModeId, lexeme: string)
      modifies this`chain, this`out, this`pending
      ensures Now() == StartMode(job.g, old(Now()), id, lexeme)
    {
      var m := job.g.mode(id);
      var span := if m.className == "" then [] else [Open(Span(CLASS_PREFIX + m.className))];
      if m.returnBegin {
        out, pending := out + span, "";
      } else if m.excludeBegin {
        out, pending := out + (Chars(lexeme) + span), "";
      } else {
        out, pending := out + span, lexeme;
      }
      chain := chain + [id];
    }

    /** The loop that closes the spans of the modes a lexeme ends, innermost first. */
    method LeaveDownTo(at: nat)
      requires at < |chain|
      modifies this`chain, this`out, this`relevance
      ensures chain == old(chain)[..at]
      ensures out == old(out) + Closing(SpansOf(job.g, old(chain)[at..]))
      ensures relevance == old(relevance) + Total(job.g, old(chain)[at..])
    {
      hide Closing, SpansOf, Total;
      var g := job.g;
      ghost var all := chain;
      ghost var gone := all[at..];
      assert gone[..|gone|] == gone && all[..|all|] == all;
      while true
        invariant at < |chain| <= |all| && chain == all[..|chain|]
        invariant LeaveGo(g, gone, |chain| - at, old(out), old(relevance), out, relevance)
        decreases |chain|
      {
        var n := |chain| - 1;
        var m := g.mode(chain[n]);
        LeaveOne(g, gone, n - at, old(out), old(relevance), out, relevance);
        if m.className != "" {
          out := out + [Close(Span(CLASS_PREFIX + m.className))];
        }
        relevance := relevance + m.relevance;
        chain := chain[..n];
        assert chain == all[..n];
        if n == at {
          break;
        }
      }
      assert gone[..0] == [];
      LeaveNothing(g);
      Nothing(out);
    }

    /** The rest of ending modes: the excluded lexeme, and the mode that starts next. */
    method EndModes(at: nat, lexeme: string)
      requires at < |chain|
      modifies this
      ensures Now() == EndMode(job.g, old(Now()), at, lexeme)
    {
      hide StartMode, Closing, SpansOf, Total, Chars;
      ghost var st := Now();
      var m := job.g.mode(chain[|chain| - 1]);
      var starts := job.g.mode(chain[at]).starts;
      LeaveDownTo(at);
      if m.excludeEnd {
        out := out + Chars(lexeme);
      }
      Assoc(st.out, Closing(SpansOf(job.g, st.chain[at..])), Chars(lexeme));
      Nothing(Closing(SpansOf(job.g, st.chain[at..])));
      pending := "";
      assert Now() == LeaveModes(job.g, st, at, lexeme);
      if starts.Some? {
        StartNewMode(starts.value, "");
      }
    }

    /** The markup with the spans of the modes still entered closed, innermost first; the root has none. */
    method CloseAll() returns (k: seq<Token>)
      ensures k == out + Closing(SpansOf(job.g, Inner(chain)))
    {
      hide Closing, SpansOf, Inner;
      k := out;
      var inner := Inner(chain);
      var n := |inner|;
      assert inner[..n] == inner;
      while n > 0
        invariant 0 <= n <= |inner|
        invariant k + Closing(SpansOf(job.g, inner[..n])) == out + Closing(SpansOf(job.g, inner))
      {
        n := n - 1;
        assert inner[..n + 1][..n] == inner[..n];
        ClosingLast(job.g, inner[..n + 1]);
        var cls := job.g.mode(inner[n]).className;
        if cls != "" {
          Assoc(k, [Close(Span(CLASS_PREFIX + cls))], Closing(SpansOf(job.g, inner[..n])));
          k := k + [Close(Span(CLASS_PREFIX + cls))];
        }
      }
      assert inner[..0] == [];
      LeaveNothing(job.g);
      Nothing(k);
    }

    /** `processLexeme`, called with a lexeme; the result is how far to move past its start. */
    method ProcessLexeme(fuel: nat, buffer: string, lexeme: string) returns (o: Outcome<nat>)
      requires chain != []
      modifies this
      ensures var st := old(Now());
              var read := st.(pending := st.pending + buffer);
              var plan := Decide(job, st.chain, lexeme);
              var ready := Ready(job, read, plan, lexeme);
              var r := Lexeme(job, read, plan, lexeme, Flush(job, ready, Sub(job.g, fuel, ready)));
              SameOutcome(o, r) && (o.Done? ==> (Now(), o.result) == r.result)
      decreases fuel, 5
    {
      hide Flush, Sub, Decide, StartMode, EndMode;
      pending := pending + buffer;
      var m := job.g.mode(chain[|chain| - 1]);
      match Decide(job, chain, lexeme)
      case Keep =>
        pending := pending + lexeme;
        return Done(if lexeme == "" then 1 else |lexeme|);
      case Reject => return Illegal;
      case Fail => return Thrown;
      case Begin(id) =>
        var flushed := WritePending(fuel);
        if flushed.Done? {
          StartNewMode(id, lexeme);
        }
        return Carry(flushed, if job.g.mode(id).returnBegin then 0 else |lexeme|);
      case End(at) =>
        if !m.returnEnd && !m.excludeEnd {
          pending := pending + lexeme;
        }
        var flushed := WritePending(fuel);
        if flushed.Done? {
          EndModes(at, lexeme);
        }
        return Carry(flushed, if m.returnEnd then 0 else |lexeme|);
    }

    /** The main loop. */
    method Process(fuel: nat) returns (o: Outcome<()>)
      modifies this
      ensures var r := Rounds(job, fuel, old(Now()), 0);
              SameOutcome(o, r) && (o.Done? ==> Now() == r.result)
      decreases fuel, 1
    {
      hide Flush, Sub, Decide, Lexeme;
      var left, i := fuel, 0;
      while left > 0
        invariant 0 <= left <= fuel && 0 <= i
        invariant Rounds(job, fuel, old(Now()), 0) == Rounds(job, left, Now(), i)
        decreases left
      {
        if chain == [] {
          return Thrown;
        }
        match Terminator(job, chain, i)
        case None =>
          pending := pending + Rest(job.text, i);
          o := WritePending(left - 1);
          return;
        case Some(hit) =>
          var at, to := hit.index, hit.index + hit.length;
          if !(i <= at <= to <= |job.text|) {
            return Unfinished;
          }
          var j := ProcessLexeme(left - 1, job.text[i..at], job.text[at..to]);
          left := left - 1;
          match j
          case Done(n) => i := at + n;
          case Illegal => return Illegal;
          case Thrown => return Thrown;
          case Unfinished => return Unfinished;
      }
      return Unfinished;
    }
  }

  /** With the first `n` of the modes in `gone` still to leave. */
  ghost predicate LeaveGo(g: Engine, gone: seq<ModeId>, n: int, out0: seq<Token>, relevance0: int,
                          out: seq<Token>, relevance: int)
  {
    && 0 <= n <= |gone|
    && out + Closing(SpansOf(g, gone[..n])) == out0 + Closing(SpansOf(g, gone))
    && relevance + Total(g, gone[..n]) == relevance0 + Total(g, gone)
  }

  lemma LeaveNothing(g: Engine)
    ensures Closing(SpansOf(g, [])) == [] && Total(g, []) == 0
  {
  }

  lemma LeaveOne(g: Engine, gone: seq<ModeId>, n: int, out0: seq<Token>, relevance0: int,
                 out: seq<Token>, relevance: int)
    requires n >= 0 && LeaveGo(g, gone, n + 1, out0, relevance0, out, relevance)
    ensures var m := g.mode(gone[n]);
            var close := if m.className == "" then [] else [Close(Span(CLASS_PREFIX + m.className))];
            LeaveGo(g, gone, n, out0, relevance0, out + close, relevance + m.relevance) &&
            (m.className == "" ==> out + close == out)
  {
    var m := g.mode(gone[n]);
    var close := if m.className == "" then [] else [Close(Span(CLASS_PREFIX + m.className))];
    assert gone[..n + 1][..n] == gone[..n];
    ClosingLast(g, gone[..n + 1]);
    Assoc(out, close, Closing(SpansOf(g, gone[..n])));
    Nothing(out);
  }

  predicate SameOutcome<T, U>(a: Outcome<T>, b: Outcome<U>) {
    (a.Done? <==> b.Done?) && (a.Illegal? <==> b.Illegal?) && (a.Thrown? <==> b.Thrown?)
  }

  /** `e` and `b` are what stands before `rest` in `all`. */
  ghost predicate KeywordsGo(all: Outcome<(seq<Token>, int)>, rest: Outcome<(seq<Token>, int)>, e: seq<Token>, b: int) {
    (all.Done? <==> rest.Done?) && (all.Done? ==> all.result == (e + rest.result.0, b + rest.result.1))
  }

  lemma KeywordsNothing(all: Outcome<(seq<Token>, int)>)
    ensures KeywordsGo(all, all, [], 0)
  {
    if all.Done? {
      Nothing(all.result.0);
    }
  }

  lemma KeywordStep(g: Engine, m: Mode, lower: bool, y: string, t: nat, all: Outcome<(seq<Token>, int)>,
                    e: seq<Token>, b: int)
    requires t <= |y| && KeywordsGo(all, Keywords(g, m, lower, y, t), e, b)
    ensures match g.exec(m.lexemes, y, t)
            case None => all == Done((e + Chars(y[t..]), b))
            case Some(hit) =>
              if hit.length == 0 || hit.index < t || hit.index + hit.length > |y| then !all.Done?
              else
                var word := Word(m, y[hit.index..hit.index + hit.length], lower);
                KeywordsGo(all, Keywords(g, m, lower, y, hit.index + hit.length),
                           e + Chars(y[t..hit.index]) + word.0, b + word.1)
  {
    hide Chars, Word;
    var next := g.exec(m.lexemes, y, t);
    if next.Some? && next.value.length != 0 && t <= next.value.index && next.value.index + next.value.length <= |y| {
      var hit := next.value;
      var rest := Keywords(g, m, lower, y, hit.index + hit.length);
      var before, word := Chars(y[t..hit.index]), Word(m, y[hit.index..hit.index + hit.length], lower).0;
      if rest.Done? {
        Assoc(e, before + word, rest.result.0);
        Assoc(e, before, word);
      }
    }
  }

  function Carry(o: Outcome<()>, n: nat): Outcome<nat> {
    match o
    case Done(_) => Done(n)
    case Illegal => Illegal
    case Thrown => Thrown
    case Unfinished => Unfinished
  }

  lemma SpanBefore(g: Engine, inner: seq<ModeId>, n: nat)
    requires n < |inner|
    ensures var cls := g.mode(inner[n]).className;
            Opening(SpansOf(g, inner[..n + 1])) ==
            Opening(SpansOf(g, inner[..n])) + if cls == "" then [] else [Open(Span(CLASS_PREFIX + cls))]
  {
    assert inner[..n + 1][..n] == inner[..n];
    Nothing(SpansOf(g, inner[..n]));
    Nothing(Opening(SpansOf(g, inner[..n])));
  }

  lemma ClosingLast(g: Engine, ids: seq<ModeId>)
    requires ids != []
    ensures var cls := g.mode(ids[|ids| - 1]).className;
            Closing(SpansOf(g, ids)) ==
            (if cls == "" then [] else [Close(Span(CLASS_PREFIX + cls))]) + Closing(SpansOf(g, ids[..|ids| - 1]))
    ensures Total(g, ids) == Total(g, ids[..|ids| - 1]) + g.mode(ids[|ids| - 1]).relevance
  {
    var spans := SpansOf(g, ids[..|ids| - 1]);
    Nothing(spans);
    Nothing(Closing(spans));
  }

  /** `highlight`. */
  method HighlightOne(g: Engine, fuel: nat, name: string, text: string, ignoreIllegals: bool,
                      continuation: Option<seq<ModeId>>) returns (o: Outcome<Highlighted>)
    ensures o == HighlightText(g, fuel, name, text, ignoreIllegals, continuation)
    decreases fuel, 2
  {
    match g.Find(name)
    case None => return Thrown;
    case Some(root) =>
      if !ReachesRoot(continuation, root) {
        return Thrown;
      }
      var job := Job(g, text, ignoreIllegals, g.mode(root).caseInsensitive);
      var run := new Run(job, continuation.GetOr([root]));
      var done := run.Process(fuel);
      match done
      case Done(_) =>
        var out := run.CloseAll();
        return Done(Highlighted(run.relevance, out, Some(name), Some(run.chain)));
      case Illegal => return Done(NoLanguage(text));
      case Thrown => return Thrown;
      case Unfinished => return Unfinished;
  }

  /** `highlightAuto`, its best result. */
  method HighlightAuto(g: Engine, fuel: nat, text: string) returns (o: Outcome<Highlighted>)
    ensures o == Auto(g, fuel, g.names, text, NoLanguage(text))
    decreases fuel, 3
  {
    var best := NoLanguage(text);
    var i := 0;
    assert g.names[0..] == g.names;
    while i < |g.names|
      invariant 0 <= i <= |g.names|
      invariant Auto(g, fuel, g.names, text, NoLanguage(text)) == Auto(g, fuel, g.names[i..], text, best)
    {
      assert g.names[i..][1..] == g.names[i + 1..];
      if g.Find(g.names[i]).Some? {
        var t := HighlightOne(g, fuel, g.names[i], text, false, None);
        match t
        case Done(h) =>
          if h.relevance > best.relevance {
            best := h.(language := Some(g.names[i]));
          }
        case Illegal => return Illegal;
        case Thrown => return Thrown;
        case Unfinished => return Unfinished;
      }
      i := i + 1;
    }
    return Done(best);
  }
}
