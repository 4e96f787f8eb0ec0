/** Runs that show the conditions of the highlighting theorems to be needed. */
module HighlightLimits {
  import opened Basics
  import opened Markup
  import opened Highlight
  import opened HighlightRuns
  import opened HighlightTrace
  import opened HighlightProofs

  // ---------------------------------------------------------------- a root that is ended

  /** In `ids`, `k` is the first mode with its beginning. */
  predicate FirstWithItsBeginning(g: Engine, ids: seq<ModeId>, k: ModeId) {
    ids != [] && (ids[0] == k || (g.mode(ids[0]).begin != g.mode(k).begin && FirstWithItsBeginning(g, ids[1..], k)))
  }

  function HeirId(g: Engine, k: ModeId, j: nat): ModeId {
    Heir(g, k, j).GetOr(k)
  }

  /** The end of one of the modes that take the place of `k`, up to the `n`-th. */
  ghost predicate EndsAnHeir(g: Engine, k: ModeId, n: nat, r: Regex) {
    exists j: nat :: j <= n && Heir(g, k, j).Some? && g.mode(Heir(g, k, j).value).end == Some(r)
  }

  /** The `j`-th of these modes has an end, which is not returned, and only the last ends its parent. */
  ghost predicate EndableHeir(g: Engine, k: ModeId, n: nat, j: nat) {
    match Heir(g, k, j)
    case None => false
    case Some(id) =>
      var m := g.mode(id);
      && m.end.Some? && !m.returnEnd && m.subLanguage == None && (m.endsParent <==> j == n)
      && forall c <- m.contains :: !EndsAnHeir(g, k, n, g.mode(c).begin)
  }

  /**
   * The language's own mode starts a mode with a class, and contains one in whose place, after `n` ends, stands a
   * mode that ends its parent.
   */
  ghost predicate Endable(g: Engine, name: string, k: ModeId, n: nat) {
    match g
    case Engine(mode, languages, _, _, _, _) =>
      name in languages &&
      var root := mode(languages[name]);
      && root.starts.Some? && mode(root.starts.value).className != ""
      && root.subLanguage == None && mode(root.starts.value).subLanguage == None
      && FirstWithItsBeginning(g, root.contains, k) && !mode(k).returnBegin
      && forall j: nat :: j <= n ==> EndableHeir(g, k, n, j)
  }

  function Times(c: char, n: nat): (s: string)
    ensures |s| == n && forall i :: 0 <= i < n ==> s[i] == c
  {
    seq(n, i => c)
  }

  function Sample(n: nat): string {
    "a" + Times('b', n + 1) + "c"
  }

  /** The matcher that finds the mode's beginning at "a" and the ends at each "b". */
  ghost function Matched(g: Engine, k: ModeId, n: nat): Engine {
    g.(test := (r: Regex, s: string) => (s == "a" && r == g.mode(k).begin) || (s == "b" && EndsAnHeir(g, k, n, r)),
       exec := (r: Regex, s: string, i: nat) => if s == Sample(n) && i < n + 2 then Some(Hit(i, 1)) else None)
  }

  lemma {:induction false} FirstBegins(g: Engine, ids: seq<ModeId>, k: ModeId, n: nat)
    requires FirstWithItsBeginning(g, ids, k)
    ensures SubMode(Matched(g, k, n), ids, "a") == Some(k)
  {
    if ids[0] != k {
      FirstBegins(g, ids[1..], k, n);
    }
  }

  lemma {:induction false} NoneBegins(g: Engine, ids: seq<ModeId>, k: ModeId, n: nat)
    requires forall c <- ids :: !EndsAnHeir(g, k, n, g.mode(c).begin)
    ensures SubMode(Matched(g, k, n), ids, "b") == None
  {
    if ids != [] {
      NoneBegins(g, ids[1..], k, n);
    }
  }

  /** Away from the sample, the pending text is written as it is. */
  lemma PlainlyFlushed(job: Job, g: Engine, k: ModeId, n: nat, st: State, sub: Outcome<Highlighted>)
    requires job.g == Matched(g, k, n) && st.chain != [] && st.pending != Sample(n)
    requires g.mode(st.chain[|st.chain| - 1]).subLanguage == None
    ensures Flush(job, st, sub) == Done(st.Write(Chars(st.pending)))
  {
    assert st.pending[0..] == st.pending;
  }

  ghost function SampleJob(g: Engine, name: string, k: ModeId, n: nat): Job
    requires name in g.languages
  {
    Job(Matched(g, k, n), Sample(n), true, g.mode(g.languages[name]).caseInsensitive)
  }

  /** The first round begins the contained mode. */
  lemma Begun(g: Engine, name: string, k: ModeId, n: nat) returns (st: State)
    requires Endable(g, name, k, n)
    ensures var start := Initial(Matched(g, k, n), [g.languages[name]]);
            Round(SampleJob(g, name, k, n), n + 2, start, 0, 0, 1) == Done((st, 1))
    ensures st.chain == [g.languages[name], k] && |st.pending| <= 1
  {
    hide Chars, SpansOf, Sub, Flush, EndsAnHeir;
    var job, root := SampleJob(g, name, k, n), g.languages[name];
    var start := Initial(Matched(g, k, n), [root]);
    assert job.text[0..0] == "" && job.text[0..1] == "a";
    Nothing(start.pending);
    FirstBegins(g, g.mode(root).contains, k, n);
    assert Decide(job, [root], "a") == Begin(k);
    PlainlyFlushed(job, g, k, n, start, Sub(job.g, n + 2, start));
    var flushed := start.Write(Chars(""));
    st := StartMode(job.g, flushed, k, "a");
    assert Meet(job, start, 0, 0) == start;
  }

  /** What a "b" does to a chain of the root and the `j`-th heir. */
  lemma HeirDecides(g: Engine, name: string, k: ModeId, n: nat, j: nat, chain: seq<ModeId>)
    requires Endable(g, name, k, n) && j <= n && chain == [g.languages[name], HeirId(g, k, j)]
    ensures Decide(SampleJob(g, name, k, n), chain, "b") == End(if j == n then 0 else 1)
  {
    assert EndableHeir(g, k, n, j);
    var heir := Heir(g, k, j).value;
    var job := SampleJob(g, name, k, n);
    assert EndsAnHeir(g, k, n, g.mode(heir).end.value);
    NoneBegins(g, g.mode(heir).contains, k, n);
    assert Climb(job.g, chain, 1) == if j == n then 0 else 1;
  }

  /** A round on a "b": the mode at its place is left, and the one that starts there entered. */
  lemma HeirEnds(g: Engine, name: string, k: ModeId, n: nat, j: nat, fuel: nat, st: State)
      returns (next: State, written: seq<Token>)
    requires Endable(g, name, k, n) && j <= n && |st.pending| <= 1
    requires st.chain == [g.languages[name], HeirId(g, k, j)]
    requires g.mode(st.chain[if j == n then 0 else 1]).starts.Some?
    ensures var e := if j == n then 0 else 1;
            var x := g.mode(st.chain[e]).starts.value;
            var cls := g.mode(x).className;
            && Round(SampleJob(g, name, k, n), fuel, st, j + 1, j + 1, j + 2) == Done((next, 1))
            && next.chain == st.chain[..e] + [x] && next.pending == ""
            && next.out == written + if cls == "" then [] else [Open(Span(CLASS_PREFIX + cls))]
  {
    hide Chars, Closing, SpansOf, Sub, Flush, Total, Decide, EndsAnHeir;
    var job, e := SampleJob(g, name, k, n), if j == n then 0 else 1;
    assert EndableHeir(g, k, n, j);
    HeirDecides(g, name, k, n, j, st.chain);
    assert job.text[j + 1..j + 1] == "" && job.text[j + 1..j + 2] == "b";
    Nothing(st.pending);
    assert Meet(job, st, j + 1, j + 1) == st;
    var ready := Ready(job, st, End(e), "b");
    PlainlyFlushed(job, g, k, n, ready, Sub(job.g, fuel, ready));
    var flushed := ready.Write(Chars(ready.pending));
    next, written := Replaced(job.g, flushed, e);
    assert next == EndMode(job.g, flushed, e, "b");
  }

  lemma Replaced(g: Engine, st: State, e: nat) returns (next: State, written: seq<Token>)
    requires e < |st.chain| && g.mode(st.chain[e]).starts.Some?
    ensures var x := g.mode(st.chain[e]).starts.value;
            var cls := g.mode(x).className;
            && next == EndMode(g, st, e, "b") && next.chain == st.chain[..e] + [x] && next.pending == ""
            && next.out == written + if cls == "" then [] else [Open(Span(CLASS_PREFIX + cls))]
  {
    hide Closing, SpansOf, Total;
    var x := g.mode(st.chain[e]).starts.value;
    var cls := g.mode(x).className;
    var left := LeaveModes(g, st, e, "b");
    next, written := StartMode(g, left, x, ""), left.out;
    assert Chars("") == [];
    Nothing(if cls == "" then [] else [Open(Span(CLASS_PREFIX + cls))]);
  }

  lemma InnerHeirEnds(job: Job, g: Engine, name: string, k: ModeId, n: nat, j: nat, st: State) returns (next: State)
    requires Endable(g, name, k, n) && job == SampleJob(g, name, k, n) && j < n && |st.pending| <= 1
    requires st.chain == [g.languages[name], HeirId(g, k, j)]
    ensures Round(job, n - j + 1, st, j + 1, j + 1, j + 2) == Done((next, 1))
    ensures next.chain == [g.languages[name], HeirId(g, k, j + 1)] && |next.pending| <= 1
  {
    hide Round, Endable, HeirId, SampleJob;
    StartsNext(g, name, k, n, j);
    assert st.chain[..1] == [g.languages[name]];
    var written;
    next, written := HeirEnds(g, name, k, n, j, n - j + 1, st);
  }

  lemma LastHeirEnds(job: Job, g: Engine, name: string, k: ModeId, n: nat, st: State)
      returns (next: State, written: seq<Token>)
    requires Endable(g, name, k, n) && job == SampleJob(g, name, k, n) && |st.pending| <= 1
    requires st.chain == [g.languages[name], HeirId(g, k, n)]
    ensures var x := g.mode(g.languages[name]).starts.value;
            && Round(job, 1, st, n + 1, n + 1, n + 2) == Done((next, 1))
            && next.chain == [x] && next.pending == ""
            && next.out == written + [Open(Span(CLASS_PREFIX + g.mode(x).className))]
  {
    hide Round, EndableHeir, SampleJob, HeirId;
    assert st.chain[..0] == [];
    next, written := HeirEnds(g, name, k, n, n, 1, st);
  }

  /** After the last "b" nothing matches. */
  lemma Finished(job: Job, g: Engine, name: string, k: ModeId, n: nat, st: State)
    requires Endable(g, name, k, n) && job == SampleJob(g, name, k, n) && st.pending == ""
    requires st.chain == [g.mode(g.languages[name]).starts.value]
    ensures Rounds(job, 1, st, n + 2) == Done(st.(pending := "c").Write(Chars("c")))
  {
    hide Chars, Sub, Flush;
    assert Rest(job.text, n + 2) == "c" && "" + "c" == "c";
    var read := st.(pending := st.pending + Rest(job.text, n + 2));
    PlainlyFlushed(job, g, k, n, read, Sub(job.g, 0, read));
  }

  /** The final state of a run that leaves the span of the mode started at the root open. */
  ghost predicate LeftOpen(g: Engine, x: ModeId, r: Outcome<State>, written: seq<Token>) {
    match r
    case Done(st) =>
      st.chain == [x] && st.out == written + [Open(Span(CLASS_PREFIX + g.mode(x).className))] + Chars("c")
    case _ => false
  }

  lemma LastHeirRuns(job: Job, g: Engine, name: string, k: ModeId, n: nat, st: State) returns (written: seq<Token>)
    requires Endable(g, name, k, n) && |st.pending| <= 1 && job == SampleJob(g, name, k, n)
    requires st.chain == [g.languages[name], HeirId(g, k, n)]
    ensures LeftOpen(g, g.mode(g.languages[name]).starts.value, Rounds(job, 2, st, n + 1), written)
  {
    hide *;
    StartsNext(g, name, k, n, n);
    var next;
    next, written := LastHeirEnds(job, g, name, k, n, st);
    Finished(job, g, name, k, n, next);
    MatchesAt(job, g, name, k, n, st.chain, n + 1);
    OneRound(job, 1, st, n + 1, next);
    LastOpen(g, g.mode(g.languages[name]).starts.value, next, written);
  }

  lemma LastOpen(g: Engine, x: ModeId, st: State, written: seq<Token>)
    requires st.chain == [x] && st.out == written + [Open(Span(CLASS_PREFIX + g.mode(x).className))]
    ensures LeftOpen(g, x, Done(st.(pending := "c").Write(Chars("c"))), written)
  {
  }

  /** A "b" before the last ends one heir, and leaves the next. */
  lemma HeirRuns(job: Job, g: Engine, name: string, k: ModeId, n: nat, j: nat, st: State) returns (next: State)
    requires Endable(g, name, k, n) && job == SampleJob(g, name, k, n) && j < n && |st.pending| <= 1
    requires st.chain == [g.languages[name], HeirId(g, k, j)]
    ensures next.chain == [g.languages[name], HeirId(g, k, j + 1)] && |next.pending| <= 1
    ensures Rounds(job, n - j + 2, st, j + 1) == Rounds(job, n - j + 1, next, j + 2)
  {
    hide *;
    StartsNext(g, name, k, n, j);
    next := InnerHeirEnds(job, g, name, k, n, j, st);
    MatchesAt(job, g, name, k, n, st.chain, j + 1);
    OneRound(job, n - j + 1, st, j + 1, next);
  }

  /** From the `j`-th heir on, each "b" ends one more, and the last of them the root. */
  lemma {:induction false} HeirsEnd(job: Job, g: Engine, name: string, k: ModeId, n: nat, j: nat, st: State)
      returns (written: seq<Token>)
    requires Endable(g, name, k, n) && job == SampleJob(g, name, k, n) && j <= n && |st.pending| <= 1
    requires st.chain == [g.languages[name], HeirId(g, k, j)]
    ensures LeftOpen(g, g.mode(g.languages[name]).starts.value, Rounds(job, n - j + 2, st, j + 1), written)
    decreases n - j
  {
    hide *;
    if j == n {
      written := LastHeirRuns(job, g, name, k, n, st);
    } else {
      var next := HeirRuns(job, g, name, k, n, j, st);
      written := HeirsEnd(job, g, name, k, n, j + 1, next);
    }
  }

  /** What stands at the place that the `j`-th end leaves. */
  lemma StartsNext(g: Engine, name: string, k: ModeId, n: nat, j: nat)
    requires Endable(g, name, k, n) && j <= n
    ensures name in g.languages && g.mode(g.languages[name]).starts.Some?
    ensures j < n ==> g.mode(HeirId(g, k, j)).starts == Some(HeirId(g, k, j + 1))
  {
    hide EndsAnHeir, Heir;
    assert EndableHeir(g, k, n, j);
    if j < n {
      assert EndableHeir(g, k, n, j + 1);
      HeirOfHeir(g, k, j);
    }
  }

  lemma MatchesAt(job: Job, g: Engine, name: string, k: ModeId, n: nat, chain: seq<ModeId>, i: nat)
    requires name in g.languages && job == SampleJob(g, name, k, n) && chain != [] && i < n + 2
    ensures Terminator(job, chain, i) == Some(Hit(i, 1))
  {
  }

  lemma OneRound(job: Job, fuel: nat, st: State, i: nat, next: State)
    requires st.chain != [] && Terminator(job, st.chain, i) == Some(Hit(i, 1))
    requires Round(job, fuel, st, i, i, i + 1) == Done((next, 1))
    ensures Rounds(job, fuel + 1, st, i) == Rounds(job, fuel, next, i + 1)
  {
    hide Round, Flush, Sub;
  }

  /**
   * The condition on languages is needed: for a language whose own mode can be ended and then starts a mode with a
   * class, some matcher makes a run that leaves the span open.
   */
  lemma EndedRootStaysOpen(g: Engine, name: string, k: ModeId, n: nat)
    requires Endable(g, name, k, n)
    ensures var r := HighlightText(Matched(g, k, n), n + 3, name, Sample(n), true, None);
            r.Done? && !Read(r.result.value).Balanced()
  {
    hide Round, SpansOf, Closing, Chars, Endable, Initial;
    EndableFinds(g, name, k, n);
    var job, root := SampleJob(g, name, k, n), g.languages[name];
    var start := Initial(job.g, [root]);
    var st := Begun(g, name, k, n);
    var written := HeirsEnd(job, g, name, k, n, 0, st);
    OneRound(job, n + 2, start, 0, st);
    hide Rounds;
    var x := g.mode(root).starts.value;
    var last := Rounds(job, n + 3, start, 0).result;
    NoSpans(job.g);
    Nothing(last.out);
    assert Inner(last.chain) == [];
    var span := Span(CLASS_PREFIX + g.mode(x).className);
    SpanIsNoVoid(CLASS_PREFIX + g.mode(x).className);
    Snoc(written, Open(span));
    AppendChars(written + [Open(span)], "c");
  }

  lemma EndableFinds(g: Engine, name: string, k: ModeId, n: nat)
    requires Endable(g, name, k, n)
    ensures name in g.languages && g.mode(g.languages[name]).starts.Some? && Heir(g, k, 0) == Some(k)
    ensures Initial(Matched(g, k, n), [g.languages[name]]).chain == [g.languages[name]]
    ensures Terminator(SampleJob(g, name, k, n), [g.languages[name]], 0) == Some(Hit(0, 1))
  {
  }

  lemma NoSpans(g: Engine)
    ensures Closing(SpansOf(g, [])) == []
  {
  }

  /** A grammar of that kind: the root contains mode 1, which ends it, and starts mode 2, of class "x". */
  function StartingRoot(): Engine {
    var root := Mode("", None, 0, [1], 0, None, false, false, false, false, false, false, Some(2), None, 1, None, false,
                     0, false);
    var inner := Mode("", None, 0, [], 2, Some(3), false, true, false, false, false, false, None, None, 4, None, false,
                      0, false);
    var next := Mode("x", None, 0, [], 5, Some(6), false, false, false, false, false, false, None, None, 7, None, false,
                     0, false);
    Engine(id => if id == 0 then root else if id == 1 then inner else next, map["l" := 0], ["l"], map[],
           (r, s) => false, (r, s, i) => None)
  }

  lemma StartingRootIsEndable()
    ensures Endable(StartingRoot(), "l", 1, 0) && !RootsSteady(StartingRoot())
  {
    var g := StartingRoot();
    assert Heir(g, 1, 0) == Some(1) && 1 in g.mode(0).contains;
    assert g.languages["l"] == 0 && Heir(g, 2, 0) == Some(2) && Heir(g, 0, 1) == Some(2);
    assert !Classless(g, 0);
  }

  // ---------------------------------------------------------------- a character that is lost

  /** A language in which an expression matches nothing, at the start, and no mode claims that. */
  function Losing(): Engine {
    var root := Mode("", None, 0, [], 0, None, false, false, false, false, false, false, None, None, 0, None, false,
                     0, false);
    Engine(id => root, map["l" := 0], ["l"], map[], (r, s) => false,
           (r, s, i) => if i == 0 then Some(Hit(0, 0)) else None)
  }

  /** Highlighting "a" then passes over its only character and returns nothing. */
  lemma EmptyMatchLosesACharacter()
    ensures var r := HighlightText(Losing(), 2, "l", "a", true, None);
            && r.Done? && Read(r.result.value).text == "" && PassedOver(Losing(), 2, "l", "a", true) == {0}
  {
    var g := Losing();
    var job, st := Job(g, "a", true, false), Initial(g, [0]);
    assert Inner([0]) == [] && st == State([0], [], "", 0, map[]);
    assert "a"[0..0] == "" && "" + "" == "" && Rest("a", 1) == "";
    assert Decide(job, [0], "") == Keep;
    assert Round(job, 1, st, 0, 0, 0) == Done((st, 1));
    var l := Ledger([], [], {});
    var next := RoundLedger(job, 1, st, l, 0, 0, 0);
    assert next.skipped == {0};
    assert Chars("") == [];
    Nothing(st.out);
    assert Flush(job, st, Sub(g, 0, st)) == Done(st);
    assert Rounds(job, 1, st, 1) == Done(st);
    assert Rounds(job, 2, st, 0) == Done(st);
    assert RoundsAccount(job, 1, st, next, 1).skipped == {0};
    assert RoundsAccount(job, 2, st, l, 0).skipped == {0};
  }
}
