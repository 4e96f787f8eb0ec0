/** How runs of the engine end: the fuel only says how long to wait, and when there is no exception. */
module HighlightRuns {
  import opened Basics
  import opened Markup
  import opened Highlight

  // ---------------------------------------------------------------- fuel

  /** `b` is `a`, unless `a` is still unfinished. */
  predicate Extends<T(==)>(a: Outcome<T>, b: Outcome<T>) {
    a.Unfinished? || a == b
  }

  lemma FlushMore(job: Job, st: State, a: Outcome<Highlighted>, b: Outcome<Highlighted>)
    requires st.chain != [] && Extends(a, b)
    ensures Extends(Flush(job, st, a), Flush(job, st, b))
  {
  }

  lemma {:induction false} SubMore(g: Engine, fuel: nat, more: nat, st: State)
    requires fuel <= more && st.chain != []
    ensures Extends(Sub(g, fuel, st), Sub(g, more, st))
    decreases fuel, 5, 0
  {
    match SubLanguage(g, g.mode(st.chain[|st.chain| - 1]))
    case None =>
    case Some(name) =>
      if name == "" {
        AutoMore(g, fuel, more, g.names, st.pending, NoLanguage(st.pending));
      } else {
        TextMore(g, fuel, more, name, st.pending, true, if name in st.tops then Some(st.tops[name]) else None);
      }
  }

  lemma {:induction false} RoundMore(job: Job, fuel: nat, more: nat, st: State, i: nat, at: nat, to: nat)
    requires fuel <= more && st.chain != []
    ensures Extends(Round(job, fuel, st, i, at, to), Round(job, more, st, i, at, to))
    decreases fuel, 6, 0
  {
    hide Sub, Flush, Decide, Ready, Act, Advance;
    if i <= at <= to <= |job.text| {
      var read := Meet(job, st, i, at);
      var ready := Ready(job, read, Decide(job, st.chain, job.text[at..to]), job.text[at..to]);
      SubMore(job.g, fuel, more, ready);
      FlushMore(job, ready, Sub(job.g, fuel, ready), Sub(job.g, more, ready));
    }
  }

  lemma {:induction false} RoundsMore(job: Job, fuel: nat, more: nat, st: State, i: nat)
    requires fuel <= more
    ensures Extends(Rounds(job, fuel, st, i), Rounds(job, more, st, i))
    decreases fuel, 2, 0
  {
    hide Round, Sub, Flush;
    if fuel == 0 || st.chain == [] {
      return;
    }
    match Terminator(job, st.chain, i)
    case None =>
      var read := st.(pending := st.pending + Rest(job.text, i));
      SubMore(job.g, fuel - 1, more - 1, read);
      FlushMore(job, read, Sub(job.g, fuel - 1, read), Sub(job.g, more - 1, read));
    case Some(hit) =>
      RoundMore(job, fuel - 1, more - 1, st, i, hit.index, hit.index + hit.length);
      var next := Round(job, fuel - 1, st, i, hit.index, hit.index + hit.length);
      if next.Done? {
        RoundsMore(job, fuel - 1, more - 1, next.result.0, hit.index + next.result.1);
      }
  }

  /** A call that returns, or throws, does the same with any more fuel: the bound never shows in a result. */
  lemma {:induction false} TextMore(g: Engine, fuel: nat, more: nat, name: string, text: string, ignoreIllegals: bool,
                                    continuation: Option<seq<ModeId>>)
    requires fuel <= more
    ensures Extends(HighlightText(g, fuel, name, text, ignoreIllegals, continuation),
                    HighlightText(g, more, name, text, ignoreIllegals, continuation))
    decreases fuel, 3, 0
  {
    hide Rounds, Initial, SpansOf;
    var found := g.Find(name);
    if found.Some? && ReachesRoot(continuation, found.value) {
      var job := Job(g, text, ignoreIllegals, g.mode(found.value).caseInsensitive);
      RoundsMore(job, fuel, more, Initial(g, continuation.GetOr([found.value])), 0);
    }
  }

  lemma {:induction false} AutoMore(g: Engine, fuel: nat, more: nat, names: seq<string>, text: string,
                                    best: Highlighted)
    requires fuel <= more
    ensures Extends(Auto(g, fuel, names, text, best), Auto(g, more, names, text, best))
    decreases fuel, 4, |names|
  {
    hide HighlightText;
    if names != [] {
      if g.Find(names[0]) == None {
        AutoMore(g, fuel, more, names[1..], text, best);
      } else {
        TextMore(g, fuel, more, names[0], text, false, None);
        var t := HighlightText(g, fuel, names[0], text, false, None);
        if t.Done? {
          AutoMore(g, fuel, more, names[1..], text,
                   if t.result.relevance > best.relevance then t.result.(language := Some(names[0])) else best);
        }
      }
    }
  }

  // ---------------------------------------------------------------- exceptions

  ghost predicate IsRoot(g: Engine, id: ModeId) {
    exists name :: name in g.languages && g.languages[name] == id
  }

  /** What stands in the place of `id` when it and `n - 1` of those that start one after another have ended. */
  function Heir(g: Engine, id: ModeId, n: nat): Option<ModeId>
    decreases n
  {
    if n == 0 then Some(id)
    else
      match g.mode(id).starts
      case None => None
      case Some(next) => Heir(g, next, n - 1)
  }

  lemma {:induction false} HeirOfHeir(g: Engine, k: ModeId, j: nat)
    requires Heir(g, k, j).Some?
    ensures Heir(g, k, j + 1) == g.mode(Heir(g, k, j).value).starts
    decreases j
  {
    if j > 0 {
      HeirOfHeir(g, g.mode(k).starts.value, j - 1);
    }
  }

  /** Neither the mode nor any that takes its place ends its parent. */
  ghost predicate SparesParent(g: Engine, id: ModeId) {
    forall n: nat :: var heir := Heir(g, id, n); heir.Some? ==> !g.mode(heir.value).endsParent
  }

  /** Nothing ends a mode at the root: it has no end of its own, and what it contains spares it. */
  ghost predicate NeverEnds(g: Engine, root: ModeId) {
    g.mode(root).end == None && forall id <- g.mode(root).contains :: SparesParent(g, id)
  }

  /** Every language's own mode never ends, nor ends with a parent, which it does not have. */
  ghost predicate RootsStay(g: Engine) {
    forall id: ModeId :: IsRoot(g, id) ==> NeverEnds(g, id) && !g.mode(id).endsWithParent
  }

  /** A chain from which no lexeme reaches the root. */
  ghost predicate Rooted(g: Engine, chain: seq<ModeId>) {
    chain != [] && NeverEnds(g, chain[0]) && (|chain| > 1 ==> SparesParent(g, chain[1]))
  }

  ghost predicate Stays(g: Engine, root: ModeId, chain: seq<ModeId>) {
    Rooted(g, chain) && chain[0] == root && IsRoot(g, root)
  }

  /** A chain that a call for the language can continue from. */
  ghost predicate Resumes(g: Engine, name: string, chain: seq<ModeId>) {
    g.Find(name).Some? && Stays(g, g.Find(name).value, chain)
  }

  /** The state of a call that cannot come to read past the root. */
  ghost predicate Safe(g: Engine, root: ModeId, st: State) {
    Stays(g, root, st.chain) && forall name <- st.tops :: name != "" ==> Resumes(g, name, st.tops[name])
  }

  /** A call for `name`, "" standing for detection, ends well. */
  ghost predicate Fine(g: Engine, name: string, o: Outcome<Highlighted>) {
    o.Unfinished? || (o.Done? && (name != "" && o.result.top.Some? ==> Resumes(g, name, o.result.top.value)))
  }

  lemma {:induction false} ClimbStays(g: Engine, chain: seq<ModeId>, at: nat)
    requires Rooted(g, chain) && 0 < at < |chain|
    ensures Climb(g, chain, at) > 0
  {
    if at > 1 {
      ClimbStays(g, chain, at - 1);
    } else {
      assert Heir(g, chain[1], 0) == Some(chain[1]);
    }
  }

  /** The search for the mode that a lexeme ends never ends the root. */
  lemma {:induction false} EndStays(g: Engine, chain: seq<ModeId>, at: nat, lexeme: string)
    requires Rooted(g, chain) && at < |chain|
    ensures var r := EndOfMode(g, chain, at, lexeme);
            && (r.Done? && r.result.Some? ==> r.result.value > 0)
            && (!r.Done? ==> g.mode(chain[0]).endsWithParent)
  {
    if at > 0 {
      ClimbStays(g, chain, at);
      EndStays(g, chain, at - 1, lexeme);
    }
  }

  lemma {:induction false} SubModeIn(g: Engine, ids: seq<ModeId>, lexeme: string)
    ensures SubMode(g, ids, lexeme).Some? ==> SubMode(g, ids, lexeme).value in ids
  {
    if ids != [] {
      SubModeIn(g, ids[1..], lexeme);
    }
  }

  lemma HeirSpares(g: Engine, id: ModeId)
    requires SparesParent(g, id) && g.mode(id).starts.Some?
    ensures SparesParent(g, g.mode(id).starts.value)
  {
    var next := g.mode(id).starts.value;
    forall n: nat | Heir(g, next, n).Some?
      ensures !g.mode(Heir(g, next, n).value).endsParent
    {
      assert Heir(g, id, n + 1) == Heir(g, next, n);
    }
  }

  /** Whatever a lexeme does to a rooted chain, it ends above the root and leaves a rooted chain. */
  lemma DecideStays(job: Job, chain: seq<ModeId>, lexeme: string)
    requires Rooted(job.g, chain)
    ensures var plan := Decide(job, chain, lexeme);
            && (plan.Fail? ==> job.g.mode(chain[0]).endsWithParent)
            && (plan.Begin? ==> Rooted(job.g, chain + [plan.id]))
            && (plan.End? ==> plan.at > 0 && Rooted(job.g, chain[..plan.at]))
    ensures var plan := Decide(job, chain, lexeme);
            plan.End? && job.g.mode(chain[plan.at]).starts.Some? ==>
              Rooted(job.g, chain[..plan.at] + [job.g.mode(chain[plan.at]).starts.value])
  {
    hide SparesParent;
    SubModeIn(job.g, job.g.mode(chain[|chain| - 1]).contains, lexeme);
    EndStays(job.g, chain, |chain| - 1, lexeme);
    var plan := Decide(job, chain, lexeme);
    if plan.End? && job.g.mode(chain[plan.at]).starts.Some? && plan.at == 1 {
      HeirSpares(job.g, chain[1]);
    }
  }

  lemma LexemeSafe(job: Job, root: ModeId, st: State, plan: Plan, lexeme: string, flushed: Outcome<State>)
    requires RootsStay(job.g) && Safe(job.g, root, st) && plan == Decide(job, st.chain, lexeme)
    requires !flushed.Thrown?
    requires flushed.Done? ==> Safe(job.g, root, flushed.result) && flushed.result.chain == st.chain
    ensures var r := Lexeme(job, st, plan, lexeme, flushed);
            !r.Thrown? && (r.Done? ==> Safe(job.g, root, r.result.0))
  {
    hide Decide, Chars, Closing, SpansOf, Total, NeverEnds, SparesParent, IsRoot, Rooted, Resumes;
    StaysNonEmpty(job.g, root, st.chain);
    DecideStays(job, st.chain, lexeme);
    if plan.End? {
      assert st.chain[..plan.at][0] == st.chain[0];
    }
  }

  lemma FlushSafe(job: Job, root: ModeId, st: State, sub: Outcome<Highlighted>)
    requires Safe(job.g, root, st)
    requires var name := SubLanguage(job.g, job.g.mode(st.chain[|st.chain| - 1]));
             name.Some? ==> Fine(job.g, name.value, sub)
    ensures var r := Flush(job, st, sub);
            !r.Thrown? && !r.Illegal? && (r.Done? ==> Safe(job.g, root, r.result))
  {
    hide Keywords, Chars, Stays, Resumes;
  }

  /** What writing the pending text asks for ends well. */
  lemma {:induction false} SubSafe(g: Engine, fuel: nat, root: ModeId, st: State)
    requires RootsStay(g) && Safe(g, root, st)
    ensures var name := SubLanguage(g, g.mode(st.chain[|st.chain| - 1]));
            name.Some? ==> Fine(g, name.value, Sub(g, fuel, st))
    decreases fuel, 5, 0
  {
    hide RootsStay, Resumes;
    match SubLanguage(g, g.mode(st.chain[|st.chain| - 1]))
    case None =>
    case Some(name) =>
      if name == "" {
        AutoSafe(g, fuel, g.names, st.pending, NoLanguage(st.pending));
      } else {
        TextSafe(g, fuel, name, st.pending, true, if name in st.tops then Some(st.tops[name]) else None);
      }
  }

  lemma StaysNonEmpty(g: Engine, root: ModeId, chain: seq<ModeId>)
    requires Stays(g, root, chain)
    ensures chain != []
  {
  }

  lemma {:induction false} RoundSafe(job: Job, fuel: nat, root: ModeId, st: State, i: nat, at: nat, to: nat)
    requires RootsStay(job.g) && Safe(job.g, root, st)
    ensures var r := Round(job, fuel, st, i, at, to);
            !r.Thrown? && (r.Done? ==> Safe(job.g, root, r.result.0))
    decreases fuel, 6, 0
  {
    hide Sub, Flush, Decide, Lexeme, RootsStay, Resumes;
    if i <= at <= to <= |job.text| {
      var read := Meet(job, st, i, at);
      var plan := Decide(job, st.chain, job.text[at..to]);
      var ready := Ready(job, read, plan, job.text[at..to]);
      SubSafe(job.g, fuel, root, ready);
      FlushSafe(job, root, ready, Sub(job.g, fuel, ready));
      LexemeSafe(job, root, read, plan, job.text[at..to], Flush(job, ready, Sub(job.g, fuel, ready)));
    }
  }

  lemma {:induction false} RoundsSafe(job: Job, fuel: nat, root: ModeId, st: State, i: nat)
    requires RootsStay(job.g) && Safe(job.g, root, st)
    ensures var r := Rounds(job, fuel, st, i);
            !r.Thrown? && (r.Done? ==> Safe(job.g, root, r.result))
    decreases fuel, 2, 0
  {
    hide Round, Sub, Flush, RootsStay, Resumes;
    if fuel == 0 {
      return;
    }
    match Terminator(job, st.chain, i)
    case None =>
      var read := st.(pending := st.pending + Rest(job.text, i));
      SubSafe(job.g, fuel - 1, root, read);
      FlushSafe(job, root, read, Sub(job.g, fuel - 1, read));
    case Some(hit) =>
      RoundSafe(job, fuel - 1, root, st, i, hit.index, hit.index + hit.length);
      var next := Round(job, fuel - 1, st, i, hit.index, hit.index + hit.length);
      if next.Done? {
        RoundsSafe(job, fuel - 1, root, next.result.0, hit.index + next.result.1);
      }
  }

  lemma RootStays(g: Engine, name: string)
    requires RootsStay(g) && g.Find(name).Some?
    ensures Resumes(g, name, [g.Find(name).value])
  {
    assert IsRoot(g, g.Find(name).value);
  }

  lemma {:induction false} TextSafe(g: Engine, fuel: nat, name: string, text: string, ignoreIllegals: bool,
                                    continuation: Option<seq<ModeId>>)
    requires RootsStay(g) && g.Find(name).Some?
    requires continuation.Some? ==> Resumes(g, name, continuation.value)
    ensures Fine(g, name, HighlightText(g, fuel, name, text, ignoreIllegals, continuation))
    decreases fuel, 3, 0
  {
    hide Rounds, SpansOf, RootsStay, Rooted, IsRoot;
    RootStays(g, name);
    var root := g.Find(name).value;
    if continuation.Some? {
      StaysNonEmpty(g, root, continuation.value);
    }
    var job := Job(g, text, ignoreIllegals, g.mode(root).caseInsensitive);
    RoundsSafe(job, fuel, root, Initial(g, continuation.GetOr([root])), 0);
  }

  lemma {:induction false} AutoSafe(g: Engine, fuel: nat, names: seq<string>, text: string, best: Highlighted)
    requires RootsStay(g)
    ensures Fine(g, "", Auto(g, fuel, names, text, best))
    decreases fuel, 4, |names|
  {
    hide HighlightText, RootsStay, Resumes;
    if names != [] {
      if g.Find(names[0]) == None {
        AutoSafe(g, fuel, names[1..], text, best);
      } else {
        TextSafe(g, fuel, names[0], text, false, None);
        var t := HighlightText(g, fuel, names[0], text, false, None);
        if t.Done? {
          AutoSafe(g, fuel, names[1..], text,
                   if t.result.relevance > best.relevance then t.result.(language := Some(names[0])) else best);
        }
      }
    }
  }

  /**
   * Whatever the matcher answers, a call throws exactly when the language is unknown, for grammars whose own modes
   * nothing ends; an illegal lexeme never gets out of the call.
   */
  lemma ThrowsOnlyUnknown(g: Engine, fuel: nat, name: string, text: string, ignoreIllegals: bool)
    requires RootsStay(g)
    ensures var r := HighlightText(g, fuel, name, text, ignoreIllegals, None);
            (r.Thrown? <==> g.Find(name) == None) && !r.Illegal?
  {
    hide RootsStay, Rounds;
    if g.Find(name).Some? {
      TextSafe(g, fuel, name, text, ignoreIllegals, None);
    }
  }
}
