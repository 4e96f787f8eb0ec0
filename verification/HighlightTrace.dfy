/** Where each character of the markup comes from, and which characters of the text a run passes over. */
module HighlightTrace {
  import opened Basics
  import opened Markup
  import opened Highlight

  // ---------------------------------------------------------------- positions

  function Range(i: nat, j: nat): (r: seq<nat>)
    requires i <= j
    ensures |r| == j - i && forall k :: 0 <= k < j - i ==> r[k] == i + k
  {
    seq(j - i, k requires 0 <= k < j - i => i + k)
  }

  predicate Below(at: seq<nat>, n: nat) {
    forall k :: 0 <= k < |at| ==> at[k] < n
  }

  /** The characters of `s` at the given positions. */
  function Pick(s: string, at: seq<nat>): (r: string)
    ensures |r| == |at| && forall k :: 0 <= k < |at| && at[k] < |s| ==> r[k] == s[at[k]]
  {
    seq(|at|, k requires 0 <= k < |at| => if at[k] < |s| then s[at[k]] else ' ')
  }

  /** Positions in the outer text of what stands at positions of an inner one. */
  function Compose(outer: seq<nat>, inner: seq<nat>): (r: seq<nat>)
    ensures |r| == |inner| && forall k :: 0 <= k < |inner| && inner[k] < |outer| ==> r[k] == outer[inner[k]]
  {
    seq(|inner|, k requires 0 <= k < |inner| => if inner[k] < |outer| then outer[inner[k]] else 0)
  }

  function Image(outer: seq<nat>, inner: set<nat>): set<nat> {
    set k | k in inner && k < |outer| :: outer[k]
  }

  /** All positions below `n` but the given ones, in order. */
  function Positions(n: nat, gone: set<nat>): seq<nat> {
    if n == 0 then [] else Positions(n - 1, gone) + if n - 1 in gone then [] else [n - 1]
  }

  /** The text without the characters at the given positions. */
  function Omit(s: string, gone: set<nat>): string {
    if s == "" then "" else Omit(s[..|s| - 1], gone) + if |s| - 1 in gone then "" else [s[|s| - 1]]
  }

  // ---------------------------------------------------------------- the account of a run

  /** The origins of the characters written and pending, and the positions passed over. */
  datatype Ledger = Ledger(out: seq<nat>, pending: seq<nat>, skipped: set<nat>)

  datatype Account = Account(origins: seq<nat>, skipped: set<nat>)

  const NO_ACCOUNT := Account([], {})

  function WholeText(text: string): Account {
    Account(Range(0, |text|), {})
  }

  /** Writing the pending text; `sub` is the account of the embedded call, if there is one. */
  function FlushLedger(g: Engine, m: Mode, l: Ledger, sub: Account): Ledger {
    if SubLanguage(g, m) == None then l.(out := l.out + l.pending)
    else l.(out := l.out + Compose(l.pending, sub.origins), skipped := l.skipped + Image(l.pending, sub.skipped))
  }

  function StartLedger(m: Mode, l: Ledger, lexeme: seq<nat>): Ledger {
    if m.returnBegin then l.(pending := [])
    else if m.excludeBegin then l.(out := l.out + lexeme, pending := [])
    else l.(pending := lexeme)
  }

  function EndLedger(g: Engine, chain: seq<ModeId>, at: nat, l: Ledger, lexeme: seq<nat>): Ledger
    requires at < |chain|
  {
    var m := g.mode(chain[|chain| - 1]);
    var left := l.(out := l.out + (if m.excludeEnd then lexeme else []), pending := []);
    match g.mode(chain[at]).starts
    case None => left
    case Some(id) => StartLedger(g.mode(id), left, [])
  }

  function ActLedger(g: Engine, chain: seq<ModeId>, plan: Plan, l: Ledger, lexeme: seq<nat>): Ledger
    requires plan.Begin? || (plan.End? && plan.at < |chain|)
  {
    if plan.Begin? then StartLedger(g.mode(plan.id), l, lexeme) else EndLedger(g, chain, plan.at, l, lexeme)
  }

  function ReadyLedger(m: Mode, plan: Plan, l: Ledger, lexeme: seq<nat>): Ledger {
    if plan.End? && !m.returnEnd && !m.excludeEnd then l.(pending := l.pending + lexeme) else l
  }

  /** An empty lexeme that nothing claims passes over the character it stands before. */
  function KeepLedger(l: Ledger, at: nat, to: nat, length: nat): Ledger
    requires at <= to
  {
    if at == to < length then l.(skipped := l.skipped + {at}) else l.(pending := l.pending + Range(at, to))
  }

  function SubAccount(g: Engine, fuel: nat, st: State): Account
    requires st.chain != []
    decreases fuel, 5, 0
  {
    match SubLanguage(g, g.mode(st.chain[|st.chain| - 1]))
    case None => NO_ACCOUNT
    case Some(name) =>
      if name == "" then
        AutoAccount(g, fuel, g.names, st.pending, NoLanguage(st.pending), WholeText(st.pending))
      else
        TextAccount(g, fuel, name, st.pending, true, if name in st.tops then Some(st.tops[name]) else None)
  }

  /** One round of the loop, on the lexeme `text[at..to]`. */
  function RoundLedger(job: Job, fuel: nat, st: State, l: Ledger, i: nat, at: nat, to: nat): Ledger
    requires st.chain != [] && i <= at <= to <= |job.text|
    decreases fuel, 6, 0
  {
    var m := job.g.mode(st.chain[|st.chain| - 1]);
    var read := Meet(job, st, i, at);
    var plan := Decide(job, st.chain, job.text[at..to]);
    var met := l.(pending := l.pending + Range(i, at));
    match plan
    case Keep => KeepLedger(met, at, to, |job.text|)
    case Reject => met
    case Fail => met
    case _ =>
      var ready := Ready(job, read, plan, job.text[at..to]);
      var flushed := FlushLedger(job.g, m, ReadyLedger(m, plan, met, Range(at, to)), SubAccount(job.g, fuel, ready));
      ActLedger(job.g, st.chain, plan, flushed, Range(at, to))
  }

  /** The loop from index `i` on, as `Rounds` runs it. */
  function RoundsAccount(job: Job, fuel: nat, st: State, l: Ledger, i: nat): Account
    decreases fuel, 2, 0
  {
    if fuel == 0 || st.chain == [] then NO_ACCOUNT
    else
      match Terminator(job, st.chain, i)
      case None =>
        var read := st.(pending := st.pending + Rest(job.text, i));
        var all := l.(pending := l.pending + if i <= |job.text| then Range(i, |job.text|) else []);
        var done := FlushLedger(job.g, job.g.mode(st.chain[|st.chain| - 1]), all, SubAccount(job.g, fuel - 1, read));
        Account(done.out, done.skipped)
      case Some(hit) =>
        var at, to := hit.index, hit.index + hit.length;
        match Round(job, fuel - 1, st, i, at, to)
        case Done(next) =>
          RoundsAccount(job, fuel - 1, next.0, RoundLedger(job, fuel - 1, st, l, i, at, to), at + next.1)
        case _ => NO_ACCOUNT
  }

  function TextAccount(g: Engine, fuel: nat, name: string, text: string, ignoreIllegals: bool,
                       continuation: Option<seq<ModeId>>): Account
    decreases fuel, 3, 0
  {
    match g.Find(name)
    case None => NO_ACCOUNT
    case Some(root) =>
      var job := Job(g, text, ignoreIllegals, g.mode(root).caseInsensitive);
      var st := Initial(g, continuation.GetOr([root]));
      if Rounds(job, fuel, st, 0).Illegal? then WholeText(text)
      else RoundsAccount(job, fuel, st, Ledger([], [], {}), 0)
  }

  function AutoAccount(g: Engine, fuel: nat, names: seq<string>, text: string, best: Highlighted, account: Account):
    Account
    decreases fuel, 4, |names|
  {
    if names == [] then account
    else if g.Find(names[0]) == None then AutoAccount(g, fuel, names[1..], text, best, account)
    else
      match HighlightText(g, fuel, names[0], text, false, None)
      case Done(t) =>
        if t.relevance > best.relevance then
          AutoAccount(g, fuel, names[1..], text, t.(language := Some(names[0])),
                      TextAccount(g, fuel, names[0], text, false, None))
        else AutoAccount(g, fuel, names[1..], text, best, account)
      case _ => NO_ACCOUNT
  }

  /** The positions of a text that highlighting it passes over. */
  function PassedOver(g: Engine, fuel: nat, name: string, text: string, ignoreIllegals: bool): set<nat> {
    TextAccount(g, fuel, name, text, ignoreIllegals, None).skipped
  }

  // ---------------------------------------------------------------- arithmetic of positions

  lemma {:induction false} SamePositions(n: nat, a: set<nat>, b: set<nat>)
    requires forall p :: p < n ==> (p in a <==> p in b)
    ensures Positions(n, a) == Positions(n, b)
  {
    if n > 0 {
      SamePositions(n - 1, a, b);
    }
  }

  predicate Within(gone: set<nat>, n: nat) {
    forall p <- gone :: p < n
  }

  lemma {:induction false} MorePositions(i: nat, j: nat, gone: set<nat>)
    requires i <= j && Within(gone, i)
    ensures Positions(j, gone) == Positions(i, gone) + Range(i, j)
    decreases j
  {
    if i == j {
      Nothing(Positions(i, gone));
    } else {
      MorePositions(i, j - 1, gone);
      Assoc(Positions(i, gone), Range(i, j - 1), [j - 1]);
      assert Range(i, j - 1) + [j - 1] == Range(i, j);
    }
  }

  lemma SkipPosition(at: nat, gone: set<nat>)
    requires Within(gone, at)
    ensures Positions(at + 1, gone + {at}) == Positions(at, gone) && Within(gone + {at}, at + 1)
  {
    SamePositions(at, gone, gone + {at});
    Nothing(Positions(at, gone + {at}));
  }

  lemma {:induction false} PositionsIncrease(n: nat, gone: set<nat>)
    ensures Below(Positions(n, gone), n)
    ensures forall i, j :: 0 <= i < j < |Positions(n, gone)| ==> Positions(n, gone)[i] < Positions(n, gone)[j]
  {
    if n > 0 {
      PositionsIncrease(n - 1, gone);
    }
  }

  /** The positions in `at` that are not in `gone`. */
  function Without(at: seq<nat>, gone: set<nat>): seq<nat> {
    if at == [] then []
    else
      var n := |at| - 1;
      Without(at[..n], gone) + if at[n] in gone then [] else [at[n]]
  }

  lemma WithoutSnoc(at: seq<nat>, p: nat, gone: set<nat>)
    ensures Without(at + [p], gone) == Without(at, gone) + if p in gone then [] else [p]
  {
    assert (at + [p])[..|at|] == at;
  }

  lemma {:induction false} WithoutPositions(n: nat, a: set<nat>, b: set<nat>, both: set<nat>)
    requires forall p :: p in both <==> p in a || p in b
    ensures Without(Positions(n, a), b) == Positions(n, both)
  {
    if n > 0 {
      var p := Positions(n - 1, a);
      WithoutPositions(n - 1, a, b, both);
      PositionsSnoc(n - 1, a);
      PositionsSnoc(n - 1, both);
      hide Positions, Without;
      if n - 1 !in a {
        WithoutSnoc(p, n - 1, b);
        Nothing(Without(p, b));
      }
    }
  }

  lemma PositionsSnoc(n: nat, gone: set<nat>)
    ensures Positions(n + 1, gone) == if n in gone then Positions(n, gone) else Positions(n, gone) + [n]
  {
    Nothing(Positions(n, gone));
  }

  lemma {:induction false} WithoutSum(a: seq<nat>, b: seq<nat>, gone: set<nat>)
    ensures Without(a + b, gone) == Without(a, gone) + Without(b, gone)
    decreases |b|
  {
    if b == [] {
      Nothing(a);
      Nothing(Without(a, gone));
    } else {
      hide Without;
      var n := |b| - 1;
      WithoutSum(a, b[..n], gone);
      SplitLast(b);
      Assoc(a, b[..n], [b[n]]);
      WithoutSnoc(a + b[..n], b[n], gone);
      WithoutSnoc(b[..n], b[n], gone);
      Assoc(Without(a, gone), Without(b[..n], gone), if b[n] in gone then [] else [b[n]]);
    }
  }

  lemma {:induction false} WithoutNone(a: seq<nat>, gone: set<nat>)
    requires forall k :: 0 <= k < |a| ==> a[k] !in gone
    ensures Without(a, gone) == a
  {
    if a != [] {
      WithoutNone(a[..|a| - 1], gone);
      SplitLast(a);
    }
  }

  predicate Distinct(a: seq<nat>) {
    forall i, j :: 0 <= i < j < |a| ==> a[i] != a[j]
  }

  lemma {:induction false} ComposePositions(outer: seq<nat>, k: nat, inner: set<nat>)
    requires Distinct(outer) && k <= |outer|
    ensures Compose(outer, Positions(k, inner)) == Without(outer[..k], Image(outer, inner))
  {
    if k > 0 {
      ComposePositions(outer, k - 1, inner);
      SplitLast(outer[..k]);
      assert outer[..k][..k - 1] == outer[..k - 1];
      ImageAt(outer, inner, k - 1);
      WithoutSnoc(outer[..k - 1], outer[k - 1], Image(outer, inner));
      ComposeSnoc(outer, Positions(k - 1, inner), k - 1);
      Nothing(Positions(k - 1, inner));
      Nothing(Without(outer[..k - 1], Image(outer, inner)));
    }
  }

  lemma ImageAt(outer: seq<nat>, inner: set<nat>, k: nat)
    requires Distinct(outer) && k < |outer|
    ensures outer[k] in Image(outer, inner) <==> k in inner
  {
  }

  lemma ComposeSnoc(outer: seq<nat>, at: seq<nat>, p: nat)
    requires p < |outer|
    ensures Compose(outer, at + [p]) == Compose(outer, at) + [outer[p]]
  {
  }

  /** Writing pending text through a call that passes over some of it passes over the same in the whole text. */
  lemma EmbedPositions(out: seq<nat>, pending: seq<nat>, n: nat, gone: set<nat>, inner: set<nat>)
    requires out + pending == Positions(n, gone) && Within(gone, n)
    ensures var all := gone + Image(pending, inner);
            out + Compose(pending, Positions(|pending|, inner)) == Positions(n, all) && Within(all, n)
  {
    var all := Positions(n, gone);
    PositionsIncrease(n, gone);
    assert forall k :: 0 <= k < |out| ==> out[k] == all[k];
    assert forall k :: 0 <= k < |pending| ==> pending[k] == all[|out| + k];
    var image := Image(pending, inner);
    assert pending[..|pending|] == pending;
    ComposePositions(pending, |pending|, inner);
    WithoutNone(out, image);
    WithoutSum(out, pending, image);
    WithoutPositions(n, gone, image, gone + image);
  }

  lemma {:induction false} PickPositions(s: string, n: nat, gone: set<nat>)
    requires n <= |s|
    ensures Pick(s, Positions(n, gone)) == Omit(s[..n], gone)
  {
    if n > 0 {
      PickPositions(s, n - 1, gone);
      assert s[..n][..n - 1] == s[..n - 1];
      assert Pick(s, Positions(n - 1, gone) + [n - 1]) == Pick(s, Positions(n - 1, gone)) + [s[n - 1]];
    }
  }

  lemma {:induction false} OmitLength(s: string, gone: set<nat>)
    ensures |Omit(s, gone)| <= |s|
    ensures Omit(s, gone) == s <==> forall p :: p < |s| ==> p !in gone
  {
    if s != "" {
      var n := |s| - 1;
      OmitLength(s[..n], gone);
      SplitLast(s);
    }
  }

  // ---------------------------------------------------------------- what a run passes over

  /** No mode both excludes and returns its end. */
  ghost predicate NoEcho(g: Engine) {
    forall id: ModeId :: !(g.mode(id).excludeEnd && g.mode(id).returnEnd)
  }

  /** Up to `n`, every position is written or pending, in order, or passed over. */
  ghost predicate Whole(l: Ledger, n: nat) {
    l.out + l.pending == Positions(n, l.skipped) && Within(l.skipped, n)
  }

  /** The same once the pending text is written. */
  ghost predicate Written(l: Ledger, n: nat) {
    l.out == Positions(n, l.skipped) && Within(l.skipped, n)
  }

  ghost predicate Complete(a: Account, n: nat) {
    a.origins == Positions(n, a.skipped) && Within(a.skipped, n)
  }

  lemma WholeIsComplete(text: string)
    ensures Complete(WholeText(text), |text|)
  {
    MorePositions(0, |text|, {});
    Nothing(Range(0, |text|));
  }

  lemma Take(l: Ledger, i: nat, j: nat)
    requires Whole(l, i) && i <= j
    ensures Whole(l.(pending := l.pending + Range(i, j)), j)
  {
    MorePositions(i, j, l.skipped);
    Assoc(l.out, l.pending, Range(i, j));
  }

  lemma FlushWhole(g: Engine, m: Mode, l: Ledger, sub: Account, n: nat)
    requires Whole(l, n) && (SubLanguage(g, m).Some? ==> Complete(sub, |l.pending|))
    ensures Written(FlushLedger(g, m, l, sub), n)
  {
    if SubLanguage(g, m).Some? {
      EmbedPositions(l.out, l.pending, n, l.skipped, sub.skipped);
    }
  }

  lemma StartWhole(m: Mode, l: Ledger, at: nat, to: nat)
    requires Written(l, at) && at <= to
    ensures Whole(StartLedger(m, l, Range(at, to)), if m.returnBegin then at else to)
  {
    MorePositions(at, to, l.skipped);
    Nothing(l.out);
    Nothing(l.out + Range(at, to));
  }

  lemma EndWhole(g: Engine, chain: seq<ModeId>, e: nat, l: Ledger, at: nat, to: nat)
    requires NoEcho(g) && e < |chain| && at <= to
    requires var m := g.mode(chain[|chain| - 1]);
             Written(l, if m.returnEnd || m.excludeEnd then at else to)
    ensures Whole(EndLedger(g, chain, e, l, Range(at, to)), if g.mode(chain[|chain| - 1]).returnEnd then at else to)
  {
    var m := g.mode(chain[|chain| - 1]);
    if m.excludeEnd {
      MorePositions(at, to, l.skipped);
    }
    Nothing(l.out);
    var left := l.(out := l.out + (if m.excludeEnd then Range(at, to) else []), pending := []);
    Nothing(left.out);
    match g.mode(chain[e]).starts
    case None =>
    case Some(id) =>
      var n := if m.returnEnd then at else to;
      assert Range(n, n) == [];
      StartWhole(g.mode(id), left, n, n);
  }

  lemma KeepWhole(l: Ledger, at: nat, to: nat, length: nat)
    requires Whole(l, at) && at <= to <= length
    ensures Whole(KeepLedger(l, at, to, length), if at == to then Min(at + 1, length) else to)
  {
    if at == to < length {
      SkipPosition(at, l.skipped);
    } else {
      Take(l, at, to);
    }
  }

  /** The pending text and its origins have one length. */
  predicate Level(st: State, l: Ledger) {
    |st.pending| == |l.pending|
  }

  ghost predicate SubComplete(g: Engine, st: State, sub: Outcome<Highlighted>, a: Account)
    requires st.chain != []
  {
    SubLanguage(g, g.mode(st.chain[|st.chain| - 1])).Some? && sub.Done? ==> Complete(a, |st.pending|)
  }

  lemma FlushNeedsSub(job: Job, st: State, sub: Outcome<Highlighted>)
    requires st.chain != []
    ensures Flush(job, st, sub).Done? && SubLanguage(job.g, job.g.mode(st.chain[|st.chain| - 1])).Some? ==> sub.Done?
  {
    hide PlainFlush;
  }

  lemma {:induction false} RoundWhole(job: Job, fuel: nat, st: State, l: Ledger, i: nat, at: nat, to: nat)
    requires NoEcho(job.g) && st.chain != [] && i <= at <= to <= |job.text|
    requires Whole(l, i) && Level(st, l)
    ensures var r := Round(job, fuel, st, i, at, to);
            var next := RoundLedger(job, fuel, st, l, i, at, to);
            r.Done? ==> Whole(next, Min(at + r.result.1, |job.text|)) && Level(r.result.0, next)
    decreases fuel, 6, 0
  {
    hide Sub, SubAccount, Flush, FlushLedger, Decide, Chars, Closing, SpansOf, Total, Whole, Written;
    var g, m := job.g, job.g.mode(st.chain[|st.chain| - 1]);
    var read := Meet(job, st, i, at);
    var lexeme, range := job.text[at..to], Range(at, to);
    var plan := Decide(job, st.chain, lexeme);
    var met := l.(pending := l.pending + Range(i, at));
    Take(l, i, at);
    if plan.Keep? {
      KeepWhole(met, at, to, |job.text|);
    } else if plan.Begin? || plan.End? {
      var ready, readied := Ready(job, read, plan, lexeme), ReadyLedger(m, plan, met, range);
      var n := if plan.End? && !m.returnEnd && !m.excludeEnd then to else at;
      if n == to {
        Take(met, at, to);
      }
      SubWhole(g, fuel, ready);
      FlushNeedsSub(job, ready, Sub(g, fuel, ready));
      if Flush(job, ready, Sub(g, fuel, ready)).Done? {
        FlushWhole(g, m, readied, SubAccount(g, fuel, ready), n);
        var flushed := FlushLedger(g, m, readied, SubAccount(g, fuel, ready));
        if plan.Begin? {
          StartWhole(g.mode(plan.id), flushed, at, to);
        } else {
          EndWhole(g, st.chain, plan.at, flushed, at, to);
        }
      }
    }
  }

  lemma {:induction false} SubWhole(g: Engine, fuel: nat, st: State)
    requires NoEcho(g) && st.chain != []
    ensures SubComplete(g, st, Sub(g, fuel, st), SubAccount(g, fuel, st))
    decreases fuel, 5, 0
  {
    hide NoEcho;
    match SubLanguage(g, g.mode(st.chain[|st.chain| - 1]))
    case None =>
    case Some(name) =>
      if name == "" {
        WholeIsComplete(st.pending);
        AutoWhole(g, fuel, g.names, st.pending, NoLanguage(st.pending), WholeText(st.pending));
      } else {
        TextWhole(g, fuel, name, st.pending, true, if name in st.tops then Some(st.tops[name]) else None);
      }
  }

  lemma {:induction false} RoundsWhole(job: Job, fuel: nat, st: State, l: Ledger, i: nat)
    requires NoEcho(job.g) && Whole(l, Min(i, |job.text|)) && Level(st, l)
    ensures Rounds(job, fuel, st, i).Done? ==> Complete(RoundsAccount(job, fuel, st, l, i), |job.text|)
    decreases fuel, 2, 0
  {
    hide Round, RoundLedger, Sub, SubAccount, Flush, FlushLedger, NoEcho, Whole;
    if fuel == 0 || st.chain == [] {
      return;
    }
    match Terminator(job, st.chain, i)
    case None =>
      var n := Min(i, |job.text|);
      var read := st.(pending := st.pending + Rest(job.text, i));
      var all := l.(pending := l.pending + Range(n, |job.text|));
      Take(l, n, |job.text|);
      assert i > |job.text| ==> Range(n, |job.text|) == [];
      SubWhole(job.g, fuel - 1, read);
      FlushNeedsSub(job, read, Sub(job.g, fuel - 1, read));
      if Flush(job, read, Sub(job.g, fuel - 1, read)).Done? {
        FlushWhole(job.g, job.g.mode(st.chain[|st.chain| - 1]), all, SubAccount(job.g, fuel - 1, read), |job.text|);
      }
    case Some(hit) =>
      var at, to := hit.index, hit.index + hit.length;
      var next := Round(job, fuel - 1, st, i, at, to);
      if next.Done? {
        RoundInside(job, fuel - 1, st, i, at, to);
        RoundWhole(job, fuel - 1, st, l, i, at, to);
        RoundsWhole(job, fuel - 1, next.result.0, RoundLedger(job, fuel - 1, st, l, i, at, to), at + next.result.1);
      }
  }

  lemma RoundInside(job: Job, fuel: nat, st: State, i: nat, at: nat, to: nat)
    requires st.chain != [] && Round(job, fuel, st, i, at, to).Done?
    ensures i <= at <= to <= |job.text|
  {
  }

  lemma {:induction false} TextWhole(g: Engine, fuel: nat, name: string, text: string, ignoreIllegals: bool,
                                     continuation: Option<seq<ModeId>>)
    requires NoEcho(g)
    ensures HighlightText(g, fuel, name, text, ignoreIllegals, continuation).Done? ==>
              Complete(TextAccount(g, fuel, name, text, ignoreIllegals, continuation), |text|)
    decreases fuel, 3, 0
  {
    hide Rounds, RoundsAccount, NoEcho, SpansOf, Opening;
    var found := g.Find(name);
    if found.Some? {
      var job := Job(g, text, ignoreIllegals, g.mode(found.value).caseInsensitive);
      var st := Initial(g, continuation.GetOr([found.value]));
      WholeIsComplete(text);
      RoundsWhole(job, fuel, st, Ledger([], [], {}), 0);
    }
  }

  lemma {:induction false} AutoWhole(g: Engine, fuel: nat, names: seq<string>, text: string, best: Highlighted,
                                     account: Account)
    requires NoEcho(g) && Complete(account, |text|)
    ensures Auto(g, fuel, names, text, best).Done? ==>
              Complete(AutoAccount(g, fuel, names, text, best, account), |text|)
    decreases fuel, 4, |names|
  {
    hide HighlightText, TextAccount, NoEcho, Complete;
    if names != [] {
      if g.Find(names[0]) == None {
        AutoWhole(g, fuel, names[1..], text, best, account);
      } else {
        TextWhole(g, fuel, names[0], text, false, None);
        var t := HighlightText(g, fuel, names[0], text, false, None);
        if t.Done? {
          if t.result.relevance > best.relevance {
            AutoWhole(g, fuel, names[1..], text, t.result.(language := Some(names[0])),
                      TextAccount(g, fuel, names[0], text, false, None));
          } else {
            AutoWhole(g, fuel, names[1..], text, best, account);
          }
        }
      }
    }
  }

  // ---------------------------------------------------------------- when nothing is passed over

  /** An empty lexeme is claimed: it begins a contained mode or ends an enclosing one. */
  predicate Claimed(g: Engine, chain: seq<ModeId>)
    requires chain != []
  {
    || SubMode(g, g.mode(chain[|chain| - 1]).contains, "").Some?
    || (var end := EndOfMode(g, chain, |chain| - 1, ""); !end.Done? || end.result.Some?)
  }

  predicate MatchesNothing(g: Engine, chain: seq<ModeId>, text: string, i: nat)
    requires chain != []
  {
    var hit := g.exec(g.mode(chain[|chain| - 1]).terminators, text, i);
    hit.Some? && hit.value.length == 0
  }

  /** Wherever a terminator matches nothing, the empty lexeme is claimed. */
  ghost predicate EmptyIsClaimed(g: Engine) {
    forall chain: seq<ModeId>, text: string, i: nat ::
      chain != [] && MatchesNothing(g, chain, text, i) ==> Claimed(g, chain)
  }

  lemma KeptIsUnclaimed(job: Job, chain: seq<ModeId>, i: nat, hit: Hit, lexeme: string)
    requires EmptyIsClaimed(job.g) && chain != [] && Terminator(job, chain, i) == Some(hit) && hit.length == |lexeme|
    ensures lexeme == "" ==> !Decide(job, chain, lexeme).Keep?
  {
    assert lexeme == "" ==> MatchesNothing(job.g, chain, job.text, i);
  }

  lemma {:induction false} SubSkipsNothing(g: Engine, fuel: nat, st: State)
    requires EmptyIsClaimed(g) && st.chain != []
    ensures SubAccount(g, fuel, st).skipped == {}
    decreases fuel, 5, 0
  {
    hide EmptyIsClaimed;
    match SubLanguage(g, g.mode(st.chain[|st.chain| - 1]))
    case None =>
    case Some(name) =>
      if name == "" {
        AutoSkipsNothing(g, fuel, g.names, st.pending, NoLanguage(st.pending), WholeText(st.pending));
      } else {
        TextSkipsNothing(g, fuel, name, st.pending, true, if name in st.tops then Some(st.tops[name]) else None);
      }
  }

  lemma {:induction false} RoundSkipsNothing(job: Job, fuel: nat, st: State, l: Ledger, i: nat, hit: Hit)
    requires EmptyIsClaimed(job.g) && st.chain != [] && l.skipped == {} && Terminator(job, st.chain, i) == Some(hit)
    requires i <= hit.index && hit.index + hit.length <= |job.text|
    ensures RoundLedger(job, fuel, st, l, i, hit.index, hit.index + hit.length).skipped == {}
    decreases fuel, 6, 0
  {
    hide SubAccount, Decide, EmptyIsClaimed;
    var at, to := hit.index, hit.index + hit.length;
    var lexeme := job.text[at..to];
    var plan := Decide(job, st.chain, lexeme);
    KeptIsUnclaimed(job, st.chain, i, hit, lexeme);
    SubSkipsNothing(job.g, fuel, Ready(job, Meet(job, st, i, at), plan, lexeme));
  }

  lemma {:induction false} RoundsSkipNothing(job: Job, fuel: nat, st: State, l: Ledger, i: nat)
    requires EmptyIsClaimed(job.g) && l.skipped == {}
    ensures RoundsAccount(job, fuel, st, l, i).skipped == {}
    decreases fuel, 2, 0
  {
    hide Round, RoundLedger, SubAccount, EmptyIsClaimed;
    if fuel == 0 || st.chain == [] {
      return;
    }
    match Terminator(job, st.chain, i)
    case None =>
      SubSkipsNothing(job.g, fuel - 1, st.(pending := st.pending + Rest(job.text, i)));
    case Some(hit) =>
      var at, to := hit.index, hit.index + hit.length;
      var next := Round(job, fuel - 1, st, i, at, to);
      if next.Done? {
        RoundInside(job, fuel - 1, st, i, at, to);
        RoundSkipsNothing(job, fuel - 1, st, l, i, hit);
        var l' := RoundLedger(job, fuel - 1, st, l, i, at, to);
        RoundsSkipNothing(job, fuel - 1, next.result.0, l', at + next.result.1);
      }
  }

  /** A grammar that claims its empty lexemes passes over no character of any text. */
  lemma {:induction false} TextSkipsNothing(g: Engine, fuel: nat, name: string, text: string, ignoreIllegals: bool,
                                            continuation: Option<seq<ModeId>>)
    requires EmptyIsClaimed(g)
    ensures TextAccount(g, fuel, name, text, ignoreIllegals, continuation).skipped == {}
    decreases fuel, 3, 0
  {
    hide Rounds, RoundsAccount, EmptyIsClaimed, SpansOf, Opening;
    var found := g.Find(name);
    if found.Some? {
      var job := Job(g, text, ignoreIllegals, g.mode(found.value).caseInsensitive);
      RoundsSkipNothing(job, fuel, Initial(g, continuation.GetOr([found.value])), Ledger([], [], {}), 0);
    }
  }

  lemma {:induction false} AutoSkipsNothing(g: Engine, fuel: nat, names: seq<string>, text: string, best: Highlighted,
                                            account: Account)
    requires EmptyIsClaimed(g) && account.skipped == {}
    ensures AutoAccount(g, fuel, names, text, best, account).skipped == {}
    decreases fuel, 4, |names|
  {
    hide HighlightText, TextAccount, EmptyIsClaimed;
    if names != [] {
      if g.Find(names[0]) == None {
        AutoSkipsNothing(g, fuel, names[1..], text, best, account);
      } else {
        TextSkipsNothing(g, fuel, names[0], text, false, None);
        var t := HighlightText(g, fuel, names[0], text, false, None);
        if t.Done? {
          if t.result.relevance > best.relevance {
            AutoSkipsNothing(g, fuel, names[1..], text, t.result.(language := Some(names[0])),
                             TextAccount(g, fuel, names[0], text, false, None));
          } else {
            AutoSkipsNothing(g, fuel, names[1..], text, best, account);
          }
        }
      }
    }
  }
}
