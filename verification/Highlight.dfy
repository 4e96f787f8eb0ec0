/** The highlighting engine: a pushdown transducer over lexemes, with an arbitrary oracle for regular expressions. */
module Highlight {
  import opened Basics
  import opened Markup

  type ModeId = nat
  type Regex = nat

  /** One compiled entry of a grammar. A chain of modes is the parent-linked stack, the language's own mode first. */
  datatype Mode = Mode(
    className: string,                               // "" when the mode has none
    keywords: Option<map<string, (string, int)>>,    // word to class and relevance
    lexemes: Regex,
    contains: seq<ModeId>,
    begin: Regex,
    end: Option<Regex>,
    endsWithParent: bool,
    endsParent: bool,
    returnBegin: bool,
    excludeBegin: bool,
    returnEnd: bool,
    excludeEnd: bool,
    starts: Option<ModeId>,
    illegal: Option<Regex>,
    terminators: Regex,
    subLanguage: Option<string>,                     // Some("") asks for automatic detection
    continuous: bool,
    relevance: int,
    caseInsensitive: bool)

  datatype Hit = Hit(index: nat, length: nat)

  datatype Engine = Engine(
    mode: ModeId -> Mode,
    languages: map<string, ModeId>,
    names: seq<string>,                              // the registered names, in order
    aliases: map<string, string>,
    test: (Regex, string) -> bool,                   // the expression matches at index 0
    exec: (Regex, string, nat) -> Option<Hit>)       // first match from an index on; a hit outside the
                                                     // text is no answer of a matcher, so no run goes past it
  {
    function Find(name: string): Option<ModeId> {
      if name in languages then Some(languages[name])
      else if name in aliases && aliases[name] in languages then Some(languages[aliases[name]])
      else None
    }
  }

  /** What a call comes to: a result, an illegal lexeme, another exception, or no return within the fuel. */
  datatype Outcome<+T> = Done(result: T) | Illegal | Thrown | Unfinished

  /** The variables of one call. */
  datatype State = State(
    chain: seq<ModeId>,
    out: seq<Token>,
    pending: string,
    relevance: int,
    tops: map<string, seq<ModeId>>)
  {
    function Write(ts: seq<Token>): State {
      this.(out := out + ts)
    }
  }

  datatype Highlighted = Highlighted(
    relevance: int,
    value: seq<Token>,
    language: Option<string>,
    top: Option<seq<ModeId>>)

  datatype Job = Job(g: Engine, text: string, ignoreIllegals: bool, lower: bool)

  const CLASS_PREFIX := "hljs-"

  function Span(cls: string): Node {
    Node(0, "span", [("class", cls)])
  }

  function Inner(chain: seq<ModeId>): seq<ModeId> {
    if chain == [] then [] else chain[1..]
  }

  function Rest(s: string, i: nat): string {
    if i <= |s| then s[i..] else ""
  }

  /** The spans that the class-bearing modes among `ids` stand for, outermost first. */
  function SpansOf(g: Engine, ids: seq<ModeId>): seq<Node> {
    if ids == [] then []
    else
      var cls := g.mode(ids[|ids| - 1]).className;
      SpansOf(g, ids[..|ids| - 1]) + (if cls == "" then [] else [Span(CLASS_PREFIX + cls)])
  }

  // ---------------------------------------------------------------- keywords

  function KeywordMatch(m: Mode, word: string, lower: bool): Option<(string, int)> {
    var w := if lower then ToLower(word) else word;
    if m.keywords.Some? && w in m.keywords.value then Some(m.keywords.value[w]) else None
  }

  /** One word, in a span if it is a keyword, and its relevance. */
  function Word(m: Mode, word: string, lower: bool): (seq<Token>, int) {
    match KeywordMatch(m, word, lower)
    case None => (Chars(word), 0)
    case Some(k) =>
      var span := Span(CLASS_PREFIX + k.0);
      ([Open(span)] + Chars(word) + [Close(span)], k.1)
  }

  /** The pending text with its keywords in spans, and their relevance; an empty match never ends the loop. */
  function Keywords(g: Engine, m: Mode, lower: bool, text: string, from: nat): Outcome<(seq<Token>, int)>
    requires from <= |text|
    decreases |text| - from
  {
    match g.exec(m.lexemes, text, from)
    case None => Done((Chars(text[from..]), 0))
    case Some(hit) =>
      if hit.length == 0 || hit.index < from || hit.index + hit.length > |text| then Unfinished
      else
        match Keywords(g, m, lower, text, hit.index + hit.length)
        case Done(rest) =>
          var word := Word(m, text[hit.index..hit.index + hit.length], lower);
          Done((Chars(text[from..hit.index]) + word.0 + rest.0, word.1 + rest.1))
        case _ => Unfinished
  }

  // ---------------------------------------------------------------- choosing what a lexeme does

  /** The first contained mode whose beginning matches. */
  function SubMode(g: Engine, ids: seq<ModeId>, lexeme: string): Option<ModeId> {
    if ids == [] then None
    else if g.test(g.mode(ids[0]).begin, lexeme) then Some(ids[0])
    else SubMode(g, ids[1..], lexeme)
  }

  /** How far up an ending mode takes its parents along. */
  function Climb(g: Engine, chain: seq<ModeId>, at: nat): (r: nat)
    requires at < |chain|
    ensures r <= at
  {
    if at > 0 && g.mode(chain[at]).endsParent then Climb(g, chain, at - 1) else at
  }

  /** The position in the chain that the lexeme ends, if any; reading past the root is an exception. */
  function EndOfMode(g: Engine, chain: seq<ModeId>, at: nat, lexeme: string): (r: Outcome<Option<nat>>)
    requires at < |chain|
    ensures r.Done? && r.result.Some? ==> r.result.value <= at
  {
    var m := g.mode(chain[at]);
    if m.end.Some? && g.test(m.end.value, lexeme) then Done(Some(Climb(g, chain, at)))
    else if !m.endsWithParent then Done(None)
    else if at == 0 then Thrown
    else EndOfMode(g, chain, at - 1, lexeme)
  }

  predicate IsIllegal(job: Job, m: Mode, lexeme: string) {
    !job.ignoreIllegals && m.illegal.Some? && job.g.test(m.illegal.value, lexeme)
  }

  // ---------------------------------------------------------------- the transducer

  function Total(g: Engine, ids: seq<ModeId>): int {
    if ids == [] then 0 else Total(g, ids[..|ids| - 1]) + g.mode(ids[|ids| - 1]).relevance
  }

  /** Enter a mode on a lexeme. */
  function StartMode(g: Engine, st: State, id: ModeId, lexeme: string): State {
    var m := g.mode(id);
    var span := if m.className == "" then [] else [Open(Span(CLASS_PREFIX + m.className))];
    var entered := st.(chain := st.chain + [id]);
    if m.returnBegin then entered.Write(span).(pending := "")
    else if m.excludeBegin then entered.Write(Chars(lexeme) + span).(pending := "")
    else entered.Write(span).(pending := lexeme)
  }

  /** Leave every mode from position `at` up, the pending text being written already. */
  function LeaveModes(g: Engine, st: State, at: nat, lexeme: string): State
    requires at < |st.chain|
  {
    var m := g.mode(st.chain[|st.chain| - 1]);
    st.Write(Closing(SpansOf(g, st.chain[at..])) + if m.excludeEnd then Chars(lexeme) else [])
      .(chain := st.chain[..at],
        relevance := st.relevance + Total(g, st.chain[at..]),
        pending := "")
  }

  function EndMode(g: Engine, st: State, at: nat, lexeme: string): State
    requires at < |st.chain|
  {
    match g.mode(st.chain[at]).starts
    case None => LeaveModes(g, st, at, lexeme)
    case Some(id) => StartMode(g, LeaveModes(g, st, at, lexeme), id, "")
  }

  /** Write a sub-language's markup, inside a span that names the language. */
  function Embed(st: State, m: Mode, name: string, e: Highlighted): State {
    var span := Span(e.language.GetOr("undefined"));
    st.Write([Open(span)] + e.value + [Close(span)])
      .(relevance := st.relevance + (if m.relevance > 0 then e.relevance else 0),
        tops := if !m.continuous then st.tops
                else if e.top == None then st.tops - {name}
                else st.tops[name := e.top.value])
  }

  /** The name of the sub-language the pending text goes to, "" for automatic detection. */
  function SubLanguage(g: Engine, m: Mode): Option<string> {
    if m.subLanguage.Some? && (m.subLanguage.value == "" || m.subLanguage.value in g.languages) then m.subLanguage
    else None
  }

  /** The pending text without a sub-language: with keywords in spans, or as it is. */
  function PlainFlush(job: Job, m: Mode, st: State): Outcome<State> {
    if m.subLanguage.Some? || m.keywords == None then Done(st.Write(Chars(st.pending)))
    else
      match Keywords(job.g, m, job.lower, st.pending, 0)
      case Done(words) => Done(st.Write(words.0).(relevance := st.relevance + words.1))
      case _ => Unfinished
  }

  /**
   * Write the pending text: through a sub-language or automatic detection, of which `sub` is the outcome, or with
   * keywords.
   */
  function Flush(job: Job, st: State, sub: Outcome<Highlighted>): (r: Outcome<State>)
    requires st.chain != []
    ensures r.Done? ==> r.result.chain == st.chain && r.result.pending == st.pending
  {
    var m := job.g.mode(st.chain[|st.chain| - 1]);
    match SubLanguage(job.g, m)
    case None => PlainFlush(job, m, st)
    case Some(name) =>
      match sub
      case Done(e) => Done(Embed(st, m, name, e))
      case Illegal => Illegal
      case Thrown => Thrown
      case Unfinished => Unfinished
  }

  /** What a lexeme does. */
  datatype Plan = Begin(id: ModeId) | End(at: nat) | Keep | Reject | Fail

  function Decide(job: Job, chain: seq<ModeId>, lexeme: string): (p: Plan)
    requires chain != []
    ensures p.End? ==> p.at < |chain|
  {
    var m := job.g.mode(chain[|chain| - 1]);
    match SubMode(job.g, m.contains, lexeme)
    case Some(id) => Begin(id)
    case None =>
      match EndOfMode(job.g, chain, |chain| - 1, lexeme)
      case Done(Some(at)) => End(at)
      case Done(None) => if IsIllegal(job, m, lexeme) then Reject else Keep
      case _ => Fail
  }

  /** The text to be written before a lexeme is acted on. */
  function Ready(job: Job, st: State, plan: Plan, lexeme: string): (r: State)
    requires st.chain != []
    ensures r.chain == st.chain && r.tops == st.tops
  {
    var m := job.g.mode(st.chain[|st.chain| - 1]);
    if plan.End? && !m.returnEnd && !m.excludeEnd then st.(pending := st.pending + lexeme) else st
  }

  /** Acting on a lexeme that begins or ends a mode, the pending text being written. */
  function Act(g: Engine, st: State, plan: Plan, lexeme: string): State
    requires plan.Begin? || (plan.End? && plan.at < |st.chain|)
  {
    if plan.Begin? then StartMode(g, st, plan.id, lexeme) else EndMode(g, st, plan.at, lexeme)
  }

  /** How far past its start a lexeme that begins or ends a mode moves the index. */
  function Advance(g: Engine, chain: seq<ModeId>, plan: Plan, lexeme: string): (r: nat)
    requires chain != []
    ensures r <= |lexeme|
  {
    var returned := if plan.Begin? then g.mode(plan.id).returnBegin else g.mode(chain[|chain| - 1]).returnEnd;
    if returned then 0 else |lexeme|
  }

  /** An unclaimed lexeme is kept as text; an empty one moves the index on all the same. */
  function KeepLexeme(st: State, lexeme: string): (State, nat) {
    (st.(pending := st.pending + lexeme), if lexeme == "" then 1 else |lexeme|)
  }

  /**
   * Process a lexeme once the text before it is read; `flushed` is what writing the pending text came to.
   * The second result is how far to advance past the lexeme's start.
   */
  function Lexeme(job: Job, st: State, plan: Plan, lexeme: string, flushed: Outcome<State>): Outcome<(State, nat)>
    requires st.chain != []
    requires plan.End? && flushed.Done? ==> plan.at < |flushed.result.chain|
  {
    match plan
    case Keep => Done(KeepLexeme(st, lexeme))
    case Reject => Illegal
    case Fail => Thrown
    case _ =>
      match flushed
      case Done(f) => Done((Act(job.g, f, plan, lexeme), Advance(job.g, st.chain, plan, lexeme)))
      case Illegal => Illegal
      case Thrown => Thrown
      case Unfinished => Unfinished
  }

  /** The embedded highlighting that writing the pending text asks for, if it does. */
  function Sub(g: Engine, fuel: nat, st: State): Outcome<Highlighted>
    requires st.chain != []
    decreases fuel, 5, 0
  {
    match SubLanguage(g, g.mode(st.chain[|st.chain| - 1]))
    case None => Unfinished
    case Some(name) =>
      if name == "" then Auto(g, fuel, g.names, st.pending, NoLanguage(st.pending))
      else HighlightText(g, fuel, name, st.pending, true, if name in st.tops then Some(st.tops[name]) else None)
  }

  /** Where the innermost mode's terminators match next. */
  function Terminator(job: Job, chain: seq<ModeId>, i: nat): Option<Hit>
    requires chain != []
  {
    job.g.exec(job.g.mode(chain[|chain| - 1]).terminators, job.text, i)
  }

  /** The lexeme `text[at..to]` as the loop meets it, with the text between `i` and `at` read. */
  function Meet(job: Job, st: State, i: nat, at: nat): State
    requires i <= at <= |job.text|
  {
    st.(pending := st.pending + job.text[i..at])
  }

  /** The main loop from index `i` on, and the final flush. */
  function Rounds(job: Job, fuel: nat, st: State, i: nat): Outcome<State>
    decreases fuel, 2, 0
  {
    if fuel == 0 then Unfinished
    else if st.chain == [] then Thrown
    else
      match Terminator(job, st.chain, i)
      case None =>
        var read := st.(pending := st.pending + Rest(job.text, i));
        Flush(job, read, Sub(job.g, fuel - 1, read))
      case Some(hit) =>
        match Round(job, fuel - 1, st, i, hit.index, hit.index + hit.length)
        case Done(next) => Rounds(job, fuel - 1, next.0, hit.index + next.1)
        case Illegal => Illegal
        case Thrown => Thrown
        case Unfinished => Unfinished
  }

  /** One round of the loop: the matcher, asked from `i` on, has answered `text[at..to]`. */
  function Round(job: Job, fuel: nat, st: State, i: nat, at: nat, to: nat): Outcome<(State, nat)>
    requires st.chain != []
    decreases fuel, 6, 0
  {
    if !(i <= at <= to <= |job.text|) then Unfinished
    else
    var read := Meet(job, st, i, at);
    var plan := Decide(job, st.chain, job.text[at..to]);
    var ready := Ready(job, read, plan, job.text[at..to]);
    Lexeme(job, read, plan, job.text[at..to], Flush(job, ready, Sub(job.g, fuel, ready)))
  }

  function Initial(g: Engine, chain: seq<ModeId>): State {
    State(chain, Opening(SpansOf(g, Inner(chain))), "", 0, map[])
  }

  /** Does the way up a continuation's chain come to the language's own mode? */
  predicate ReachesRoot(continuation: Option<seq<ModeId>>, root: ModeId) {
    continuation.Some? ==> continuation.value != [] && continuation.value[0] == root
  }

  /**
   * `highlight(name, text, ignoreIllegals, continuation)`. Reopening the spans of a continuation whose root has been
   * replaced reads past its last mode, which is an exception.
   */
  function HighlightText(g: Engine, fuel: nat, name: string, text: string, ignoreIllegals: bool,
                         continuation: Option<seq<ModeId>>): Outcome<Highlighted>
    decreases fuel, 3, 0
  {
    match g.Find(name)
    case None => Thrown
    case Some(root) =>
      if !ReachesRoot(continuation, root) then Thrown
      else
      var job := Job(g, text, ignoreIllegals, g.mode(root).caseInsensitive);
      match Rounds(job, fuel, Initial(g, continuation.GetOr([root])), 0)
      case Done(st) =>
        Done(Highlighted(st.relevance, st.out + Closing(SpansOf(g, Inner(st.chain))), Some(name), Some(st.chain)))
      case Illegal => Done(NoLanguage(text))
      case Thrown => Thrown
      case Unfinished => Unfinished
  }

  function NoLanguage(text: string): Highlighted {
    Highlighted(0, Chars(text), None, None)
  }

  /** `highlightAuto`: the most relevant of the named languages, or the plain text. */
  function Auto(g: Engine, fuel: nat, names: seq<string>, text: string, best: Highlighted): Outcome<Highlighted>
    decreases fuel, 4, |names|
  {
    if names == [] then Done(best)
    else if g.Find(names[0]) == None then Auto(g, fuel, names[1..], text, best)
    else
      match HighlightText(g, fuel, names[0], text, false, None)
      case Done(t) =>
        Auto(g, fuel, names[1..], text, if t.relevance > best.relevance then t.(language := Some(names[0])) else best)
      case Illegal => Illegal
      case Thrown => Thrown
      case Unfinished => Unfinished
  }
}
