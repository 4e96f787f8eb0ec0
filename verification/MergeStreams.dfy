/** Interleaving the page's own elements with the highlighter's spans over one text. */
module MergeStreams {
  import opened Basics
  import opened Markup
  import opened NodeStream
  import opened HtmlText

  predicate NoVoids(events: seq<Event>) {
    forall e <- events :: !IsVoid(e.node)
  }

  predicate Apart(original: seq<Event>, highlighted: seq<Event>) {
    forall e <- original, h <- highlighted :: e.node != h.node
  }

  function TokenOf(e: Event): Token {
    if e.Start? then Open(e.node) else Close(e.node)
  }

  /** `value.substr(from, to - from)`: empty when the length is not positive. */
  function Substr(value: string, from: nat, to: int): string {
    if from <= to <= |value| then value[from..to]
    else if from <= |value| < to then value[from..]
    else ""
  }

  /** One stream written out over its text, starting at `from`. */
  function Weave(events: seq<Event>, from: nat, value: string): seq<Token> {
    if events == [] then Chars(Substr(value, from, |value|))
    else Chars(Substr(value, from, events[0].offset)) + [TokenOf(events[0])] +
         Weave(events[1..], events[0].offset, value)
  }

  /** Is the next event taken from the page's own stream? */
  predicate TakeOriginal(e: seq<Event>, r: seq<Event>) {
    if e != [] && r != [] then
      if e[0].offset != r[0].offset then e[0].offset < r[0].offset else r[0].Start?
    else e != []
  }

  /** The two streams and the text to merge over. */
  datatype Input = Input(original: seq<Event>, highlighted: seq<Event>, value: string)

  /**
   * The loop's variables: the events left, the offset reached, the page's elements open, the stack of open spans,
   * and what is written.
   */
  datatype Loop = Loop(e: seq<Event>, r: seq<Event>, s: nat, open: seq<Node>, f: seq<Node>, out: seq<Token>)

  ghost predicate Progress(input: Input, at: Loop) {
    match at
    case Loop(e, r, s, open, f, out) =>
      && s <= |input.value|
      && WellNested(f, r)
      && Ordered(s, e, |input.value|) && Ordered(s, r, |input.value|)
      && NoVoids(r) && (forall n <- f :: !IsVoid(n))
      && (Read(out).nested && WellNested(open, e) <==> WellNested([], input.original))
      && Read(out).text == input.value[..s] && |Read(out).contexts| == s
      && (forall i: nat :: s <= i ==> OpenAt([], input.original, i) == OpenAt(open, e, i))
      && (forall i: nat :: s <= i ==> OpenAt([], input.highlighted, i) == OpenAt(f, r, i))
      && (forall i: nat :: i < s ==>
            Read(out).contexts[i] == OpenAt([], input.original, i) + OpenAt([], input.highlighted, i))
  }

  /** What is written so far, without the spans, is the page's own markup up to here. */
  ghost predicate Untouched(input: Input, at: Loop) {
    match at
    case Loop(e, r, s, _, f, out) =>
      var spans := Nodes(input.highlighted);
      && Apart(e, input.highlighted) && Nodes(r) <= spans && (forall n <- f :: n in spans)
      && Erase(out, spans) + Weave(e, s, input.value) == Weave(input.original, 0, input.value)
  }

  /** Which nodes have tags, and start tags, together with those whose events are left. */
  ghost predicate Accounted(input: Input, at: Loop) {
    match at
    case Loop(e, r, _, _, f, out) =>
      && Opened(out) + Begun(e) + Begun(r) == Begun(input.original) + Begun(input.highlighted)
      && Tagged(out) + Nodes(e) + Nodes(r) == Nodes(input.original) + Nodes(input.highlighted)
      && forall n <- f :: n in Opened(out)
  }

  /** All of it, the second for streams over different nodes. */
  ghost predicate Kept(input: Input, at: Loop) {
    match at
    case Loop(_, _, _, _, _, _) =>
      && Progress(input, at) && (Apart(input.original, input.highlighted) ==> Untouched(input, at))
      && Accounted(input, at)
  }

  // ---------------------------------------------------------------- spans that hold something

  /** Every span ends behind the character it starts before; `marks` are the offsets of those open. */
  predicate Covers(marks: seq<nat>, events: seq<Event>)
    decreases |events|
  {
    if events == [] then true
    else
      match events[0]
      case Start(offset, _) => Covers(marks + [offset], events[1..])
      case Stop(offset, _) =>
        marks != [] && marks[|marks| - 1] < offset && Covers(marks[..|marks| - 1], events[1..])
  }

  predicate Opens(t: Token, spans: set<Node>) {
    t.Open? && t.node in spans
  }

  predicate Ends(t: Token, spans: set<Node>) {
    t.Close? && t.node in spans
  }

  predicate HasChar(out: seq<Token>, i: nat, j: nat)
    requires j <= |out|
  {
    exists k :: i < k < j && out[k].Chr?
  }

  /** Between a start tag of a span and any later end tag of a span there is a character. */
  predicate NoEmptySpan(out: seq<Token>, spans: set<Node>) {
    forall i, j :: 0 <= i < j < |out| && Opens(out[i], spans) && Ends(out[j], spans) ==> HasChar(out, i, j)
  }

  /** A span was opened after the last character. */
  predicate Dangling(out: seq<Token>, spans: set<Node>) {
    exists i :: 0 <= i < |out| && Opens(out[i], spans) && !HasChar(out, i, |out|)
  }

  predicate Later(events: seq<Event>, s: nat) {
    forall e <- events :: s < e.offset
  }

  predicate StopsLater(events: seq<Event>, s: nat) {
    forall e <- events :: e.Stop? ==> s < e.offset
  }

  /** The spans written so far hold something, and one that does not yet will before the next tag that ends one. */
  ghost predicate Filled(input: Input, at: Loop, marks: seq<nat>) {
    match at
    case Loop(e, r, s, _, f, out) =>
      var spans := Nodes(input.highlighted);
      && NoEmptySpan(out, spans) && Covers(marks, r)
      && Apart(e, input.highlighted) && Nodes(r) <= spans && (forall n <- f :: n in spans)
      && (Dangling(out, spans) ==> Later(e, s) && StopsLater(r, s))
  }

  lemma CharAfter(out: seq<Token>, t: Token, i: nat, j: nat)
    requires i < |out| && j <= |out|
    ensures HasChar(out + [t], i, j) <==> HasChar(out, i, j)
    ensures HasChar(out + [t], i, |out| + 1) <==> HasChar(out, i, |out|) || t.Chr?
  {
    var next := out + [t];
    assert forall k :: 0 <= k < |out| ==> next[k] == out[k];
    assert next[|out|] == t;
  }

  lemma DanglingTag(out: seq<Token>, t: Token, spans: set<Node>)
    ensures Dangling(out + [t], spans) <==> Opens(t, spans) || (!t.Chr? && Dangling(out, spans))
  {
    hide HasChar;
    var next := out + [t];
    forall i: nat | i < |out|
      ensures next[i] == out[i]
      ensures HasChar(next, i, |next|) <==> HasChar(out, i, |out|) || t.Chr?
    {
      CharAfter(out, t, i, i);
    }
    assert next[|out|] == t && !HasChar(next, |out|, |next|) by {
      NoneBetween(next, |out|);
    }
  }

  lemma NoneBetween(out: seq<Token>, i: nat)
    requires i + 1 == |out|
    ensures !HasChar(out, i, |out|)
  {
  }

  lemma NoEmptyTag(out: seq<Token>, t: Token, spans: set<Node>)
    requires NoEmptySpan(out, spans) && (Ends(t, spans) ==> !Dangling(out, spans))
    ensures NoEmptySpan(out + [t], spans)
    ensures Dangling(out + [t], spans) <==> Opens(t, spans) || (!t.Chr? && Dangling(out, spans))
  {
    hide HasChar;
    DanglingTag(out, t, spans);
    var next := out + [t];
    forall i, j | 0 <= i < j < |next| && Opens(next[i], spans) && Ends(next[j], spans)
      ensures HasChar(next, i, j)
    {
      assert next[i] == out[i];
      CharAfter(out, t, i, j);
      if j < |out| {
        assert next[j] == out[j];
      }
    }
  }

  lemma {:induction false} NoEmptyChars(out: seq<Token>, text: string, spans: set<Node>)
    requires NoEmptySpan(out, spans)
    ensures NoEmptySpan(out + Chars(text), spans)
    ensures Dangling(out + Chars(text), spans) <==> text == "" && Dangling(out, spans)
    decreases |text|
  {
    hide NoEmptySpan, Dangling;
    if text == "" {
      assert out + Chars(text) == out;
    } else {
      var n := |text| - 1;
      NoEmptyChars(out, text[..n], spans);
      NoEmptyTag(out + Chars(text[..n]), Chr(text[n]), spans);
      CharsSnoc(text);
      Assoc(out, Chars(text[..n]), [Chr(text[n])]);
    }
  }

  lemma {:induction false} NoEmptyClosing(out: seq<Token>, nodes: seq<Node>, spans: set<Node>)
    requires NoEmptySpan(out, spans) && !Dangling(out, spans)
    ensures NoEmptySpan(out + Closing(nodes), spans) && !Dangling(out + Closing(nodes), spans)
    decreases |nodes|
  {
    hide NoEmptySpan, Dangling;
    if nodes == [] {
      assert out + Closing(nodes) == out;
    } else {
      var k := |nodes| - 1;
      NoEmptyTag(out, Close(nodes[k]), spans);
      NoEmptyClosing(out + [Close(nodes[k])], nodes[..k], spans);
      Assoc(out, [Close(nodes[k])], Closing(nodes[..k]));
    }
  }

  lemma {:induction false} NoEmptyOpening(out: seq<Token>, nodes: seq<Node>, spans: set<Node>)
    requires NoEmptySpan(out, spans)
    ensures NoEmptySpan(out + Opening(nodes), spans)
    ensures nodes == [] ==> out + Opening(nodes) == out
    decreases |nodes|
  {
    hide NoEmptySpan, Dangling;
    if nodes == [] {
      assert out + Opening(nodes) == out;
    } else {
      var k := |nodes| - 1;
      NoEmptyOpening(out, nodes[..k], spans);
      NoEmptyTag(out + Opening(nodes[..k]), Open(nodes[k]), spans);
      Assoc(out, Opening(nodes[..k]), [Open(nodes[k])]);
    }
  }

  lemma {:induction false} AllLater(s: nat, events: seq<Event>, hi: nat)
    requires Ordered(s, events, hi)
    ensures forall e <- events :: s <= e.offset
    decreases |events|
  {
    if events != [] {
      AllLater(events[0].offset, events[1..], hi);
    }
  }

  /** Once a span starts at `s`, every span ends behind `s`. */
  lemma {:induction false} CoversLater(marks: seq<nat>, events: seq<Event>, s: nat, hi: nat)
    requires Covers(marks, events) && Ordered(s, events, hi) && marks != [] && s <= marks[|marks| - 1]
    ensures StopsLater(events, s)
    decreases |events|
  {
    if events != [] {
      match events[0]
      case Start(offset, _) =>
        CoversLater(marks + [offset], events[1..], s, hi) by {
          OrderedFrom(s, offset, events[1..], hi);
        }
      case Stop(offset, _) => AllLater(offset, events[1..], hi);
    }
  }

  /** Where the page's stream is not ahead, no span ends here. */
  lemma NoStopHere(e: seq<Event>, r: seq<Event>, marks: seq<nat>, s: nat, hi: nat)
    requires e != [] && e[0].offset == s && TakeOriginal(e, r) && Ordered(s, r, hi) && Covers(marks, r)
    ensures StopsLater(r, s)
  {
    if r != [] {
      AllLater(r[0].offset, r[1..], hi);
      if r[0].offset == s {
        CoversLater(marks + [s], r[1..], s, hi);
      }
    }
  }

  /** Two streams over different nodes, the second of spans that all hold something. */
  ghost predicate Covering(input: Input) {
    Apart(input.original, input.highlighted) && Covers([], input.highlighted)
  }

  ghost predicate Held(input: Input, at: Loop, marks: seq<nat>) {
    match at
    case Loop(_, _, _, _, _, _) => Covering(input) ==> Filled(input, at, marks)
  }

  /** While the page's own tags are written, no span waits for a character, and none ends here. */
  ghost predicate Settled(input: Input, at: Loop) {
    match at
    case Loop(_, r, s, _, _, out) =>
      Covering(input) ==> !Dangling(out, Nodes(input.highlighted)) && StopsLater(r, s)
  }

  /** The offsets of the open spans once the event has happened. */
  function Marked(marks: seq<nat>, e: Event): seq<nat> {
    if e.Start? then marks + [e.offset] else if marks == [] then [] else marks[..|marks| - 1]
  }

  lemma BeginHeld(input: Input)
    ensures Held(input, Loop(input.original, input.highlighted, 0, [], [], []), [])
  {
  }

  lemma HeldText(input: Input, at: Loop, marks: seq<nat>, offset: nat)
    requires Held(input, at, marks) && at.s <= offset <= |input.value|
    ensures Held(input, at.(s := offset, out := at.out + Chars(Substr(input.value, at.s, offset))), marks)
  {
    hide NoEmptySpan, Dangling, Covers, Apart, Nodes;
    if Covering(input) {
      NoEmptyChars(at.out, Substr(input.value, at.s, offset), Nodes(input.highlighted));
    }
  }

  lemma HeldClose(input: Input, at: Loop, marks: seq<nat>)
    requires Held(input, at, marks) && Kept(input, at)
    requires at.e != [] && at.e[0].offset == at.s && TakeOriginal(at.e, at.r)
    ensures var next := at.(out := at.out + Closing(at.f)); Held(input, next, marks) && Settled(input, next)
  {
    hide NoEmptySpan, Dangling, Covers, Apart, Nodes, Untouched, Accounted, Closing, Read, WellNested, OpenAt;
    if Covering(input) {
      assert at.e[0] in at.e;
      NoEmptyClosing(at.out, at.f, Nodes(input.highlighted));
      NoStopHere(at.e, at.r, marks, at.s, |input.value|);
    }
  }

  lemma HeldOriginal(input: Input, at: Loop, marks: seq<nat>, open: seq<Node>)
    requires Held(input, at, marks) && Settled(input, at) && at.e != []
    ensures var next := at.(e := at.e[1..], open := open, out := at.out + [TokenOf(at.e[0])]);
            Held(input, next, marks) && Settled(input, next)
  {
    hide NoEmptySpan, Dangling, Covers, Apart, Nodes, StopsLater, Later;
    if Covering(input) {
      ApartTail(at.e, input.highlighted);
      NoEmptyTag(at.out, TokenOf(at.e[0]), Nodes(input.highlighted));
    }
  }

  lemma HeldReopen(input: Input, at: Loop, marks: seq<nat>)
    requires Held(input, at, marks) && Settled(input, at) && Kept(input, at)
    requires !(TakeOriginal(at.e, at.r) && at.e != [] && at.e[0].offset == at.s)
    ensures Held(input, at.(out := at.out + Opening(at.f)), marks)
  {
    hide NoEmptySpan, Dangling, Covers, Apart, Nodes, Untouched, Accounted, Opening, Read, WellNested, OpenAt;
    if Covering(input) {
      NoEmptyOpening(at.out, at.f, Nodes(input.highlighted));
      if at.r != [] {
        assert at.r[0] in at.r;
      }
      if at.e != [] {
        AllLater(at.e[0].offset, at.e[1..], |input.value|);
      }
    }
  }

  lemma HeldSpan(input: Input, at: Loop, marks: seq<nat>, f: seq<Node>)
    requires Held(input, at, marks) && Kept(input, at)
    requires at.r != [] && at.r[0].offset == at.s && !TakeOriginal(at.e, at.r)
    requires forall n <- f :: n in at.f || (at.r[0].Start? && n == at.r[0].node)
    ensures Held(input, at.(r := at.r[1..], f := f, out := at.out + [TokenOf(at.r[0])]), Marked(marks, at.r[0]))
  {
    hide NoEmptySpan, Dangling, Apart, Nodes, Untouched, Accounted, Read, WellNested, OpenAt;
    if Covering(input) {
      assert at.r[0] in at.r;
      NodesTail(at.r);
      NoEmptyTag(at.out, TokenOf(at.r[0]), Nodes(input.highlighted));
      if at.r[0].Start? {
        CoversLater(marks + [at.s], at.r[1..], at.s, |input.value|);
        if at.e != [] {
          AllLater(at.e[0].offset, at.e[1..], |input.value|);
        }
      }
    }
  }

  ghost predicate AllElements(original: seq<Event>, highlighted: seq<Event>) {
    forall n <- Nodes(original) + Nodes(highlighted) :: IsElement(n)
  }

  /** No element of the two streams has an attribute value with a quotation mark. */
  ghost predicate NoneQuoted(original: seq<Event>, highlighted: seq<Event>) {
    forall n <- Begun(original) + Begun(highlighted) :: Unquoted(n)
  }

  /** What a browser reads in the text: the value, and each character in the elements of both streams at its place. */
  ghost predicate ReadsAsMeant(original: seq<Event>, highlighted: seq<Event>, value: string, l: string) {
    var page := Read(Tokens(l));
    && (page.Balanced() <==> WellNested([], original))
    && page.text == value && |page.contexts| == |value|
    && forall i: nat :: i < |value| ==>
         page.contexts[i] == BareNodes(OpenAt([], original, i) + OpenAt([], highlighted, i))
  }

  /**
   * The text written is that of markup which is balanced exactly when the page's stream is well nested; its text is
   * the value, every character stands in the page's elements and inside those in the spans, and without the spans it
   * is the page's own markup. A reader of the text finds that markup exactly when no attribute value holds a
   * quotation mark.
   */
  method Merge(original: seq<Event>, highlighted: seq<Event>, value: string)
      returns (l: string, ghost out: seq<Token>)
    requires Ordered(0, original, |value|) && StreamOver(highlighted, |value|)
    requires NoVoids(highlighted)
    ensures AllElements(original, highlighted) && NoneQuoted(original, highlighted) ==>
              ReadsAsMeant(original, highlighted, value, l)
    ensures l == Html(out)
    ensures Read(out).Balanced() <==> WellNested([], original)
    ensures Read(out).text == value && |Read(out).contexts| == |value|
    ensures forall i: nat :: i < |value| ==>
              Read(out).contexts[i] == OpenAt([], original, i) + OpenAt([], highlighted, i)
    ensures Apart(original, highlighted) ==> Erase(out, Nodes(highlighted)) == Weave(original, 0, value)
    ensures AllElements(original, highlighted) ==>
              (Tokens(l) == Bared(out) <==> NoneQuoted(original, highlighted))
    ensures Apart(original, highlighted) && Covers([], highlighted) ==> NoEmptySpan(out, Nodes(highlighted))
  {
    hide Running, Paused, Closing, Opening, Substr, Weave, Erase, Html, TokenText, Escape, Tokens, Bared, AllElements;
    hide NoneQuoted, ReadsAsMeant, NoEmptySpan, Covers, Apart, IsVoid, Closed;
    var e, r := original, highlighted;
    var s: nat, f: seq<Node> := 0, [];
    l, out := "", [];
    ghost var input := Input(original, highlighted, value);
    ghost var open: seq<Node>, marks: seq<nat> := [], [];
    RunBegin(input);
    while e != [] || r != []
      invariant Running(input, Loop(e, r, s, open, f, out), marks, l)
      decreases |e| + |r|
    {
      var fromOriginal := TakeOriginal(e, r);
      RunText(input, Loop(e, r, s, open, f, out), marks, l);
      var offset := if fromOriginal then e[0].offset else r[0].offset;
      l, out := l + Escape(Substr(value, s, offset)), out + Chars(Substr(value, s, offset));
      s := offset;
      if fromOriginal {
        ghost var rounds := |e|;
        RunClose(input, Loop(e, r, s, open, f, out), marks, l);
        l, out := l + Html(Closing(f)), out + Closing(f);
        while true
          invariant e != [] && e[0].offset == s && |e| <= rounds
          invariant Paused(input, Loop(e, r, s, open, f, out), marks, l)
          decreases |e|
        {
          RunOriginal(input, Loop(e, r, s, open, f, out), marks, l);
          open := Apply(open, e[0]);
          l, out := l + TokenText(TokenOf(e[0])), out + [TokenOf(e[0])];
          e := e[1..];
          if !(TakeOriginal(e, r) && e != [] && e[0].offset == s) {
            break;
          }
        }
        RunReopen(input, Loop(e, r, s, open, f, out), marks, l);
        l, out := l + Html(Opening(f)), out + Opening(f);
      } else {
        RunSpan(input, Loop(e, r, s, open, f, out), marks, l);
        marks := Marked(marks, r[0]);
        f := if r[0].Start? then f + [r[0].node] else f[..|f| - 1];
        l, out := l + TokenText(TokenOf(r[0])), out + [TokenOf(r[0])];
        r := r[1..];
      }
    }
    RunFinish(input, Loop(e, r, s, open, f, out), marks, l);
    l, out := l + Escape(Substr(value, s, |value|)), out + Chars(Substr(value, s, |value|));
  }

  /** Between the rounds: the page's elements and then the spans are open, and `l` is the text of what is written. */
  ghost predicate Running(input: Input, at: Loop, marks: seq<nat>, l: string) {
    match at
    case Loop(_, _, _, open, f, out) =>
      Kept(input, at) && Held(input, at, marks) && Read(out).open == open + f && l == Html(out)
  }

  /** While the page's own tags are written: only the page's elements are open. */
  ghost predicate Paused(input: Input, at: Loop, marks: seq<nat>, l: string) {
    match at
    case Loop(_, _, _, open, _, out) =>
      Kept(input, at) && Held(input, at, marks) && Settled(input, at) && Read(out).open == open && l == Html(out)
  }

  lemma RunBegin(input: Input)
    requires Ordered(0, input.original, |input.value|) && StreamOver(input.highlighted, |input.value|)
    requires NoVoids(input.highlighted)
    ensures Running(input, Loop(input.original, input.highlighted, 0, [], [], []), [], "")
  {
    hide Kept, Held;
    Begin(input);
    BeginHeld(input);
  }

  lemma RunText(input: Input, at: Loop, marks: seq<nat>, l: string)
    requires Running(input, at, marks, l) && (at.e != [] || at.r != [])
    ensures !TakeOriginal(at.e, at.r) ==> at.r != []
    ensures var offset := if TakeOriginal(at.e, at.r) then at.e[0].offset else at.r[0].offset;
            var text := Substr(input.value, at.s, offset);
            Running(input, at.(s := offset, out := at.out + Chars(text)), marks, l + Escape(text))
  {
    var offset := if TakeOriginal(at.e, at.r) then at.e[0].offset else at.r[0].offset;
    OffsetInside(input, at);
    hide Kept, Held, Substr, Escape, Html, Read;
    TextStep(input, at);
    HeldText(input, at, marks, offset);
    WriteChars(at.out, Substr(input.value, at.s, offset));
  }

  lemma OffsetInside(input: Input, at: Loop)
    requires Kept(input, at) && (at.e != [] || at.r != [])
    ensures !TakeOriginal(at.e, at.r) ==> at.r != []
    ensures var offset := if TakeOriginal(at.e, at.r) then at.e[0].offset else at.r[0].offset;
            at.s <= offset <= |input.value|
  {
    hide Untouched, Accounted, Read, OpenAt, WellNested;
    OrderedBound(at.s, at.e, |input.value|);
    OrderedBound(at.s, at.r, |input.value|);
  }

  lemma RunClose(input: Input, at: Loop, marks: seq<nat>, l: string)
    requires Running(input, at, marks, l) && TakeOriginal(at.e, at.r) && at.e != [] && at.e[0].offset == at.s
    ensures Paused(input, at.(out := at.out + Closing(at.f)), marks, l + Html(Closing(at.f)))
  {
    hide Kept, Held, Settled, Closing, Html, Read;
    CloseStep(input, at);
    HeldClose(input, at, marks);
    HtmlConcat(at.out, Closing(at.f));
  }

  lemma RunOriginal(input: Input, at: Loop, marks: seq<nat>, l: string)
    requires Paused(input, at, marks, l) && at.e != [] && at.e[0].offset == at.s
    ensures var t, open := TokenOf(at.e[0]), Apply(at.open, at.e[0]);
            Paused(input, at.(e := at.e[1..], open := open, out := at.out + [t]), marks, l + TokenText(t))
  {
    hide Kept, Held, Settled, TokenText, Html, Read, Apply;
    OriginalStep(input, at);
    HeldOriginal(input, at, marks, Apply(at.open, at.e[0]));
    WriteToken(at.out, TokenOf(at.e[0]));
  }

  lemma RunReopen(input: Input, at: Loop, marks: seq<nat>, l: string)
    requires Paused(input, at, marks, l)
    requires !(TakeOriginal(at.e, at.r) && at.e != [] && at.e[0].offset == at.s)
    ensures Running(input, at.(out := at.out + Opening(at.f)), marks, l + Html(Opening(at.f)))
  {
    hide Kept, Held, Settled, Opening, Html, Read;
    ReopenStep(input, at);
    HeldReopen(input, at, marks);
    HtmlConcat(at.out, Opening(at.f));
  }

  lemma RunSpan(input: Input, at: Loop, marks: seq<nat>, l: string)
    requires Running(input, at, marks, l) && at.r != [] && at.r[0].offset == at.s && !TakeOriginal(at.e, at.r)
    ensures at.r[0].Stop? ==> at.f != []
    ensures var t := TokenOf(at.r[0]);
            var f := if at.r[0].Start? then at.f + [at.r[0].node] else at.f[..|at.f| - 1];
            Running(input, at.(r := at.r[1..], f := f, out := at.out + [t]), Marked(marks, at.r[0]), l + TokenText(t))
  {
    hide Kept, Held, TokenText, Html, Read, Marked;
    SpanStep(input, at);
    HeldSpan(input, at, marks, if at.r[0].Start? then at.f + [at.r[0].node] else at.f[..|at.f| - 1]);
    WriteToken(at.out, TokenOf(at.r[0]));
  }

  /** All that the merge ensures of the text and of the markup it stands for. */
  ghost predicate Finished(input: Input, l: string, out: seq<Token>) {
    match input
    case Input(original, highlighted, value) =>
      && l == Html(out) && (Read(out).Balanced() <==> WellNested([], original))
      && Read(out).text == value && |Read(out).contexts| == |value|
      && (forall i: nat :: i < |value| ==>
            Read(out).contexts[i] == OpenAt([], original, i) + OpenAt([], highlighted, i))
      && (Apart(original, highlighted) ==> Erase(out, Nodes(highlighted)) == Weave(original, 0, value))
      && (AllElements(original, highlighted) ==> (Tokens(l) == Bared(out) <==> NoneQuoted(original, highlighted)))
      && (AllElements(original, highlighted) && NoneQuoted(original, highlighted) ==>
            ReadsAsMeant(original, highlighted, value, l))
      && (Apart(original, highlighted) && Covers([], highlighted) ==> NoEmptySpan(out, Nodes(highlighted)))
  }

  lemma RunFinish(input: Input, at: Loop, marks: seq<nat>, l: string)
    requires Running(input, at, marks, l) && at.e == [] && at.r == []
    ensures var text := Substr(input.value, at.s, |input.value|);
            Finished(input, l + Escape(text), at.out + Chars(text))
  {
    var text := Substr(input.value, at.s, |input.value|);
    var out := at.out + Chars(text);
    InsideAtEnd(input, at);
    hide Kept, Held, Substr, Escape, Html, Read, Tokens, Bared, AllElements, NoneQuoted, ReadsAsMeant, Erase, Weave;
    hide NoEmptySpan, Covers, Apart, Nodes, Begun, WellNested, OpenAt;
    Finish(input, at);
    FinishHeld(input, at, marks);
    WriteChars(at.out, text);
    ReadsAsWritten(input.original, input.highlighted, out);
    if Tokens(Html(out)) == Bared(out) {
      MeantByMarkup(input.original, input.highlighted, input.value, Html(out), out);
    }
  }

  lemma InsideAtEnd(input: Input, at: Loop)
    requires Kept(input, at)
    ensures at.s <= |input.value|
  {
  }

  lemma MeantByMarkup(original: seq<Event>, highlighted: seq<Event>, value: string, l: string, out: seq<Token>)
    requires Tokens(l) == Bared(out)
    requires Read(out).Balanced() <==> WellNested([], original)
    requires Read(out).text == value && |Read(out).contexts| == |value|
    requires forall i: nat :: i < |value| ==>
               Read(out).contexts[i] == OpenAt([], original, i) + OpenAt([], highlighted, i)
    ensures ReadsAsMeant(original, highlighted, value, l)
  {
    hide Read, Tokens, Bared, BareNodes, OpenAt, WellNested;
    ReadBared(out);
    BareEmpty(Read(out).open);
  }

  lemma BareEmpty(open: seq<Node>)
    ensures BareNodes(open) == [] <==> open == []
  {
  }

  lemma FinishHeld(input: Input, at: Loop, marks: seq<nat>)
    requires Held(input, at, marks) && at.s <= |input.value|
    ensures Covering(input) ==>
              NoEmptySpan(at.out + Chars(Substr(input.value, at.s, |input.value|)), Nodes(input.highlighted))
  {
    hide NoEmptySpan;
    HeldText(input, at, marks, |input.value|);
  }

  lemma WriteChars(out: seq<Token>, s: string)
    ensures Html(out + Chars(s)) == Html(out) + Escape(s)
  {
    HtmlConcat(out, Chars(s));
    HtmlChars(s);
  }

  lemma WriteToken(out: seq<Token>, t: Token)
    ensures Html(out + [t]) == Html(out) + TokenText(t)
  {
    HtmlConcat(out, [t]);
    HtmlOne(t);
  }

  lemma ReadsAsWritten(original: seq<Event>, highlighted: seq<Event>, out: seq<Token>)
    requires Opened(out) == Begun(original) + Begun(highlighted)
    requires Tagged(out) == Nodes(original) + Nodes(highlighted)
    ensures AllElements(original, highlighted) ==>
              (Tokens(Html(out)) == Bared(out) <==> NoneQuoted(original, highlighted))
  {
    hide Tokens, Html, Bared, IsElement, Unquoted, Nodes, Begun;
    if AllElements(original, highlighted) {
      forall t <- out | !t.Chr?
        ensures IsElement(t.node) && (t.Open? ==> t.node in Opened(out))
      {
        assert t.node in Tagged(out);
      }
      HtmlReadsBack(out);
    }
  }

  lemma Begin(input: Input)
    requires Ordered(0, input.original, |input.value|) && StreamOver(input.highlighted, |input.value|)
    requires NoVoids(input.highlighted)
    ensures Kept(input, Loop(input.original, input.highlighted, 0, [], [], [])) && Html([]) == ""
  {
    hide Begun, Nodes;
    Nothing(Weave(input.original, 0, input.value));
  }

  lemma {:induction false} OrderedBound(lo: nat, events: seq<Event>, hi: nat)
    requires Ordered(lo, events, hi)
    ensures lo <= hi && (events != [] ==> events[0].offset <= hi)
    decreases |events|
  {
    if events != [] {
      OrderedBound(events[0].offset, events[1..], hi);
    }
  }

  lemma OpenBefore(open: seq<Node>, events: seq<Event>, offset: nat, hi: nat)
    requires Ordered(offset, events, hi)
    ensures forall i: nat :: i < offset ==> OpenAt(open, events, i) == open
  {
  }

  lemma NextEvent(open: seq<Node>, events: seq<Event>, s: nat, hi: nat)
    requires Ordered(s, events, hi) && events != [] && events[0].offset == s
    ensures Ordered(s, events[1..], hi)
    ensures WellNested(open, events) <==> Fits(open, events[0]) && WellNested(Apply(open, events[0]), events[1..])
    ensures forall i: nat :: s <= i ==> OpenAt(open, events, i) == OpenAt(Apply(open, events[0]), events[1..], i)
  {
    hide IsVoid, Closed;
  }

  /** Writing the text up to `offset`, which no event left precedes. */
  lemma WriteText(input: Input, at: Loop, offset: nat)
    requires Progress(input, at) && Read(at.out).open == at.open + at.f
    requires at.s <= offset <= |input.value|
    requires Ordered(offset, at.e, |input.value|) && Ordered(offset, at.r, |input.value|)
    ensures var next := at.(s := offset, out := at.out + Chars(Substr(input.value, at.s, offset)));
            Progress(input, next) && Read(next.out).open == at.open + at.f
  {
    hide IsVoid, Read, OpenAt, WellNested;
    var text := Substr(input.value, at.s, offset);
    AppendChars(at.out, text);
    assert input.value[..at.s] + text == input.value[..offset];
    OpenBefore(at.open, at.e, offset, |input.value|);
    OpenBefore(at.f, at.r, offset, |input.value|);
  }

  lemma WeaveLater(e: seq<Event>, s: nat, value: string, offset: nat)
    requires s <= offset <= |value| && Ordered(offset, e, |value|)
    ensures Weave(e, s, value) == Chars(Substr(value, s, offset)) + Weave(e, offset, value)
  {
    var to := if e == [] then |value| else e[0].offset;
    OrderedBound(offset, e, |value|);
    assert Substr(value, s, to) == Substr(value, s, offset) + Substr(value, offset, to);
    CharsConcat(Substr(value, s, offset), Substr(value, offset, to));
    if e == [] {
      return;
    }
    hide Substr, Chars, Ordered;
    Assoc(Chars(Substr(value, s, offset)), Chars(Substr(value, offset, to)), [TokenOf(e[0])]);
    Assoc(Chars(Substr(value, s, offset)), Chars(Substr(value, offset, to)) + [TokenOf(e[0])],
          Weave(e[1..], to, value));
  }

  lemma TextUntouched(input: Input, at: Loop, offset: nat)
    requires Untouched(input, at)
    requires at.s <= offset <= |input.value| && Ordered(offset, at.e, |input.value|)
    ensures Untouched(input, at.(s := offset, out := at.out + Chars(Substr(input.value, at.s, offset))))
  {
    hide Apart, Nodes, Weave, Erase;
    var text := Substr(input.value, at.s, offset);
    var spans := Nodes(input.highlighted);
    EraseChars(at.out, text, spans);
    WeaveLater(at.e, at.s, input.value, offset);
    Assoc(Erase(at.out, spans), Chars(text), Weave(at.e, offset, input.value));
  }

  // ---------------------------------------------------------------- the account of nodes

  lemma CharsTagged(s: string)
    ensures Opened(Chars(s)) == {} && Tagged(Chars(s)) == {}
  {
  }

  function Among(nodes: seq<Node>): set<Node> {
    set n <- nodes :: n
  }

  lemma AmongLast(nodes: seq<Node>)
    requires nodes != []
    ensures Among(nodes) == Among(nodes[..|nodes| - 1]) + {nodes[|nodes| - 1]}
  {
    var init, n := nodes[..|nodes| - 1], nodes[|nodes| - 1];
    SplitLast(nodes);
    assert n in nodes && forall m <- init :: m in nodes;
    assert forall m <- nodes :: m in init || m == n;
  }

  lemma {:induction false} ClosingTagged(nodes: seq<Node>)
    ensures Opened(Closing(nodes)) == {} && Tagged(Closing(nodes)) == Among(nodes)
    decreases |nodes|
  {
    if nodes != [] {
      var k := |nodes| - 1;
      ClosingTagged(nodes[..k]);
      hide Opened, Tagged, Among;
      AmongLast(nodes);
      OneTagged(Close(nodes[k]));
      OpenedConcat([Close(nodes[k])], Closing(nodes[..k]));
    }
  }

  lemma {:induction false} OpeningTagged(nodes: seq<Node>)
    ensures Opened(Opening(nodes)) == Tagged(Opening(nodes)) == Among(nodes)
    decreases |nodes|
  {
    if nodes != [] {
      var k := |nodes| - 1;
      OpeningTagged(nodes[..k]);
      hide Opened, Tagged, Among;
      AmongLast(nodes);
      OneTagged(Open(nodes[k]));
      OpenedConcat(Opening(nodes[..k]), [Open(nodes[k])]);
    }
  }

  lemma OneTagged(t: Token)
    requires !t.Chr?
    ensures Tagged([t]) == {t.node} && Opened([t]) == if t.Open? then {t.node} else {}
  {
    assert t in [t];
  }

  lemma OpenedTagged(out: seq<Token>)
    ensures Opened(out) <= Tagged(out)
  {
  }

  /** Text, and tags of spans that are open, change nothing in the account. */
  lemma MoreAccounted(input: Input, at: Loop, s: nat, more: seq<Token>)
    requires Accounted(input, at) && Opened(more) <= Opened(at.out) && Tagged(more) <= Opened(at.out)
    ensures Accounted(input, at.(s := s, out := at.out + more))
  {
    hide Opened, Tagged, Nodes, Begun;
    OpenedConcat(at.out, more);
    OpenedTagged(at.out);
  }

  lemma NodesFront(e: seq<Event>)
    requires e != []
    ensures Nodes(e) == {e[0].node} + Nodes(e[1..])
    ensures Begun(e) == (if e[0].Start? then {e[0].node} else {}) + Begun(e[1..])
  {
    NodesCons(e[0], e[1..]);
    assert [e[0]] + e[1..] == e;
  }

  lemma OriginalAccounted(input: Input, at: Loop, open: seq<Node>)
    requires Accounted(input, at) && at.e != []
    ensures Accounted(input, at.(e := at.e[1..], open := open, out := at.out + [TokenOf(at.e[0])]))
  {
    hide Opened, Tagged, Nodes, Begun;
    OneTagged(TokenOf(at.e[0]));
    OpenedConcat(at.out, [TokenOf(at.e[0])]);
    NodesFront(at.e);
  }

  lemma SpanAccounted(input: Input, at: Loop, f: seq<Node>)
    requires Accounted(input, at) && at.r != []
    requires forall n <- f :: n in at.f || (at.r[0].Start? && n == at.r[0].node)
    ensures Accounted(input, at.(r := at.r[1..], f := f, out := at.out + [TokenOf(at.r[0])]))
  {
    hide Opened, Tagged, Nodes, Begun;
    OneTagged(TokenOf(at.r[0]));
    OpenedConcat(at.out, [TokenOf(at.r[0])]);
    NodesFront(at.r);
  }

  lemma SpansAccounted(input: Input, at: Loop)
    requires Accounted(input, at)
    ensures Accounted(input, at.(out := at.out + Closing(at.f)))
    ensures Accounted(input, at.(out := at.out + Opening(at.f)))
  {
    hide Opened, Tagged, Closing, Opening;
    ClosingTagged(at.f);
    OpeningTagged(at.f);
    assert Among(at.f) <= Opened(at.out);
    MoreAccounted(input, at, at.s, Closing(at.f));
    MoreAccounted(input, at, at.s, Opening(at.f));
  }

  lemma CharsAccounted(input: Input, at: Loop, s: nat, text: string)
    requires Accounted(input, at)
    ensures Accounted(input, at.(s := s, out := at.out + Chars(text)))
  {
    hide Opened, Tagged;
    CharsTagged(text);
    MoreAccounted(input, at, s, Chars(text));
  }

  // ---------------------------------------------------------------- the steps of the loop

  /** The text before the next event. */
  lemma TextStep(input: Input, at: Loop)
    requires Kept(input, at) && Read(at.out).open == at.open + at.f && (at.e != [] || at.r != [])
    ensures !TakeOriginal(at.e, at.r) ==> at.r != []
    ensures var offset := if TakeOriginal(at.e, at.r) then at.e[0].offset else at.r[0].offset;
            var next := at.(s := offset, out := at.out + Chars(Substr(input.value, at.s, offset)));
            Kept(input, next) && Read(next.out).open == at.open + at.f
  {
    hide IsVoid, Substr;
    var offset := if TakeOriginal(at.e, at.r) then at.e[0].offset else at.r[0].offset;
    OrderedBound(at.s, at.e, |input.value|);
    OrderedBound(at.s, at.r, |input.value|);
    WriteText(input, at, offset);
    CharsAccounted(input, at, offset, Substr(input.value, at.s, offset));
    if Apart(input.original, input.highlighted) {
      TextUntouched(input, at, offset);
    }
  }

  /** Closing every span. */
  lemma CloseStep(input: Input, at: Loop)
    requires Kept(input, at) && Read(at.out).open == at.open + at.f
    ensures var next := at.(out := at.out + Closing(at.f));
            Kept(input, next) && Read(next.out).open == at.open
  {
    hide IsVoid, Closing, Read, OpenAt, WellNested, Ordered, Accounted;
    AppendClosing(at.out, at.open, at.f);
    SpansAccounted(input, at);
    if Apart(input.original, input.highlighted) {
      EraseClosing(at.out, at.f, Nodes(input.highlighted));
    }
  }

  /** Opening them again. */
  lemma ReopenStep(input: Input, at: Loop)
    requires Kept(input, at) && Read(at.out).open == at.open
    ensures var next := at.(out := at.out + Opening(at.f));
            Kept(input, next) && Read(next.out).open == at.open + at.f
  {
    hide IsVoid, Opening, Read, OpenAt, WellNested, Ordered, Accounted;
    AppendOpening(at.out, at.f);
    SpansAccounted(input, at);
    if Apart(input.original, input.highlighted) {
      EraseOpening(at.out, at.f, Nodes(input.highlighted));
    }
  }

  lemma ApartTail(e: seq<Event>, highlighted: seq<Event>)
    requires e != [] && Apart(e, highlighted)
    ensures Apart(e[1..], highlighted) && e[0].node !in Nodes(highlighted)
  {
    assert e[0] in e;
  }

  lemma NodesTail(r: seq<Event>)
    requires r != []
    ensures Nodes(r[1..]) <= Nodes(r) && r[0].node in Nodes(r)
  {
    assert r[0] in r;
  }

  lemma WeaveHere(e: seq<Event>, s: nat, value: string)
    requires e != [] && e[0].offset == s <= |value|
    ensures Weave(e, s, value) == [TokenOf(e[0])] + Weave(e[1..], s, value)
  {
    assert Chars(Substr(value, s, s)) == [];
  }

  lemma OriginalUntouched(input: Input, at: Loop)
    requires Untouched(input, at) && at.e != [] && at.e[0].offset == at.s <= |input.value|
    ensures Untouched(input, at.(e := at.e[1..], open := Apply(at.open, at.e[0]), out := at.out + [TokenOf(at.e[0])]))
  {
    hide Apart, Nodes, Weave, Erase;
    var spans := Nodes(input.highlighted);
    ApartTail(at.e, input.highlighted);
    EraseSnoc(at.out, TokenOf(at.e[0]), spans);
    WeaveHere(at.e, at.s, input.value);
    Assoc(Erase(at.out, spans), [TokenOf(at.e[0])], Weave(at.e[1..], at.s, input.value));
  }

  /** Reading the tag of an event. */
  lemma TagRead(out: seq<Token>, e: Event)
    ensures var page, next := Read(out), Read(out).Then(TokenOf(e));
            && next.open == Apply(page.open, e) && (next.nested <==> page.nested && Fits(page.open, e))
            && next.text == page.text && next.contexts == page.contexts
  {
    hide IsVoid, Closed, Read;
  }

  lemma OriginalProgress(input: Input, at: Loop)
    requires Progress(input, at) && Read(at.out).open == at.open && at.e != [] && at.e[0].offset == at.s
    ensures var next := at.(e := at.e[1..], open := Apply(at.open, at.e[0]), out := at.out + [TokenOf(at.e[0])]);
            Progress(input, next) && Read(next.out).open == next.open
  {
    hide IsVoid, Read, OpenAt, WellNested, Ordered;
    NextEvent(at.open, at.e, at.s, |input.value|);
    Snoc(at.out, TokenOf(at.e[0]));
    TagRead(at.out, at.e[0]);
  }

  /** Writing one of the page's own tags, with the spans closed. */
  lemma OriginalStep(input: Input, at: Loop)
    requires Kept(input, at) && Read(at.out).open == at.open && at.e != [] && at.e[0].offset == at.s
    ensures var next := at.(e := at.e[1..], open := Apply(at.open, at.e[0]), out := at.out + [TokenOf(at.e[0])]);
            Kept(input, next) && Read(next.out).open == next.open
  {
    OriginalProgress(input, at);
    OriginalAccounted(input, at, Apply(at.open, at.e[0]));
    if Apart(input.original, input.highlighted) {
      assert at.s <= |input.value|;
      OriginalUntouched(input, at);
    }
  }

  lemma SpanUntouched(input: Input, at: Loop, f: seq<Node>)
    requires Untouched(input, at) && at.r != []
    requires forall n <- f :: n in at.f || n == at.r[0].node
    ensures Untouched(input, at.(r := at.r[1..], f := f, out := at.out + [TokenOf(at.r[0])]))
  {
    hide Apart, Nodes, Weave, Erase;
    EraseSnoc(at.out, TokenOf(at.r[0]), Nodes(input.highlighted));
    NodesTail(at.r);
    Nothing(Erase(at.out, Nodes(input.highlighted)));
  }

  lemma SpanProgress(input: Input, at: Loop)
    requires Progress(input, at) && Read(at.out).open == at.open + at.f && at.r != [] && at.r[0].offset == at.s
    ensures at.r[0].Stop? ==> at.f != []
    ensures var f := if at.r[0].Start? then at.f + [at.r[0].node] else at.f[..|at.f| - 1];
            var next := at.(r := at.r[1..], f := f, out := at.out + [TokenOf(at.r[0])]);
            Progress(input, next) && Read(next.out).open == at.open + f
  {
    hide IsVoid, Closed, Read, OpenAt, WellNested, Ordered;
    NextEvent(at.f, at.r, at.s, |input.value|);
    Snoc(at.out, TokenOf(at.r[0]));
    TagRead(at.out, at.r[0]);
    assert !IsVoid(at.r[0].node);
    if at.r[0].Start? {
      Assoc(at.open, at.f, [at.r[0].node]);
    } else {
      var n, less, top := at.r[0].node, at.f[..|at.f| - 1], at.f[|at.f| - 1];
      SplitLast(at.f);
      ClosedTop(less, top, n);
      Assoc(at.open, less, [top]);
      ClosedTop(at.open + less, top, n);
    }
  }

  /** Writing one of the highlighter's tags. */
  lemma SpanStep(input: Input, at: Loop)
    requires Kept(input, at) && Read(at.out).open == at.open + at.f && at.r != [] && at.r[0].offset == at.s
    ensures at.r[0].Stop? ==> at.f != []
    ensures var f := if at.r[0].Start? then at.f + [at.r[0].node] else at.f[..|at.f| - 1];
            var next := at.(r := at.r[1..], f := f, out := at.out + [TokenOf(at.r[0])]);
            Kept(input, next) && Read(next.out).open == at.open + f
  {
    SpanProgress(input, at);
    var f := if at.r[0].Start? then at.f + [at.r[0].node] else at.f[..|at.f| - 1];
    SpanAccounted(input, at, f);
    if Apart(input.original, input.highlighted) {
      SpanUntouched(input, at, f);
    }
  }

  /** The text after the last event. */
  lemma Finish(input: Input, at: Loop)
    requires Kept(input, at) && Read(at.out).open == at.open + at.f && at.e == [] && at.r == []
    ensures var out := at.out + Chars(Substr(input.value, at.s, |input.value|));
            && (Read(out).Balanced() <==> WellNested([], input.original))
            && Read(out).text == input.value && |Read(out).contexts| == |input.value|
            && (forall i: nat :: i < |input.value| ==>
                 Read(out).contexts[i] == OpenAt([], input.original, i) + OpenAt([], input.highlighted, i))
            && (Apart(input.original, input.highlighted) ==>
                 Erase(out, Nodes(input.highlighted)) == Weave(input.original, 0, input.value))
            && Opened(out) == Begun(input.original) + Begun(input.highlighted)
            && Tagged(out) == Nodes(input.original) + Nodes(input.highlighted)
  {
    hide Opened, Tagged;
    var value := input.value;
    WriteText(input, at, |value|);
    CharsAccounted(input, at, |value|, Substr(value, at.s, |value|));
    NoNodes();
    assert value[..|value|] == value;
    if Apart(input.original, input.highlighted) {
      TextUntouched(input, at, |value|);
      assert Chars(Substr(value, |value|, |value|)) == [];
      Nothing(Erase(at.out + Chars(Substr(value, at.s, |value|)), Nodes(input.highlighted)));
    }
  }
}
