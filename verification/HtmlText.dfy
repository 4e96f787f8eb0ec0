/** Markup as text: what the program writes, and what an HTML tokenizer reads in any text. */
module HtmlText {
  import opened Basics
  import opened Strings
  import opened Markup

  // ---------------------------------------------------------------- writing

  function AttributesText(attributes: seq<Attribute>): string {
    if attributes == [] then ""
    else
      " " + attributes[0].0 + "=\"" + Escape(attributes[0].1) + "\"" + AttributesText(attributes[1..])
  }

  /** A tag or a character as the program writes it: nothing is done about quotation marks. */
  function TokenText(t: Token): string {
    match t
    case Open(n) => "<" + Tag(n) + AttributesText(n.attributes) + ">"
    case Close(n) => "</" + Tag(n) + ">"
    case Chr(c) => Entity(c)
  }

  function Html(ts: seq<Token>): string {
    if ts == [] then "" else TokenText(ts[0]) + Html(ts[1..])
  }

  // ---------------------------------------------------------------- reading

  const SPACES := {' ', '\t', '\n', '\r', '\U{C}'}
  const TAG_NAME_ENDS := SPACES + {'/', '>'}
  const NAME_ENDS := SPACES + {'/', '>', '='}
  const VALUE_ENDS := SPACES + {'>'}

  /** Where the first of the characters in `ends` stands; the length of the text if none does. */
  function Until(s: string, ends: set<char>): (k: nat)
    ensures k <= |s| && (k < |s| ==> s[k] in ends)
    ensures forall i :: 0 <= i < k ==> s[i] !in ends
  {
    if s == "" || s[0] in ends then 0 else 1 + Until(s[1..], ends)
  }

  function SkipSpaces(s: string): (r: string)
    ensures |r| <= |s|
  {
    if s != "" && s[0] in SPACES then SkipSpaces(s[1..]) else s
  }

  /** An attribute is left out when one of its name is there already. */
  function Add(found: seq<Attribute>, name: string, value: string): seq<Attribute> {
    if exists a <- found :: a.0 == name then found else found + [(name, value)]
  }

  /** The value behind an equals sign and the text behind the value; nothing when the text ends before the value. */
  function Value(s: string): (r: Option<(string, string)>)
    ensures r.Some? ==> |r.value.1| <= |s|
  {
    var v := SkipSpaces(s);
    if v == "" then None
    else if v[0] == '"' || v[0] == '\'' then
      var k := 1 + Until(v[1..], {v[0]});
      if k < |v| then Some((Unescape(v[1..k]), v[k + 1..])) else None
    else
      var k := Until(v, VALUE_ENDS);
      Some((Unescape(v[..k]), v[k..]))
  }

  /**
   * The attributes read from behind a tag's name on, after those `found`, and the text behind the tag; nothing when
   * the text ends inside the tag. The states are those of sections 13.2.5.32 to 13.2.5.40 of the HTML Standard.
   */
  function Attributes(s: string, found: seq<Attribute>): (r: Option<(seq<Attribute>, string)>)
    ensures r.Some? ==> |r.value.1| < |s|
    decreases |s|
  {
    if s == "" then None
    else if s[0] == '>' then Some((found, s[1..]))
    else if s[0] in SPACES || s[0] == '/' then Attributes(s[1..], found)
    else
      var k := 1 + Until(s[1..], NAME_ENDS);
      var name, after := ToLower(s[..k]), SkipSpaces(s[k..]);
      if after == "" || after[0] != '=' then Attributes(after, Add(found, name, ""))
      else
        match Value(after[1..])
        case None => None
        case Some((value, rest)) => Attributes(rest, Add(found, name, value))
  }

  /** How many characters stand before the name of the tag that begins here; 0 if none does. */
  function TagLead(s: string): (k: nat)
    ensures k == 0 || (k < |s| && k <= 2)
  {
    var k := if "</" <= s then 2 else 1;
    if s != "" && s[0] == '<' && k < |s| && IsLetter(s[k]) then k else 0
  }

  /** The tokens of a text, comments and the like left aside; attributes of an end tag do not count. */
  function Tokens(s: string): seq<Token>
    decreases |s|
  {
    var k := TagLead(s);
    if s == "" then []
    else if k > 0 then
      var m := k + Until(s[k..], TAG_NAME_ENDS);
      match Attributes(s[m..], [])
      case None => []
      case Some((attributes, rest)) => [TagToken(k == 1, ToLower(s[k..m]), attributes)] + Tokens(rest)
    else
      [Chr(Reference(s).0)] + Tokens(s[Reference(s).1..])
  }

  function TagToken(start: bool, name: string, attributes: seq<Attribute>): Token {
    if start then Open(Node(0, name, attributes)) else Close(Node(0, name, []))
  }

  // ---------------------------------------------------------------- what a reader can build

  predicate IsTagName(s: string) {
    s != "" && IsLetter(s[0]) && forall i :: 0 <= i < |s| ==> s[i] !in TAG_NAME_ENDS
  }

  /** An equals sign can only begin the name. */
  predicate IsAttributeName(s: string) {
    s != "" && s[0] !in TAG_NAME_ENDS && forall i :: 1 <= i < |s| ==> s[i] !in NAME_ENDS
  }

  /** No two names are the same up to case; a reader would drop the second. */
  predicate Distinct(attributes: seq<Attribute>) {
    forall i, j :: 0 <= i < j < |attributes| ==> ToLower(attributes[i].0) != ToLower(attributes[j].0)
  }

  predicate IsElement(n: Node) {
    IsTagName(n.name) && Distinct(n.attributes) && forall a <- n.attributes :: IsAttributeName(a.0)
  }

  predicate AreElements(ts: seq<Token>) {
    forall t <- ts :: !t.Chr? ==> IsElement(t.node)
  }

  // ---------------------------------------------------------------- what reading a written token gives

  /** Without the identity of the object, and in lower case. */
  function BareAttributes(attributes: seq<Attribute>): seq<Attribute> {
    seq(|attributes|, i requires 0 <= i < |attributes| => (ToLower(attributes[i].0), attributes[i].1))
  }

  function Bare(n: Node): Node {
    Node(0, Tag(n), BareAttributes(n.attributes))
  }

  function BareToken(t: Token): Token {
    match t
    case Open(n) => Open(Bare(n))
    case Close(n) => Close(Node(0, Tag(n), []))
    case Chr(c) => Chr(c)
  }

  function Bared(ts: seq<Token>): seq<Token> {
    seq(|ts|, i requires 0 <= i < |ts| => BareToken(ts[i]))
  }

  /** No attribute value holds a quotation mark, which would end it. */
  predicate Unquoted(n: Node) {
    forall a <- n.attributes :: '"' !in a.1
  }

  predicate AllUnquoted(ts: seq<Token>) {
    forall t <- ts :: t.Open? ==> Unquoted(t.node)
  }

  // ---------------------------------------------------------------- one attribute

  lemma UntilFirst(p: string, rest: string, ends: set<char>)
    requires (forall i :: 0 <= i < |p| ==> p[i] !in ends) && rest != "" && rest[0] in ends
    ensures Until(p + rest, ends) == |p|
  {
    var s := p + rest;
    assert s[|p|] == rest[0];
    assert forall i :: 0 <= i < |p| ==> s[i] == p[i];
  }

  /** Escaping neither adds nor removes quotation marks. */
  lemma {:induction false} EscapeQuotes(v: string)
    ensures '"' in Escape(v) <==> '"' in v
  {
    hide Escape;
    if v == "" {
      EscapeNothing();
    } else {
      assert v == [v[0]] + v[1..];
      EscapeHead(v[0], v[1..]);
      EscapeQuotes(v[1..]);
      assert '"' in Entity(v[0]) <==> v[0] == '"';
    }
  }

  lemma ValueReads(v: string, more: string)
    requires '"' !in v
    ensures Value("\"" + Escape(v) + "\"" + more) == Some((v, more))
  {
    hide Escape, Unescape, Until, SkipSpaces;
    var s := "\"" + Escape(v) + "\"" + more;
    EscapeQuotes(v);
    EscapeReadsBack(v);
    assert SkipSpaces(s) == s by {
      SkipsNothing(s);
    }
    assert s[1..] == Escape(v) + ("\"" + more);
    UntilFirst(Escape(v), "\"" + more, {'"'});
    assert s[1..1 + |Escape(v)|] == Escape(v);
    assert s[1 + |Escape(v)| + 1..] == more;
  }

  lemma SkipsNothing(s: string)
    requires s == "" || s[0] !in SPACES
    ensures SkipSpaces(s) == s
  {
  }

  lemma NameReads(name: string, behind: string, found: seq<Attribute>)
    requires IsAttributeName(name)
    ensures var r := Value(behind);
            Attributes(name + ("=" + behind), found) ==
            if r == None then None else Attributes(r.value.1, Add(found, ToLower(name), r.value.0))
  {
    hide Unescape, Until, SkipSpaces, Value, Add;
    var after := "=" + behind;
    var s := name + after;
    Head('=', behind);
    assert s[0] == name[0] && s[1..] == name[1..] + after;
    UntilFirst(name[1..], after, NAME_ENDS);
    SkipsNothing(after);
    Pieces("", name, after);
    Nothing(s);
  }

  /** A written attribute is read with its value up to the first quotation mark. */
  lemma AttributeReads(name: string, v: string, more: string, found: seq<Attribute>)
    requires IsAttributeName(name) && '"' !in v
    ensures Attributes(" " + name + "=\"" + Escape(v) + "\"" + more, found) ==
            Attributes(more, Add(found, ToLower(name), v))
  {
    hide Escape, Value, Add, IsAttributeName;
    var value := "\"" + Escape(v) + "\"" + more;
    var behind := name + ("=" + value);
    assert " " + name + "=\"" + Escape(v) + "\"" + more == [' '] + behind;
    SpaceReads(behind, found);
    hide Attributes;
    NameReads(name, value, found);
    ValueReads(v, more);
  }

  lemma SpaceReads(behind: string, found: seq<Attribute>)
    ensures Attributes([' '] + behind, found) == Attributes(behind, found)
  {
    Head(' ', behind);
  }

  lemma AttributesFront(attributes: seq<Attribute>, tail: string)
    requires attributes != []
    ensures AttributesText(attributes) + ">" + tail ==
            " " + attributes[0].0 + "=\"" + Escape(attributes[0].1) + "\"" +
            (AttributesText(attributes[1..]) + ">" + tail)
  {
    hide Escape;
  }

  // ---------------------------------------------------------------- all attributes of a tag

  /** Names that stand for themselves next to what is found. */
  predicate Fresh(attributes: seq<Attribute>, found: seq<Attribute>) {
    && Distinct(attributes) && (forall a <- attributes :: IsAttributeName(a.0))
    && forall a <- attributes, b <- found :: ToLower(a.0) != b.0
  }

  lemma FreshTail(attributes: seq<Attribute>, found: seq<Attribute>, v: string)
    requires attributes != [] && Fresh(attributes, found)
    ensures var name := ToLower(attributes[0].0);
            && IsAttributeName(attributes[0].0) && Add(found, name, v) == found + [(name, v)]
            && Fresh(attributes[1..], found + [(name, v)])
  {
    var first := attributes[0];
    assert first in attributes;
    forall a <- attributes[1..]
      ensures IsAttributeName(a.0) && ToLower(a.0) != ToLower(first.0)
    {
      var i :| 0 <= i < |attributes[1..]| && attributes[1..][i] == a;
      assert attributes[i + 1] == a;
    }
  }

  lemma BareFront(attributes: seq<Attribute>, found: seq<Attribute>)
    requires attributes != []
    ensures found + BareAttributes(attributes) ==
            found + [(ToLower(attributes[0].0), attributes[0].1)] + BareAttributes(attributes[1..])
  {
  }

  lemma TagEnds(found: seq<Attribute>, tail: string)
    ensures Attributes(">" + tail, found) == Some((found, tail))
  {
    assert (">" + tail)[1..] == tail;
  }

  lemma {:induction false} AttributesBack(attributes: seq<Attribute>, found: seq<Attribute>, tail: string)
    requires Fresh(attributes, found) && forall a <- attributes :: '"' !in a.1
    ensures Attributes(AttributesText(attributes) + ">" + tail, found) ==
            Some((found + BareAttributes(attributes), tail))
    decreases |attributes|
  {
    if attributes == [] {
      TagEnds(found, tail);
      assert "" + ">" + tail == ">" + tail && BareAttributes(attributes) == [];
      Nothing(found);
    } else {
      hide Fresh, Attributes, AttributesText, Escape, BareAttributes, IsAttributeName;
      var a := attributes[0];
      assert a in attributes;
      AttributesFront(attributes, tail);
      FreshTail(attributes, found, a.1);
      AttributeReads(a.0, a.1, AttributesText(attributes[1..]) + ">" + tail, found);
      AttributesBack(attributes[1..], found + [(ToLower(a.0), a.1)], tail);
      BareFront(attributes, found);
    }
  }

  /** Reading on never changes what is found. */
  lemma {:induction false} AttributesGrow(s: string, found: seq<Attribute>)
    ensures var r := Attributes(s, found);
            r.Some? ==> found <= r.value.0
    decreases |s|
  {
    hide Until, SkipSpaces, Value, Unescape;
    if s == "" || s[0] == '>' {
      return;
    }
    if s[0] in SPACES || s[0] == '/' {
      AttributesGrow(s[1..], found);
      return;
    }
    var k := 1 + Until(s[1..], NAME_ENDS);
    var name, after := ToLower(s[..k]), SkipSpaces(s[k..]);
    if after == "" || after[0] != '=' {
      AttributesGrow(after, Add(found, name, ""));
    } else {
      match Value(after[1..])
      case None =>
      case Some((value, rest)) => AttributesGrow(rest, Add(found, name, value));
    }
  }

  /** The text up to the first quotation mark. */
  lemma {:induction false} FirstQuote(v: string) returns (before: string, behind: string)
    requires '"' in v
    ensures v == before + "\"" + behind && '"' !in before
    ensures Escape(v) == Escape(before) + "\"" + Escape(behind)
  {
    hide Escape;
    assert v == [v[0]] + v[1..];
    EscapeHead(v[0], v[1..]);
    if v[0] == '"' {
      before, behind := "", v[1..];
      EscapeNothing();
      assert v == "" + "\"" + behind;
    } else {
      before, behind := FirstQuote(v[1..]);
      EscapeHead(v[0], before);
      before := [v[0]] + before;
      assert before[1..] + "\"" + behind == v[1..];
      Assoc(Entity(v[0]), Escape(before[1..]), "\"" + Escape(behind));
      Assoc(Escape(before[1..]), "\"", Escape(behind));
      Assoc(Escape(before), "\"", Escape(behind));
    }
  }

  /** A value with a quotation mark is cut off at it, whatever else happens. */
  lemma QuoteCuts(attributes: seq<Attribute>, found: seq<Attribute>, tail: string)
    requires attributes != [] && Fresh(attributes, found) && '"' in attributes[0].1
    ensures var r := Attributes(AttributesText(attributes) + ">" + tail, found);
            r.Some? ==> r.value.0 != found + BareAttributes(attributes)
  {
    hide Fresh, Attributes, AttributesText, Escape, IsAttributeName;
    var a := attributes[0];
    var before, behind := FirstQuote(a.1);
    var rest := AttributesText(attributes[1..]) + ">" + tail;
    var more := Escape(behind) + "\"" + rest;
    AttributesFront(attributes, tail);
    FreshTail(attributes, found, before);
    AttributeReads(a.0, before, more, found);
    assert " " + a.0 + "=\"" + Escape(a.1) + "\"" + rest == " " + a.0 + "=\"" + Escape(before) + "\"" + more;
    var now := found + [(ToLower(a.0), before)];
    AttributesGrow(more, now);
    var r := Attributes(more, now);
    if r.Some? {
      assert r.value.0[|found|] == now[|found|];
      assert (found + BareAttributes(attributes))[|found|] == (ToLower(a.0), a.1);
      assert |before| < |a.1|;
    }
  }

  lemma {:induction false} QuoteBreaks(attributes: seq<Attribute>, found: seq<Attribute>, tail: string)
    requires Fresh(attributes, found) && exists a <- attributes :: '"' in a.1
    ensures var r := Attributes(AttributesText(attributes) + ">" + tail, found);
            r.Some? ==> r.value.0 != found + BareAttributes(attributes)
    decreases |attributes|
  {
    hide Fresh, Attributes, AttributesText, Escape, BareAttributes, IsAttributeName;
    if '"' in attributes[0].1 {
      QuoteCuts(attributes, found, tail);
    } else {
      var a := attributes[0];
      AttributesFront(attributes, tail);
      FreshTail(attributes, found, a.1);
      AttributeReads(a.0, a.1, AttributesText(attributes[1..]) + ">" + tail, found);
      var b :| b in attributes && '"' in b.1;
      assert b in attributes[1..];
      QuoteBreaks(attributes[1..], found + [(ToLower(a.0), a.1)], tail);
      BareFront(attributes, found);
    }
  }

  // ---------------------------------------------------------------- one token

  lemma LowerTagName(s: string)
    requires IsTagName(s)
    ensures IsTagName(ToLower(s))
  {
    forall i | 0 <= i < |s|
      ensures ToLower(s)[i] !in TAG_NAME_ENDS
    {
      LowerKeeps(s[i]);
    }
  }

  /** No letter ends a name. */
  lemma LowerKeeps(c: char)
    ensures LowerChar(c) in NAME_ENDS <==> c in NAME_ENDS
    ensures LowerChar(c) in TAG_NAME_ENDS <==> c in TAG_NAME_ENDS
  {
  }

  /** A tag is read as its name and whatever its attributes are read as. */
  lemma TagReads(start: bool, name: string, behind: string)
    requires IsTagName(name) && ToLower(name) == name && behind != "" && behind[0] in TAG_NAME_ENDS
    ensures var r := Attributes(behind, []);
            Tokens((if start then "<" else "</") + (name + behind)) ==
            if r == None then [] else [TagToken(start, name, r.value.0)] + Tokens(r.value.1)
  {
    hide Attributes, Until;
    Leads(start, name, behind);
    UntilFirst(name, behind, TAG_NAME_ENDS);
    hide TagLead, IsTagName, TAG_NAME_ENDS;
    Pieces(if start then "<" else "</", name, behind);
  }

  lemma Leads(start: bool, name: string, behind: string)
    requires IsTagName(name)
    ensures var lead := if start then "<" else "</";
            TagLead(lead + (name + behind)) == |lead|
  {
    var lead := if start then "<" else "</";
    var s := lead + (name + behind);
    assert s[|lead|] == name[0];
    assert s[0] == '<' && (!start ==> s[1] == '/');
    assert start ==> !("</" <= s);
  }

  lemma CharReads(c: char, tail: string)
    ensures Tokens(Entity(c) + tail) == [Chr(c)] + Tokens(tail)
  {
    EntityReads(c, tail);
    assert (Entity(c) + tail)[0] == Entity(c)[0] != '<';
  }

  /** What stands first in the reading of a written token. */
  predicate StartsWith(ts: seq<Token>, t: Token) {
    ts != [] && ts[0] == t
  }

  lemma OpenText(n: Node, tail: string)
    ensures var behind := AttributesText(n.attributes) + ">" + tail;
            TokenText(Open(n)) + tail == "<" + (Tag(n) + behind) && behind[0] in TAG_NAME_ENDS
  {
    hide Escape;
  }

  lemma AttributesRead(n: Node, tail: string)
    requires IsElement(n)
    ensures var r := Attributes(AttributesText(n.attributes) + ">" + tail, []);
            if Unquoted(n) then r == Some((BareAttributes(n.attributes), tail))
            else r.Some? ==> r.value.0 != BareAttributes(n.attributes)
  {
    hide Attributes, AttributesText, BareAttributes, IsTagName, IsAttributeName;
    Nothing(BareAttributes(n.attributes));
    if Unquoted(n) {
      AttributesBack(n.attributes, [], tail);
    } else {
      QuoteBreaks(n.attributes, [], tail);
    }
  }

  lemma OpenReads(n: Node, tail: string)
    requires IsElement(n)
    ensures Unquoted(n) ==> Tokens(TokenText(Open(n)) + tail) == [BareToken(Open(n))] + Tokens(tail)
    ensures !Unquoted(n) ==> !StartsWith(Tokens(TokenText(Open(n)) + tail), BareToken(Open(n)))
  {
    hide Tokens, Attributes, AttributesText, BareAttributes, TokenText, IsTagName, IsAttributeName, Unquoted;
    LowerTagName(n.name);
    LowerTwice(n.name);
    OpenText(n, tail);
    TagReads(true, Tag(n), AttributesText(n.attributes) + ">" + tail);
    AttributesRead(n, tail);
  }

  lemma CloseText(n: Node, tail: string)
    ensures TokenText(Close(n)) + tail == "</" + (Tag(n) + (">" + tail))
  {
  }

  lemma CloseReads(n: Node, tail: string)
    requires IsElement(n)
    ensures Tokens(TokenText(Close(n)) + tail) == [BareToken(Close(n))] + Tokens(tail)
  {
    hide Tokens, IsTagName;
    LowerTagName(n.name);
    LowerTwice(n.name);
    CloseText(n, tail);
    hide TokenText, Attributes;
    TagReads(false, Tag(n), ">" + tail);
    TagEnds([], tail);
  }

  predicate TokenFits(t: Token) {
    match t
    case Open(n) => Unquoted(n)
    case Close(_) => true
    case Chr(_) => true
  }

  /** A written token is read as itself, with what follows untouched, exactly when no value has a quotation mark. */
  lemma TokenReads(t: Token, tail: string)
    requires !t.Chr? ==> IsElement(t.node)
    ensures Tokens(TokenText(t) + tail) == [BareToken(t)] + Tokens(tail) <==> TokenFits(t)
    ensures !TokenFits(t) ==> !StartsWith(Tokens(TokenText(t) + tail), BareToken(t))
  {
    hide Tokens, AttributesText, Entity, IsElement, Unquoted;
    match t
    case Open(n) => OpenReads(n, tail);
    case Close(n) => CloseReads(n, tail);
    case Chr(c) => CharReads(c, tail);
  }

  // ---------------------------------------------------------------- whole markup

  lemma BaredFront(ts: seq<Token>)
    requires ts != []
    ensures Bared(ts) == [BareToken(ts[0])] + Bared(ts[1..])
  {
  }

  /** What is written is read back as it is, object identity and letter case apart, exactly when no value is cut. */
  lemma {:induction false} HtmlReadsBack(ts: seq<Token>)
    requires AreElements(ts)
    ensures Tokens(Html(ts)) == Bared(ts) <==> AllUnquoted(ts)
    decreases |ts|
  {
    if ts == [] {
      return;
    }
    hide Tokens, TokenText, IsElement, Unquoted, BareToken, Bared;
    var t, rest := ts[0], ts[1..];
    assert t in ts && forall u <- rest :: u in ts;
    TokenReads(t, Html(rest));
    BaredFront(ts);
    HtmlReadsBack(rest);
    assert AllUnquoted(ts) <==> TokenFits(t) && AllUnquoted(rest);
    SameRest(BareToken(t), Tokens(Html(rest)), Bared(rest));
  }

  lemma SameRest(t: Token, a: seq<Token>, b: seq<Token>)
    ensures [t] + a == [t] + b <==> a == b
  {
    Head(t, a);
    Head(t, b);
  }

  // ---------------------------------------------------------------- what reading builds

  predicate Lowered(found: seq<Attribute>) {
    Distinct(found) && forall a <- found :: IsAttributeName(a.0) && ToLower(a.0) == a.0
  }

  lemma AddLowered(found: seq<Attribute>, name: string, value: string)
    requires Lowered(found) && IsAttributeName(name)
    ensures Lowered(Add(found, ToLower(name), value))
  {
    LowerTwice(name);
    var low := ToLower(name);
    forall i | 0 <= i < |name|
      ensures (low[i] in NAME_ENDS <==> name[i] in NAME_ENDS) && (low[i] in TAG_NAME_ENDS <==> name[i] in TAG_NAME_ENDS)
    {
      LowerKeeps(name[i]);
    }
    hide NAME_ENDS, TAG_NAME_ENDS;
  }

  lemma {:induction false} AttributesLowered(s: string, found: seq<Attribute>)
    requires Lowered(found)
    ensures var r := Attributes(s, found);
            r.Some? ==> Lowered(r.value.0)
    decreases |s|
  {
    hide SkipSpaces, Value, Unescape, Lowered, Add, IsAttributeName;
    if s == "" || s[0] == '>' {
      return;
    }
    if s[0] in SPACES || s[0] == '/' {
      AttributesLowered(s[1..], found);
      return;
    }
    var k := 1 + Until(s[1..], NAME_ENDS);
    var name, after := ToLower(s[..k]), SkipSpaces(s[k..]);
    NameRead(s);
    if after == "" || after[0] != '=' {
      AddLowered(found, s[..k], "");
      AttributesLowered(after, Add(found, name, ""));
    } else {
      match Value(after[1..])
      case None =>
      case Some((value, rest)) =>
        AddLowered(found, s[..k], value);
        AttributesLowered(rest, Add(found, name, value));
    }
  }

  lemma NameRead(s: string)
    requires s != "" && s[0] !in TAG_NAME_ENDS
    ensures IsAttributeName(s[..1 + Until(s[1..], NAME_ENDS)])
  {
    var k := 1 + Until(s[1..], NAME_ENDS);
    forall i | 1 <= i < k
      ensures s[i] !in NAME_ENDS
    {
      assert s[i] == s[1..][i - 1];
    }
  }

  lemma {:induction false} BareLowered(attributes: seq<Attribute>)
    requires Lowered(attributes)
    ensures BareAttributes(attributes) == attributes
  {
    forall i | 0 <= i < |attributes|
      ensures BareAttributes(attributes)[i] == attributes[i]
    {
      assert attributes[i] in attributes;
    }
  }

  predicate IsBare(t: Token) {
    BareToken(t) == t && (!t.Chr? ==> IsElement(t.node))
  }

  lemma TagIsBare(s: string, k: nat, attributes: seq<Attribute>)
    requires k == TagLead(s) && k > 0 && Lowered(attributes)
    ensures IsBare(TagToken(k == 1, ToLower(s[k..k + Until(s[k..], TAG_NAME_ENDS)]), attributes))
  {
    hide Until, NAME_ENDS, TAG_NAME_ENDS, IsTagName;
    var m := Until(s[k..], TAG_NAME_ENDS);
    var name := s[k..k + m];
    TagNameRead(s[k..]);
    assert name == s[k..][..m];
    LowerTagName(name);
    LowerTwice(name);
    BareLowered(attributes);
  }

  lemma TagNameRead(s: string)
    requires s != "" && IsLetter(s[0])
    ensures IsTagName(s[..Until(s, TAG_NAME_ENDS)])
  {
  }

  /** Every element that a reader builds is one that a written tag can stand for, and written in lower case. */
  lemma {:induction false} TokensAreElements(s: string)
    ensures AreElements(Tokens(s)) && Bared(Tokens(s)) == Tokens(s)
    decreases |s|
  {
    hide Attributes, Until, TagLead, Bared, AreElements, IsBare, TagToken, Reference;
    var k := TagLead(s);
    if s == "" {
      NothingIsBare();
    } else if k > 0 {
      var m := k + Until(s[k..], TAG_NAME_ENDS);
      AttributesLowered(s[m..], []);
      match Attributes(s[m..], [])
      case None => NothingIsBare();
      case Some((attributes, rest)) =>
        var t := TagToken(k == 1, ToLower(s[k..m]), attributes);
        TagIsBare(s, k, attributes);
        TokensAreElements(rest);
        BaredCons(t, Tokens(rest));
    } else {
      var t := Chr(Reference(s).0);
      CharIsBare(t.c);
      TokensAreElements(s[Reference(s).1..]);
      BaredCons(t, Tokens(s[Reference(s).1..]));
    }
  }

  lemma NothingIsBare()
    ensures AreElements([]) && Bared([]) == []
  {
  }

  lemma CharIsBare(c: char)
    ensures IsBare(Chr(c))
  {
  }

  lemma BaredCons(t: Token, rest: seq<Token>)
    requires IsBare(t) && AreElements(rest) && Bared(rest) == rest
    ensures AreElements([t] + rest) && Bared([t] + rest) == [t] + rest
  {
    hide IsElement, BareToken;
    Head(t, rest);
    BaredFront([t] + rest);
  }

  // ---------------------------------------------------------------- reading pages

  function BareNodes(nodes: seq<Node>): seq<Node> {
    seq(|nodes|, i requires 0 <= i < |nodes| => Bare(nodes[i]))
  }

  function BareContexts(contexts: seq<seq<Node>>): seq<seq<Node>> {
    seq(|contexts|, i requires 0 <= i < |contexts| => BareNodes(contexts[i]))
  }

  function BarePage(p: Page): Page {
    p.(open := BareNodes(p.open), contexts := BareContexts(p.contexts))
  }

  lemma SameTag(n: Node)
    ensures Tag(Bare(n)) == Tag(n)
  {
    LowerTwice(n.name);
  }

  lemma {:induction false} InnermostBare(open: seq<Node>, n: Node, m: Node)
    requires Tag(n) == Tag(m)
    ensures Innermost(BareNodes(open), m) == Innermost(open, n)
    decreases |open|
  {
    hide Tag;
    if open != [] {
      var k := |open| - 1;
      SameTag(open[k]);
      assert BareNodes(open)[..k] == BareNodes(open[..k]);
      InnermostBare(open[..k], n, m);
    }
  }

  lemma BareThen(p: Page, t: Token)
    ensures BarePage(p).Then(BareToken(t)) == BarePage(p.Then(t))
  {
    hide Tag, Innermost, BareAttributes;
    match t
    case Open(n) =>
      SameTag(n);
      assert BareNodes(p.open + [n]) == BareNodes(p.open) + [Bare(n)];
    case Close(n) =>
      var m := Node(0, Tag(n), []);
      assert Tag(m) == Tag(n) by {
        LowerTag(n);
      }
      InnermostBare(p.open, n, m);
      var k := Innermost(p.open, n);
      if k >= 0 {
        assert BareNodes(p.open)[..k] == BareNodes(p.open[..k]);
      }
      if p.open != [] {
        SameTag(p.open[|p.open| - 1]);
      }
    case Chr(c) =>
      assert BareContexts(p.contexts + [p.open]) == BareContexts(p.contexts) + [BareNodes(p.open)];
  }

  lemma LowerTag(n: Node)
    ensures Tag(Node(0, Tag(n), [])) == Tag(n)
  {
    LowerTwice(n.name);
  }

  /** Reading does not depend on the identity of nodes or on letter case. */
  lemma {:induction false} ReadBared(ts: seq<Token>)
    ensures Read(Bared(ts)) == BarePage(Read(ts))
    decreases |ts|
  {
    hide BareToken;
    if ts != [] {
      var k := |ts| - 1;
      assert Bared(ts)[..k] == Bared(ts[..k]) && Bared(ts)[k] == BareToken(ts[k]);
      ReadBared(ts[..k]);
      BareThen(Read(ts[..k]), ts[k]);
    }
  }

  // ---------------------------------------------------------------- putting texts together

  lemma {:induction false} HtmlConcat(a: seq<Token>, b: seq<Token>)
    ensures Html(a + b) == Html(a) + Html(b)
    decreases |a|
  {
    hide TokenText;
    if a == [] {
      Nothing(b);
      Nothing(Html(b));
    } else {
      assert (a + b)[1..] == a[1..] + b;
      HtmlConcat(a[1..], b);
      Assoc(TokenText(a[0]), Html(a[1..]), Html(b));
    }
  }

  lemma {:induction false} HtmlChars(s: string)
    ensures Html(Chars(s)) == Escape(s)
    decreases |s|
  {
    hide Escape;
    if s == "" {
      EscapeNothing();
    } else {
      assert Chars(s)[1..] == Chars(s[1..]) && Chars(s)[0] == Chr(s[0]);
      assert s == [s[0]] + s[1..];
      EscapeHead(s[0], s[1..]);
      HtmlChars(s[1..]);
    }
  }

  lemma HtmlOne(t: Token)
    ensures Html([t]) == TokenText(t)
  {
    Nothing(TokenText(t));
  }

  // ---------------------------------------------------------------- a tag that does not read back

  const QUOTED := "a\"b="

  function QuotedTitle(id: int): Node {
    Node(id, "SPAN", [("title", QUOTED)])
  }

  /** A value without an end takes everything with it. */
  lemma UnendedValue(tail: string, found: seq<Attribute>)
    requires '"' !in tail
    ensures Attributes("b=\"" + tail, found) == None
  {
    hide Value, Attributes;
    NameReads("b", "\"" + tail, found);
    assert "b=\"" + tail == "b" + ("=" + ("\"" + tail));
    NoValue(tail);
  }

  lemma NoValue(tail: string)
    requires '"' !in tail
    ensures Value("\"" + tail) == None
  {
    SkipsNothing("\"" + tail);
    assert ("\"" + tail)[1..] == tail;
    assert Until(tail, {'"'}) == |tail|;
  }

  lemma TitleReads(tail: string)
    requires '"' !in tail
    ensures Attributes(AttributesText([("title", QUOTED)]) + ">" + tail, []) == None
  {
    hide Attributes, AttributesText, Escape;
    var attributes, rest := [("title", QUOTED)], ">" + tail;
    AttributesFront(attributes, tail);
    assert attributes[1..] == [];
    NoText(tail);
    EscapesNone("a");
    EscapesNone(QUOTED);
    TitleText(rest);
    AttributeReads("title", "a", "b=\"" + rest, []);
    UnendedValue(rest, Add([], ToLower("title"), "a"));
  }

  lemma NoText(tail: string)
    ensures AttributesText([]) + ">" + tail == ">" + tail
  {
  }

  lemma TitleText(rest: string)
    ensures " " + "title" + "=\"" + QUOTED + "\"" + rest == " " + "title" + "=\"" + "a" + "\"" + ("b=\"" + rest)
  {
    assert QUOTED + "\"" == "a" + "\"" + "b=\"";
  }

  lemma EscapesNone(s: string)
    requires '&' !in s && '<' !in s && '>' !in s
    ensures Escape(s) == s
  {
    ReplaceAbsent(s, '&', "&amp;");
    ReplaceAbsent(s, '<', "&lt;");
    ReplaceAbsent(s, '>', "&gt;");
  }

  /** A title that holds a quotation mark can swallow its own tag and all that follows up to the next one. */
  lemma QuoteSwallows(id: int, tail: string)
    requires '"' !in tail
    ensures var n := QuotedTitle(id);
            IsElement(n) && !Unquoted(n) && Tokens(TokenText(Open(n)) + tail) == []
  {
    var n := QuotedTitle(id);
    QuotedIsElement(id);
    assert QUOTED[1] == '"';
    hide Attributes, AttributesText, Tokens, TokenText, IsTagName;
    OpenText(n, tail);
    LowerTagName(n.name);
    LowerTwice(n.name);
    TitleReads(tail);
    TagReads(true, Tag(n), AttributesText(n.attributes) + ">" + tail);
  }

  lemma QuotedIsElement(id: int)
    ensures IsElement(QuotedTitle(id))
  {
  }
}
