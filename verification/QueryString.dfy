/** The query-string parser and printer. */
module QueryString {
  import opened Basics
  import opened Percent

  // ---------------------------------------------------------------- the scanner

  /** What ends a key: `[^=?&]+` stops here. */
  predicate IsSeparator(c: char) {
    c in "=?&"
  }

  function SkipSeparators(s: string): (r: string)
    ensures |r| <= |s| && (r != "" ==> !IsSeparator(r[0]))
  {
    if s != "" && IsSeparator(s[0]) then SkipSeparators(s[1..]) else s
  }

  function KeyLength(s: string): (n: nat)
    ensures n <= |s|
  {
    if s == "" || IsSeparator(s[0]) then 0 else 1 + KeyLength(s[1..])
  }

  function ValueLength(s: string): (n: nat)
    ensures n <= |s|
  {
    if s == "" || s[0] == '&' then 0 else 1 + ValueLength(s[1..])
  }

  datatype Match = Match(key: string, value: string, rest: string)

  /** The next match of `([^=?&]+)=?([^&]*)`, and the text after it. */
  function NextMatch(s: string): (m: Option<Match>)
    ensures m.Some? ==> m.value.key != "" && |m.value.rest| < |s|
  {
    var s := SkipSeparators(s);
    if s == "" then None
    else
      var k := KeyLength(s);
      var v := s[if k < |s| && s[k] == '=' then k + 1 else k..];
      var n := ValueLength(v);
      Some(Match(s[..k], v[..n], v[n..]))
  }

  /** Assigning to a plain object: a string given to `__proto__` is ignored. */
  function Assign(m: map<string, string>, key: string, value: string): map<string, string> {
    if key == "__proto__" then m else m[key := value]
  }

  /** The object filled from every match of `s`, or none when a part is malformed. */
  function Collect(s: string, m: map<string, string>): Option<map<string, string>>
    decreases |s|
  {
    match NextMatch(s)
    case None => Some(m)
    case Some(part) =>
      match (DecodeComponent(part.key), DecodeComponent(part.value))
      case (Some(k), Some(v)) => Collect(part.rest, Assign(m, k, v))
      case _ => None
  }

  /** `querystring`. */
  method Parse(query: string) returns (result: Option<map<string, string>>)
    ensures result == Collect(query, map[])
  {
    var m := map[];
    var s := query;
    while true
      invariant Collect(query, map[]) == Collect(s, m)
      decreases |s|
    {
      match NextMatch(s)
      case None => return Some(m);
      case Some(part) =>
        var k, v := DecodeComponent(part.key), DecodeComponent(part.value);
        if k == None || v == None {
          return None;
        }
        m := Assign(m, k.value, v.value);
        s := part.rest;
    }
  }

  // ---------------------------------------------------------------- the printer

  /** An object's own properties, in the order a loop meets them. */
  predicate IsObject(obj: seq<(string, string)>) {
    && (forall p <- obj :: IsBytes(p.0) && IsBytes(p.1))
    && forall i, j :: 0 <= i < j < |obj| ==> obj[i].0 != obj[j].0
  }

  datatype Prefix = NoPrefix | Flag | Given(text: string)

  function PrefixText(p: Prefix): string {
    match p
    case NoPrefix => ""
    case Flag => "?"
    case Given(text) => text
  }

  function Pair(p: (string, string)): string
    requires IsBytes(p.0) && IsBytes(p.1)
  {
    EncodeComponent(p.0) + "=" + EncodeComponent(p.1)
  }

  function JoinPairs(pairs: seq<string>): string {
    if pairs == [] then "" else if |pairs| == 1 then pairs[0] else pairs[0] + "&" + JoinPairs(pairs[1..])
  }

  function Pairs(obj: seq<(string, string)>): (r: seq<string>)
    requires forall p <- obj :: IsBytes(p.0) && IsBytes(p.1)
    ensures |r| == |obj| && forall i :: 0 <= i < |obj| ==> r[i] == Pair(obj[i])
  {
    if obj == [] then [] else Pairs(obj[..|obj| - 1]) + [Pair(obj[|obj| - 1])]
  }

  function Printed(obj: seq<(string, string)>, prefix: Prefix): string
    requires IsObject(obj)
  {
    if obj == [] then "" else PrefixText(prefix) + JoinPairs(Pairs(obj))
  }

  /** `querystringify`. */
  method Stringify(obj: seq<(string, string)>, prefix: Prefix) returns (s: string)
    requires IsObject(obj)
    ensures s == Printed(obj, prefix)
  {
    var pairs: seq<string> := [];
    for i := 0 to |obj|
      invariant pairs == Pairs(obj[..i])
    {
      assert obj[i] in obj && obj[..i + 1][..i] == obj[..i];
      pairs := pairs + [EncodeComponent(obj[i].0) + "=" + EncodeComponent(obj[i].1)];
    }
    assert obj[..|obj|] == obj;
    s := if |pairs| > 0 then PrefixText(prefix) + JoinPairs(pairs) else "";
  }

  // ---------------------------------------------------------------- round trip

  function MapOf(obj: seq<(string, string)>): map<string, string> {
    if obj == [] then map[] else MapOf(obj[..|obj| - 1])[obj[|obj| - 1].0 := obj[|obj| - 1].1]
  }

  predicate Reserved(key: string) {
    key == "" || key == "__proto__"
  }

  predicate Separators(s: string) {
    forall i :: 0 <= i < |s| ==> IsSeparator(s[i])
  }

  lemma {:induction false} SkipAll(prefix: string, s: string)
    requires Separators(prefix)
    ensures SkipSeparators(prefix + s) == SkipSeparators(s)
  {
    if prefix == "" {
      assert prefix + s == s;
    } else {
      assert (prefix + s)[1..] == prefix[1..] + s;
      SkipAll(prefix[1..], s);
    }
  }

  lemma {:induction false} KeyRun(key: string, tail: string)
    requires forall i :: 0 <= i < |key| ==> !IsSeparator(key[i])
    ensures KeyLength(key + "=" + tail) == |key|
  {
    var s := key + "=" + tail;
    if key == "" {
      assert s[0] == '=';
    } else {
      assert s[0] == key[0] && s[1..] == key[1..] + "=" + tail;
      KeyRun(key[1..], tail);
    }
  }

  lemma {:induction false} ValueRun(value: string, tail: string)
    requires forall i :: 0 <= i < |value| ==> value[i] != '&'
    requires tail == "" || tail[0] == '&'
    ensures ValueLength(value + tail) == |value|
  {
    if value == "" {
      assert value + tail == tail;
    } else {
      assert (value + tail)[1..] == value[1..] + tail;
      ValueRun(value[1..], tail);
    }
  }

  lemma PlainIsNoSeparator(s: string)
    requires IsPlain(s)
    ensures forall i :: 0 <= i < |s| ==> !IsSeparator(s[i]) && s[i] != '&'
  {
  }

  /** One printed pair is one match. */
  lemma PairMatches(p: (string, string), prefix: string, tail: string)
    requires IsBytes(p.0) && IsBytes(p.1) && p.0 != ""
    requires Separators(prefix)
    requires tail == "" || tail[0] == '&'
    ensures NextMatch(prefix + Pair(p) + tail) == Some(Match(EncodeComponent(p.0), EncodeComponent(p.1), tail))
  {
    hide EncodeComponent, IsPlain, IsSeparator, KeyLength, ValueLength, SkipSeparators;
    var key, value := EncodeComponent(p.0), EncodeComponent(p.1);
    EncodedIsPlain(p.0);
    EncodedIsPlain(p.1);
    PlainIsNoSeparator(key);
    PlainIsNoSeparator(value);
    var s := Pair(p) + tail;
    assert s == key + "=" + (value + tail) && s[0] == key[0];
    Assoc(prefix, Pair(p), tail);
    SkipAll(prefix, s);
    SkipNone(s);
    KeyRun(key, value + tail);
    ValueRun(value, tail);
    assert s[|key|] == '=' && s[|key| + 1..] == value + tail && s[..|key|] == key;
    assert (value + tail)[..|value|] == value && (value + tail)[|value|..] == tail;
  }

  lemma SkipNone(s: string)
    requires s != "" && !IsSeparator(s[0])
    ensures SkipSeparators(s) == s
  {
  }

  /** Parsing printed pairs from the left fills the object in their order. */
  lemma {:induction false} CollectPairs(obj: seq<(string, string)>, prefix: string, m: map<string, string>)
    requires obj != [] && (forall p <- obj :: IsBytes(p.0) && IsBytes(p.1) && !Reserved(p.0))
    requires Separators(prefix)
    ensures Collect(prefix + JoinPairs(Pairs(obj)), m) == Some(m + MapOf(obj))
    decreases |obj|
  {
    hide NextMatch, EncodeComponent, DecodeComponent, Pair;
    var p, rest := obj[0], obj[1..];
    assert p in obj;
    var pairs := Pairs(obj);
    var tail := if rest == [] then "" else "&" + JoinPairs(pairs[1..]);
    assert Pairs(rest) == pairs[1..];
    assert JoinPairs(pairs) == Pair(p) + tail;
    Assoc(prefix, Pair(p), tail);
    PairMatches(p, prefix, tail);
    DecodeEncode(p.0);
    DecodeEncode(p.1);
    var next := m[p.0 := p.1];
    assert Collect(prefix + JoinPairs(pairs), m) == Collect(tail, next);
    MapOfFirst(obj, m);
    if rest == [] {
      NoMatch();
      assert next + MapOf(rest) == next;
    } else {
      CollectPairs(rest, "&", next);
    }
  }

  lemma CollectNothing()
    ensures Collect("", map[]) == Some(map[])
  {
    NoMatch();
  }

  lemma NoMatch()
    ensures NextMatch("") == None
  {
  }

  lemma {:induction false} MapOfFirst(obj: seq<(string, string)>, m: map<string, string>)
    requires obj != []
    ensures m + MapOf(obj) == m[obj[0].0 := obj[0].1] + MapOf(obj[1..])
    decreases |obj|
  {
    var k := |obj| - 1;
    if k == 0 {
      assert obj[..0] == [] && obj[1..] == [];
    } else {
      MapOfFirst(obj[..k], m);
      assert obj[..k][1..] == obj[1..][..k - 1] && obj[1..][k - 1] == obj[k];
      MapOfLast(obj, m);
      MapOfLast(obj[1..], m[obj[0].0 := obj[0].1]);
    }
  }

  lemma MapOfLast(obj: seq<(string, string)>, m: map<string, string>)
    requires obj != []
    ensures var (key, value) := obj[|obj| - 1]; m + MapOf(obj) == (m + MapOf(obj[..|obj| - 1]))[key := value]
  {
  }

  /** No key of a parsed object is empty or `__proto__`. */
  lemma {:induction false} CollectedKeys(s: string, m: map<string, string>)
    requires forall k <- m :: !Reserved(k)
    ensures Collect(s, m).Some? ==> forall k <- Collect(s, m).value :: !Reserved(k)
    decreases |s|
  {
    var next := NextMatch(s);
    if next.Some? {
      var part := next.value;
      var k, v := DecodeComponent(part.key), DecodeComponent(part.value);
      if k.Some? && v.Some? {
        DecodedIsNotEmpty(part.key);
        CollectedKeys(part.rest, Assign(m, k.value, v.value));
      }
    }
  }

  lemma {:induction false} MapOfKeys(obj: seq<(string, string)>)
    ensures forall p <- obj :: p.0 in MapOf(obj)
    decreases |obj|
  {
    if obj != [] {
      MapOfKeys(obj[..|obj| - 1]);
      SplitLast(obj);
    }
  }

  /**
   * With any prefix made of separators, parsing a printed object gives the object back exactly when none of its
   * keys is empty or `__proto__`.
   */
  lemma ParsePrinted(obj: seq<(string, string)>, prefix: Prefix)
    requires IsObject(obj) && Separators(PrefixText(prefix))
    ensures Collect(Printed(obj, prefix), map[]) == Some(MapOf(obj)) <==> forall p <- obj :: !Reserved(p.0)
  {
    hide Collect, JoinPairs, Pairs;
    if forall p <- obj :: !Reserved(p.0) {
      if obj == [] {
        CollectNothing();
      } else {
        CollectPairs(obj, PrefixText(prefix), map[]);
        assert map[] + MapOf(obj) == MapOf(obj);
      }
    } else {
      var p :| p in obj && Reserved(p.0);
      CollectedKeys(Printed(obj, prefix), map[]);
      MapOfKeys(obj);
    }
  }

  // ---------------------------------------------------------------- one match, by its pieces

  predicate Holds(s: string, cs: string) {
    exists i :: 0 <= i < |s| && s[i] in cs
  }

  lemma {:induction false} KeyStops(key: string, rest: string)
    requires !Holds(key, "=?&") && (rest == "" || rest[0] in "=?&")
    ensures KeyLength(key + rest) == |key|
  {
    if key == "" {
      Nothing(rest);
    } else {
      assert key[0] !in "=?&" && !Holds(key[1..], "=?&");
      assert (key + rest)[0] == key[0] && (key + rest)[1..] == key[1..] + rest;
      KeyStops(key[1..], rest);
    }
  }

  /**
   * Any separators, a key, an equals sign or none, and a value up to the next ampersand make one match; without the
   * sign the value is empty or begins with the question mark that ends the key.
   */
  lemma MatchRead(seps: string, key: string, equals: bool, value: string, tail: string)
    requires forall i :: 0 <= i < |seps| ==> seps[i] in "=?&"
    requires key != "" && !Holds(key, "=?&") && !Holds(value, "&") && (tail == "" || tail[0] == '&')
    requires equals || value == "" || value[0] == '?'
    ensures NextMatch(seps + (key + (if equals then "=" else "") + (value + tail))) == Some(Match(key, value, tail))
  {
    hide KeyLength, ValueLength, SkipSeparators;
    var mark := if equals then "=" else "";
    var rest := mark + (value + tail);
    var s := key + rest;
    Assoc(key, mark, value + tail);
    assert key[0] !in "=?&" && s[0] == key[0];
    SkipAll(seps, s);
    SkipNone(s);
    assert rest != "" ==> rest[0] in "=?&" by {
      assert !equals ==> rest == value + tail;
    }
    KeyStops(key, rest);
    assert forall i :: 0 <= i < |value| ==> value[i] != '&';
    ValueRun(value, tail);
    assert s[..|key|] == key && s[|key|..] == rest;
    assert !equals ==> rest == value + tail && (rest == "" || rest[0] != '=');
    assert equals ==> s[|key| + 1..] == value + tail;
    assert (value + tail)[..|value|] == value && (value + tail)[|value|..] == tail;
  }

  /** Separators alone hold no match. */
  lemma NoMatchInSeparators(seps: string)
    requires forall i :: 0 <= i < |seps| ==> seps[i] in "=?&"
    ensures NextMatch(seps) == None
  {
    Nothing(seps);
    SkipAll(seps, "");
  }

  /** A prefix stands in front of what is printed without one, a question mark where only a flag is given. */
  lemma PrefixInFront(obj: seq<(string, string)>, prefix: Prefix)
    requires IsObject(obj) && obj != []
    ensures Printed(obj, prefix) ==
            match prefix
            case NoPrefix => Printed(obj, NoPrefix)
            case Flag => "?" + Printed(obj, NoPrefix)
            case Given(text) => text + Printed(obj, NoPrefix)
  {
    Nothing(JoinPairs(Pairs(obj)));
  }
}
