/** The two-box selector: caches of entries behind the lists that are shown, searched and moved between. */
module SelectBox {
  import opened Basics

  /** An entry of a cache, and an option of the list on the page. */
  datatype Entry = Entry(value: string, text: string, displayed: bool)

  datatype Item = Item(value: string, text: string, selected: bool)

  // ---------------------------------------------------------------- searching

  /** How many characters at the start of `s` are spaces, and how many are not. */
  function Spaces(s: string): (n: nat)
    ensures n <= |s| && (forall i :: 0 <= i < n ==> IsSpace(s[i])) && (n < |s| ==> !IsSpace(s[n]))
  {
    if s == "" || !IsSpace(s[0]) then 0 else 1 + Spaces(s[1..])
  }

  function Letters(s: string): (n: nat)
    ensures n <= |s| && (forall i :: 0 <= i < n ==> !IsSpace(s[i])) && (n < |s| ==> IsSpace(s[n]))
  {
    if s == "" || IsSpace(s[0]) then 0 else 1 + Letters(s[1..])
  }

  /** `s.split(/\s+/)`: there is an empty token wherever `s` begins or ends with a space. */
  function Tokens(s: string): (r: seq<string>)
    ensures r != []
    decreases |s|
  {
    var n := Letters(s);
    if n == |s| then [s] else [s[..n]] + Tokens(s[n + Spaces(s[n..])..])
  }

  /** A word of `s`: a stretch without spaces that no longer stretch contains. */
  predicate IsWord(s: string, i: nat, j: nat) {
    && i < j <= |s|
    && (forall k :: i <= k < j ==> !IsSpace(s[k]))
    && (i == 0 || IsSpace(s[i - 1])) && (j == |s| || IsSpace(s[j]))
  }

  predicate HasAll(text: string, tokens: seq<string>) {
    forall k :: 0 <= k < |tokens| ==> Contains(text, tokens[k])
  }

  ghost predicate HasWords(text: string, s: string) {
    forall i: nat, j: nat :: IsWord(s, i, j) ==> Contains(text, s[i..j])
  }

  /** Looking for every token is looking for every word: the empty tokens are found anywhere. */
  lemma {:induction false} TokensAreWords(text: string, s: string)
    ensures HasAll(text, Tokens(s)) <==> HasWords(text, s)
    decreases |s|
  {
    hide HasAll, HasWords, Contains, IsSpace, Letters, Spaces;
    var n := Letters(s);
    if n == |s| {
      HasFirst(text, s, []);
      Nothing([s]);
      HasNone(text);
      OneWord(text, s);
    } else {
      var m := Break(s);
      TokensAreWords(text, s[m..]);
      HasFirst(text, s[..n], Tokens(s[m..]));
      WordsAfter(text, s, n, m);
    }
  }

  /** Where the first token and the spaces after it end. */
  lemma Break(s: string) returns (m: nat)
    requires Letters(s) < |s|
    ensures var n := Letters(s);
            && n < m <= |s| && m == n + Spaces(s[n..]) && (m < |s| ==> !IsSpace(s[m]))
            && (forall k :: 0 <= k < n ==> !IsSpace(s[k])) && (forall k :: n <= k < m ==> IsSpace(s[k]))
  {
    hide IsSpace, Letters;
    var n := Letters(s);
    var rest := s[n..];
    m := n + Spaces(rest);
    assert s[n] == rest[0];
    assert forall k :: n <= k < m ==> s[k] == rest[k - n];
    assert m < |s| ==> s[m] == rest[m - n];
  }

  lemma OneWord(text: string, s: string)
    requires forall k :: 0 <= k < |s| ==> !IsSpace(s[k])
    ensures HasWords(text, s) <==> Contains(text, s)
  {
    hide IsSpace;
    assert Contains(text, "");
    assert s[0..|s|] == s;
    if s != "" {
      assert IsWord(s, 0, |s|);
    }
    forall i: nat, j: nat | IsWord(s, i, j)
      ensures i == 0 && j == |s|
    {
    }
  }

  lemma HasNone(text: string)
    ensures HasAll(text, [])
  {
  }

  lemma HasFirst(text: string, token: string, rest: seq<string>)
    ensures HasAll(text, [token] + rest) <==> Contains(text, token) && HasAll(text, rest)
  {
    var all := [token] + rest;
    assert forall k :: 0 <= k < |rest| ==> rest[k] == all[k + 1];
    assert all[0] == token;
  }

  lemma WordsAfter(text: string, s: string, n: nat, m: nat)
    requires n < m <= |s| && (m < |s| ==> !IsSpace(s[m]))
    requires (forall k :: 0 <= k < n ==> !IsSpace(s[k])) && (forall k :: n <= k < m ==> IsSpace(s[k]))
    ensures HasWords(text, s) <==> Contains(text, s[..n]) && HasWords(text, s[m..])
  {
    hide IsSpace;
    assert Contains(text, "");
    var rest := s[m..];
    if HasWords(text, s) {
      FirstWord(s, n);
      forall i: nat, j: nat | IsWord(rest, i, j)
        ensures Contains(text, rest[i..j])
      {
        WordShifts(s, m, i, j);
      }
    }
    if Contains(text, s[..n]) && HasWords(text, rest) {
      forall i: nat, j: nat | IsWord(s, i, j)
        ensures Contains(text, s[i..j])
      {
        WordPlace(s, n, m, i, j);
        if i >= m {
          WordShifts(s, m, i - m, j - m);
        }
      }
    }
  }

  lemma FirstWord(s: string, n: nat)
    requires n < |s| && IsSpace(s[n]) && (forall k :: 0 <= k < n ==> !IsSpace(s[k]))
    ensures n > 0 ==> IsWord(s, 0, n)
    ensures s[0..n] == s[..n]
  {
    hide IsSpace;
  }

  lemma WordShifts(s: string, m: nat, i: nat, j: nat)
    requires 0 < m <= |s| && IsSpace(s[m - 1])
    ensures IsWord(s[m..], i, j) <==> IsWord(s, m + i, m + j)
    ensures IsWord(s[m..], i, j) ==> s[m..][i..j] == s[m + i..m + j]
  {
    hide IsSpace;
    var rest := s[m..];
    assert forall k :: 0 <= k < |rest| ==> rest[k] == s[m + k];
    assert forall k :: m <= k < |s| ==> s[k] == rest[k - m];
  }

  lemma WordPlace(s: string, n: nat, m: nat, i: nat, j: nat)
    requires n < m <= |s| && IsWord(s, i, j)
    requires (forall k :: 0 <= k < n ==> !IsSpace(s[k])) && (forall k :: n <= k < m ==> IsSpace(s[k]))
    ensures m <= i < j || (i == 0 && j == n && s[i..j] == s[..n])
  {
    hide IsSpace;
    assert !IsSpace(s[i]) && IsSpace(s[n]);
  }

  lemma {:induction false} LettersStop(word: string, rest: string)
    requires (forall i :: 0 <= i < |word| ==> !IsSpace(word[i])) && (rest == "" || IsSpace(rest[0]))
    ensures Letters(word + rest) == |word|
  {
    if word == "" {
      Nothing(rest);
    } else {
      assert (word + rest)[0] == word[0] && (word + rest)[1..] == word[1..] + rest;
      LettersStop(word[1..], rest);
    }
  }

  lemma {:induction false} SpacesStop(spaces: string, rest: string)
    requires (forall i :: 0 <= i < |spaces| ==> IsSpace(spaces[i])) && (rest == "" || !IsSpace(rest[0]))
    ensures Spaces(spaces + rest) == |spaces|
  {
    if spaces == "" {
      Nothing(rest);
    } else {
      assert (spaces + rest)[0] == spaces[0] && (spaces + rest)[1..] == spaces[1..] + rest;
      SpacesStop(spaces[1..], rest);
    }
  }

  const BLANKS := " \t\n\r\U{B}\U{C}"

  lemma BlanksAreSpaces(c: char)
    ensures IsSpace(c) <==> c in BLANKS
  {
    assert BLANKS[0] == ' ' && BLANKS[1] == '\t' && BLANKS[2] == '\n' && BLANKS[3] == '\r';
    assert BLANKS[4] as int == 11 && BLANKS[5] as int == 12;
    assert forall i :: 0 <= i < |BLANKS| ==> IsSpace(BLANKS[i]);
  }

  /** A word and the blanks behind it are split off. */
  lemma TokensFirst(word: string, blanks: string, rest: string)
    requires (forall i :: 0 <= i < |word| ==> word[i] !in BLANKS) && (rest == "" || rest[0] !in BLANKS)
    requires blanks != "" && forall i :: 0 <= i < |blanks| ==> blanks[i] in BLANKS
    ensures Tokens(word + blanks + rest) == [word] + Tokens(rest) && Tokens(word) == [word]
  {
    hide IsSpace, BLANKS, Letters, Spaces;
    forall c
      ensures IsSpace(c) <==> c in BLANKS
    {
      BlanksAreSpaces(c);
    }
    var s := word + blanks + rest;
    Assoc(word, blanks, rest);
    LettersStop(word, blanks + rest);
    LettersStop(word, "");
    Nothing(word);
    SpacesStop(blanks, rest);
    assert s[|word|..] == blanks + rest && s[..|word|] == word && s[|word| + |blanks|..] == rest;
  }

  /** What `filter` shows of a cache. */
  function Filtered(c: seq<Entry>, text: string): (r: seq<Entry>)
    ensures |r| == |c|
    ensures forall i :: 0 <= i < |c| ==> r[i].value == c[i].value && r[i].text == c[i].text
    ensures forall i :: 0 <= i < |c| ==> (r[i].displayed <==> HasAll(ToLower(c[i].text), Tokens(ToLower(text))))
  {
    if c == [] then []
    else
      var n := |c| - 1;
      Filtered(c[..n], text) + [c[n].(displayed := HasAll(ToLower(c[n].text), Tokens(ToLower(text))))]
  }

  /** After a search exactly the entries with every word of it, in either case, are displayed. */
  lemma FilterFindsWords(c: seq<Entry>, text: string, i: nat)
    requires i < |c|
    ensures Filtered(c, text)[i].displayed <==> HasWords(ToLower(c[i].text), ToLower(text))
  {
    hide HasAll, HasWords, Filtered, Tokens;
    TokensAreWords(ToLower(c[i].text), ToLower(text));
  }

  // ---------------------------------------------------------------- moving

  function Shown(c: seq<Entry>): seq<Entry> {
    if c == [] then [] else (if c[0].displayed then [c[0]] else []) + Shown(c[1..])
  }

  function Hidden(c: seq<Entry>): seq<Entry> {
    if c == [] then [] else (if c[0].displayed then [] else [c[0]]) + Hidden(c[1..])
  }

  function Values(c: seq<Entry>): (m: multiset<string>) {
    if c == [] then multiset{} else multiset{c[0].value} + Values(c[1..])
  }

  /** Values with their texts. */
  function Pairs(c: seq<Entry>): (m: multiset<(string, string)>) {
    if c == [] then multiset{} else multiset{(c[0].value, c[0].text)} + Pairs(c[1..])
  }

  /** Where the first entry with a value stands, or the length. */
  function Place(c: seq<Entry>, value: string): (i: nat)
    ensures i <= |c| && (i < |c| ==> c[i].value == value) && forall k :: 0 <= k < i ==> c[k].value != value
  {
    if c == [] || c[0].value == value then 0 else 1 + Place(c[1..], value)
  }

  /** `delete_from_cache`, which takes out the first entry of all when there is none with the value. */
  function Deleted(c: seq<Entry>, value: string): (r: seq<Entry>) {
    var i := Place(c, value);
    if i < |c| then c[..i] + c[i + 1..] else if c == [] then [] else c[1..]
  }

  datatype Pair = Pair(from: seq<Entry>, to: seq<Entry>)

  /** One turn of the loop in `move` and `move_all`. */
  function MovedOne(p: Pair, e: Entry): Pair {
    if Place(p.from, e.value) < |p.from| then Pair(Deleted(p.from, e.value), p.to + [e.(displayed := true)]) else p
  }

  /** Whatever it was, an entry that is moved is displayed. */
  lemma MovedIsShown(p: Pair, e: Entry)
    ensures AllShown(p.to) ==> AllShown(MovedOne(p, e).to)
  {
  }

  function Moved(p: Pair, items: seq<Entry>): Pair {
    if items == [] then p else MovedOne(Moved(p, items[..|items| - 1]), items[|items| - 1])
  }

  /** The options of the box that are picked, and the entries of its cache that are not; a flag for each option. */
  function Picked(c: seq<Entry>, flags: seq<bool>): seq<Entry>
    requires |flags| == |Shown(c)|
  {
    if c == [] then []
    else if !c[0].displayed then Picked(c[1..], flags)
    else (if flags[0] then [c[0]] else []) + Picked(c[1..], flags[1..])
  }

  function Unpicked(c: seq<Entry>, flags: seq<bool>): seq<Entry>
    requires |flags| == |Shown(c)|
  {
    if c == [] then []
    else if !c[0].displayed then [c[0]] + Unpicked(c[1..], flags)
    else (if flags[0] then [] else [c[0]]) + Unpicked(c[1..], flags[1..])
  }

  /** No entry that is not picked stands before a picked one with the same value. */
  predicate NoTwinBefore(c: seq<Entry>, flags: seq<bool>)
    requires |flags| == |Shown(c)|
  {
    c == [] ||
    if !c[0].displayed then c[0].value !in Values(Picked(c[1..], flags)) && NoTwinBefore(c[1..], flags)
    else (flags[0] || c[0].value !in Values(Picked(c[1..], flags[1..]))) && NoTwinBefore(c[1..], flags[1..])
  }

  predicate AllShown(c: seq<Entry>) {
    forall i :: 0 <= i < |c| ==> c[i].displayed
  }

  /** What is left of a cache when each value of `m` takes out the first entry that has it. */
  function Left(c: seq<Entry>, m: multiset<string>): seq<Entry> {
    if c == [] then []
    else if c[0].value in m then Left(c[1..], m - multiset{c[0].value})
    else [c[0]] + Left(c[1..], m)
  }

  lemma {:induction false} LeftNone(c: seq<Entry>)
    ensures Left(c, multiset{}) == c
  {
    if c != [] {
      LeftNone(c[1..]);
    }
  }

  /** Deleting a value from what is left takes out one more entry with it, if there is one. */
  lemma {:induction false} LeftAgain(c: seq<Entry>, m: multiset<string>, value: string)
    requires m <= Values(c) && m[value] < Values(c)[value]
    ensures var l := Left(c, m); Place(l, value) < |l| && Deleted(l, value) == Left(c, m + multiset{value})
  {
    hide Deleted, Place, Values;
    if c == [] {
      NoValues();
      return;
    }
    var e, rest := c[0], c[1..];
    assert c == [e] + rest;
    FirstValue(e, rest);
    Below(m, Values(rest), e.value, value);
    if e.value in m {
      LeftAgain(rest, m - multiset{e.value}, value);
    } else {
      DeleteFirst(e, Left(rest, m), value);
      if e.value == value {
        AddTake(m, value);
      } else {
        LeftAgain(rest, m, value);
      }
    }
  }

  lemma Below<T>(m: multiset<T>, n: multiset<T>, x: T, y: T)
    requires m <= multiset{x} + n && m[y] < (multiset{x} + n)[y]
    ensures x in m ==> m - multiset{x} <= n && (m - multiset{x})[y] < n[y]
    ensures x !in m ==> m <= n && (x != y ==> m[y] < n[y])
    ensures x in m ==> m - multiset{x} + multiset{y} == m + multiset{y} - multiset{x}
    ensures x !in m && x != y ==> x !in m + multiset{y}
  {
    if x !in m {
      forall k
        ensures m[k] <= n[k]
      {
        assert m[k] <= (multiset{x} + n)[k];
      }
    }
  }

  lemma DeleteFirst(e: Entry, k: seq<Entry>, value: string)
    ensures var l := [e] + k;
            && (e.value == value ==> Place(l, value) == 0 && Deleted(l, value) == k)
            && (e.value != value && Place(k, value) < |k| ==>
                  Place(l, value) < |l| && Deleted(l, value) == [e] + Deleted(k, value))
  {
    var l := [e] + k;
    Head(e, k);
    if e.value == value {
      assert l[..0] + l[1..] == k;
    } else if Place(k, value) < |k| {
      var i := Place(k, value);
      assert Place(l, value) == i + 1;
      DropNext(e, k, i);
    }
  }

  lemma DropNext(e: Entry, k: seq<Entry>, i: nat)
    requires i < |k|
    ensures var l := [e] + k; l[..i + 1] + l[i + 2..] == [e] + (k[..i] + k[i + 1..])
  {
  }

  lemma NoValues()
    ensures Values([]) == multiset{} && Pairs([]) == multiset{}
  {
  }

  lemma Regroup<T>(x: multiset<T>, a: multiset<T>, b: multiset<T>)
    ensures (x + a) + b == x + (a + b) && a + (x + b) == x + (a + b)
  {
  }

  lemma FirstValue(e: Entry, rest: seq<Entry>)
    ensures Values([e] + rest) == multiset{e.value} + Values(rest)
    ensures Pairs([e] + rest) == multiset{(e.value, e.text)} + Pairs(rest)
  {
    Head(e, rest);
  }

  lemma AddTake<T>(m: multiset<T>, x: T)
    ensures m + multiset{x} - multiset{x} == m && multiset{x} + m - multiset{x} == m
  {
  }

  lemma {:induction false} ValuesOfSum(a: seq<Entry>, b: seq<Entry>)
    ensures Values(a + b) == Values(a) + Values(b) && Pairs(a + b) == Pairs(a) + Pairs(b)
  {
    if a == [] {
      Nothing(b);
    } else {
      Head(a[0], a[1..] + b);
      assert a + b == [a[0]] + (a[1..] + b);
      ValuesOfSum(a[1..], b);
    }
  }

  lemma ValuesOfOne(e: Entry)
    ensures Values([e]) == multiset{e.value} && Pairs([e]) == multiset{(e.value, e.text)}
  {
    assert [e][1..] == [];
  }

  /** A move of options that are in the cache appends them in order, and takes their values out from the front. */
  lemma {:induction false} MovedIs(p: Pair, items: seq<Entry>)
    requires Values(items) <= Values(p.from) && AllShown(items)
    ensures Moved(p, items) == Pair(Left(p.from, Values(items)), p.to + items)
  {
    hide Deleted, Place, Left, Values;
    if items == [] {
      NoValues();
      LeftNone(p.from);
      Nothing(p.to);
    } else {
      var n := |items| - 1;
      var less, last := items[..n], items[n];
      SplitLast(items);
      ValuesOfSum(less, [last]);
      ValuesOfOne(last);
      MovedIs(p, less);
      assert Values(items)[last.value] == Values(less)[last.value] + 1;
      LeftAgain(p.from, Values(less), last.value);
      Assoc(p.to, less, [last]);
    }
  }

  // ---------------------------------------------------------------- what a move leaves

  /** The first entry goes to one side, and only a displayed one can be picked. */
  lemma PickStep(c: seq<Entry>, flags: seq<bool>) returns (rest: seq<bool>)
    requires |flags| == |Shown(c)| && c != []
    ensures |rest| == |Shown(c[1..])|
    ensures var p, u := Picked(c[1..], rest), Unpicked(c[1..], rest);
            || (Picked(c, flags) == [c[0]] + p && Unpicked(c, flags) == u && c[0].displayed)
            || (Picked(c, flags) == p && Unpicked(c, flags) == [c[0]] + u)
  {
    rest := if c[0].displayed then flags[1..] else flags;
    Nothing(Picked(c[1..], rest));
    Nothing(Unpicked(c[1..], rest));
  }

  lemma {:induction false} PickedOfBox(c: seq<Entry>, flags: seq<bool>)
    requires |flags| == |Shown(c)|
    ensures Values(Picked(c, flags)) + Values(Unpicked(c, flags)) == Values(c)
    ensures Pairs(Picked(c, flags)) + Pairs(Unpicked(c, flags)) == Pairs(c)
    ensures AllShown(Picked(c, flags))
  {
    hide Values, Pairs;
    if c == [] {
      NoValues();
    } else {
      hide Picked, Unpicked, Shown;
      var e := c[0];
      var fs := PickStep(c, flags);
      PickedOfBox(c[1..], fs);
      var p, u := Picked(c[1..], fs), Unpicked(c[1..], fs);
      assert c == [e] + c[1..];
      FirstValue(e, c[1..]);
      FirstValue(e, p);
      FirstValue(e, u);
      Regroup(multiset{e.value}, Values(p), Values(u));
      Regroup(multiset{(e.value, e.text)}, Pairs(p), Pairs(u));
    }
  }

  /** Without twins, taking the picked values out from the front takes the picked entries. */
  lemma {:induction false} LeavesUnpicked(c: seq<Entry>, flags: seq<bool>)
    requires |flags| == |Shown(c)| && NoTwinBefore(c, flags)
    ensures Left(c, Values(Picked(c, flags))) == Unpicked(c, flags)
  {
    hide Values;
    if c != [] {
      var fs := if c[0].displayed then flags[1..] else flags;
      var rest := Picked(c[1..], fs);
      LeavesUnpicked(c[1..], fs);
      FirstValue(c[0], rest);
      AddTake(Values(rest), c[0].value);
      Nothing(rest);
      Nothing(Unpicked(c[1..], fs));
    }
  }

  function Chosen(n: nat): (flags: seq<bool>)
    ensures |flags| == n && forall i :: 0 <= i < n ==> flags[i]
  {
    seq(n, i => true)
  }

  /** Picking every option picks what is shown. */
  lemma {:induction false} PickAll(c: seq<Entry>, flags: seq<bool>)
    requires |flags| == |Shown(c)| && forall i :: 0 <= i < |flags| ==> flags[i]
    ensures Picked(c, flags) == Shown(c) && Unpicked(c, flags) == Hidden(c)
  {
    if c != [] {
      PickAll(c[1..], if c[0].displayed then flags[1..] else flags);
    }
  }

  function Count(c: seq<Entry>): nat {
    if c == [] then 0 else (if c[0].displayed then 0 else 1) + Count(c[1..])
  }

  lemma {:induction false} LeftHides(c: seq<Entry>, m: multiset<string>)
    ensures Count(Left(c, m)) <= Count(c)
  {
    if c != [] {
      LeftHides(c[1..], m);
      LeftHides(c[1..], m - multiset{c[0].value});
      Head(c[0], Left(c[1..], m));
    }
  }

  lemma {:induction false} HiddenCount(c: seq<Entry>)
    ensures Count(Hidden(c)) == Count(c)
  {
    if c != [] {
      HiddenCount(c[1..]);
      Head(c[0], Hidden(c[1..]));
      Nothing(Hidden(c[1..]));
    }
  }

  /** No hidden entry stands before a displayed one with the same value. */
  predicate NoHiddenTwin(c: seq<Entry>) {
    forall i, j :: 0 <= i < j < |c| && c[i].value == c[j].value && c[j].displayed ==> c[i].displayed
  }

  lemma ShownHead(c: seq<Entry>)
    requires c != []
    ensures Shown(c) == if c[0].displayed then [c[0]] + Shown(c[1..]) else Shown(c[1..])
  {
    Nothing(Shown(c[1..]));
  }

  ghost predicate ShownWith(c: seq<Entry>, value: string) {
    exists j :: 0 <= j < |c| && c[j].displayed && c[j].value == value
  }

  lemma ShownWithAfter(c: seq<Entry>, value: string)
    requires c != []
    ensures ShownWith(c, value) <==> (c[0].displayed && c[0].value == value) || ShownWith(c[1..], value)
  {
    var rest := c[1..];
    assert forall j :: 0 <= j < |rest| ==> rest[j] == c[j + 1];
    if j :| 0 <= j < |rest| && rest[j].displayed && rest[j].value == value {
      assert c[j + 1].displayed;
    }
    if j :| 1 <= j < |c| && c[j].displayed && c[j].value == value {
      assert rest[j - 1].displayed;
    }
  }

  lemma {:induction false} ShownValue(c: seq<Entry>, value: string)
    ensures value in Values(Shown(c)) <==> ShownWith(c, value)
  {
    if c == [] {
      NoValues();
    } else {
      ShownHead(c);
      hide Values, Shown, ShownWith;
      ShownValue(c[1..], value);
      FirstValue(c[0], Shown(c[1..]));
      ShownWithAfter(c, value);
    }
  }

  lemma NoTwinAtAll()
    ensures NoHiddenTwin([])
  {
  }

  lemma TwinAtHead(c: seq<Entry>)
    requires c != []
    ensures NoHiddenTwin(c) <==> NoHiddenTwin(c[1..]) && (c[0].displayed || c[0].value !in Values(Shown(c[1..])))
  {
    var rest := c[1..];
    ShownValue(rest, c[0].value);
    assert forall j :: 0 <= j < |rest| ==> rest[j] == c[j + 1];
    assert forall j :: 1 <= j < |c| ==> c[j] == rest[j - 1];
  }

  /** Moving all leaves the hidden entries, in order, exactly when none of them stands before a displayed twin. */
  lemma {:induction false} LeavesHidden(c: seq<Entry>)
    ensures Left(c, Values(Shown(c))) == Hidden(c) <==> NoHiddenTwin(c)
  {
    hide NoHiddenTwin, Values;
    if c == [] {
      NoValues();
      NoTwinAtAll();
    } else {
      var e, rest := c[0], c[1..];
      var m := Values(Shown(rest));
      TwinAtHead(c);
      LeavesHidden(rest);
      FirstValue(e, Shown(rest));
      Nothing(Shown(rest));
      Nothing(Hidden(rest));
      if e.displayed {
        AddTake(m, e.value);
      } else if e.value in m {
        LeftHides(rest, m - multiset{e.value});
        HiddenCount(c);
      } else {
        Head(e, Left(rest, m));
        Head(e, Hidden(rest));
      }
    }
  }

  lemma {:induction false} LeftValues(c: seq<Entry>, m: multiset<string>)
    requires m <= Values(c)
    ensures Values(Left(c, m)) + m == Values(c)
  {
    hide Values;
    if c == [] {
      NoValues();
    } else {
      var e, rest := c[0], c[1..];
      assert c == [e] + rest;
      FirstValue(e, rest);
      Fewer(m, Values(rest), e.value);
      if e.value in m {
        LeftValues(rest, m - multiset{e.value});
        Regroup(multiset{e.value}, Values(Left(rest, m - multiset{e.value})), m - multiset{e.value});
      } else {
        LeftValues(rest, m);
        FirstValue(e, Left(rest, m));
        Regroup(multiset{e.value}, Values(Left(rest, m)), m);
      }
    }
  }

  lemma Fewer<T>(m: multiset<T>, n: multiset<T>, x: T)
    requires m <= multiset{x} + n
    ensures x in m ==> m - multiset{x} <= n && multiset{x} + (m - multiset{x}) == m
    ensures x !in m ==> m <= n
  {
    if x !in m {
      forall k
        ensures m[k] <= n[k]
      {
        assert m[k] <= (multiset{x} + n)[k];
      }
    }
  }

  lemma Swap<T>(a: multiset<T>, b: multiset<T>)
    ensures a + b == b + a
  {
  }

  lemma {:induction false} LeftShown(c: seq<Entry>, m: multiset<string>)
    requires AllShown(c)
    ensures AllShown(Left(c, m))
  {
    if c != [] {
      assert forall i :: 0 <= i < |c[1..]| ==> c[1..][i] == c[i + 1];
      LeftShown(c[1..], m);
      LeftShown(c[1..], m - multiset{c[0].value});
    }
  }

  /** What a move of picked options does, whatever the caches hold. */
  lemma MoveOfPicked(c: seq<Entry>, to: seq<Entry>, flags: seq<bool>)
    requires |flags| == |Shown(c)|
    ensures var picked := Picked(c, flags); var p := Moved(Pair(c, to), picked);
            && p.to == to + picked
            && Values(p.from) + Values(p.to) == Values(c) + Values(to)
            && (AllShown(c) ==> AllShown(p.from)) && (AllShown(to) ==> AllShown(p.to))
            && (NoTwinBefore(c, flags) ==>
                 p.from == Unpicked(c, flags) && Pairs(p.from) + Pairs(p.to) == Pairs(c) + Pairs(to))
  {
    hide Moved, Left, Picked, Unpicked, Shown, Values, Pairs, NoTwinBefore;
    var picked := Picked(c, flags);
    PickedOfBox(c, flags);
    MovedIs(Pair(c, to), picked);
    LeftValues(c, Values(picked));
    if AllShown(c) {
      LeftShown(c, Values(picked));
    }
    ValuesOfSum(to, picked);
    if NoTwinBefore(c, flags) {
      LeavesUnpicked(c, flags);
    }
  }

  /** `move_all` appends what is shown, and leaves the hidden entries in order exactly when no twin hides one. */
  lemma MoveAllLeavesHidden(c: seq<Entry>, to: seq<Entry>)
    ensures Moved(Pair(c, to), Shown(c)).to == to + Shown(c)
    ensures Moved(Pair(c, to), Shown(c)).from == Hidden(c) <==> NoHiddenTwin(c)
  {
    hide Moved, Left, Picked, Unpicked, Shown, Hidden, Values, NoHiddenTwin;
    var all := Chosen(|Shown(c)|);
    PickAll(c, all);
    PickedOfBox(c, all);
    MovedIs(Pair(c, to), Shown(c));
    LeavesHidden(c);
  }

  /** Two entries with one value: `move_all` takes the hidden one and leaves the displayed one behind. */
  lemma TwinIsTaken(value: string, a: string, b: string, to: seq<Entry>)
    ensures var c := [Entry(value, a, false), Entry(value, b, true)];
            && !NoHiddenTwin(c) && Shown(c) == [c[1]] && Hidden(c) == [c[0]]
            && Moved(Pair(c, to), Shown(c)) == Pair([c[1]], to + [c[1]])
  {
    var c := [Entry(value, a, false), Entry(value, b, true)];
    assert c[0].value == c[1].value && c[1..] == [c[1]] && c[1..][1..] == [];
    assert Shown(c[1..]) == [c[1]] && Hidden(c[1..]) == [];
    var items := [c[1]];
    assert items[..0] == [] && Place(c, value) == 0 && Deleted(c, value) == [c[1]];
    assert c[1].(displayed := true) == c[1];
  }

  // ---------------------------------------------------------------- runs

  datatype State = State(available: seq<Entry>, chosen: seq<Entry>)

  /** The search field works on the available box; the arrows move either way. */
  datatype Step = Search(text: string) | Move(flags: seq<bool>, back: bool) | MoveAll(back: bool)

  function Source(st: State, back: bool): seq<Entry> {
    if back then st.chosen else st.available
  }

  predicate Possible(st: State, step: Step) {
    step.Move? ==> |step.flags| == |Shown(Source(st, step.back))|
  }

  function Carry(st: State, items: seq<Entry>, back: bool): State {
    if back then
      var p := Moved(Pair(st.chosen, st.available), items);
      State(p.to, p.from)
    else
      var p := Moved(Pair(st.available, st.chosen), items);
      State(p.from, p.to)
  }

  function Stepped(st: State, step: Step): State
    requires Possible(st, step)
  {
    match step
    case Search(text) => State(Filtered(st.available, text), st.chosen)
    case Move(flags, back) => Carry(st, Picked(Source(st, back), flags), back)
    case MoveAll(back) => Carry(st, Shown(Source(st, back)), back)
  }

  predicate IsRun(states: seq<State>, steps: seq<Step>) {
    && |states| == |steps| + 1
    && forall i :: 0 <= i < |steps| ==> Possible(states[i], steps[i]) && states[i + 1] == Stepped(states[i], steps[i])
  }

  ghost predicate Distinct(m: multiset<string>) {
    forall v :: m[v] <= 1
  }

  lemma {:induction false} DistinctHasNoTwin(c: seq<Entry>, flags: seq<bool>)
    requires |flags| == |Shown(c)| && Distinct(Values(c))
    ensures NoTwinBefore(c, flags)
  {
    hide Values;
    if c != [] {
      var e, rest := c[0], c[1..];
      var fs := if e.displayed then flags[1..] else flags;
      assert c == [e] + rest;
      FirstValue(e, rest);
      forall v
        ensures Values(rest)[v] <= 1
      {
        assert Values(rest)[v] <= Values(c)[v];
      }
      DistinctHasNoTwin(rest, fs);
      PickedOfBox(rest, fs);
      assert Values(rest)[e.value] == Values(c)[e.value] - 1;
    }
  }

  lemma {:induction false} SameItems(a: seq<Entry>, b: seq<Entry>)
    requires |a| == |b| && forall i :: 0 <= i < |a| ==> a[i].value == b[i].value && a[i].text == b[i].text
    ensures Values(a) == Values(b) && Pairs(a) == Pairs(b)
  {
    if a != [] {
      SameItems(a[1..], b[1..]);
    }
  }

  lemma DistinctPart(m: multiset<string>, n: multiset<string>)
    requires Distinct(m + n)
    ensures Distinct(m) && Distinct(n)
  {
    forall v
      ensures m[v] <= 1 && n[v] <= 1
    {
      assert (m + n)[v] <= 1;
    }
  }

  function AllValues(st: State): multiset<string> {
    Values(st.available) + Values(st.chosen)
  }

  function AllPairs(st: State): multiset<(string, string)> {
    Pairs(st.available) + Pairs(st.chosen)
  }

  lemma CarryKeeps(st: State, flags: seq<bool>, back: bool)
    requires |flags| == |Shown(Source(st, back))|
    ensures var t := Carry(st, Picked(Source(st, back), flags), back);
            && AllValues(t) == AllValues(st) && (AllShown(st.chosen) ==> AllShown(t.chosen))
            && (Distinct(AllValues(st)) ==> AllPairs(t) == AllPairs(st))
  {
    hide Moved, Picked, Unpicked, Shown, Values, Pairs, NoTwinBefore, Distinct, AllShown;
    var c, to := Source(st, back), Source(st, !back);
    MoveOfPicked(c, to, flags);
    var p := Moved(Pair(c, to), Picked(c, flags));
    Swap(Values(p.from), Values(p.to));
    Swap(Pairs(p.from), Pairs(p.to));
    Swap(Values(c), Values(to));
    Swap(Pairs(c), Pairs(to));
    if Distinct(AllValues(st)) {
      DistinctPart(Values(st.available), Values(st.chosen));
      DistinctHasNoTwin(c, flags);
    }
  }

  lemma StepKeeps(st: State, step: Step)
    requires Possible(st, step)
    ensures AllValues(Stepped(st, step)) == AllValues(st)
    ensures AllShown(st.chosen) ==> AllShown(Stepped(st, step).chosen)
    ensures Distinct(AllValues(st)) ==> AllPairs(Stepped(st, step)) == AllPairs(st)
  {
    hide Carry, Picked, Shown, Values, Pairs, Distinct, AllShown, Filtered;
    match step
    case Search(text) => SameItems(Filtered(st.available, text), st.available);
    case Move(flags, back) => CarryKeeps(st, flags, back);
    case MoveAll(back) =>
      var c := Source(st, back);
      var all := Chosen(|Shown(c)|);
      PickAll(c, all);
      CarryKeeps(st, all, back);
  }

  /**
   * Over every run of searches and moves no value is lost or made, whatever is chosen stays displayed, and with
   * distinct values each keeps its text.
   */
  lemma {:induction false} RunConserves(states: seq<State>, steps: seq<Step>, n: nat)
    requires IsRun(states, steps) && AllShown(states[0].chosen) && n < |states|
    ensures AllValues(states[n]) == AllValues(states[0]) && AllShown(states[n].chosen)
    ensures Distinct(AllValues(states[0])) ==> AllPairs(states[n]) == AllPairs(states[0])
  {
    hide Stepped, Possible, AllValues, AllPairs, AllShown, Distinct;
    if n > 0 {
      RunConserves(states, steps, n - 1);
      StepKeeps(states[n - 1], steps[n - 1]);
    }
  }

  // ---------------------------------------------------------------- the object

  /** The options a box is given from its cache. */
  function Options(c: seq<Entry>): seq<Item> {
    if c == [] then []
    else
      var n := |c| - 1;
      Options(c[..n]) + if c[n].displayed then [Item(c[n].value, c[n].text, false)] else []
  }

  /** The selected options, as entries to add. */
  function Selected(items: seq<Item>, all: bool): seq<Entry> {
    if items == [] then []
    else
      var n := |items| - 1;
      Selected(items[..n], all) + if all || items[n].selected then [Entry(items[n].value, items[n].text, true)] else []
  }

  /** Taking in a list that is on the page: every option is displayed. */
  function TakenIn(items: seq<Item>): seq<Entry> {
    Selected(items, true)
  }

  /** The list on the page is what its cache displays, whatever is selected in it. */
  predicate Shows(items: seq<Item>, c: seq<Entry>) {
    |items| == |Shown(c)| &&
    forall i :: 0 <= i < |items| ==> items[i].value == Shown(c)[i].value && items[i].text == Shown(c)[i].text
  }

  function Flags(items: seq<Item>, all: bool): (flags: seq<bool>)
    ensures |flags| == |items| && forall i :: 0 <= i < |items| ==> flags[i] == (all || items[i].selected)
  {
    seq(|items|, i requires 0 <= i < |items| => all || items[i].selected)
  }

  /** `move` on the caches of two boxes, which may be the same. */
  function MovedIn(cache: map<string, seq<Entry>>, from: string, to: string, items: seq<Entry>):
    (r: map<string, seq<Entry>>)
    requires from in cache && to in cache
    ensures r.Keys == cache.Keys
  {
    if items == [] then cache
    else
      var m := MovedIn(cache, from, to, items[..|items| - 1]);
      var e := items[|items| - 1];
      if Place(m[from], e.value) == |m[from]| then m
      else
        var added := m[to := m[to] + [e]];
        added[from := Deleted(added[from], e.value)]
  }

  lemma {:induction false} MovedInIs(cache: map<string, seq<Entry>>, from: string, to: string, items: seq<Entry>)
    requires from in cache && to in cache && from != to && AllShown(items)
    ensures var m := MovedIn(cache, from, to, items);
            Pair(m[from], m[to]) == Moved(Pair(cache[from], cache[to]), items)
  {
    if items != [] {
      MovedInIs(cache, from, to, items[..|items| - 1]);
    }
  }

  // ---------------------------------------------------------------- boxes

  lemma {:induction false} TakenFrom(items: seq<Item>)
    ensures AllShown(TakenIn(items)) && Shown(TakenIn(items)) == TakenIn(items) && |TakenIn(items)| == |items|
    ensures forall i :: 0 <= i < |items| ==>
              TakenIn(items)[i].value == items[i].value && TakenIn(items)[i].text == items[i].text
  {
    hide Shown;
    if items != [] {
      TakenFrom(items[..|items| - 1]);
    }
    AllAreShown(TakenIn(items));
  }

  lemma {:induction false} AllAreShown(c: seq<Entry>)
    requires AllShown(c)
    ensures Shown(c) == c
  {
    if c != [] {
      assert forall i :: 0 <= i < |c[1..]| ==> c[1..][i] == c[i + 1];
      AllAreShown(c[1..]);
    }
  }

  lemma {:induction false} ShownOfSum(a: seq<Entry>, b: seq<Entry>)
    ensures Shown(a + b) == Shown(a) + Shown(b)
  {
    if a == [] {
      Nothing(b);
      Nothing(Shown(b));
    } else {
      var e, rest := a[0], a[1..];
      ShownHead(a);
      Assoc([e], rest, b);
      assert a == [e] + rest;
      ShownHead([e] + (rest + b));
      hide Shown;
      Head(e, rest + b);
      ShownOfSum(rest, b);
      Assoc([e], Shown(rest), Shown(b));
    }
  }

  lemma ShownOfOne(e: Entry)
    ensures Shown([e]) == if e.displayed then [e] else []
  {
    assert [e][1..] == [];
  }

  /** The options made from a cache are the displayed entries in order, none of them selected. */
  lemma {:induction false} OptionsShow(c: seq<Entry>)
    ensures Shows(Options(c), c)
    ensures forall i :: 0 <= i < |Options(c)| ==> Options(c)[i] == Item(Shown(c)[i].value, Shown(c)[i].text, false)
  {
    if c != [] {
      var n := |c| - 1;
      OptionsShow(c[..n]);
      SplitLast(c);
      ShownOfSum(c[..n], [c[n]]);
      ShownOfOne(c[n]);
    }
  }

  lemma SelectedLast(items: seq<Item>, item: Item, all: bool)
    ensures Selected(items + [item], all) ==
      Selected(items, all) + if all || item.selected then [Entry(item.value, item.text, true)] else []
  {
    assert (items + [item])[..|items|] == items;
  }

  lemma SelectedAfter(item: Item, items: seq<Item>, all: bool)
    ensures Selected([item] + items, all) ==
      (if all || item.selected then [Entry(item.value, item.text, true)] else []) + Selected(items, all)
    decreases |items|
  {
    var one := [item];
    var first := if all || item.selected then [Entry(item.value, item.text, true)] else [];
    Nothing(first);
    if items == [] {
      Nothing(one);
      SelectedLast([], item, all);
    } else {
      hide Selected;
      var n := |items| - 1;
      var less, last := items[..n], items[n];
      SelectedAfter(item, less, all);
      SplitLast(items);
      Assoc(one, less, [last]);
      SelectedLast(one + less, last, all);
      SelectedLast(less, last, all);
      Assoc(first, Selected(less, all), if all || last.selected then [Entry(last.value, last.text, true)] else []);
    }
  }

  /** The selected options of a list that shows a cache are entries of it. */
  lemma {:induction false} SelectedIsPicked(items: seq<Item>, c: seq<Entry>, all: bool)
    requires Shows(items, c)
    ensures Selected(items, all) == Picked(c, Flags(items, all))
  {
    if c == [] {
      assert items == [];
      return;
    }
    ShownHead(c);
    hide Picked, Selected, Shown;
    if c[0].displayed {
      var tail := items[1..];
      ShownTail(items, c);
      SelectedIsPicked(tail, c[1..], all);
      assert items == [items[0]] + tail;
      SelectedAfter(items[0], tail, all);
      PickedHead(c, Flags(items, all));
      assert Flags(items, all)[1..] == Flags(tail, all);
    } else {
      SelectedIsPicked(items, c[1..], all);
      PickedHidden(c, Flags(items, all));
    }
  }

  lemma PickedHidden(c: seq<Entry>, flags: seq<bool>)
    requires c != [] && !c[0].displayed && |flags| == |Shown(c)|
    ensures |flags| == |Shown(c[1..])| && Picked(c, flags) == Picked(c[1..], flags)
  {
    ShownHead(c);
  }

  lemma ShownTail(items: seq<Item>, c: seq<Entry>)
    requires Shows(items, c) && c != [] && c[0].displayed
    ensures items != [] && Shows(items[1..], c[1..])
    ensures items[0].value == c[0].value && items[0].text == c[0].text
  {
    var rest, tail := Shown(c[1..]), items[1..];
    ShownHead(c);
    hide Shown;
    assert Shown(c)[0] == c[0];
    forall i | 0 <= i < |rest|
      ensures tail[i].value == rest[i].value && tail[i].text == rest[i].text
    {
      assert Shown(c)[i + 1] == rest[i] && items[i + 1] == tail[i];
    }
  }

  lemma PickedHead(c: seq<Entry>, flags: seq<bool>)
    requires c != [] && c[0].displayed && |flags| == |Shown(c)|
    ensures Picked(c, flags) == (if flags[0] then [c[0]] else []) + Picked(c[1..], flags[1..])
  {
  }

  lemma NoneFiltered(c: seq<Entry>, text: string)
    ensures Filtered(c[..0], text) + c[0..] == c
  {
  }

  lemma AllFiltered(c: seq<Entry>, text: string)
    ensures Filtered(c[..|c|], text) + c[|c|..] == Filtered(c, text)
  {
    assert c[..|c|] == c && c[|c|..] == [];
  }

  lemma ReplaceNext(done: seq<Entry>, c: seq<Entry>, i: nat, e: Entry)
    requires |done| == i < |c|
    ensures var now := done + c[i..];
            |now| == |c| && now[i] == c[i] && now[i := e] == done + ([e] + c[i + 1..])
  {
  }

  /** One turn of the loop in `filter`. */
  lemma OneFiltered(c: seq<Entry>, text: string, i: nat)
    requires i < |c|
    ensures var now := Filtered(c[..i], text) + c[i..];
            var e := c[i].(displayed := HasAll(ToLower(c[i].text), Tokens(ToLower(text))));
            |now| == |c| && now[i] == c[i] && now[i := e] == Filtered(c[..i + 1], text) + c[i + 1..]
  {
    assert c[..i + 1][..i] == c[..i];
    var e := c[i].(displayed := HasAll(ToLower(c[i].text), Tokens(ToLower(text))));
    assert Filtered(c[..i + 1], text) == Filtered(c[..i], text) + [e];
    hide *;
    var done := Filtered(c[..i], text);
    Assoc(done, [e], c[i + 1..]);
    ReplaceNext(done, c, i, e);
  }

  lemma NoneMoved(cache: map<string, seq<Entry>>, from: string, to: string, items: seq<Item>, all: bool)
    requires from in cache && to in cache
    ensures MovedIn(cache, from, to, []) == cache && Selected(items[..0], all) == []
  {
  }

  lemma OneMoved(cache: map<string, seq<Entry>>, from: string, to: string, items: seq<Entry>, e: Entry)
    requires from in cache && to in cache
    ensures var m := MovedIn(cache, from, to, items);
            MovedIn(cache, from, to, items + [e]) ==
            if Place(m[from], e.value) == |m[from]| then m
            else var added := m[to := m[to] + [e]]; added[from := Deleted(added[from], e.value)]
  {
    assert (items + [e])[..|items|] == items;
  }

  lemma BoxMove(cache: map<string, seq<Entry>>, from: string, to: string, items: seq<Item>, all: bool)
    requires from in cache && to in cache && from != to && Shows(items, cache[from])
    ensures |items| == |Shown(cache[from])|
    ensures var m := MovedIn(cache, from, to, Selected(items, all));
            Pair(m[from], m[to]) == Moved(Pair(cache[from], cache[to]), Picked(cache[from], Flags(items, all)))
  {
    hide Moved, MovedIn, Picked, Selected, Shown;
    SelectedIsPicked(items, cache[from], all);
    PickedOfBox(cache[from], Flags(items, all));
    MovedInIs(cache, from, to, Selected(items, all));
  }

  class SelectBox {
    /** The caches and the lists on the page, by the id of the box. */
    var cache: map<string, seq<Entry>>
    var boxes: map<string, seq<Item>>

    ghost predicate InStep(id: string)
      reads this
    {
      id in cache && id in boxes && Shows(boxes[id], cache[id])
    }

    constructor (boxes: map<string, seq<Item>>)
      ensures this.boxes == boxes && cache == map[]
    {
      this.boxes, cache := boxes, map[];
    }

    method Init(id: string)
      requires id in boxes
      modifies `cache
      ensures cache == old(cache)[id := TakenIn(boxes[id])] && InStep(id)
    {
      cache := cache[id := []];
      var items := boxes[id];
      assert items[..0] == [];
      for i := 0 to |items|
        invariant cache == old(cache)[id := TakenIn(items[..i])]
      {
        assert items[..i + 1][..i] == items[..i];
        cache := cache[id := cache[id] + [Entry(items[i].value, items[i].text, true)]];
      }
      assert items[..|items|] == items;
      TakenFrom(items);
    }

    method Redisplay(id: string)
      requires id in cache
      modifies `boxes
      ensures boxes == old(boxes)[id := Options(cache[id])] && InStep(id)
    {
      var c := cache[id];
      var options := [];
      assert c[..0] == [];
      for i := 0 to |c|
        invariant options == Options(c[..i])
        modifies {}
      {
        assert c[..i + 1][..i] == c[..i];
        if c[i].displayed {
          options := options + [Item(c[i].value, c[i].text, false)];
        }
      }
      assert c[..|c|] == c;
      boxes := boxes[id := options];
      OptionsShow(c);
    }

    /** Is every token found? The loop stops at the first that is not. */
    static method Matches(text: string, tokens: seq<string>) returns (all: bool)
      ensures all <==> HasAll(text, tokens)
    {
      for k := 0 to |tokens|
        invariant forall i :: 0 <= i < k ==> Contains(text, tokens[i])
      {
        if !Contains(text, tokens[k]) {
          return false;
        }
      }
      return true;
    }

    method Filter(id: string, text: string)
      requires id in cache
      modifies this
      ensures cache == old(cache)[id := Filtered(old(cache[id]), text)]
      ensures boxes == old(boxes)[id := Options(cache[id])] && InStep(id)
    {
      hide HasAll, Tokens, Options, Shows, Filtered;
      var tokens := Tokens(ToLower(text));
      var c := cache[id];
      var now := c;
      NoneFiltered(c, text);
      for i := 0 to |c|
        invariant boxes == old(boxes) && cache == old(cache)[id := now]
        invariant now == Filtered(c[..i], text) + c[i..]
      {
        OneFiltered(c, text, i);
        var shown := Matches(ToLower(c[i].text), tokens);
        now := now[i := now[i].(displayed := shown)];
        cache := cache[id := now];
      }
      AllFiltered(c, text);
      Redisplay(id);
    }

    method DeleteFromCache(id: string, value: string)
      requires id in cache
      modifies `cache
      ensures cache == old(cache)[id := Deleted(old(cache[id]), value)]
    {
      hide Place;
      var c := cache[id];
      var i := 0;
      while i < |c| && c[i].value != value
        invariant i <= |c| && forall k :: 0 <= k < i ==> c[k].value != value
        modifies {}
      {
        i := i + 1;
      }
      PlaceIs(c, value, i);
      if i == |c| {
        i := 0;
      }
      if i < |c| {
        assert c[..0] + c[1..] == c[1..];
        cache := cache[id := c[..i] + c[i + 1..]];
      }
    }

    method AddToCache(id: string, e: Entry)
      requires id in cache
      modifies `cache
      ensures cache == old(cache)[id := old(cache[id]) + [e.(displayed := true)]]
    {
      cache := cache[id := cache[id] + [Entry(e.value, e.text, true)]];
    }

    method CacheContains(id: string, value: string) returns (found: bool)
      requires id in cache
      ensures found <==> Place(cache[id], value) < |cache[id]|
    {
      var c := cache[id];
      for i := 0 to |c|
        invariant forall k :: 0 <= k < i ==> c[k].value != value
      {
        if c[i].value == value {
          return true;
        }
      }
      return false;
    }

    /** The loop of both moves: over the options of the list as it was, the selected ones or all. */
    method MoveOptions(items: seq<Item>, from: string, to: string, all: bool)
      requires from in cache && to in cache
      modifies `cache
      ensures cache == MovedIn(old(cache), from, to, Selected(items, all))
    {
      hide Deleted, MovedIn, Selected, Place;
      ghost var done: seq<Entry> := [];
      NoneMoved(cache, from, to, items, all);
      for i := 0 to |items|
        invariant cache.Keys == old(cache).Keys && cache == MovedIn(old(cache), from, to, done)
        invariant done == Selected(items[..i], all)
      {
        var item := items[i];
        assert items[..i + 1] == items[..i] + [item];
        SelectedLast(items[..i], item, all);
        if all || item.selected {
          var e := Entry(item.value, item.text, true);
          OneMoved(old(cache), from, to, done, e);
          done := done + [e];
          var found := CacheContains(from, item.value);
          if found {
            AddToCache(to, e);
            DeleteFromCache(from, item.value);
          }
        } else {
          Nothing(done);
        }
      }
      assert items[..|items|] == items;
    }

    /** `move` and `move_all`: afterwards both lists are made anew from their caches. */
    method Move(from: string, to: string, all: bool)
      requires from in cache && to in cache && from in boxes
      modifies this
      ensures cache == MovedIn(old(cache), from, to, Selected(old(boxes[from]), all))
      ensures boxes == old(boxes)[from := Options(cache[from])][to := Options(cache[to])]
      ensures InStep(from) && InStep(to)
      ensures from != to && old(InStep(from)) ==>
        Pair(cache[from], cache[to]) ==
        Moved(Pair(old(cache[from]), old(cache[to])), Picked(old(cache[from]), Flags(old(boxes[from]), all)))
    {
      hide Options, Moved, MovedIn, Picked, Selected, Shown, Shows;
      var items := boxes[from];
      if from != to && InStep(from) {
        BoxMove(cache, from, to, items, all);
      }
      MoveOptions(items, from, to, all);
      Redisplay(from);
      Redisplay(to);
    }
  }

  lemma {:induction false} PlaceIs(c: seq<Entry>, value: string, i: nat)
    requires i <= |c| && (i < |c| ==> c[i].value == value) && forall k :: 0 <= k < i ==> c[k].value != value
    ensures Place(c, value) == i
  {
  }
}
