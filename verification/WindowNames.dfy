/** Element ids written as window names, and back. */
module WindowNames {
  import opened Basics
  import opened Strings

  // ---------------------------------------------------------------- the program

  /** `text.replace(/code/g, c)`: leftmost occurrences, not overlapping. */
  function Contract(s: string, code: string, c: char): string
    requires code != ""
    decreases |s|
  {
    if s == "" then ""
    else if code <= s then [c] + Contract(s[|code|..], code, c)
    else [s[0]] + Contract(s[1..], code, c)
  }

  const DOT := "__dot__"
  const DASH := "__dash__"

  function IdToWindowName(text: string): string {
    Replace(Replace(text, '.', DOT), '-', DASH)
  }

  function WindowNameToId(text: string): string {
    Contract(Contract(text, DOT, '.'), DASH, '-')
  }

  // ---------------------------------------------------------------- when a name can be read back

  /** Two underscores come next once `y` is encoded. */
  predicate UnderscoresFollow(y: string) {
    y != "" && (y[0] == '.' || y[0] == '-' || (y[0] == '_' && |y| > 1 && (y[1] == '_' || y[1] == '.' || y[1] == '-')))
  }

  /** As `UnderscoresFollow`, where only dashes are encoded. */
  predicate UnderscoresFollowDash(y: string) {
    y != "" && (y[0] == '-' || (y[0] == '_' && |y| > 1 && (y[1] == '_' || y[1] == '-')))
  }

  /** `id` starts with `w` and underscores follow. */
  predicate StartsFalse(id: string, w: string) {
    w <= id && UnderscoresFollow(id[|w|..])
  }

  /** A place in the id that the first pass of decoding takes for an encoded dot. */
  predicate FalseDotHere(id: string) {
    StartsFalse(id, "__dot") || StartsFalse(id, "-dot") || StartsFalse(id, "-_dot")
  }

  /** A place that the second pass takes for an encoded dash. */
  predicate FalseDashHere(id: string) {
    "__dash" <= id && UnderscoresFollowDash(id[6..])
  }

  /**
   * The id has no such place: it does not match `(__|-_?)dot([.-]|_[_.-])` or `__dash(-|_[_-])`.
   */
  predicate Reversible(id: string) {
    id == "" || (!FalseDotHere(id) && !FalseDashHere(id) && Reversible(id[1..]))
  }

  // ---------------------------------------------------------------- prefixes

  lemma PrefixStep(p: string, c: char, rest: string)
    requires p != ""
    ensures p <= [c] + rest <==> p[0] == c && p[1..] <= rest
  {
    assert p == [p[0]] + p[1..];
    if p <= [c] + rest {
      assert ([c] + rest)[..|p|] == p;
      assert rest[..|p| - 1] == p[1..];
    }
  }

  lemma NotPrefix(p: string, s: string, k: nat)
    requires k < |p| && k < |s| && p[k] != s[k]
    ensures !(p <= s)
  {
  }

  lemma PrefixOne(c: char, s: string)
    ensures [c] <= s <==> s != "" && s[0] == c
  {
  }

  function From(s: string, i: nat): string {
    if i <= |s| then s[i..] else ""
  }

  // ---------------------------------------------------------------- encoding one character at a time

  function Code(c: char): string {
    if c == '.' then DOT else if c == '-' then DASH else [c]
  }

  lemma EncodeHead(c: char, rest: string)
    ensures IdToWindowName([c] + rest) == Code(c) + IdToWindowName(rest)
  {
    Head(c, rest);
    var head := if c == '.' then DOT else [c];
    ReplaceConcat(head, Replace(rest, '.', DOT), '-', DASH);
    if c == '.' {
      ReplaceAbsent(DOT, '-', DASH);
    } else if c == '-' {
      assert head[1..] == "";
      Nothing(DASH);
    } else {
      ReplaceAbsent(head, '-', DASH);
    }
  }

  lemma EncodeNothing()
    ensures IdToWindowName("") == ""
  {
  }

  /** The first two characters of an encoded text. */
  lemma EncodedStarts(y: string)
    ensures "__" <= IdToWindowName(y) <==> UnderscoresFollow(y)
    ensures y == "" <==> IdToWindowName(y) == ""
  {
    hide IdToWindowName;
    EncodeNothing();
    if y != "" {
      var c, rest := y[0], y[1..];
      assert y == [c] + rest;
      EncodeHead(c, rest);
      EncodedFirst(rest);
      var enc := IdToWindowName(rest);
      if c == '.' || c == '-' {
        assert (Code(c) + enc)[..2] == "__";
      } else {
        PrefixStep("__", c, enc);
        assert "__"[1..] == "_";
        PrefixOne('_', enc);
      }
    }
  }

  lemma EncodedFirst(y: string)
    ensures IdToWindowName(y) != "" && IdToWindowName(y)[0] == '_' <==> y != "" && y[0] in "_.-"
  {
    hide IdToWindowName;
    EncodeNothing();
    if y != "" {
      assert y == [y[0]] + y[1..];
      EncodeHead(y[0], y[1..]);
    }
  }

  predicate IsPlain(c: char) {
    c != '.' && c != '-' && c != '_'
  }

  lemma EncodedLetter(y: string)
    ensures y != "" && IsPlain(y[0]) ==> IdToWindowName(y) == [y[0]] + IdToWindowName(y[1..])
    ensures y == "" || !IsPlain(y[0]) ==> IdToWindowName(y) == "" || IdToWindowName(y)[0] == '_'
  {
    hide IdToWindowName;
    EncodeNothing();
    if y != "" {
      assert y == [y[0]] + y[1..];
      EncodeHead(y[0], y[1..]);
    }
  }

  /** A plain word at the start of an encoded text was at the start of the text. */
  lemma {:induction false} EncodedWord(w: string, y: string, tail: string)
    requires forall i :: 0 <= i < |w| ==> IsPlain(w[i])
    ensures w + tail <= IdToWindowName(y) <==> w <= y && tail <= IdToWindowName(y[|w|..])
    decreases |w|
  {
    hide IdToWindowName;
    if w == "" {
      assert w + tail == tail && y[0..] == y;
    } else {
      var s := IdToWindowName(y);
      assert w + tail == [w[0]] + (w[1..] + tail);
      EncodedLetter(y);
      if y != "" && y[0] == w[0] {
        EncodedWord(w[1..], y[1..], tail);
        assert s[1..] == IdToWindowName(y[1..]);
        assert w + tail <= s <==> w[1..] + tail <= s[1..];
        assert w <= y <==> w[1..] <= y[1..];
        assert w <= y ==> y[|w|..] == y[1..][|w| - 1..];
      }
    }
  }

  lemma PlainWord(w: string)
    requires w == "dot" || w == "dash"
    ensures forall i :: 0 <= i < |w| ==> IsPlain(w[i])
  {
  }

  /** `dot__` comes next in the encoding exactly when the id says `dot` before something that gives underscores. */
  lemma DotFollows(y: string)
    ensures "dot__" <= IdToWindowName(y) <==> StartsFalse(y, "dot")
  {
    hide IdToWindowName;
    PlainWord("dot");
    EncodedWord("dot", y, "__");
    assert "dot" + "__" == "dot__";
    if "dot" <= y {
      EncodedStarts(y[3..]);
    }
  }

  lemma UnderscoreDotFollows(y: string)
    ensures "_dot__" <= IdToWindowName(y) <==> StartsFalse(y, "_dot")
  {
    hide IdToWindowName;
    EncodeNothing();
    if y != "" {
      var c, rest := y[0], y[1..];
      assert y == [c] + rest;
      EncodeHead(c, rest);
      DotFollows(rest);
      var s := IdToWindowName(y);
      if c == '_' {
        assert s[1..] == IdToWindowName(rest);
        assert "_dot__" <= s <==> "dot__" <= s[1..];
        assert "_dot" <= y <==> "dot" <= rest;
        assert "_dot" <= y ==> y[4..] == rest[3..];
      } else if c == '.' || c == '-' {
        assert s[1] == '_';
      }
    }
  }

  // ---------------------------------------------------------------- the first pass of decoding

  /** The id with its dashes still encoded: what the first pass should give. */
  function Dashed(id: string): string {
    Replace(id, '-', DASH)
  }

  function FirstPass(id: string): string {
    Contract(IdToWindowName(id), DOT, '.')
  }

  lemma ContractSkip(c: char, rest: string, code: string, by': char)
    requires code != "" && !(code <= [c] + rest)
    ensures Contract([c] + rest, code, by') == [c] + Contract(rest, code, by')
  {
    Head(c, rest);
  }

  lemma ContractHit(code: string, rest: string, by': char)
    requires code != ""
    ensures Contract(code + rest, code, by') == [by'] + Contract(rest, code, by')
  {
    assert code <= code + rest && (code + rest)[|code|..] == rest;
  }

  /** What the first pass makes of an id, by its first character. */
  lemma FirstPassHead(c: char, rest: string)
    ensures var id := [c] + rest;
            FirstPass(id) ==
            if c == '.' then "." + FirstPass(rest)
            else if c == '_' && FalseDotHere(id) then "." + Contract(From(IdToWindowName(rest), 6), DOT, '.')
            else if c == '-' && StartsFalse(rest, "dot") then
              "__dash." + Contract(From(IdToWindowName(rest), 5), DOT, '.')
            else if c == '-' && StartsFalse(rest, "_dot") then
              "__dash_." + Contract(From(IdToWindowName(rest), 6), DOT, '.')
            else if c == '-' then DASH + FirstPass(rest)
            else [c] + FirstPass(rest)
  {
    hide IdToWindowName, StartsFalse, Contract;
    var enc := IdToWindowName(rest);
    EncodeHead(c, rest);
    DotFollows(rest);
    UnderscoreDotFollows(rest);
    FalseDotCases(c, rest);
    if c == '.' {
      ContractHit(DOT, enc, '.');
    } else if c == '-' {
      DashPasses(enc);
    } else if c == '_' && "_dot__" <= enc {
      assert [c] + enc == DOT + enc[6..];
      ContractHit(DOT, enc[6..], '.');
    } else {
      if c == '_' {
        PrefixStep(DOT, c, enc);
      } else {
        NotPrefix(DOT, [c] + enc, 0);
      }
      ContractSkip(c, enc, DOT, '.');
    }
  }

  lemma FalseDotCases(c: char, rest: string)
    ensures FalseDotHere([c] + rest) <==>
            (c == '_' && StartsFalse(rest, "_dot")) ||
            (c == '-' && (StartsFalse(rest, "dot") || StartsFalse(rest, "_dot")))
  {
    hide UnderscoresFollow;
    var id := [c] + rest;
    if c == '_' {
      PrefixStep("__dot", c, rest);
      assert "__dot" <= id ==> id[5..] == rest[4..];
    } else if c == '-' {
      PrefixStep("-dot", c, rest);
      PrefixStep("-_dot", c, rest);
      assert "-dot" <= id ==> id[4..] == rest[3..];
      assert "-_dot" <= id ==> id[5..] == rest[4..];
    } else {
      assert id[0] == c;
    }
  }

  /** The code of a dash passes through the first pass but for the two underscores it ends in. */
  lemma DashPasses(enc: string)
    ensures Contract(DASH + enc, DOT, '.') ==
            if "dot__" <= enc then "__dash." + Contract(enc[5..], DOT, '.')
            else if "_dot__" <= enc then "__dash_." + Contract(enc[6..], DOT, '.')
            else DASH + Contract(enc, DOT, '.')
  {
    hide Contract;
    var u := "__" + enc;
    Spell("__dash", u);
    assert DASH + enc == "__dash" + u;
    if "dot__" <= enc {
      assert u == DOT + enc[5..];
      ContractHit(DOT, enc[5..], '.');
      assert "__dash" + ("." + Contract(enc[5..], DOT, '.')) == "__dash." + Contract(enc[5..], DOT, '.');
    } else {
      var v := "_" + enc;
      assert u == ['_'] + v && v == ['_'] + enc;
      PrefixStep(DOT, '_', v);
      PrefixStep("_dot__", '_', enc);
      ContractSkip('_', v, DOT, '.');
      if "_dot__" <= enc {
        assert v == DOT + enc[6..];
        ContractHit(DOT, enc[6..], '.');
        assert "__dash" + ("_" + ("." + Contract(enc[6..], DOT, '.'))) == "__dash_." + Contract(enc[6..], DOT, '.');
      } else {
        PrefixStep(DOT, '_', enc);
        ContractSkip('_', enc, DOT, '.');
        assert "__dash" + ("_" + ("_" + Contract(enc, DOT, '.'))) == DASH + Contract(enc, DOT, '.');
      }
    }
  }

  /** `__dash` starts no encoded dot, whatever follows. */
  lemma Spell(w: string, u: string)
    requires w == "__dash"
    ensures Contract(w + u, DOT, '.') == w + Contract(u, DOT, '.')
  {
    hide Contract;
    NotPrefix(DOT, "_" + ("_dash" + u), 3);
    NotPrefix(DOT, "_" + ("dash" + u), 1);
    ContractSkip('_', "_dash" + u, DOT, '.');
    ContractSkip('_', "dash" + u, DOT, '.');
    assert w + u == "_" + ("_dash" + u);
    assert "_dash" + u == "_" + ("dash" + u);
    SpellLetters("dash", u);
    assert "_" + ("_" + ("dash" + Contract(u, DOT, '.'))) == w + Contract(u, DOT, '.');
  }

  /** Letters start no encoded dot. */
  lemma {:induction false} SpellLetters(w: string, u: string)
    requires forall i :: 0 <= i < |w| ==> w[i] != '_'
    ensures Contract(w + u, DOT, '.') == w + Contract(u, DOT, '.')
  {
    hide Contract;
    if w == "" {
      assert w + u == u;
    } else {
      SpellLetters(w[1..], u);
      assert w + u == [w[0]] + (w[1..] + u);
      NotPrefix(DOT, [w[0]] + (w[1..] + u), 0);
      ContractSkip(w[0], w[1..] + u, DOT, '.');
      assert [w[0]] + (w[1..] + Contract(u, DOT, '.')) == w + Contract(u, DOT, '.');
    }
  }

  // ---------------------------------------------------------------- the second pass

  lemma SecondHead(c: char, rest: string)
    ensures c != '_' ==> Contract([c] + rest, DASH, '-') == [c] + Contract(rest, DASH, '-')
    ensures Contract([c] + rest, DASH, '-') != ""
    ensures Contract([c] + rest, DASH, '-')[0] == if DASH <= [c] + rest then '-' else c
    ensures !(DASH <= [c] + rest) ==> Contract([c] + rest, DASH, '-') == [c] + Contract(rest, DASH, '-')
  {
    Head(c, rest);
  }

  lemma DashedHead(c: char, rest: string)
    ensures Dashed([c] + rest) == (if c == '-' then DASH else [c]) + Dashed(rest)
  {
    Head(c, rest);
  }

  lemma DashedStarts(y: string)
    ensures "__" <= Dashed(y) <==> UnderscoresFollowDash(y)
  {
    hide Dashed;
    DashedNothing();
    if y != "" {
      var c, rest := y[0], y[1..];
      assert y == [c] + rest;
      DashedHead(c, rest);
      if c == '-' {
        assert (DASH + Dashed(rest))[..2] == "__";
      } else {
        PrefixStep("__", c, Dashed(rest));
        assert "__"[1..] == "_";
        PrefixOne('_', Dashed(rest));
        if rest != "" {
          assert rest == [rest[0]] + rest[1..];
          DashedHead(rest[0], rest[1..]);
        }
      }
    }
  }

  lemma DashedNothing()
    ensures Dashed("") == ""
  {
  }

  lemma {:induction false} DashedWord(w: string, y: string, tail: string)
    requires forall i :: 0 <= i < |w| ==> w[i] != '-' && w[i] != '_'
    ensures w + tail <= Dashed(y) <==> w <= y && tail <= Dashed(y[|w|..])
    decreases |w|
  {
    hide Dashed;
    DashedNothing();
    if w == "" {
      assert w + tail == tail && y[0..] == y;
    } else if y != "" {
      var c, rest := y[0], y[1..];
      assert y == [c] + rest;
      DashedHead(c, rest);
      DashedWord(w[1..], rest, tail);
      PrefixStep(w, c, rest);
      assert (w + tail)[1..] == w[1..] + tail;
      if c == '-' {
        assert DASH == "_" + "_dash__";
        Assoc("_", "_dash__", Dashed(rest));
        PrefixStep(w + tail, '_', "_dash__" + Dashed(rest));
      } else {
        PrefixStep(w + tail, c, Dashed(rest));
      }
      assert w <= y ==> y[|w|..] == rest[|w| - 1..];
    }
  }

  /** An encoded dash is read out of `_` and a dashed text exactly at a false dash. */
  lemma FalseDashCase(rest: string)
    ensures DASH <= "_" + Dashed(rest) <==> FalseDashHere("_" + rest)
  {
    hide Dashed;
    var id := "_" + rest;
    DashedNothing();
    PrefixStep(DASH, '_', Dashed(rest));
    PrefixStep("__dash", '_', rest);
    assert DASH[1..] == "_dash__" && "__dash"[1..] == "_dash";
    if rest != "" {
      var c, y := rest[0], rest[1..];
      assert rest == [c] + y;
      DashedHead(c, y);
      PrefixStep("_dash", c, y);
      assert "_dash"[1..] == "dash" && "_dash__"[1..] == "dash" + "__";
      if c == '-' {
        NotPrefix("_dash__", DASH + Dashed(y), 1);
      } else {
        PrefixStep("_dash__", c, Dashed(y));
        DashedWord("dash", y, "__");
        assert "__dash" <= id ==> id[6..] == y[4..];
        if "dash" <= y {
          DashedStarts(y[4..]);
        }
      }
    }
  }

  // ---------------------------------------------------------------- round trip

  /** Without a false dot, the first pass gives back the dots and leaves the dashes encoded. */
  lemma {:induction false} FirstPassIsDashed(id: string)
    requires Reversible(id)
    ensures FirstPass(id) == Dashed(id)
    decreases |id|
  {
    hide FirstPass, FalseDotHere, FalseDashHere;
    if id == "" {
      FirstPassNothing();
    } else {
      var c, rest := id[0], id[1..];
      assert id == [c] + rest;
      FirstPassIsDashed(rest);
      FirstPassHead(c, rest);
      FalseDotCases(c, rest);
    }
  }

  lemma FirstPassNothing()
    ensures FirstPass("") == "" && Contract("", DASH, '-') == ""
  {
    EncodeNothing();
  }

  lemma DashFirst(u: string)
    ensures Contract("__dash." + u, DASH, '-') != "" && Contract("__dash_." + u, DASH, '-') != ""
    ensures Contract("__dash." + u, DASH, '-')[0] == '_'
    ensures Contract("__dash_." + u, DASH, '-')[0] == '_'
  {
    assert "__dash." + u == ['_'] + ("_dash." + u);
    assert "__dash_." + u == ['_'] + ("_dash_." + u);
    NotPrefix(DASH, ['_'] + ("_dash." + u), 6);
    NotPrefix(DASH, ['_'] + ("_dash_." + u), 7);
    SecondHead('_', "_dash." + u);
    SecondHead('_', "_dash_." + u);
  }

  /** The whole decoding, by the first character of the id. */
  lemma DecodeHead(c: char, rest: string)
    ensures var id := [c] + rest;
            var decoded := Contract(FirstPass(id), DASH, '-');
            if FalseDotHere(id) then decoded != "" && decoded[0] != c
            else if c == '_' && DASH <= "_" + FirstPass(rest) then decoded != "" && decoded[0] != c
            else decoded == [c] + Contract(FirstPass(rest), DASH, '-')
  {
    hide FirstPass, Contract, StartsFalse, IdToWindowName;
    var id := [c] + rest;
    FirstPassHead(c, rest);
    FalseDotCases(c, rest);
    if c == '_' && FalseDotHere(id) {
      SecondHead('.', Contract(From(IdToWindowName(rest), 6), DOT, '.'));
    } else if c == '-' && StartsFalse(rest, "dot") {
      DashFirst(Contract(From(IdToWindowName(rest), 5), DOT, '.'));
    } else if c == '-' && StartsFalse(rest, "_dot") {
      DashFirst(Contract(From(IdToWindowName(rest), 6), DOT, '.'));
    } else if c == '-' {
      ContractHit(DASH, FirstPass(rest), '-');
    } else {
      SecondHead(c, FirstPass(rest));
    }
  }

  /**
   * Decoding the encoded id gives the id back exactly when it is reversible; the encoding is reversible in
   * particular on ids that contain neither `dot` nor `dash`.
   */
  lemma {:induction false} RoundTrip(id: string)
    ensures WindowNameToId(IdToWindowName(id)) == id <==> Reversible(id)
    decreases |id|
  {
    hide FirstPass, Contract, FalseDotHere, FalseDashHere, Dashed, IdToWindowName;
    assert WindowNameToId(IdToWindowName(id)) == Contract(FirstPass(id), DASH, '-') by {
      DecodingIsTwoPasses(id);
    }
    if id == "" {
      FirstPassNothing();
    } else {
      var c, rest := id[0], id[1..];
      assert id == [c] + rest;
      RoundTrip(rest);
      DecodingIsTwoPasses(rest);
      DecodeHead(c, rest);
      NoFalseDash(c, rest);
      if Reversible(rest) {
        FirstPassIsDashed(rest);
        if c == '_' {
          FalseDashCase(rest);
        }
      }
      SameTail(c, Contract(FirstPass(rest), DASH, '-'), rest);
    }
  }

  lemma SameTail(c: char, a: string, b: string)
    ensures [c] + a == [c] + b <==> a == b
  {
    Head(c, a);
    Head(c, b);
  }

  lemma DecodingIsTwoPasses(id: string)
    ensures WindowNameToId(IdToWindowName(id)) == Contract(FirstPass(id), DASH, '-')
  {
  }

  lemma NoFalseDash(c: char, rest: string)
    ensures FalseDashHere([c] + rest) ==> c == '_'
  {
    PrefixStep("__dash", c, rest);
  }

  /** No place in a word-free id looks like a code. */
  lemma {:induction false} PlainIdsAreReversible(id: string)
    requires !Contains(id, "dot") && !Contains(id, "dash")
    ensures Reversible(id)
  {
    if id != "" {
      PlainIdsAreReversible(id[1..]);
      WordInside(id, "__dot", 2, "dot");
      WordInside(id, "-dot", 1, "dot");
      WordInside(id, "-_dot", 2, "dot");
      WordInside(id, "__dash", 2, "dash");
    }
  }

  lemma {:induction false} WordInside(id: string, w: string, k: nat, word: string)
    requires k <= |w| && w[k..] == word
    ensures w <= id ==> Contains(id, word)
    decreases k
  {
    if w <= id {
      if k == 0 {
        assert w == word;
      } else {
        assert id == [id[0]] + id[1..];
        PrefixStep(w, id[0], id[1..]);
        assert w[1..][k - 1..] == w[k..];
        WordInside(id[1..], w[1..], k - 1, word);
      }
    }
  }

  /** Ids for which the names cannot be read back: an element named `__dot__`, and underscores before a dot. */
  lemma NotReversible()
    ensures !Reversible("__dot__") && !Reversible("a-dot.b")
  {
    FalseAtStart("__dot", "__");
    FalseAtStart("-dot", ".b");
    assert "__dot__" == "__dot" + "__" && "-dot.b" == "-dot" + ".b";
    assert !Reversible("-dot.b");
    Head('a', "-dot.b");
    assert "a-dot.b" == ['a'] + "-dot.b";
  }

  lemma FalseAtStart(w: string, y: string)
    requires UnderscoresFollow(y)
    ensures StartsFalse(w + y, w)
  {
    assert (w + y)[|w|..] == y;
  }
}
