/** Replacing characters in strings and splitting strings at them. */
module Strings {
  import opened Basics

  /** `s.replace(/c/g, by)` for one character. */
  function Replace(s: string, c: char, by': string): string {
    if s == "" then "" else (if s[0] == c then by' else [s[0]]) + Replace(s[1..], c, by')
  }

  lemma {:induction false} ReplaceConcat(a: string, b: string, c: char, by': string)
    ensures Replace(a + b, c, by') == Replace(a, c, by') + Replace(b, c, by')
  {
    if a == "" {
      assert a + b == b;
    } else {
      ReplaceConcat(a[1..], b, c, by');
      assert (a + b)[0] == a[0] && (a + b)[1..] == a[1..] + b;
      Assoc(if a[0] == c then by' else [a[0]], Replace(a[1..], c, by'), Replace(b, c, by'));
    }
  }

  lemma {:induction false} ReplaceAbsent(s: string, c: char, by': string)
    requires forall i :: 0 <= i < |s| ==> s[i] != c
    ensures Replace(s, c, by') == s
  {
    if s != "" {
      ReplaceAbsent(s[1..], c, by');
    }
  }

  lemma ReplaceOne(c: char, d: char, by': string)
    ensures Replace([c], d, by') == if c == d then by' else [c]
  {
    assert [c][1..] == "";
    Nothing(by');
  }

  /** The parts between separators, as `split` gives them. */
  function Split(s: string, seps: set<char>): (parts: seq<string>)
    ensures parts != []
  {
    if s == "" then [""]
    else
      var rest := Split(s[1..], seps);
      if s[0] in seps then [""] + rest else [[s[0]] + rest[0]] + rest[1..]
  }

  lemma {:induction false} PartsLack(s: string, seps: set<char>, c: char)
    requires c in seps
    ensures forall p <- Split(s, seps) :: c !in p
  {
    if s != "" {
      PartsLack(s[1..], seps, c);
    }
  }

  lemma SplitFirst(c: char, s: string, seps: set<char>)
    ensures var rest := Split(s, seps);
            Split([c] + s, seps) == if c in seps then [""] + rest else [[c] + rest[0]] + rest[1..]
    ensures Split("", seps) == [""]
  {
    Head(c, s);
  }

  /** A part in front of a separator is split off whole. */
  lemma {:induction false} SplitPart(p: string, sep: char, rest: string, seps: set<char>)
    requires sep in seps && forall i :: 0 <= i < |p| ==> p[i] !in seps
    ensures Split(p, seps) == [p] && Split(p + [sep] + rest, seps) == [p] + Split(rest, seps)
  {
    if p == "" {
      assert p + [sep] + rest == [sep] + rest;
      SplitFirst(sep, rest, seps);
    } else {
      SplitPart(p[1..], sep, rest, seps);
      assert (p + [sep] + rest)[0] == p[0] && (p + [sep] + rest)[1..] == p[1..] + [sep] + rest;
      assert [p[0]] + p[1..] == p;
    }
  }
}
