/** Resolving a relative path against a base: a backward scan with splices, against RFC 3986. */
module DotSegments {
  import opened Basics
  import opened Strings

  // ---------------------------------------------------------------- splitting at slashes

  const SLASH := {'/'}

  function Join(parts: seq<string>): string {
    if parts == [] then "" else if |parts| == 1 then parts[0] else parts[0] + "/" + Join(parts[1..])
  }

  /** Every part with a slash before it. */
  function Rooted(parts: seq<string>): string {
    if parts == [] then "" else "/" + parts[0] + Rooted(parts[1..])
  }

  // ---------------------------------------------------------------- RFC 3986

  /** The position of the next slash from `i` on, or the end. */
  function NextSlash(s: string, i: nat): (r: nat)
    requires i <= |s|
    ensures i <= r <= |s|
    ensures '/' !in s[i..r] && (r < |s| ==> s[r] == '/')
    decreases |s| - i
  {
    if i == |s| || s[i] == '/' then i else NextSlash(s, i + 1)
  }

  /** The output without its last segment and the slash before it. */
  function DropLastSegment(out: string): string {
    if out == "" then "" else if out[|out| - 1] == '/' then out[..|out| - 1] else DropLastSegment(out[..|out| - 1])
  }

  /** Section 5.2.4 of RFC 3986, steps 2A to 2E, on the input and output buffers. */
  function RemoveDotSegments(input: string, out: string): string
    decreases |input|
  {
    if input == "" then out
    else if "../" <= input then RemoveDotSegments(input[3..], out)
    else if "./" <= input then RemoveDotSegments(input[2..], out)
    else if "/./" <= input then RemoveDotSegments(input[2..], out)
    else if input == "/." then RemoveDotSegments("/", out)
    else if "/../" <= input then RemoveDotSegments(input[3..], DropLastSegment(out))
    else if input == "/.." then RemoveDotSegments("/", DropLastSegment(out))
    else if input == "." || input == ".." then RemoveDotSegments("", out)
    else
      var end := NextSlash(input, 1);
      RemoveDotSegments(input[end..], out + input[..end])
  }

  /** All of the base but what follows its last slash. */
  function UpToLastSlash(base: string): string {
    if base == "" || base[|base| - 1] == '/' then base else UpToLastSlash(base[..|base| - 1])
  }

  /** Section 5.2.3 of RFC 3986, for a base with an authority. */
  function MergePaths(base: string, relative: string): string {
    if base == "" then "/" + relative else UpToLastSlash(base) + relative
  }

  // ---------------------------------------------------------------- the program

  /** The segments a scan from the right keeps, and how many `..` are left over. */
  function Back(path: seq<string>): (seq<string>, nat) {
    if path == [] then ([], 0)
    else
      var (kept, up) := Back(path[1..]);
      if path[0] == "." then (kept, up)
      else if path[0] == ".." then (kept, up + 1)
      else if up > 0 then (kept, up - 1)
      else ([path[0]] + kept, 0)
  }

  predicate IsDots(s: string) {
    s == "." || s == ".."
  }

  /** The path array a call starts from. */
  function Parts(relative: string, base: string): (path: seq<string>)
    ensures path != [] && NoSlashes(path)
  {
    var from := if base == "" then "/" else base;
    var parts := Split(from, SLASH);
    PartsLack(from, SLASH, '/');
    PartsLack(relative, SLASH, '/');
    parts[..|parts| - 1] + Split(relative, SLASH)
  }

  /** What the scan makes of the array: the root put back if it was taken, an empty part after a final dot segment. */
  function Finished(all: seq<string>): seq<string>
    requires all != []
  {
    (if !IsDots(all[0]) && Back(all[1..]).1 > 0 then [""] else []) + Back(all).0 +
    (if IsDots(all[|all| - 1]) then [""] else [])
  }

  function Resolved(relative: string, base: string): string {
    Join(Finished(Parts(relative, base)))
  }

  /** `resolve`. */
  method Resolve(relative: string, base: string) returns (r: string)
    ensures r == Resolved(relative, base)
  {
    var path := Parts(relative, base);
    ghost var all := path;
    var i := |path|;
    var last := path[i - 1];
    var unshift, up := false, 0;
    assert all[..i] == all && all[i..] == [];
    while i > 0
      invariant 0 <= i <= |all|
      invariant path == all[..i] + Back(all[i..]).0 && up == Back(all[i..]).1
      invariant unshift == (i == 0 && !IsDots(all[0]) && Back(all[1..]).1 > 0)
    {
      i := i - 1;
      BackStep(all, i);
      ghost var kept := Back(all[i + 1..]).0;
      assert path[i] == all[i] && path[..i] == all[..i] && path[i + 1..] == kept;
      if path[i] == "." {
        path := path[..i] + path[i + 1..];
      } else if path[i] == ".." {
        path := path[..i] + path[i + 1..];
        up := up + 1;
      } else if up > 0 {
        if i == 0 {
          unshift := true;
        }
        path := path[..i] + path[i + 1..];
        up := up - 1;
      } else {
        assert path == all[..i] + ([all[i]] + kept);
      }
    }
    assert all[0..] == all && all[..0] == [] && path == Back(all).0;
    if unshift {
      path := [""] + path;
    }
    if last == "." || last == ".." {
      path := path + [""];
    }
    assert path == Finished(all);
    r := Join(path);
  }

  /** The segments from the first that is no dot segment. */
  function AfterDots(all: seq<string>): (r: seq<string>)
    ensures r != [] ==> !IsDots(r[0])
  {
    if all == [] || !IsDots(all[0]) then all else AfterDots(all[1..])
  }

  /** A path that begins with dot segments and then, with what follows, climbs above where it began. */
  predicate ClimbsAfterDots(all: seq<string>)
    requires all != []
  {
    IsDots(all[0]) && AfterDots(all) != [] && Back(AfterDots(all)[1..]).1 > 0
  }

  /**
   * The program computes the merge of section 5.2.3 followed by section 5.2.4 exactly when the merged path does not
   * climb after leading dot segments.
   */
  lemma ResolvedIsRfc(relative: string, base: string)
    ensures Resolved(relative, base) == RemoveDotSegments(MergePaths(base, relative), "") <==>
            !ClimbsAfterDots(Parts(relative, base))
  {
    hide AfterDots, Join, Finished, RemoveDotSegments, Out;
    var all := Parts(relative, base);
    MergedParts(relative, base);
    RfcJoined(all);
    FinishedJoined(all);
    if ClimbsAfterDots(all) {
      OutSome(AfterDots(all)[1..]);
      JoinIsRooted(Out([], AfterDots(all)[1..]));
    }
  }

  /** So it always does for a base that is empty or rooted, which is what the parser resolves against. */
  lemma RootedResolvedIsRfc(relative: string, base: string)
    requires base == "" || base[0] == '/'
    ensures Resolved(relative, base) == RemoveDotSegments(MergePaths(base, relative), "")
  {
    RootedParts(relative, base);
    ResolvedIsRfc(relative, base);
  }

  /** For a base that is neither, a path on which the results differ. */
  lemma UnrootedDiffers()
    ensures Resolved("../a/../b", "x") == "b"
    ensures RemoveDotSegments(MergePaths("x", "../a/../b"), "") == "/b"
  {
    UnrootedParts();
    MergedParts("../a/../b", "x");
    hide RemoveDotSegments, Split, MergePaths, Join;
    var x, y, z, all := ["b"], ["..", "b"], ["a", "..", "b"], ["..", "a", "..", "b"];
    assert x[1..] == [] && y[1..] == x && z[1..] == y && all[1..] == z;
    assert Back(x).0 == x && Back(x).1 == 0;
    assert Back(y).0 == x && Back(y).1 == 1;
    assert Back(z).0 == x && Back(z).1 == 0;
    assert Back(all).0 == x && AfterDots(all) == z;
    JoinFew("b");
    Nothing(x);
    RfcJoined(all);
    OutIsBack(y);
    RootedOne("b");
    Nothing("/b");
  }

  lemma UnrootedParts()
    ensures Parts("../a/../b", "x") == ["..", "a", "..", "b"]
  {
    hide Split;
    SplitAtSlash("x", "");
    SplitAtSlash("b", "");
    SplitAtSlash("..", "b");
    SplitAtSlash("a", "../b");
    SplitAtSlash("..", "a/../b");
    assert ".." + "/" + "b" == "../b" && "a" + "/" + "../b" == "a/../b" && ".." + "/" + "a/../b" == "../a/../b";
    assert ["x"][..0] == [] && [".."] + ["b"] == ["..", "b"] && ["a"] + ["..", "b"] == ["a", "..", "b"];
    assert [".."] + ["a", "..", "b"] == ["..", "a", "..", "b"];
  }

  /** Whatever the base, no dot segment survives. */
  lemma ResolvedHasNoDots(relative: string, base: string)
    ensures forall p <- Split(Resolved(relative, base), SLASH) :: !IsDots(p)
  {
    BackKeepsNoDots(Parts(relative, base));
    NoDotsLeft(Finished(Parts(relative, base)));
  }

  /** What section 5.2.4 makes of a path whose first segment is `x`, or of its rest when it climbs above `x`. */
  function Kept(x: string, rest: seq<string>): string {
    if rest == [] then x else (if Back(rest).1 > 0 then "" else x) + Rooted(Out([], rest))
  }

  /** Section 5.2.4 drops leading dot segments, and then keeps the first segment unless the rest climbs above it. */
  lemma {:induction false} RfcJoined(all: seq<string>)
    requires all != [] && NoSlashes(all)
    ensures var r := AfterDots(all);
            RemoveDotSegments(Join(all), "") == if r == [] then "" else Kept(r[0], r[1..])
  {
    hide RemoveDotSegments, Rooted, Back, Out;
    var x, rest := all[0], all[1..];
    assert all == [x] + rest && x in all;
    if rest == [] {
      assert Join(all) == x;
      RfcAlone(x);
    } else {
      assert Join(all) == x + "/" + Join(rest);
      JoinIsRooted(rest);
      Assoc(x, "/", Join(rest));
      if IsDots(x) {
        RfcLeadingDots(x, Join(rest));
        RfcJoined(rest);
      } else {
        RfcFirst(x, rest);
      }
    }
  }

  lemma {:induction false} NextSlashIs(s: string, i: nat, end: nat)
    requires i <= end <= |s| && (forall k :: i <= k < end ==> s[k] != '/') && (end < |s| ==> s[end] == '/')
    ensures NextSlash(s, i) == end
    decreases end - i
  {
    if i < end {
      NextSlashIs(s, i + 1, end);
    }
  }

  lemma NoSlashIn(x: string)
    requires '/' !in x
    ensures forall k :: 0 <= k < |x| ==> x[k] != '/'
  {
  }

  lemma RfcAlone(x: string)
    requires '/' !in x
    ensures RemoveDotSegments(x, "") == if IsDots(x) then "" else x
  {
    NoSlashIn(x);
    if x != "" && !IsDots(x) {
      hide NextSlash;
      NextSlashIs(x, 1, |x|);
      assert x[|x|..] == "" && x[..|x|] == x && "" + x == x;
    }
  }

  lemma RfcLeadingDots(x: string, rest: string)
    requires IsDots(x)
    ensures RemoveDotSegments(x + "/" + rest, "") == RemoveDotSegments(rest, "")
  {
    var input := x + "/" + rest;
    assert input[..|x| + 1] == x + "/" && input[|x| + 1..] == rest;
    assert x == "." ==> input[0] == '.' && input[1] == '/';
    assert x == ".." ==> input[0] == '.' && input[1] == '.' && input[2] == '/';
  }

  lemma RfcFirst(x: string, rest: seq<string>)
    requires '/' !in x && !IsDots(x) && rest != [] && NoSlashes(rest)
    ensures RemoveDotSegments(x + Rooted(rest), "") == Kept(x, rest)
  {
    hide RemoveDotSegments, Out, Rooted;
    RfcOnParts(rest, x, []);
    RootedOne("");
    Nothing(x);
    Nothing(Rooted(rest));
    if x != "" {
      RfcMoves(x, rest);
    }
  }

  lemma RfcMoves(x: string, rest: seq<string>)
    requires '/' !in x && x != "" && !IsDots(x) && rest != []
    ensures RemoveDotSegments(x + Rooted(rest), "") == RemoveDotSegments(Rooted(rest), x)
  {
    var tail := Rooted(rest);
    assert tail[0] == '/';
    NoSlashIn(x);
    PrefixesOf(x, tail);
    var input := x + tail;
    NextSlashIs(input, 1, |x|);
    assert input[|x|..] == tail && input[..|x|] == x && "" + x == x;
  }

  lemma PrefixesOf(x: string, tail: string)
    requires x != "" && !IsDots(x) && (forall k :: 0 <= k < |x| ==> x[k] != '/') && tail != "" && tail[0] == '/'
    ensures var input := x + tail;
            && !("../" <= input) && !("./" <= input) && !("/./" <= input) && !("/../" <= input)
            && input != "." && input != ".." && input != "/." && input != "/.." && input != ""
  {
    var input := x + tail;
    assert input[0] == x[0] != '/' && input[|x|] == '/';
    assert input[1] == if |x| == 1 then '/' else x[1];
    assert |x| >= 2 ==> input[2] == if |x| == 2 then '/' else x[2];
    assert |x| == 1 ==> x == [x[0]];
    assert |x| == 2 ==> x == [x[0], x[1]];
    assert ['.'] == "." && ['.', '.'] == "..";
  }

  lemma {:induction false} BackAfterDots(all: seq<string>)
    ensures Back(all).0 == Back(AfterDots(all)).0
    ensures AfterDots(all) == [] ==> Back(all).0 == []
    ensures AfterDots(all) != [] ==> AfterDots(all)[|AfterDots(all)| - 1] == all[|all| - 1]
    ensures AfterDots(all) == [] && all != [] ==> IsDots(all[|all| - 1])
  {
    if all != [] && IsDots(all[0]) {
      BackAfterDots(all[1..]);
    }
  }

  lemma OutIsBack(path: seq<string>)
    requires path != []
    ensures Out([], path) == Back(path).0 + if IsDots(path[|path| - 1]) then [""] else []
  {
    BackIsForward([], path);
    Nothing(Back(path).0);
  }

  lemma OutSome(path: seq<string>)
    requires path != []
    ensures Out([], path) != []
  {
    OutIsBack(path);
    if !IsDots(path[|path| - 1]) {
      BackKeepsLast(path);
    }
  }

  /** What the program joins, seen from the first segment that is no dot segment. */
  lemma FinishedJoined(all: seq<string>)
    requires all != [] && NoSlashes(all)
    ensures var r := AfterDots(all);
            Join(Finished(all)) ==
            if r == [] then ""
            else if ClimbsAfterDots(all) then Join(Out([], r[1..]))
            else Kept(r[0], r[1..])
  {
    hide Kept, Rooted, Out, Join, NoSlashes;
    var r := AfterDots(all);
    if !IsDots(all[0]) {
      assert r == all;
      hide AfterDots, Back, Finished;
      FinishedPlain(all);
    } else {
      BackAfterDots(all);
      hide AfterDots, Back;
      var end := if IsDots(all[|all| - 1]) then [""] else [];
      assert Finished(all) == Back(r).0 + end;
      if r == [] {
        JoinFew("");
        assert [] + [""] == [""];
      } else {
        hide Finished;
        BackJoined(r);
      }
    }
  }

  lemma FinishedPlain(all: seq<string>)
    requires all != [] && !IsDots(all[0])
    ensures Join(Finished(all)) == Kept(all[0], all[1..])
  {
    BackJoined(all);
    hide Join, Out;
    var rest := all[1..];
    var end := if IsDots(all[|all| - 1]) then [""] else [];
    if rest != [] && Back(rest).1 > 0 {
      OutIsBack(rest);
      OutSome(rest);
      Assoc([""], Back(rest).0, end);
      JoinOnto("", Out([], rest));
    } else {
      assert Finished(all) == Back(all).0 + end;
    }
  }

  lemma BackFirst(r: seq<string>)
    requires r != [] && !IsDots(r[0])
    ensures Back(r).0 == if Back(r[1..]).1 > 0 then Back(r[1..]).0 else [r[0]] + Back(r[1..]).0
  {
  }

  /** The segments kept of a path that begins with no dot segment, and the end. */
  lemma BackJoined(r: seq<string>)
    requires r != [] && !IsDots(r[0])
    ensures var end := if IsDots(r[|r| - 1]) then [""] else [];
            var x, rest := r[0], r[1..];
            Join(Back(r).0 + end) ==
            if rest != [] && Back(rest).1 > 0 then Join(Out([], rest)) else Kept(x, rest)
  {
    var x, rest := r[0], r[1..];
    var end := if IsDots(r[|r| - 1]) then [""] else [];
    BackFirst(r);
    JoinFew(x);
    assert Back([]) == ([], 0);
    hide Join, Out, Rooted, Back;
    if rest == [] {
      Nothing([x]);
    } else {
      OutIsBack(rest);
      OutSome(rest);
      assert rest[|rest| - 1] == r[|r| - 1];
      JoinOnto(x, Out([], rest));
      Assoc([x], Back(rest).0, end);
    }
  }

  lemma JoinFew(x: string)
    ensures Join([x]) == x && Join([]) == ""
  {
  }

  lemma JoinOnto(x: string, parts: seq<string>)
    requires parts != []
    ensures Join([x] + parts) == x + Rooted(parts)
  {
    Head(x, parts);
    JoinIsRooted(parts);
    Assoc(x, "/", Join(parts));
  }

  lemma BackStep(all: seq<string>, i: nat)
    requires i < |all|
    ensures all[i..] != [] && all[i..][0] == all[i] && all[i..][1..] == all[i + 1..]
    ensures all[..i + 1] == all[..i] + [all[i]]
  {
  }

  // ---------------------------------------------------------------- the scan is the forward algorithm

  function Pop(stack: seq<string>): seq<string> {
    if stack == [] then [] else stack[..|stack| - 1]
  }

  /** The forward reading of a path: `..` takes back the last segment kept. */
  function Forward(stack: seq<string>, path: seq<string>): seq<string>
    decreases |path|
  {
    if path == [] then stack
    else if path[0] == "." then Forward(stack, path[1..])
    else if path[0] == ".." then Forward(Pop(stack), path[1..])
    else Forward(stack + [path[0]], path[1..])
  }

  /** A final dot segment leaves a trailing slash. */
  function Out(stack: seq<string>, path: seq<string>): seq<string>
    requires path != []
  {
    Forward(stack, path) + if IsDots(path[|path| - 1]) then [""] else []
  }

  function Without(stack: seq<string>, n: nat): seq<string> {
    if n <= |stack| then stack[..|stack| - n] else []
  }

  /** Reading forwards from a stack takes off what the backward scan has left over and adds what it keeps. */
  lemma {:induction false} BackIsForward(stack: seq<string>, path: seq<string>)
    ensures Forward(stack, path) == Without(stack, Back(path).1) + Back(path).0
    decreases |path|
  {
    if path == [] {
      Nothing(stack);
    } else {
      var (kept, up) := Back(path[1..]);
      if path[0] == "." {
        BackIsForward(stack, path[1..]);
      } else if path[0] == ".." {
        BackIsForward(Pop(stack), path[1..]);
        assert Without(Pop(stack), up) == Without(stack, up + 1);
      } else {
        BackIsForward(stack + [path[0]], path[1..]);
        if up > 0 {
          assert Without(stack + [path[0]], up) == Without(stack, up - 1);
        } else {
          assert Without(stack + [path[0]], 0) == stack + [path[0]];
          assert Without(stack, 0) == stack;
          Assoc(stack, [path[0]], kept);
        }
      }
    }
  }

  /** A final segment that is no dot segment is always kept. */
  lemma {:induction false} BackKeepsLast(path: seq<string>)
    requires path != [] && !IsDots(path[|path| - 1])
    ensures Back(path).0 != []
  {
    if |path| > 1 {
      BackKeepsLast(path[1..]);
    }
  }

  lemma {:induction false} JoinIsRooted(parts: seq<string>)
    requires parts != []
    ensures "/" + Join(parts) == Rooted(parts)
  {
    if |parts| == 1 {
      assert parts[1..] == [];
      Nothing("/" + parts[0]);
    } else {
      JoinIsRooted(parts[1..]);
      assert "/" + (parts[0] + "/" + Join(parts[1..])) == "/" + parts[0] + ("/" + Join(parts[1..]));
    }
  }

  // ---------------------------------------------------------------- RFC 3986 on segments

  lemma {:induction false} RootedSnoc(parts: seq<string>, p: string)
    ensures Rooted(parts + [p]) == Rooted(parts) + "/" + p
  {
    if parts == [] {
      assert [] + [p] == [p] && [p][1..] == [];
      Nothing("/" + p);
      Nothing("/");
      assert "" + "/" + p == "/" + p;
    } else {
      RootedSnoc(parts[1..], p);
      assert (parts + [p])[1..] == parts[1..] + [p];
      assert "/" + parts[0] + (Rooted(parts[1..]) + "/" + p) == "/" + parts[0] + Rooted(parts[1..]) + "/" + p;
    }
  }

  lemma {:induction false} DropPart(before: string, p: string)
    requires '/' !in p
    ensures DropLastSegment(before + "/" + p) == before
    decreases |p|
  {
    var out := before + "/" + p;
    if p == "" {
      assert out[..|out| - 1] == before;
    } else {
      assert out[..|out| - 1] == before + "/" + p[..|p| - 1];
      DropPart(before, p[..|p| - 1]);
    }
  }

  predicate NoSlashes(parts: seq<string>) {
    forall p <- parts :: '/' !in p
  }

  /** How the first segment of a rooted path decides the step taken. */
  lemma FirstSegment(x: string, rest: seq<string>)
    requires '/' !in x
    ensures var input := Rooted([x] + rest);
            && input == "/" + x + Rooted(rest) && !("../" <= input) && !("./" <= input)
            && ("/./" <= input <==> x == "." && rest != [])
            && (input == "/." <==> x == "." && rest == [])
            && ("/../" <= input <==> x == ".." && rest != [])
            && (input == "/.." <==> x == ".." && rest == [])
            && input != "." && input != ".."
            && input[1 + |x|..] == Rooted(rest) && input[..1 + |x|] == "/" + x
            && NextSlash(input, 1) == 1 + |x|
  {
    Head(x, rest);
    var input := Rooted([x] + rest);
    assert input == "/" + x + Rooted(rest) && input[0] == '/';
    assert forall k :: 1 <= k <= |x| ==> input[k] == x[k - 1];
    assert rest != [] ==> Rooted(rest)[0] == '/' && input[1 + |x|] == '/';
    assert input[..1 + |x|] == "/" + x && input[1 + |x|..] == Rooted(rest);
    assert "/./" <= input ==> input[1] == '.' && input[2] == '/' && |x| == 1;
    assert "/../" <= input ==> input[1] == '.' && input[2] == '.' && input[3] == '/' && |x| == 2;
    assert input == "/." || input == "/.." ==> rest == [] && |x| == |input| - 1;
    var end := NextSlash(input, 1);
    assert end < |input| ==> end >= 1 + |x|;
    assert forall j :: 1 <= j < end ==> input[j] == input[1..end][j - 1];
  }

  /** Taking back a segment from an output that began without a slash, and what is left of its beginning. */
  lemma DropOnto(x: string, stack: seq<string>)
    requires '/' !in x && NoSlashes(stack)
    ensures DropLastSegment(x + Rooted(stack)) == (if stack == [] then "" else x) + Rooted(Pop(stack))
  {
    if stack == [] {
      Nothing(x);
      DropAll(x);
    } else {
      var k := |stack| - 1;
      var before := Rooted(stack[..k]);
      SplitLast(stack);
      RootedSnoc(stack[..k], stack[k]);
      assert stack[k] in stack;
      DropPart(x + before, stack[k]);
      assert x + (before + "/" + stack[k]) == x + before + "/" + stack[k];
    }
  }

  lemma {:induction false} DropAll(x: string)
    requires '/' !in x
    ensures DropLastSegment(x) == ""
    decreases |x|
  {
    if x != "" {
      assert x[|x| - 1] in x;
      DropAll(x[..|x| - 1]);
    }
  }

  /** What is left of the beginning of the output once `path` is read. */
  function Beginning(x: string, stack: seq<string>, path: seq<string>): string {
    if Back(path).1 > |stack| then "" else x
  }

  /**
   * Section 5.2.4 on the segments that follow `x` and those of the stack keeps their forward reading, and `x` unless
   * they climb above it.
   */
  lemma {:induction false} RfcOnParts(path: seq<string>, x: string, stack: seq<string>)
    requires path != [] && NoSlashes(path) && NoSlashes(stack) && '/' !in x
    ensures RemoveDotSegments(Rooted(path), x + Rooted(stack)) == Beginning(x, stack, path) + Rooted(Out(stack, path))
    decreases |path|
  {
    hide Rooted, DropLastSegment, NextSlash, RemoveDotSegments;
    var y, rest := path[0], path[1..];
    assert path == [y] + rest && y in path;
    var next := if y == "." then stack else if y == ".." then Pop(stack) else stack + [y];
    var x' := if y == ".." && stack == [] then "" else x;
    if rest == [] {
      Nothing([y]);
      RfcLast(y, x, stack);
    } else {
      RfcNext(y, rest, x, stack);
      RfcOnParts(rest, x', next);
      assert rest[|rest| - 1] == path[|path| - 1];
      assert Out(stack, path) == Out(next, rest);
    }
  }

  lemma RfcNext(y: string, rest: seq<string>, x: string, stack: seq<string>)
    requires rest != [] && '/' !in y && '/' !in x && NoSlashes(stack)
    ensures var next := if y == "." then stack else if y == ".." then Pop(stack) else stack + [y];
            RemoveDotSegments(Rooted([y] + rest), x + Rooted(stack)) ==
            RemoveDotSegments(Rooted(rest), (if y == ".." && stack == [] then "" else x) + Rooted(next))
  {
    hide Rooted, DropLastSegment, NextSlash;
    FirstSegment(y, rest);
    DropOnto(x, stack);
    RootedSnoc(stack, y);
    if !IsDots(y) {
      Assoc(Rooted(stack), "/", y);
      Assoc(x, Rooted(stack), "/" + y);
    }
  }

  lemma RootedOne(x: string)
    ensures Rooted([x]) == "/" + x && Rooted([]) == ""
  {
    Nothing("/" + x);
  }

  lemma RfcLast(y: string, x: string, stack: seq<string>)
    requires '/' !in y && '/' !in x && NoSlashes(stack)
    ensures RemoveDotSegments(Rooted([y]), x + Rooted(stack)) == Beginning(x, stack, [y]) + Rooted(Out(stack, [y]))
  {
    hide Rooted, DropLastSegment, NextSlash;
    FirstSegment(y, []);
    Nothing([y]);
    RootedOne(y);
    DropOnto(x, stack);
    var next := if y == "." then stack else if y == ".." then Pop(stack) else stack + [y];
    assert [y][1..] == [];
    assert Forward(stack, [y]) == next;
    var begin := Beginning(x, stack, [y]);
    if IsDots(y) {
      RfcSlash(begin + Rooted(next));
      RootedSnoc(next, "");
      Nothing(Rooted(next) + "/");
      Assoc(begin, Rooted(next), "/");
    } else {
      Nothing(next);
      OutOne(stack, y);
      assert Back([y]).1 == 0;
      hide Back, Out;
      RootedSnoc(stack, y);
      Assoc(Rooted(stack), "/", y);
      Assoc(x, Rooted(stack), "/" + y);
      assert RemoveDotSegments("", x + Rooted(next)) == x + Rooted(next);
    }
  }

  lemma OutOne(stack: seq<string>, y: string)
    ensures Out(stack, [y]) == Forward(stack, [y]) + if IsDots(y) then [""] else []
  {
  }

  lemma RfcSlash(out: string)
    ensures RemoveDotSegments("/", out) == out + "/"
  {
    FirstSegment("", []);
    RootedOne("");
    assert [""] + [] == [""];
    assert "/" + "" == "/";
  }

  // ---------------------------------------------------------------- splitting and merging

  lemma {:induction false} SplitConcat(a: string, b: string)
    requires a != "" && a[|a| - 1] == '/'
    ensures Split(a + b, SLASH) == Split(a, SLASH)[..|Split(a, SLASH)| - 1] + Split(b, SLASH)
    decreases |a|
  {
    var c, rest := a[0], a[1..];
    assert a == [c] + rest;
    LastSplit(rest);
    hide Split;
    Assoc([c], rest, b);
    SplitFirst(c, rest, SLASH);
    SplitFirst(c, rest + b, SLASH);
    if rest == "" {
      assert rest + b == b;
      assert ([""] + [""])[..1] == [""];
    } else {
      SplitConcat(rest, b);
      FrontOf(Split(rest, SLASH), c, Split(b, SLASH));
    }
  }

  /** Taking off the last part commutes with what a further character does to the first. */
  lemma FrontOf(ps: seq<string>, c: char, more: seq<string>)
    requires |ps| >= 2
    ensures var all := ps[..|ps| - 1] + more;
            && ([""] + ps)[..|ps|] + more == [""] + all
            && ([[c] + ps[0]] + ps[1..])[..|ps| - 1] + more == [[c] + all[0]] + all[1..]
  {
  }

  lemma {:induction false} LastSplit(s: string)
    requires s != "" ==> s[|s| - 1] == '/'
    ensures s != "" ==> |Split(s, SLASH)| >= 2
  {
    if |s| > 1 {
      LastSplit(s[1..]);
    }
  }

  lemma {:induction false} JoinSplit(s: string)
    ensures Join(Split(s, SLASH)) == s
  {
    if s != "" {
      JoinSplit(s[1..]);
      var rest := Split(s[1..], SLASH);
      if s[0] == '/' {
        assert ([""] + rest)[1..] == rest;
        assert "" + "/" + s[1..] == s;
      } else if |rest| == 1 {
        assert [[s[0]] + rest[0]] + rest[1..] == [[s[0]] + rest[0]];
        assert [s[0]] + rest[0] == s;
      } else {
        var parts := [[s[0]] + rest[0]] + rest[1..];
        assert parts[1..] == rest[1..];
        assert [s[0]] + rest[0] + "/" + Join(rest[1..]) == [s[0]] + (rest[0] + "/" + Join(rest[1..]));
        assert [s[0]] + s[1..] == s;
      }
    }
  }

  lemma {:induction false} DropLastPart(base: string)
    requires '/' in base
    ensures UpToLastSlash(base) != "" && UpToLastSlash(base)[|UpToLastSlash(base)| - 1] == '/'
    ensures UpToLastSlash(base)[0] == base[0]
    ensures var front, all := Split(UpToLastSlash(base), SLASH), Split(base, SLASH);
            front[..|front| - 1] == all[..|all| - 1]
    decreases |base|
  {
    if base[|base| - 1] != '/' {
      var shorter := base[..|base| - 1];
      assert base == shorter + [base[|base| - 1]];
      DropLastPart(shorter);
      SplitSnoc(shorter, base[|base| - 1]);
    }
  }

  /** A character other than a slash goes to the last part. */
  lemma {:induction false} SplitSnoc(s: string, c: char)
    requires c != '/'
    ensures |Split(s + [c], SLASH)| == |Split(s, SLASH)|
    ensures Split(s + [c], SLASH)[..|Split(s, SLASH)| - 1] == Split(s, SLASH)[..|Split(s, SLASH)| - 1]
  {
    if s == "" {
      assert s + [c] == [c] && [c][1..] == "";
    } else {
      SplitSnoc(s[1..], c);
      assert (s + [c])[1..] == s[1..] + [c];
      var a, b := Split(s[1..], SLASH), Split(s[1..] + [c], SLASH);
      var n := |a|;
      if s[0] == '/' {
        assert ([""] + a)[..n] == [""] + a[..n - 1] && ([""] + b)[..n] == [""] + b[..n - 1];
      } else {
        TailsAgree(a, b, [s[0]]);
      }
    }
  }

  lemma TailsAgree(a: seq<string>, b: seq<string>, c: string)
    requires a != [] && |a| == |b| && a[..|a| - 1] == b[..|a| - 1]
    ensures ([c + a[0]] + a[1..])[..|a| - 1] == ([c + b[0]] + b[1..])[..|a| - 1]
  {
    assert forall i :: 0 <= i < |a| - 1 ==> a[i] == a[..|a| - 1][i] == b[..|a| - 1][i] == b[i];
  }

  /** The path array is the merged path of section 5.2.3, split. */
  lemma MergedParts(relative: string, base: string)
    ensures Parts(relative, base) == Split(MergePaths(base, relative), SLASH)
    ensures Join(Parts(relative, base)) == MergePaths(base, relative)
  {
    var b := if base == "" then "/" else base;
    if '/' in b {
      DropLastPart(b);
      SplitConcat(UpToLastSlash(b), relative);
    } else {
      NoLastSlash(b);
      SplitAtSlash(b, "");
      assert [b][..0] == [];
      Nothing(Split(relative, SLASH));
      Nothing(relative);
    }
    assert UpToLastSlash(b) + relative == MergePaths(base, relative);
    JoinSplit(MergePaths(base, relative));
  }

  lemma {:induction false} NoLastSlash(base: string)
    requires '/' !in base
    ensures UpToLastSlash(base) == ""
    decreases |base|
  {
    if base != "" {
      assert base[|base| - 1] in base;
      NoLastSlash(base[..|base| - 1]);
    }
  }

  lemma RootedParts(relative: string, base: string)
    requires base == "" || base[0] == '/'
    ensures Parts(relative, base)[0] == ""
  {
    MergedParts(relative, base);
    if base != "" {
      DropLastPart(base);
    }
    var c := MergePaths(base, relative);
    assert c[0] == '/' && c == ['/'] + c[1..];
    SplitFirst('/', c[1..], SLASH);
  }

  // ---------------------------------------------------------------- no dot segment survives

  lemma {:induction false} BackKeepsNoDots(path: seq<string>)
    requires NoSlashes(path)
    ensures NoSlashes(Back(path).0) && forall p <- Back(path).0 :: !IsDots(p)
  {
    if path != [] {
      BackKeepsNoDots(path[1..]);
    }
  }

  lemma SplitAtSlash(p: string, rest: string)
    requires '/' !in p
    ensures Split(p, SLASH) == [p] && Split(p + "/" + rest, SLASH) == [p] + Split(rest, SLASH)
  {
    NoSlashIn(p);
    SplitPart(p, '/', rest, SLASH);
  }

  lemma {:induction false} SplitJoin(parts: seq<string>)
    requires parts != [] && NoSlashes(parts)
    ensures Split(Join(parts), SLASH) == parts
  {
    assert parts[0] in parts;
    if |parts| == 1 {
      SplitAtSlash(parts[0], "");
    } else {
      SplitJoin(parts[1..]);
      SplitAtSlash(parts[0], Join(parts[1..]));
      assert parts == [parts[0]] + parts[1..];
    }
  }

  lemma NoDotsLeft(path: seq<string>)
    requires NoSlashes(path) && forall p <- path :: !IsDots(p)
    ensures forall p <- Split(Join(path), SLASH) :: !IsDots(p)
  {
    if path != [] {
      SplitJoin(path);
    }
  }
}
