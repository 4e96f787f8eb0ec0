/** Which absolute addresses the URL printer gives back as they were. */
module UrlCanonical {
  import opened Basics
  import opened Numerals
  import opened Url
  import opened UrlRoundTrip

  /** An absolute address cut at its marks: `scheme`, two slashes, and the rest in order. */
  datatype Cut = Cut(scheme: string, user: Option<string>, host: string, path: string, query: string, hash: string)

  function CutOf(address: string): Cut {
    var x := ExtractProtocol(address);
    var (hash, a1) := TakeFrom(x.rest, '#');
    var (query, a2) := TakeFrom(a1, '?');
    var (path, authority) := TakeFrom(a2, '/');
    var i := IndexOf(authority, '@');
    Cut(address[..SchemeLength(address)], if i < |authority| then Some(authority[..i]) else None,
        if i < |authority| then authority[i + 1..] else authority, path, query, hash)
  }

  /** A user name, or a user name, a colon and a password without another colon. */
  predicate CanonicalUser(user: string) {
    var i := IndexOf(user, ':');
    i > 0 && (i < |user| ==> i + 1 < |user| && IndexOf(user[i + 1..], ':') == |user| - i - 1)
  }

  predicate IsLower(s: string) {
    forall i :: 0 <= i < |s| ==> !('A' <= s[i] <= 'Z')
  }

  /** Scheme and host are in lower case, user information is complete, and a port that is written is no default one. */
  predicate Canonical(address: string) {
    match CutOf(address)
    case Cut(scheme, user, host, _, _, _) =>
      && IsLower(scheme) && IsLower(host)
      && (user.Some? ==> CanonicalUser(user.value))
      && (var at := PortIndex(host); at.Some? ==> Required(host[at.value + 1..], scheme))
  }

  function Authority(user: Option<string>, host: string): string {
    (match user case Some(u) => u + "@" case None => "") + host
  }

  lemma LowerIs(s: string)
    ensures ToLower(s) == s <==> IsLower(s)
  {
    if !IsLower(s) {
      var i :| 0 <= i < |s| && 'A' <= s[i] <= 'Z';
      assert ToLower(s)[i] != s[i];
    } else {
      assert forall i :: 0 <= i < |s| ==> ToLower(s)[i] == s[i];
    }
  }

  lemma TakenWhole(address: string, c: char)
    ensures var (taken, left) := TakeFrom(address, c); address == left + taken
  {
  }

  /** The pieces of an absolute address make it up again. */
  lemma CutWhole(address: string)
    requires IsAbsolute(address)
    ensures var c := CutOf(address);
            address == c.scheme + "//" + (Authority(c.user, c.host) + c.path + c.query + c.hash)
  {
    hide SchemeLength, TakeFrom;
    var m := SchemeLength(address);
    var x := ExtractProtocol(address);
    assert address == address[..m] + ("//" + x.rest);
    TakenWhole(x.rest, '#');
    var a1 := TakeFrom(x.rest, '#').1;
    TakenWhole(a1, '?');
    var a2 := TakeFrom(a1, '?').1;
    TakenWhole(a2, '/');
    AuthorityWhole(TakeFrom(a2, '/').1);
    Assoc(address[..m], "//", x.rest);
  }

  lemma AuthorityWhole(authority: string)
    ensures var i := IndexOf(authority, '@');
            authority == if i < |authority| then Authority(Some(authority[..i]), authority[i + 1..])
                         else Authority(None, authority)
  {
    var i := IndexOf(authority, '@');
    hide IndexOf;
    if i < |authority| {
      SplitAt(authority, i);
    } else {
      Nothing(authority);
    }
  }

  lemma SplitAt(s: string, i: nat)
    requires i < |s|
    ensures s == s[..i] + [s[i]] + s[i + 1..]
  {
  }

  /** What the user information is printed as is never longer than it was, and the same only when it is canonical. */
  lemma UserPrinted(user: string)
    ensures var printed := UserInfo(UserOf(user).0, UserOf(user).1);
            |printed| <= |user| + 1 && (printed == user + "@" <==> CanonicalUser(user))
  {
    var i := IndexOf(user, ':');
    if i < |user| {
      var rest := user[i + 1..];
      var j := IndexOf(rest, ':');
      assert rest[..|rest|] == rest;
      assert user == user[..i] + ":" + rest;
      if j == |rest| && j > 0 && i > 0 {
        assert UserInfo(user[..i], rest) == user[..i] + ":" + rest + "@" by {
          Assoc(user[..i], ":", rest);
        }
      }
    }
  }

  lemma HostPrinted(host: string, protocol: string)
    ensures var printed := HostParts(host, protocol, NoLocation()).0;
            |printed| <= |host| &&
            (printed == host <==>
             IsLower(host) && (PortIndex(host).Some? ==> Required(host[PortIndex(host).value + 1..], protocol)))
  {
    hide Required;
    NoPortRequired(protocol);
    LowerIs(host);
  }

  lemma SameSum(a: string, b: string, c: string, d: string)
    requires |a| <= |c| && |b| <= |d|
    ensures a + b == c + d <==> a == c && b == d
  {
    if a + b == c + d {
      assert |a| == |c| && a == (a + b)[..|a|] && c == (c + d)[..|c|];
      assert b == (a + b)[|a|..] && d == (c + d)[|c|..];
    }
  }

  /** How the parts of the cut are parsed and printed. */
  lemma PrintedCut(address: string, location: Location)
    requires IsAbsolute(address) && AllDigits(location.port)
    ensures var c := CutOf(address);
            var user := UserOf(c.user.GetOr(""));
            Print(Parse(address, location)) ==
            var host := HostParts(c.host, ToLower(c.scheme), NoLocation()).0;
            ToLower(c.scheme) + "//" + (UserInfo(user.0, user.1) + host + c.path + c.query + c.hash)
  {
    hide HostParts, UserOf, UserInfo, SchemeLength;
    var c := CutOf(address);
    var u := Parse(address, location);
    ParsedIsShaped(address, location);
    PrintedForm(u);
  }

  /**
   * Printing what an absolute address parses to gives the address back exactly when it is canonical.
   */
  lemma PrintsBack(address: string, location: Location)
    requires IsAbsolute(address) && AllDigits(location.port)
    ensures Print(Parse(address, location)) == address <==> Canonical(address)
  {
    hide HostParts, UserOf, UserInfo, Print, Parse, CutOf, CanonicalUser, IsLower, ToLower, Authority, PortIndex,
      Required, IsAbsolute;
    var c := CutOf(address);
    var user := c.user.GetOr("");
    var info := UserInfo(UserOf(user).0, UserOf(user).1);
    var host := HostParts(c.host, ToLower(c.scheme), NoLocation()).0;
    CutWhole(address);
    PrintedCut(address, location);
    LowerIs(c.scheme);
    HostPrinted(c.host, ToLower(c.scheme));
    SameFrame(ToLower(c.scheme), c.scheme, info + host, Authority(c.user, c.host), c.path, c.query, c.hash);
    AuthorityPrinted(c.user, c.host, host);
  }

  lemma AuthorityPrinted(user: Option<string>, host: string, printed: string)
    requires |printed| <= |host|
    ensures var (username, password) := UserOf(user.GetOr(""));
            UserInfo(username, password) + printed == Authority(user, host) <==>
            (user.Some? ==> CanonicalUser(user.value)) && printed == host
  {
    hide UserOf, UserInfo, CanonicalUser;
    var info := UserInfo(UserOf(user.GetOr("")).0, UserOf(user.GetOr("")).1);
    match user
    case None =>
      NoUser();
      SameSum(info, printed, "", host);
    case Some(u) =>
      UserPrinted(u);
      SameSum(info, printed, u + "@", host);
  }

  lemma NoUser()
    ensures UserInfo(UserOf("").0, UserOf("").1) == ""
  {
  }

  lemma SameFrame(a: string, b: string, x: string, y: string, p: string, q: string, h: string)
    requires |a| == |b|
    ensures a + "//" + (x + p + q + h) == b + "//" + (y + p + q + h) <==> a == b && x == y
  {
    SameBefore(a, b, "//");
    SameBefore(x + p + q, y + p + q, h);
    SameBefore(x + p, y + p, q);
    SameBefore(x, y, p);
    var u, v := a + "//" + (x + p + q + h), b + "//" + (y + p + q + h);
    var n := |a| + 2;
    assert u[..n] == a + "//" && u[n..] == x + p + q + h;
    assert v[..n] == b + "//" && v[n..] == y + p + q + h;
  }

  lemma SameBefore(a: string, b: string, end: string)
    ensures a + end == b + end <==> a == b
  {
    if a + end == b + end {
      assert |a| == |b| && a == (a + end)[..|a|] && b == (b + end)[..|b|];
    }
  }
}
