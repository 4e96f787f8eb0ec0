/** Printing and parsing absolute addresses. */
module UrlRoundTrip {
  import opened Basics
  import opened Numerals
  import opened Url

  // ---------------------------------------------------------------- the shape of what the parser returns

  predicate Lacks(s: string, c: char) {
    forall i :: 0 <= i < |s| ==> s[i] != c
  }

  predicate LacksAll(s: string, cs: string) {
    forall i :: 0 <= i < |cs| ==> Lacks(s, cs[i])
  }

  predicate IsScheme(protocol: string) {
    var n := |protocol| - 1;
    && n >= 1 && IsLetter(protocol[0]) && protocol[n] == ':'
    && (forall i :: 0 <= i < n ==> IsSchemeChar(protocol[i]))
    && ToLower(protocol) == protocol
  }

  /** A part that is absent or starts with its mark. */
  predicate Marked(s: string, mark: char) {
    s == "" || s[0] == mark
  }

  /** What every absolute address parses to. */
  predicate Shaped(u: Parsed) {
    && u.slashes && IsScheme(u.protocol)
    && LacksAll(u.username, "#?/@:") && LacksAll(u.password, "#?/@:")
    && LacksAll(u.host, "#?/") && ToLower(u.host) == u.host
    && AllDigits(u.port) && (u.port != "" ==> Required(u.port, u.protocol))
    && u.host == (if u.port == "" then u.hostname else u.hostname + ":" + u.port)
    && LacksAll(u.pathname, "#?") && Marked(u.pathname, '/')
    && Lacks(u.query, '#') && Marked(u.query, '?') && Marked(u.hash, '#')
  }

  /** Nothing is lost or read differently when the record is printed. */
  predicate Printable(u: Parsed) {
    && (u.username == "" ==> u.password == "" && Lacks(u.host, '@'))
    && (u.port == "" ==> PortIndex(u.hostname) == None)
  }

  // ---------------------------------------------------------------- cutting printed text

  lemma {:induction false} IndexPast(x: string, y: string, c: char)
    requires Lacks(x, c)
    ensures IndexOf(x + y, c) == |x| + IndexOf(y, c)
  {
    if x == "" {
      assert x + y == y;
    } else {
      assert (x + y)[0] == x[0] && (x + y)[1..] == x[1..] + y;
      IndexPast(x[1..], y, c);
    }
  }

  /** A rule finds the printed part again. */
  lemma TakeMarked(x: string, y: string, c: char)
    requires Lacks(x, c) && Marked(y, c)
    ensures TakeFrom(x + y, c) == (y, x)
  {
    IndexPast(x, y, c);
    assert (x + y)[|x|..] == y && (x + y)[..|x|] == x;
  }

  lemma {:induction false} SchemeFound(protocol: string, rest: string)
    requires IsScheme(protocol)
    ensures ExtractProtocol(protocol + "//" + rest) == Extracted(protocol, true, rest)
  {
    var n := |protocol| - 1;
    var address := protocol + "//" + rest;
    SchemeRunStops(address, n);
    assert address[..n + 1] == protocol && address[n + 1..] == "//" + rest;
    assert ("//" + rest)[2..] == rest;
  }

  lemma {:induction false} SchemeRunStops(s: string, n: nat)
    requires n < |s| && (forall i :: 0 <= i < n ==> IsSchemeChar(s[i])) && !IsSchemeChar(s[n])
    ensures SchemeRun(s) == n
  {
    if n > 0 {
      SchemeRunStops(s[1..], n - 1);
    }
  }

  lemma LacksConcat(x: string, y: string, c: char)
    ensures Lacks(x + y, c) <==> Lacks(x, c) && Lacks(y, c)
  {
    if Lacks(x + y, c) {
      assert forall i :: 0 <= i < |x| ==> (x + y)[i] == x[i];
      assert forall i :: 0 <= i < |y| ==> (x + y)[|x| + i] == y[i];
    }
  }

  lemma LacksEach(s: string, cs: string, k: nat)
    requires LacksAll(s, cs) && k < |cs|
    ensures Lacks(s, cs[k])
  {
  }

  /** What of the printed record comes before the path lacks the marks of the later parts. */
  lemma AuthorityLacks(u: Parsed)
    requires Shaped(u)
    ensures LacksAll(UserInfo(u.username, u.password) + u.host, "#?/")
  {
    var cs := "#?/";
    var user := UserInfo(u.username, u.password);
    forall k | 0 <= k < |cs|
      ensures Lacks(user + u.host, cs[k])
    {
      var c := cs[k];
      LacksEach(u.host, cs, k);
      assert cs[k] == "#?/@:"[k];
      LacksEach(u.username, "#?/@:", k);
      LacksEach(u.password, "#?/@:", k);
      UserLacks(u.username, u.password, c);
      LacksConcat(user, u.host, c);
    }
  }

  lemma UserLacks(username: string, password: string, c: char)
    requires Lacks(username, c) && Lacks(password, c) && c != ':' && c != '@'
    ensures Lacks(UserInfo(username, password), c)
  {
    var colon := if password == "" then "" else ":" + password;
    LacksConcat(":", password, c);
    LacksConcat(username, colon, c);
    LacksConcat(username + colon, "@", c);
  }

  /** Parsing printed text finds query, hash and path, and is left with the authority. */
  lemma PrintedParts(u: Parsed)
    requires Shaped(u)
    ensures var authority := UserInfo(u.username, u.password) + u.host;
            var rest := authority + u.pathname + u.query + u.hash;
            && ExtractProtocol(Print(u)) == Extracted(u.protocol, true, rest)
            && TakeFrom(rest, '#') == (u.hash, authority + u.pathname + u.query)
            && TakeFrom(authority + u.pathname + u.query, '?') == (u.query, authority + u.pathname)
            && TakeFrom(authority + u.pathname, '/') == (u.pathname, authority)
  {
    hide TakeFrom, ExtractProtocol, Lacks;
    var user := UserInfo(u.username, u.password);
    var authority := user + u.host;
    PrintedForm(u);
    SchemeFound(u.protocol, authority + u.pathname + u.query + u.hash);
    AuthorityLacks(u);
    LacksEach(authority, "#?/", 0);
    LacksEach(authority, "#?/", 1);
    LacksEach(authority, "#?/", 2);
    LacksEach(u.pathname, "#?", 0);
    LacksEach(u.pathname, "#?", 1);
    LacksConcat(authority, u.pathname, '#');
    LacksConcat(authority, u.pathname, '?');
    LacksConcat(authority + u.pathname, u.query, '#');
    TakeMarked(authority + u.pathname + u.query, u.hash, '#');
    TakeMarked(authority + u.pathname, u.query, '?');
    TakeMarked(authority, u.pathname, '/');
  }

  lemma PrintedForm(u: Parsed)
    requires Shaped(u)
    ensures var rest := UserInfo(u.username, u.password) + u.host + u.pathname + u.query + u.hash;
            Print(u) == u.protocol + "//" + rest
  {
    hide UserInfo;
    var user := UserInfo(u.username, u.password);
    assert WithColon(u.protocol) == u.protocol && QueryText(u.query) == u.query;
    Assoc(u.protocol + "//", user, u.host + u.pathname);
    Assoc(user, u.host, u.pathname);
    Assoc(u.protocol + "//", user + u.host + u.pathname, u.query);
    Assoc(u.protocol + "//", user + u.host + u.pathname + u.query, u.hash);
  }

  /** So the printed record is parsed as its authority is. */
  lemma Reparsed(u: Parsed, location: Location)
    requires Shaped(u) && AllDigits(location.port)
    ensures var (auth, address) := TakeAuth(UserInfo(u.username, u.password) + u.host);
            var (host, port, hostname) := HostParts(address, u.protocol, NoLocation());
            var (username, password) := UserOf(auth);
            Parse(Print(u), location) ==
            u.(username := username, password := password, host := host, port := port, hostname := hostname)
  {
    hide TakeFrom, ExtractProtocol, TakeAuth, HostParts, UserOf, UserInfo, Print;
    PrintedParts(u);
  }

  // ---------------------------------------------------------------- the authority

  /** The user information as it stands before the `@`. */
  function Auth(username: string, password: string): string {
    username + if password == "" then "" else ":" + password
  }

  lemma AuthFound(auth: string, host: string)
    requires Lacks(auth, '@')
    ensures TakeAuth(auth + "@" + host) == (auth, host)
  {
    var s := auth + "@" + host;
    Assoc(auth, "@", host);
    Head('@', host);
    IndexPast(auth, "@" + host, '@');
    assert s[..|auth|] == auth && s[|auth| + 1..] == host;
  }

  lemma NotIn(s: string, c: char)
    requires Lacks(s, c)
    ensures IndexOf(s, c) == |s|
  {
    Nothing(s);
    IndexPast(s, "", c);
  }

  lemma UserSplit(username: string, password: string)
    requires Lacks(username, ':') && Lacks(password, ':')
    ensures UserOf(Auth(username, password)) == (username, password)
  {
    var auth := Auth(username, password);
    NotIn(password, ':');
    assert password[..|password|] == password;
    if password == "" {
      Nothing(username);
      NotIn(username, ':');
    } else {
      Head(':', password);
      IndexPast(username, ":" + password, ':');
      assert auth[..|username|] == username && auth[|username| + 1..] == password;
    }
  }

  lemma UserFound(username: string, password: string, host: string)
    requires LacksAll(username, "#?/@:") && LacksAll(password, "#?/@:") && username != ""
    ensures var (auth, rest) := TakeAuth(UserInfo(username, password) + host);
            rest == host && UserOf(auth) == (username, password)
  {
    hide TakeAuth, UserOf, Lacks;
    LacksEach(username, "#?/@:", 3);
    LacksEach(password, "#?/@:", 3);
    LacksEach(username, "#?/@:", 4);
    LacksEach(password, "#?/@:", 4);
    ColonNoAt();
    LacksConcat(":", password, '@');
    LacksConcat(username, if password == "" then "" else ":" + password, '@');
    AuthFound(Auth(username, password), host);
    UserSplit(username, password);
  }

  lemma ColonNoAt()
    ensures Lacks(":", '@') && Lacks("", '@')
  {
  }

  lemma NoUserFound(host: string)
    requires Lacks(host, '@')
    ensures TakeAuth(host) == ("", host) && UserOf("") == ("", "")
  {
    Nothing(host);
    IndexPast(host, "", '@');
  }

  lemma {:induction false} TailOf(x: string, digits: string)
    requires AllDigits(digits) && x != "" && !IsDigit(x[|x| - 1])
    ensures TailDigits(x + digits) == |digits|
    decreases |digits|
  {
    if digits == "" {
      assert x + digits == x;
    } else {
      var k := |digits| - 1;
      assert (x + digits)[..|x| + k] == x + digits[..k];
      TailOf(x, digits[..k]);
    }
  }

  lemma PortFound(hostname: string, port: string)
    requires AllDigits(port) && port != ""
    ensures PortIndex(hostname + ":" + port) == Some(|hostname|)
  {
    TailOf(hostname + ":", port);
  }

  lemma NoPortRequired(protocol: string)
    ensures !Required("", protocol)
  {
  }

  lemma LowerParts(a: string, b: string)
    ensures ToLower(a + b) == ToLower(a) + ToLower(b)
  {
    hide LowerChar;
    var s := ToLower(a + b);
    assert forall i :: 0 <= i < |a| ==> s[i] == ToLower(a)[i];
    assert forall i :: 0 <= i < |b| ==> s[|a| + i] == ToLower(b)[i];
  }

  lemma HostFound(u: Parsed)
    requires Shaped(u) && (u.port == "" ==> PortIndex(u.hostname) == None)
    ensures HostParts(u.host, u.protocol, NoLocation()) == (u.host, u.port, u.hostname)
  {
    hide Required;
    NoPortRequired(u.protocol);
    if u.port != "" {
      PortFound(u.hostname, u.port);
      assert u.host[..|u.hostname|] == u.hostname && u.host[|u.hostname| + 1..] == u.port;
      LowerParts(u.hostname, ":" + u.port);
      Assoc(u.hostname, ":", u.port);
      assert ToLower(u.host)[..|u.hostname|] == u.host[..|u.hostname|];
    }
  }

  /** The host of a record only ever gets shorter where a port or a user is read out of it. */
  lemma HostShorter(address: string, protocol: string)
    ensures |HostParts(address, protocol, NoLocation()).0| <= |address|
    ensures |HostParts(address, protocol, NoLocation()).2| <= |address|
    ensures PortIndex(address).Some? ==> |HostParts(address, protocol, NoLocation()).2| < |address|
  {
    hide Required;
    NoPortRequired(protocol);
  }

  lemma SomeUserFound(host: string)
    requires !Lacks(host, '@')
    ensures |TakeAuth(host).1| < |host|
  {
    var i :| 0 <= i < |host| && host[i] == '@';
    assert IndexOf(host, '@') <= i;
  }

  // ---------------------------------------------------------------- round trips

  /** Parsing a printed record gives the record back exactly when it is printable. */
  lemma ParsePrinted(u: Parsed, location: Location)
    requires Shaped(u) && AllDigits(location.port)
    ensures Parse(Print(u), location) == u <==> Printable(u)
  {
    hide Parse, Print, HostParts, TakeAuth, UserOf, Required;
    Reparsed(u, location);
    var user := UserInfo(u.username, u.password);
    if u.username == "" {
      assert user == "" && user + u.host == u.host;
      if Lacks(u.host, '@') {
        NoUserFound(u.host);
        ParsePrintedHost(u);
      } else {
        SomeUserFound(u.host);
        HostShorter(TakeAuth(u.host).1, u.protocol);
      }
    } else {
      UserFound(u.username, u.password, u.host);
      ParsePrintedHost(u);
    }
  }

  lemma ParsePrintedHost(u: Parsed)
    requires Shaped(u)
    ensures HostParts(u.host, u.protocol, NoLocation()) == (u.host, u.port, u.hostname) <==>
            (u.port == "" ==> PortIndex(u.hostname) == None)
  {
    hide HostParts, Required;
    if u.port == "" && PortIndex(u.hostname).Some? {
      HostShorter(u.host, u.protocol);
    } else {
      HostFound(u);
    }
  }

  // ---------------------------------------------------------------- every absolute address is shaped

  lemma TakenLacks(address: string, c: char)
    ensures var (taken, left) := TakeFrom(address, c);
            Marked(taken, c) && Lacks(left, c) &&
            forall d: char :: Lacks(address, d) ==> Lacks(taken, d) && Lacks(left, d)
  {
  }

  lemma LowerLacks(s: string, c: char)
    requires Lacks(s, c) && !IsLetter(c)
    ensures Lacks(ToLower(s), c)
  {
  }

  lemma {:induction false} RunIsScheme(s: string)
    ensures forall i :: 0 <= i < SchemeRun(s) ==> IsSchemeChar(s[i])
  {
    if s != "" && IsSchemeChar(s[0]) {
      RunIsScheme(s[1..]);
      forall i | 0 <= i < SchemeRun(s)
        ensures IsSchemeChar(s[i])
      {
        assert i > 0 ==> s[i] == s[1..][i - 1];
      }
    }
  }

  lemma ExtractedIsScheme(address: string)
    requires ExtractProtocol(address).protocol != ""
    ensures IsScheme(ExtractProtocol(address).protocol)
  {
    var n := SchemeRun(address);
    RunIsScheme(address);
    LowerScheme(address[..n + 1], n);
  }

  lemma LowerScheme(s: string, n: nat)
    requires 1 <= n == |s| - 1 && IsLetter(s[0]) && s[n] == ':' && forall i :: 0 <= i < n ==> IsSchemeChar(s[i])
    ensures IsScheme(ToLower(s))
  {
    hide ToLower;
    LowerTwice(s);
    assert forall c: char :: IsSchemeChar(c) ==> IsSchemeChar(LowerChar(c));
  }

  lemma UserLacksMarks(auth: string, c: char)
    requires Lacks(auth, c)
    ensures Lacks(UserOf(auth).0, c) && Lacks(UserOf(auth).1, c)
    ensures Lacks(UserOf(auth).0, ':') && Lacks(UserOf(auth).1, ':')
  {
  }

  lemma AuthLacks(address: string)
    ensures var (auth, left) := TakeAuth(address);
            Lacks(auth, '@') && forall d: char :: Lacks(address, d) ==> Lacks(auth, d) && Lacks(left, d)
  {
  }

  /** Host parts fit together and keep clear of the marks the address lacks. */
  lemma HostShaped(address: string, protocol: string)
    requires LacksAll(address, "#?/")
    ensures var (host, port, hostname) := HostParts(address, protocol, NoLocation());
            && LacksAll(host, "#?/") && ToLower(host) == host && AllDigits(port)
            && (port != "" ==> Required(port, protocol))
            && host == (if port == "" then hostname else hostname + ":" + port)
  {
    hide Required, LacksAll, PortIndex;
    NoPortRequired(protocol);
    var at := PortIndex(address);
    LacksLower(address);
    if at.Some? {
      LacksAllPart(address, at.value);
      LacksLower(address[..at.value]);
      LowerAtPort(address);
    }
  }

  lemma LowerAtPort(address: string)
    requires PortIndex(address).Some?
    ensures var i := PortIndex(address).value;
            ToLower(address) == ToLower(address[..i]) + ":" + address[i + 1..]
  {
    var i := PortIndex(address).value;
    var name, port := address[..i], address[i + 1..];
    assert address == name + (":" + port);
    LowerParts(name, ":" + port);
    LowerPort(port);
    Assoc(ToLower(name), ":", port);
  }

  lemma LowerPort(port: string)
    requires AllDigits(port)
    ensures ToLower(":" + port) == ":" + port
  {
  }

  lemma LacksLower(s: string)
    requires LacksAll(s, "#?/")
    ensures LacksAll(ToLower(s), "#?/") && ToLower(ToLower(s)) == ToLower(s)
  {
    forall k | 0 <= k < |"#?/"|
      ensures Lacks(ToLower(s), "#?/"[k])
    {
      LacksEach(s, "#?/", k);
      LowerLacks(s, "#?/"[k]);
    }
  }

  lemma LacksAllPart(s: string, i: nat)
    requires LacksAll(s, "#?/") && i <= |s|
    ensures LacksAll(s[..i], "#?/")
  {
    forall k | 0 <= k < |"#?/"|
      ensures Lacks(s[..i], "#?/"[k])
    {
      LacksEach(s, "#?/", k);
    }
  }

  lemma Three(s: string)
    requires Lacks(s, '#') && Lacks(s, '?') && Lacks(s, '/')
    ensures LacksAll(s, "#?/")
  {
  }

  lemma Five(s: string)
    requires Lacks(s, '#') && Lacks(s, '?') && Lacks(s, '/') && Lacks(s, '@') && Lacks(s, ':')
    ensures LacksAll(s, "#?/@:")
  {
  }

  lemma UserShaped(auth: string)
    requires Lacks(auth, '#') && Lacks(auth, '?') && Lacks(auth, '/') && Lacks(auth, '@')
    ensures LacksAll(UserOf(auth).0, "#?/@:") && LacksAll(UserOf(auth).1, "#?/@:")
  {
    hide Lacks, UserOf;
    UserLacksMarks(auth, '#');
    UserLacksMarks(auth, '?');
    UserLacksMarks(auth, '/');
    UserLacksMarks(auth, '@');
    Five(UserOf(auth).0);
    Five(UserOf(auth).1);
  }

  predicate IsAbsolute(address: string) {
    ExtractProtocol(address).protocol != "" && ExtractProtocol(address).slashes
  }

  lemma ParsedIsShaped(address: string, location: Location)
    requires IsAbsolute(address) && AllDigits(location.port)
    ensures Shaped(Parse(address, location))
  {
    hide Lacks, TakeFrom, TakeAuth, UserOf, HostParts, ExtractProtocol, IsScheme, Marked, Required;
    var x := ExtractProtocol(address);
    ExtractedIsScheme(address);
    TakenLacks(x.rest, '#');
    var a1 := TakeFrom(x.rest, '#').1;
    TakenLacks(a1, '?');
    var a2 := TakeFrom(a1, '?').1;
    TakenLacks(a2, '/');
    var path, a3 := TakeFrom(a2, '/').0, TakeFrom(a2, '/').1;
    assert LacksAll(path, "#?");
    AuthLacks(a3);
    UserShaped(TakeAuth(a3).0);
    Three(TakeAuth(a3).1);
    HostShaped(TakeAuth(a3).1, x.protocol);
  }

  /**
   * Printing what an absolute address parses to, and parsing that again, gives the same parts exactly when they are
   * printable: it fails for a password or a second `@` without a user name, and for a host name that ends like a
   * port once the port itself was a default one and dropped.
   */
  lemma ReparseAddress(address: string, location: Location)
    requires IsAbsolute(address) && AllDigits(location.port)
    ensures var u := Parse(address, location);
            Parse(Print(u), location) == u <==> Printable(u)
  {
    ParsedIsShaped(address, location);
    ParsePrinted(Parse(address, location), location);
  }

  /** Such an address: a password without a user name, which the printer leaves out. */
  lemma PasswordAloneIsLost(location: Location)
    requires AllDigits(location.port)
    ensures var u := Parse("a://:p@h", location);
            IsAbsolute("a://:p@h") && !Printable(u) && Parse(Print(u), location) != u
  {
    hide *;
    PasswordExtracted();
    PasswordTaken();
    PasswordParsed(location);
    ReparseAddress("a://:p@h", location);
  }

  lemma PasswordExtracted()
    ensures ExtractProtocol("a://:p@h") == Extracted("a:", true, ":p@h") && IsAbsolute("a://:p@h")
  {
    assert "a://:p@h" == "a:" + "//" + ":p@h";
    assert IsScheme("a:");
    hide ExtractProtocol, IsScheme;
    SchemeFound("a:", ":p@h");
  }

  lemma PasswordTaken()
    ensures TakeFrom(":p@h", '#') == TakeFrom(":p@h", '?') == TakeFrom(":p@h", '/') == ("", ":p@h")
    ensures TakeAuth(":p@h") == (":p", "h") && UserOf(":p") == ("", "p")
  {
    TakenWhole(":p@h", '#');
    TakenWhole(":p@h", '?');
    TakenWhole(":p@h", '/');
    hide TakeFrom;
    var rest, auth := ":p@h", ":p";
    hide IndexOf;
    assert rest[2] == '@' && IndexOf(rest, '@') == 2;
    assert rest[..2] == auth && rest[3..] == "h";
    assert auth[0] == ':' && IndexOf(auth, ':') == 0;
    assert auth[..0] == "" && auth[1..] == "p";
    assert IndexOf("p", ':') == 1 && "p"[..1] == "p";
  }

  lemma PasswordParsed(location: Location)
    requires AllDigits(location.port) && ExtractProtocol("a://:p@h") == Extracted("a:", true, ":p@h")
    requires TakeFrom(":p@h", '#') == TakeFrom(":p@h", '?') == TakeFrom(":p@h", '/') == ("", ":p@h")
    requires TakeAuth(":p@h") == (":p", "h") && UserOf(":p") == ("", "p")
    ensures !Printable(Parse("a://:p@h", location))
  {
    hide ExtractProtocol, TakeFrom, TakeAuth, UserOf, HostParts, PathOf, Lacks, PortIndex;
  }

  lemma TakenWhole(s: string, c: char)
    requires Lacks(s, c)
    ensures TakeFrom(s, c) == ("", s)
  {
    Nothing(s);
    TakeMarked(s, "", c);
  }
}
