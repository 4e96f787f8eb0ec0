/** What an address parses to, by the pieces it is put together from. */
module UrlParts {
  import opened Basics
  import opened Numerals
  import opened Url
  import opened UrlRoundTrip
  import opened UrlObject
  import UrlCanonical
  import DotSegments

  // ---------------------------------------------------------------- schemes

  /** Section 3.1 of RFC 3986, with the colon, in either case. */
  predicate IsSchemeText(s: string) {
    var n := |s| - 1;
    && n >= 1 && s[n] == ':' && ('a' <= s[0] <= 'z' || 'A' <= s[0] <= 'Z')
    && forall i :: 0 <= i < n ==>
         'a' <= s[i] <= 'z' || 'A' <= s[i] <= 'Z' || '0' <= s[i] <= '9' || s[i] == '+' || s[i] == '-' || s[i] == '.'
  }

  /** No scheme stands in front. */
  predicate Schemeless(address: string) {
    forall n :: 0 <= n <= |address| ==> !IsSchemeText(address[..n])
  }

  lemma SchemeTextFound(scheme: string, rest: string)
    requires IsSchemeText(scheme)
    ensures SchemeLength(scheme + rest) == |scheme|
  {
    var n := |scheme| - 1;
    var address := scheme + rest;
    assert forall i :: 0 <= i <= n ==> address[i] == scheme[i];
    SchemeRunStops(address, n);
  }

  lemma {:induction false} SchemeRunIs(s: string)
    ensures var n := SchemeRun(s);
            (forall i :: 0 <= i < n ==> IsSchemeChar(s[i])) && (n < |s| ==> !IsSchemeChar(s[n]))
  {
    if s != "" && IsSchemeChar(s[0]) {
      SchemeRunIs(s[1..]);
    }
  }

  lemma NoSchemeFound(address: string)
    requires Schemeless(address)
    ensures SchemeLength(address) == 0
  {
    SchemeRunIs(address);
    var n := SchemeRun(address);
    if n < |address| {
      var s := address[..n + 1];
      assert forall i :: 0 <= i <= n ==> s[i] == address[i];
      assert !IsSchemeText(s);
    }
  }

  /** The ports that need not be written: RFC 9110, RFC 6455, RFC 1738. */
  const DEFAULT_PORTS := map["http" := 80, "https" := 443, "ws" := 80, "wss" := 443, "ftp" := 21, "gopher" := 70]

  /** Files have no port, nor does anything have the port 0. */
  predicate NeedsNoPort(scheme: string, port: nat) {
    port == 0 || scheme == "file" || (scheme in DEFAULT_PORTS && DEFAULT_PORTS[scheme] == port)
  }

  /** A port is kept unless the protocol needs none or this one goes without saying. */
  lemma RequiredIs(port: string, scheme: string, rest: string)
    requires AllDigits(port) && Lacks(scheme, ':') && (rest == "" || rest[0] == ':')
    ensures Required(port, scheme + rest) <==> !NeedsNoPort(scheme, NumberOf(port))
  {
    IndexPast(scheme, rest, ':');
    assert (scheme + rest)[..|scheme|] == scheme;
  }

  // ---------------------------------------------------------------- cutting

  lemma CutBehind(front: string, query: string, hash: string)
    requires Lacks(front, '#') && Lacks(front, '?')
    requires Marked(query, '?') && Lacks(query, '#') && Marked(hash, '#')
    ensures TakeFrom(front + query + hash, '#') == (hash, front + query)
    ensures TakeFrom(front + query, '?') == (query, front)
  {
    hide TakeFrom, Lacks;
    LacksConcat(front, query, '#');
    TakeMarked(front + query, hash, '#');
    TakeMarked(front, query, '?');
  }

  predicate EndsLine(c: char) {
    c in "\n\r\U{2028}\U{2029}"
  }

  predicate NoLineEnd(s: string) {
    forall i :: 0 <= i < |s| ==> !EndsLine(s[i])
  }

  lemma LineEndIs(c: char)
    ensures IsLineEnd(c) <==> EndsLine(c)
  {
    var ends := "\n\r\U{2028}\U{2029}";
    assert forall i :: 0 <= i < |ends| ==> IsLineEnd(ends[i]);
    assert ends[0] == '\n' && ends[1] == '\r' && ends[2] == '\U{2028}' && ends[3] == '\U{2029}';
  }

  lemma {:induction false} FirstLineIs(path: string, tail: string)
    requires NoLineEnd(path) && (tail == "" || EndsLine(tail[0]))
    ensures FirstLine(path + tail) == path
  {
    hide IsLineEnd, EndsLine;
    if path == "" {
      assert path + tail == tail;
      if tail != "" {
        LineEndIs(tail[0]);
      }
    } else {
      LineEndIs(path[0]);
      var s := path + tail;
      assert s[0] == path[0] && s[1..] == path[1..] + tail;
      FirstLineIs(path[1..], tail);
    }
  }

  /** What is left of an address without slashes is no host and no user. */
  lemma NothingLeft()
    ensures TakeAuth("") == ("", "") && UserOf("") == ("", "")
  {
  }

  // ---------------------------------------------------------------- relative addresses

  /** The path of a relative address against the location it is relative to. */
  function RfcPath(path: string, location: Location): string {
    DotSegments.RemoveDotSegments(DotSegments.MergePaths(location.pathname.GetOr(""), path), "")
  }

  /**
   * A path, what follows its first line end, a query and a fragment: the path is that of the address where it is
   * rooted or the location has no slashes, and empty where both paths are the empty string; else it is resolved as
   * RFC 3986 has it, exactly unless it climbs after leading dot segments, which needs a location whose path is not
   * rooted. All else but query and fragment comes from the location.
   */
  lemma RelativeParsed(path: string, tail: string, query: string, hash: string, location: Location)
    requires Schemeless(path + tail + query + hash) && !("//" <= path + tail + query + hash)
    requires NoLineEnd(path) && (tail == "" || EndsLine(tail[0])) && AllDigits(location.port)
    requires Lacks(path + tail, '#') && Lacks(path + tail, '?')
    requires Marked(query, '?') && Lacks(query, '#') && Marked(hash, '#')
    ensures var f := Constructed(path + tail + query + hash, location);
            && f.query == Text(query) && f.hash == hash && f.auth == f.username == f.password == ""
            && f.slashes == location.slashes && f.protocol == location.protocol
            && f.hostname == ToLower(location.hostname)
            && (if Required(location.port, location.protocol)
                then f.port == location.port && f.host == ToLower(location.host)
                else f.port == "" && f.host == f.hostname)
    ensures var f := Constructed(path + tail + query + hash, location);
            if !location.slashes || "/" <= path then f.pathname == path
            else if path == "" && location.pathname == Some("") then f.pathname == ""
            else f.pathname == RfcPath(path, location) <==>
                 !DotSegments.ClimbsAfterDots(DotSegments.Parts(path, location.pathname.GetOr("")))
    ensures location.pathname.GetOr("") == "" || location.pathname.value[0] == '/' ==>
              !DotSegments.ClimbsAfterDots(DotSegments.Parts(path, location.pathname.GetOr("")))
  {
    hide Lacks, TakeFrom, TakeAuth, UserOf, Required, SchemeLength;
    hide DotSegments.Resolved, DotSegments.RemoveDotSegments, DotSegments.MergePaths, DotSegments.ClimbsAfterDots;
    var address := path + tail + query + hash;
    hide ExtractProtocol, FirstLine, PortIndex;
    NothingInFront(address);
    CutBehind(path + tail, query, hash);
    FirstLineIs(path, tail);
    NothingLeft();
    NoPort("");
    hide Schemeless, Marked, NoLineEnd, EndsLine;
    ResolvedPath(path, location.pathname.GetOr(""));
  }

  lemma NothingInFront(address: string)
    requires Schemeless(address) && !("//" <= address)
    ensures ExtractProtocol(address) == Extracted("", false, address)
  {
    hide SchemeLength;
    NoSchemeFound(address);
    assert address[..0] == "" && address[0..] == address;
  }

  lemma NoPort(s: string)
    requires s == ""
    ensures PortIndex(s) == None
  {
  }

  lemma ResolvedPath(path: string, base: string)
    ensures DotSegments.Resolved(path, base) ==
              DotSegments.RemoveDotSegments(DotSegments.MergePaths(base, path), "") <==>
            !DotSegments.ClimbsAfterDots(DotSegments.Parts(path, base))
    ensures base == "" || base[0] == '/' ==> !DotSegments.ClimbsAfterDots(DotSegments.Parts(path, base))
  {
    DotSegments.ResolvedIsRfc(path, base);
    if base == "" || base[0] == '/' {
      DotSegments.RootedResolvedIsRfc(path, base);
    }
  }

  // ---------------------------------------------------------------- addresses with slashes

  /** The user's name, and the password between the first colon and the next. */
  lemma UserRead(username: string, password: string, more: string)
    requires Lacks(username, ':') && Lacks(password, ':') && (more == "" || more[0] == ':')
    ensures UserOf(username) == (username, "")
    ensures UserOf(username + ":" + (password + more)) == (username, password)
  {
    NotIn(username, ':');
    var user, rest := username + ":" + (password + more), password + more;
    Assoc(username, ":", rest);
    Head(':', rest);
    IndexPast(username, ":" + rest, ':');
    IndexPast(password, more, ':');
    assert user[..|username|] == username && user[|username| + 1..] == rest && rest[..|password|] == password;
  }

  /** A host name and a port, which is left out of both where it goes without saying. */
  lemma HostRead(name: string, port: string, protocol: string)
    requires AllDigits(port) && (port == "" ==> PortIndex(name) == None)
    ensures HostParts(WithPort(name, port), protocol, NoLocation()) ==
            (WithPort(ToLower(name), if Required(port, protocol) then port else ""),
             if Required(port, protocol) then port else "", ToLower(name))
  {
    hide Required, PortIndex, ToLower;
    var host := WithPort(name, port);
    NoPortRequired(protocol);
    LowerWithPort(name, port);
    if port != "" {
      PortFound(name, port);
      assert host[..|name|] == name && host[|name| + 1..] == port;
    }
    LowerNothing();
  }

  lemma LowerNothing()
    ensures ToLower("") == ""
  {
  }

  lemma SchemeSlashes(scheme: string, rest: string)
    requires scheme == "" || IsSchemeText(scheme)
    ensures ExtractProtocol(scheme + "//" + rest) == Extracted(ToLower(scheme), true, rest)
  {
    hide SchemeLength;
    var address := scheme + "//" + rest;
    Assoc(scheme, "//", rest);
    if scheme == "" {
      NoSlashScheme("//" + rest);
    } else {
      SchemeTextFound(scheme, "//" + rest);
    }
    hide ToLower;
    assert address[..|scheme|] == scheme && address[|scheme|..] == "//" + rest;
    assert ("//" + rest)[2..] == rest;
  }

  lemma NoSlashScheme(s: string)
    requires s != "" && s[0] == '/'
    ensures SchemeLength(s) == 0
  {
  }

  lemma AuthorityCut(user: Option<string>, host: string)
    requires user.Some? ==> Lacks(user.value, '@')
    requires user == None ==> Lacks(host, '@')
    ensures TakeAuth(UrlCanonical.Authority(user, host)) == (user.GetOr(""), host)
  {
    match user
    case None =>
      Nothing(host);
      NoUserFound(host);
    case Some(u) =>
      AuthFound(u, host);
  }

  /** An address with slashes, in pieces; the scheme may be missing. */
  datatype Pieces = Pieces(scheme: string, user: Option<string>, name: string, port: string, path: string,
                           query: string, hash: string)

  predicate AreUser(user: Option<string>, name: string) {
    if user.Some? then LacksAll(user.value, "#?/@") else Lacks(name, '@')
  }

  predicate IsHost(name: string, port: string) {
    LacksAll(name, "#?/") && AllDigits(port) && (port == "" ==> PortIndex(name) == None)
  }

  predicate IsPath(path: string) {
    LacksAll(path, "#?") && Marked(path, '/')
  }

  /** No piece holds the mark of another, and the marks are there. */
  predicate ArePieces(p: Pieces) {
    match p
    case Pieces(scheme, user, name, port, path, query, hash) =>
      && (scheme == "" || IsSchemeText(scheme)) && AreUser(user, name) && IsHost(name, port) && IsPath(path)
      && Marked(query, '?') && Lacks(query, '#') && Marked(hash, '#')
  }

  function AddressOf(p: Pieces): string {
    p.scheme + "//" + (UrlCanonical.Authority(p.user, WithPort(p.name, p.port)) + p.path + p.query + p.hash)
  }

  /** The protocol is the address's own, in lower case, or the location's. */
  function ProtocolOf(p: Pieces, location: Location): string {
    if p.scheme == "" then location.protocol else ToLower(p.scheme)
  }

  /** The port, unless it goes without saying. */
  function PortOf(p: Pieces, location: Location): string
    requires AllDigits(p.port)
  {
    if Required(p.port, ProtocolOf(p, location)) then p.port else ""
  }

  /** An address with slashes: all its parts are its own, scheme and host in lower case, but for a missing scheme. */
  lemma SlashedParsed(p: Pieces, location: Location)
    requires ArePieces(p) && AllDigits(location.port)
    ensures var user := UserOf(p.user.GetOr(""));
            Parse(AddressOf(p), location) ==
            Parsed(true, ProtocolOf(p, location), user.0, user.1,
                   WithPort(ToLower(p.name), PortOf(p, location)), PortOf(p, location), ToLower(p.name),
                   p.path, p.query, p.hash)
    ensures AuthOf(AddressOf(p)) == p.user.GetOr("")
  {
    hide TakeFrom, TakeAuth, UserOf, HostParts, ExtractProtocol, Required, ToLower, PortIndex, Lacks, IsSchemeText;
    match p
    case Pieces(scheme, user, name, port, path, query, hash) =>
      var authority := UrlCanonical.Authority(user, WithPort(name, port));
      SchemeSlashes(scheme, authority + path + query + hash);
      SlashedCut(user, name, port, path, query, hash);
      HostLacksAt(user, name, port);
      AuthorityCut(user, WithPort(name, port));
      HostRead(name, port, ProtocolOf(p, location));
      LowerEmpty(scheme);
  }

  lemma LowerEmpty(s: string)
    ensures ToLower(s) == "" <==> s == ""
  {
  }

  lemma HostLacksAt(user: Option<string>, name: string, port: string)
    requires AreUser(user, name) && AllDigits(port)
    ensures user.Some? ==> Lacks(user.value, '@')
    ensures user == None ==> Lacks(WithPort(name, port), '@')
  {
    if user.Some? {
      LacksEach(user.value, "#?/@", 3);
    }
    hide Lacks, LacksAll;
    DigitsLack(port, '@');
    LacksConcat(name, ":", '@');
    LacksConcat(name + ":", port, '@');
  }

  lemma DigitsLack(digits: string, c: char)
    requires AllDigits(digits) && !IsDigit(c)
    ensures Lacks(digits, c) && Lacks(":", if c == ':' then '@' else c)
  {
  }

  lemma AuthorityLacksMark(user: Option<string>, name: string, port: string, c: char)
    requires (user.Some? ==> Lacks(user.value, c)) && Lacks(name, c) && AllDigits(port)
    requires c == '#' || c == '?' || c == '/'
    ensures Lacks(UrlCanonical.Authority(user, WithPort(name, port)), c)
  {
    hide Lacks;
    DigitsLack(port, c);
    LacksConcat(name, ":", c);
    LacksConcat(name + ":", port, c);
    AtLacks(c);
    match user
    case None =>
      LacksConcat("", WithPort(name, port), c);
    case Some(u) =>
      LacksConcat(u, "@", c);
      LacksConcat(u + "@", WithPort(name, port), c);
  }

  lemma AtLacks(c: char)
    requires c != '@'
    ensures Lacks("@", c) && Lacks("", c)
  {
  }

  lemma SlashedCut(user: Option<string>, name: string, port: string, path: string, query: string, hash: string)
    requires AreUser(user, name) && IsHost(name, port) && IsPath(path)
    requires Marked(query, '?') && Lacks(query, '#') && Marked(hash, '#')
    ensures var authority := UrlCanonical.Authority(user, WithPort(name, port));
            && TakeFrom(authority + path + query + hash, '#') == (hash, authority + path + query)
            && TakeFrom(authority + path + query, '?') == (query, authority + path)
            && TakeFrom(authority + path, '/') == (path, authority)
  {
    hide TakeFrom, Lacks, Marked;
    var authority := UrlCanonical.Authority(user, WithPort(name, port));
    forall k | 0 <= k < 3
      ensures Lacks(authority, "#?/"[k])
    {
      LacksEach(name, "#?/", k);
      if user.Some? {
        LacksEach(user.value, "#?/@", k);
        assert "#?/@"[k] == "#?/"[k];
      }
      AuthorityLacksMark(user, name, port, "#?/"[k]);
    }
    assert "#?/"[0] == '#' && "#?/"[1] == '?' && "#?/"[2] == '/';
    LacksEach(path, "#?", 0);
    LacksEach(path, "#?", 1);
    LacksConcat(authority, path, '#');
    LacksConcat(authority, path, '?');
    CutBehind(authority + path, query, hash);
    TakeMarked(authority, path, '/');
  }

  /** A scheme without slashes: the rest is a path, and nothing but the scheme is left of the rest. */
  lemma OpaqueParsed(scheme: string, path: string, tail: string, query: string, hash: string, location: Location)
    requires IsSchemeText(scheme) && !("//" <= path + tail + query + hash)
    requires NoLineEnd(path) && (tail == "" || EndsLine(tail[0])) && AllDigits(location.port)
    requires Lacks(path + tail, '#') && Lacks(path + tail, '?')
    requires Marked(query, '?') && Lacks(query, '#') && Marked(hash, '#')
    ensures Parse(scheme + (path + tail + query + hash), location) ==
            Parsed(false, ToLower(scheme), "", "", "", "", "", path, query, hash)
  {
    hide Lacks, TakeFrom, TakeAuth, UserOf, SchemeLength, FirstLine, PortIndex, IsSchemeText;
    var rest := path + tail + query + hash;
    SchemeTextFound(scheme, rest);
    assert (scheme + rest)[..|scheme|] == scheme && (scheme + rest)[|scheme|..] == rest;
    SchemeIsSome(scheme);
    CutBehind(path + tail, query, hash);
    FirstLineIs(path, tail);
    NothingLeft();
    NoPort("");
    NoPortRequired(ToLower(scheme));
  }

  lemma SchemeIsSome(scheme: string)
    requires IsSchemeText(scheme)
    ensures scheme != ""
  {
  }

  // ---------------------------------------------------------------- setting and parsing

  /** The object that an address in pieces gives. */
  function ObjectOf(p: Pieces, location: Location): (f: Fields)
    requires AllDigits(location.port)
    ensures f.query.Text?
  {
    Constructed(AddressOf(p), location)
  }

  /** Changing the object of one address gives that of the other. */
  predicate SetsTo(p: Pieces, c: Change, q: Pieces, location: Location)
    requires AllDigits(location.port) && Admissible(c)
  {
    Changed(ObjectOf(p, location), c) == ObjectOf(q, location)
  }

  function Slashed(path: string): string {
    if path == "" || path[0] == '/' then path else "/" + path
  }

  lemma ObjectIs(p: Pieces, location: Location)
    requires ArePieces(p) && AllDigits(location.port)
    ensures var user, port := UserOf(p.user.GetOr("")), PortOf(p, location);
            var protocol, host := ProtocolOf(p, location), WithPort(ToLower(p.name), port);
            var f := Fields(true, protocol, p.user.GetOr(""), user.0, user.1, host, port, ToLower(p.name), p.path,
                            Text(p.query), p.hash, OriginOf(protocol, host), "");
            ObjectOf(p, location) == f.(href := HrefOf(f))
  {
    hide Parse, AuthOf, UserOf, AddressOf, ProtocolOf, PortOf, ArePieces, HrefOf;
    SlashedParsed(p, location);
  }

  /** Setting the path, a slash put in front if need be, is parsing the address with that path. */
  lemma SetPathIsParsed(p: Pieces, path: string, location: Location)
    requires ArePieces(p) && AllDigits(location.port) && IsPath(Slashed(path))
    ensures SetsTo(p, SetPathname(path), p.(path := Slashed(path)), location)
  {
    hide ToLower, UserOf, Required, PortIndex, Lacks, IsSchemeText, OriginOf, ObjectOf, UserInfo, QueryPart;
    ObjectIs(p, location);
    ObjectIs(p.(path := Slashed(path)), location);
    LowerObject(p, location);
  }

  lemma LowerObject(p: Pieces, location: Location)
    requires AllDigits(p.port)
    ensures ToLower(ToLower(p.name)) == ToLower(p.name)
    ensures var host := WithPort(ToLower(p.name), PortOf(p, location)); ToLower(host) == host
  {
    hide ToLower, Required, ProtocolOf;
    LowerTwice(p.name);
    LowerWithPort(ToLower(p.name), PortOf(p, location));
  }

  /** Setting the fragment is parsing the address with that fragment. */
  lemma SetHashIsParsed(p: Pieces, hash: string, location: Location)
    requires ArePieces(p) && AllDigits(location.port) && Marked(hash, '#')
    ensures SetsTo(p, SetOther(Hash, hash), p.(hash := hash), location)
  {
    hide ToLower, UserOf, Required, PortIndex, Lacks, IsSchemeText, OriginOf, ObjectOf, UserInfo, QueryPart;
    ObjectIs(p, location);
    ObjectIs(p.(hash := hash), location);
    LowerObject(p, location);
  }

  /** Setting the port is parsing the address with that port. */
  lemma SetPortIsParsed(p: Pieces, port: string, location: Location)
    requires ArePieces(p) && AllDigits(location.port) && IsHost(p.name, port)
    ensures SetsTo(p, SetPort(port), p.(port := port), location)
  {
    hide ToLower, UserOf, Required, PortIndex, Lacks, IsSchemeText, OriginOf, ObjectOf, UserInfo, QueryPart;
    ObjectIs(p, location);
    ObjectIs(p.(port := port), location);
    LowerObject(p.(port := port), location);
    NoPortRequired(ProtocolOf(p, location));
  }

  /** Setting the host name is parsing the address with that name. */
  lemma SetNameIsParsed(p: Pieces, name: string, location: Location)
    requires ArePieces(p) && AllDigits(location.port) && IsHost(name, p.port) && AreUser(p.user, name)
    ensures SetsTo(p, SetHostname(name), p.(name := name), location)
  {
    hide ToLower, UserOf, Required, PortIndex, Lacks, IsSchemeText, OriginOf, ObjectOf, UserInfo, QueryPart;
    ObjectIs(p, location);
    ObjectIs(p.(name := name), location);
    LowerObject(p.(name := name), location);
    LowerWithPort(name, PortOf(p, location));
  }

  /** Setting the host is parsing the address with it exactly when its port, if any, does not go without saying. */
  lemma SetHostIsParsed(p: Pieces, name: string, port: string, location: Location)
    requires ArePieces(p) && AllDigits(location.port) && IsHost(name, port) && AreUser(p.user, name)
    ensures SetsTo(p, SetHost(WithPort(name, port)), p.(name := name, port := port), location) <==>
            port == "" || Required(port, ProtocolOf(p, location))
  {
    hide ToLower, UserOf, Required, PortIndex, Lacks, IsSchemeText, OriginOf, ObjectOf, UserInfo, QueryPart;
    ObjectIs(p, location);
    ObjectIs(p.(name := name, port := port), location);
    LowerObject(p.(name := name, port := port), location);
    LowerWithPort(name, port);
    NoPortRequired(ProtocolOf(p, location));
    if port != "" {
      PortFound(name, port);
      assert WithPort(name, port)[..|name|] == name && WithPort(name, port)[|name| + 1..] == port;
    }
  }

  /**
   * Setting the protocol is parsing the address with that scheme exactly when both protocols keep its port or both
   * do not.
   */
  lemma SetProtocolIsParsed(p: Pieces, scheme: string, location: Location)
    requires ArePieces(p) && AllDigits(location.port) && IsSchemeText(scheme)
    ensures SetsTo(p, SetProtocol(scheme, false), p.(scheme := scheme), location) <==>
            (Required(p.port, ProtocolOf(p, location)) <==> Required(p.port, ToLower(scheme)))
  {
    hide ToLower, UserOf, Required, PortIndex, Lacks, OriginOf, ObjectOf, UserInfo, QueryPart;
    SchemeIsSome(scheme);
    hide IsSchemeText;
    ObjectIs(p, location);
    ObjectIs(p.(scheme := scheme), location);
    LowerObject(p, location);
    NoPortRequired(ProtocolOf(p, location));
    NoPortRequired(ToLower(scheme));
  }

  /** A query is taken over parsed, what is derived cannot be set, and all else takes the value, with a new address. */
  lemma SetTakes(f: Fields, c: Change)
    requires Coherent(f) && Admissible(c)
    ensures var g := Changed(f, c).(href := f.href);
            match c
            case SetQuery(query, parsed) =>
              g == f.(query := if query == Text("") || query.Object? then query else Object(parsed))
            case SetSlashes(slashes) => g == f.(slashes := slashes)
            case SetOther(part, value) =>
              (match part
               case Hash => g == f.(hash := value)
               case Auth => g == f.(auth := value)
               case Username => g == f.(username := value)
               case Password => g == f.(password := value)
               case Origin => Changed(f, c) == f
               case Href => Changed(f, c) == f)
            case _ => true
  {
    hide ToLower, UserInfo, WithColon, QueryPart, Required, PortIndex, OriginOf;
  }

  // ---------------------------------------------------------------- what is derived

  /** The origin is the address of the bare host, but "null" for files and where the protocol or the host is missing. */
  lemma OriginIsBareAddress(f: Fields)
    requires Coherent(f)
    ensures f.protocol == "" || f.host == "" || f.protocol == "file:" ==> f.origin == "null"
    ensures f.protocol != "" && f.protocol[|f.protocol| - 1] == ':' && f.host != "" && f.protocol != "file:" ==>
              f.origin ==
              HrefOf(Fields(true, f.protocol, "", "", "", f.host, f.port, f.hostname, "", Text(""), "", "", ""))
  {
    hide ToLower;
    Nothing(f.host);
    Nothing(f.protocol + "//" + f.host);
    Nothing(f.protocol + "//");
    assert UserInfo("", "") == "" && QueryPart(Text("")) == "";
    var bare := Fields(true, f.protocol, "", "", "", f.host, f.port, f.hostname, "", Text(""), "", "", "");
    assert f.protocol != "" && f.protocol[|f.protocol| - 1] == ':' ==> HrefOf(bare) == f.protocol + "//" + f.host;
  }

  /** The address has the colon and the question mark that a protocol or a query was set without. */
  lemma MarksAreAdded(f: Fields, s: string)
    requires IsQuery(f.query) && s != ""
    ensures s[|s| - 1] != ':' ==> HrefOf(f.(protocol := s)) == HrefOf(f.(protocol := s + ":"))
    ensures s[0] != '?' ==> HrefOf(f.(query := Text(s))) == HrefOf(f.(query := Text("?" + s)))
  {
    assert (s + ":")[|s|] == ':' && ("?" + s)[0] == '?';
    assert s[|s| - 1] != ':' ==> WithColon(s) == WithColon(s + ":");
    assert s[0] != '?' ==> QueryPart(Text(s)) == QueryPart(Text("?" + s));
    hide UserInfo, WithColon, QueryPart;
  }
}
