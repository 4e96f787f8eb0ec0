/** The URL object: a constructor and a setter that keep the derived properties in step. */
module UrlObject {
  import opened Basics
  import opened Numerals
  import opened Url
  import opened UrlRoundTrip
  import QueryString

  /** The query is text, or the object a parser made of it. */
  datatype Query = Text(s: string) | Object(properties: seq<(string, string)>)

  datatype Fields = Fields(slashes: bool, protocol: string, auth: string, username: string, password: string,
                           host: string, port: string, hostname: string, pathname: string, query: Query,
                           hash: string, origin: string, href: string)

  /**
   * One call of `set`. What a query parser makes of a text is a parameter, since the caller may pass any parser;
   * `noSlashes` is the third argument when the protocol is set.
   */
  datatype Change =
    | SetQuery(query: Query, parsed: seq<(string, string)>)
    | SetPort(port: string)
    | SetHostname(hostname: string)
    | SetHost(host: string)
    | SetProtocol(protocol: string, noSlashes: bool)
    | SetPathname(pathname: string)
    | SetSlashes(slashes: bool)
    | SetOther(part: Property, value: string)

  /** The properties of text that the default branch assigns. */
  datatype Property = Hash | Auth | Username | Password | Origin | Href

  predicate IsQuery(q: Query) {
    q.Object? ==> QueryString.IsObject(q.properties)
  }

  /** Ports are digit strings and query objects are objects. */
  predicate Admissible(c: Change) {
    match c
    case SetQuery(query, parsed) => IsQuery(query) && QueryString.IsObject(parsed)
    case SetPort(port) => AllDigits(port)
    case _ => true
  }

  // ---------------------------------------------------------------- derived properties

  function OriginOf(protocol: string, host: string): string {
    if protocol != "" && host != "" && protocol != "file:" then protocol + "//" + host else "null"
  }

  function QueryPart(q: Query): string
    requires IsQuery(q)
  {
    QueryText(match q
              case Text(s) => s
              case Object(properties) => QueryString.Printed(properties, QueryString.NoPrefix))
  }

  /** `toString` of the object. */
  function HrefOf(f: Fields): string
    requires IsQuery(f.query)
  {
    WithColon(f.protocol) + (if f.slashes then "//" else "") + UserInfo(f.username, f.password)
    + (f.host + f.pathname) + QueryPart(f.query) + f.hash
  }

  function WithPort(hostname: string, port: string): string {
    if port == "" then hostname else hostname + ":" + port
  }

  /** What holds of every URL object between calls. */
  predicate Coherent(f: Fields) {
    && f.host == WithPort(f.hostname, f.port) && AllDigits(f.port)
    && ToLower(f.host) == f.host && ToLower(f.hostname) == f.hostname
    && f.origin == OriginOf(f.protocol, f.host)
    && IsQuery(f.query) && f.href == HrefOf(f)
  }

  // ---------------------------------------------------------------- construction

  /** The properties after `new URL(address, location)` with the query kept as text. */
  function Constructed(address: string, location: Location): Fields
    requires AllDigits(location.port)
  {
    var u := Parse(address, location);
    var f := Fields(u.slashes, u.protocol, AuthOf(address), u.username, u.password, u.host, u.port, u.hostname,
                    u.pathname, Text(u.query), u.hash, OriginOf(u.protocol, u.host), "");
    f.(href := HrefOf(f))
  }

  /** The object prints itself as the parsed address is printed. */
  lemma HrefIsPrinted(address: string, location: Location)
    requires AllDigits(location.port)
    ensures Constructed(address, location).href == Print(Parse(address, location))
  {
    hide Parse, AuthOf;
  }

  function AuthOf(address: string): string {
    var x := ExtractProtocol(address);
    var a2 := TakeFrom(TakeFrom(x.rest, '#').1, '?').1;
    TakeAuth(if x.slashes then TakeFrom(a2, '/').1 else "").0
  }

  predicate IsRelative(address: string) {
    ExtractProtocol(address).protocol == "" && !ExtractProtocol(address).slashes
  }

  /** A location whose host is its host name and port, in either case, or has no port that is kept. */
  predicate Fits(location: Location)
    requires AllDigits(location.port)
  {
    Required(location.port, location.protocol) ==>
      ToLower(location.host) == ToLower(WithPort(location.hostname, location.port))
  }

  /** A new object is coherent exactly when its address is not relative or the location fits. */
  lemma ConstructedCoherent(address: string, location: Location)
    requires AllDigits(location.port)
    ensures Coherent(Constructed(address, location)) <==> (IsRelative(address) ==> Fits(location))
  {
    hide TakeFrom, TakeAuth, UserOf, ExtractProtocol, Required, UserInfo, PathOf, WithColon;
    var x := ExtractProtocol(address);
    var a2 := TakeFrom(TakeFrom(x.rest, '#').1, '?').1;
    var a3 := if x.slashes then TakeFrom(a2, '/').1 else "";
    var a4 := TakeAuth(a3).1;
    var protocol := Or(x.protocol, location.protocol);
    if IsRelative(address) {
      NoAuth();
      InheritedHost(location);
    } else {
      OwnHost(a4, protocol);
    }
  }

  lemma NoAuth()
    ensures TakeAuth("") == ("", "")
  {
  }

  ghost predicate HostCoherent(parts: (string, string, string)) {
    && parts.0 == WithPort(parts.2, parts.1) && AllDigits(parts.1)
    && ToLower(parts.0) == parts.0 && ToLower(parts.2) == parts.2
  }

  lemma InheritedHost(location: Location)
    requires AllDigits(location.port)
    ensures HostCoherent(HostParts("", location.protocol, location)) <==> Fits(location)
  {
    hide Required, ToLower;
    LowerTwice(location.host);
    LowerTwice(location.hostname);
    NoPortRequired(location.protocol);
    LowerWithPort(location.hostname, location.port);
    assert PortIndex("") == None;
  }

  lemma LowerWithPort(hostname: string, port: string)
    requires AllDigits(port)
    ensures ToLower(WithPort(hostname, port)) == WithPort(ToLower(hostname), port)
  {
    hide ToLower;
    if port != "" {
      LowerParts(hostname, ":" + port);
      LowerPort(port);
      Assoc(hostname, ":", port);
      Assoc(ToLower(hostname), ":", port);
    }
  }

  lemma OwnHost(address: string, protocol: string)
    ensures HostCoherent(HostParts(address, protocol, NoLocation()))
  {
    hide Required, ToLower;
    LowerTwice(address);
    var at := PortIndex(address);
    if at.Some? {
      hide PortIndex;
      LowerTwice(address[..at.value]);
      LowerAtPort(address);
    } else {
      hide PortIndex;
      NoPortRequired(protocol);
    }
  }

  // ---------------------------------------------------------------- changes

  /** The switch of `set`, before the derived properties are computed again. */
  function Assigned(f: Fields, c: Change): Fields
    requires Admissible(c)
  {
    match c
    case SetQuery(query, parsed) =>
      f.(query := if query.Text? && query.s != "" then Object(parsed) else query)
    case SetPort(port) =>
      if !Required(port, f.protocol) then f.(port := "", host := f.hostname)
      else f.(port := port, host := f.hostname + ":" + port)
    case SetHostname(hostname) => f.(hostname := hostname, host := WithPort(hostname, f.port))
    case SetHost(host) =>
      var at := PortIndex(host);
      if at.Some? then f.(host := host, port := host[at.value + 1..], hostname := host[..at.value])
      else f.(host := host, port := "", hostname := host)
    case SetProtocol(protocol, noSlashes) => f.(protocol := ToLower(protocol), slashes := !noSlashes)
    case SetPathname(pathname) =>
      f.(pathname := if pathname != "" && pathname[0] != '/' then "/" + pathname else pathname)
    case SetSlashes(slashes) => f.(slashes := slashes)
    case SetOther(part, value) =>
      match part
      case Hash => f.(hash := value)
      case Auth => f.(auth := value)
      case Username => f.(username := value)
      case Password => f.(password := value)
      case Origin => f.(origin := value)
      case Href => f.(href := value)
  }

  /** Lower case, origin and address again. */
  function Derived(f: Fields): Fields
    requires IsQuery(f.query)
  {
    var g := f.(host := ToLower(f.host), hostname := ToLower(f.hostname));
    var h := g.(origin := OriginOf(g.protocol, g.host));
    h.(href := HrefOf(h))
  }

  function Changed(f: Fields, c: Change): Fields
    requires Admissible(c) && IsQuery(f.query)
  {
    Derived(Assigned(f, c))
  }

  lemma ChangedCoherent(f: Fields, c: Change)
    requires Coherent(f) && Admissible(c)
    ensures Coherent(Changed(f, c))
  {
    hide Required, ToLower, PortIndex, Assigned, Admissible, QueryPart, UserInfo, WithColon;
    var g := Assigned(f, c);
    AssignedLower(f, c);
    LowerTwice(g.host);
    LowerTwice(g.hostname);
  }

  lemma AssignedLower(f: Fields, c: Change)
    requires Coherent(f) && Admissible(c)
    ensures var g := Assigned(f, c);
            AllDigits(g.port) && IsQuery(g.query) && ToLower(g.host) == WithPort(ToLower(g.hostname), g.port)
  {
    hide Required, ToLower, HrefOf;
    AssignedHost(f, c);
    AssignedQuery(f, c);
    if c.SetHost? && PortIndex(c.host).Some? {
      LowerAtPort(c.host);
    } else {
      LowerWithPort(Assigned(f, c).hostname, Assigned(f, c).port);
    }
  }

  lemma AssignedHost(f: Fields, c: Change)
    requires Coherent(f) && Admissible(c)
    ensures var g := Assigned(f, c);
            AllDigits(g.port) &&
            ((c.SetHost? && PortIndex(c.host).Some?) || g.host == WithPort(g.hostname, g.port))
  {
    hide Required, ToLower, HrefOf;
    NoPortRequired(f.protocol);
  }

  /** The states of an object through a whole run of changes. */
  predicate IsRun(states: seq<Fields>, changes: seq<Change>) {
    && |states| == |changes| + 1
    && forall i :: 0 <= i < |changes| ==>
         Admissible(changes[i]) && IsQuery(states[i].query) && states[i + 1] == Changed(states[i], changes[i])
  }

  /** Whatever is set, in whatever order, a coherent object stays coherent. */
  lemma {:induction false} RunStaysCoherent(states: seq<Fields>, changes: seq<Change>, k: nat)
    requires IsRun(states, changes) && Coherent(states[0]) && k < |states|
    ensures Coherent(states[k])
  {
    hide Coherent, Changed, Admissible;
    if k > 0 {
      RunStaysCoherent(states, changes, k - 1);
      ChangedCoherent(states[k - 1], changes[k - 1]);
    }
  }

  // ---------------------------------------------------------------- the object

  class URL {
    var slashes: bool
    var protocol: string
    var auth: string
    var username: string
    var password: string
    var host: string
    var port: string
    var hostname: string
    var pathname: string
    var query: Query
    var hash: string
    var origin: string
    var href: string

    ghost function Now(): Fields
      reads this
    {
      Fields(slashes, protocol, auth, username, password, host, port, hostname, pathname, query, hash, origin, href)
    }

    /** Each rule assigns its property and shortens what is left of the address. */
    constructor (address: string, location: Location)
      requires AllDigits(location.port)
      ensures Now() == Constructed(address, location)
      ensures Coherent(Now()) <==> (IsRelative(address) ==> Fits(location))
    {
      var x := ExtractProtocol(address);
      var relative := x.protocol == "" && !x.slashes;
      slashes := x.slashes || (relative && location.slashes);
      protocol := Or(x.protocol, location.protocol);
      var left := x.rest;
      var cut := TakeFrom(left, '#');
      hash, left := cut.0, cut.1;
      cut := TakeFrom(left, '?');
      query, left := Text(cut.0), cut.1;
      cut := if x.slashes then TakeFrom(left, '/') else (FirstLine(left), "");
      pathname, left := PathOf(cut.0, relative, location), cut.1;
      cut := TakeAuth(left);
      auth, left := cut.0, cut.1;
      var parts := HostParts(left, Or(x.protocol, location.protocol), if relative then location else NoLocation());
      host, port, hostname := parts.0, parts.1, parts.2;
      var user := UserOf(cut.0);
      username, password := user.0, user.1;
      origin := OriginOf(Or(x.protocol, location.protocol), parts.0);
      href := "";
      new;
      href := HrefOf(Fields(slashes, protocol, auth, username, password, host, port, hostname, pathname, query, hash,
                            origin, href));
      ConstructedCoherent(address, location);
    }

    method AssignPort(value: string)
      requires AllDigits(value)
      modifies `port, `host
      ensures Now() == Assigned(old(Now()), SetPort(value))
    {
      hide Required;
      port := value;
      if !Required(value, protocol) {
        host := hostname;
        port := "";
      } else if value != "" {
        host := hostname + ":" + value;
      } else {
        NoPortRequired(protocol);
      }
    }

    method AssignHost(value: string)
      modifies `host, `port, `hostname
      ensures Now() == Assigned(old(Now()), SetHost(value))
    {
      hide PortIndex;
      host := value;
      var at := PortIndex(value);
      if at.Some? {
        port, hostname := value[at.value + 1..], value[..at.value];
      } else {
        hostname, port := value, "";
      }
    }

    method AssignOther(part: Property, value: string)
      modifies `hash, `auth, `username, `password, `origin, `href
      ensures Now() == Assigned(old(Now()), SetOther(part, value))
    {
      match part
      case Hash => hash := value;
      case Auth => auth := value;
      case Username => username := value;
      case Password => password := value;
      case Origin => origin := value;
      case Href => href := value;
    }

    /** The switch. */
    method Assign(c: Change)
      requires Admissible(c)
      modifies this
      ensures Now() == Assigned(old(Now()), c)
    {
      hide Required, PortIndex, ToLower;
      match c {
        case SetQuery(q, parsed) =>
          query := if q.Text? && q.s != "" then Object(parsed) else q;
        case SetPort(value) =>
          AssignPort(value);
        case SetHostname(value) =>
          hostname := value;
          host := if port != "" then value + ":" + port else value;
        case SetHost(value) =>
          AssignHost(value);
        case SetProtocol(value, noSlashes) =>
          protocol, slashes := ToLower(value), !noSlashes;
        case SetPathname(value) =>
          pathname := if value != "" && value[0] != '/' then "/" + value else value;
        case SetSlashes(value) =>
          slashes := value;
        case SetOther(part, value) =>
          AssignOther(part, value);
      }
    }

    /** `set`: the switch, then the lower case, the origin and the address again. */
    method Set(c: Change)
      requires Admissible(c) && IsQuery(query)
      modifies this
      ensures Now() == Changed(old(Now()), c)
      ensures Coherent(old(Now())) ==> Coherent(Now())
    {
      hide HrefOf, Coherent, ToLower, Assigned, OriginOf;
      ghost var before := Now();
      if Coherent(before) {
        ChangedCoherent(before, c);
      }
      AssignedQuery(before, c);
      Assign(c);
      host := ToLower(host);
      hostname := ToLower(hostname);
      origin := OriginOf(protocol, host);
      href := HrefOf(Fields(slashes, protocol, auth, username, password, host, port, hostname, pathname, query, hash,
                            origin, href));
    }
  }

  lemma AssignedQuery(f: Fields, c: Change)
    requires Admissible(c) && IsQuery(f.query)
    ensures IsQuery(Assigned(f, c).query)
  {
  }
}
