/** The URL parser and printer on values. */
module Url {
  import opened Basics
  import opened Numerals
  import DotSegments

  // ---------------------------------------------------------------- small matchers

  predicate IsSchemeChar(c: char) {
    IsLetter(c) || IsDigit(c) || c == '+' || c == '.' || c == '-'
  }

  /** The length of the run of scheme characters `s` starts with. */
  function SchemeRun(s: string): (n: nat)
    ensures n <= |s|
  {
    if s == "" || !IsSchemeChar(s[0]) then 0 else 1 + SchemeRun(s[1..])
  }

  /** The place of the first `c`, or the length. */
  function IndexOf(s: string, c: char): (i: nat)
    ensures i <= |s| && (i < |s| ==> s[i] == c)
    ensures forall j :: 0 <= j < i ==> s[j] != c
  {
    if s == "" || s[0] == c then 0 else 1 + IndexOf(s[1..], c)
  }

  /** How many digits `s` ends in. */
  function TailDigits(s: string): (n: nat)
    ensures n <= |s|
    ensures AllDigits(s[|s| - n..])
    ensures n < |s| ==> !IsDigit(s[|s| - n - 1])
  {
    if s == "" || !IsDigit(s[|s| - 1]) then 0 else 1 + TailDigits(s[..|s| - 1])
  }

  /** Where `/:(\d+)$/` matches. */
  function PortIndex(s: string): (i: Option<nat>)
    ensures i.Some? ==> i.value + 1 < |s| && s[i.value] == ':' && AllDigits(s[i.value + 1..])
  {
    var n := TailDigits(s);
    if n > 0 && n < |s| && s[|s| - n - 1] == ':' then Some(|s| - n - 1) else None
  }

  /** `requires-port`: is this port one to write out for this protocol? */
  predicate Required(port: string, protocol: string)
    requires AllDigits(port)
  {
    var scheme := protocol[..IndexOf(protocol, ':')];
    var n := NumberOf(port);
    if n == 0 then false
    else if scheme == "http" || scheme == "ws" then n != 80
    else if scheme == "https" || scheme == "wss" then n != 443
    else if scheme == "ftp" then n != 21
    else if scheme == "gopher" then n != 70
    else if scheme == "file" then false
    else n != 0
  }

  // ---------------------------------------------------------------- data

  datatype Extracted = Extracted(protocol: string, slashes: bool, rest: string)

  /** What a relative address inherits from; except for the path, an absent property is like the empty string. */
  datatype Location = Location(slashes: bool, protocol: string, host: string, port: string, hostname: string,
                               pathname: Option<string>)

  datatype Parsed = Parsed(slashes: bool, protocol: string, username: string, password: string, host: string,
                           port: string, hostname: string, pathname: string, query: string, hash: string)

  // ---------------------------------------------------------------- the parser

  /** The length of the scheme an address starts with, its colon included; 0 when it has none. */
  function SchemeLength(address: string): (m: nat)
    ensures m <= |address|
  {
    var n := SchemeRun(address);
    if n > 0 && IsLetter(address[0]) && n < |address| && address[n] == ':' then n + 1 else 0
  }

  /** `/^([a-z][a-z0-9.+-]*:)?(\/\/)?([\S\s]*)/i`. */
  function ExtractProtocol(address: string): Extracted {
    var m := SchemeLength(address);
    var rest := address[m..];
    var slashes := "//" <= rest;
    Extracted(ToLower(address[..m]), slashes, if slashes then rest[2..] else rest)
  }

  /** A rule that takes everything from the first `c` on; what it leaves comes second. */
  function TakeFrom(address: string, c: char): (string, string) {
    var i := IndexOf(address, c);
    (address[i..], address[..i])
  }

  predicate IsLineEnd(c: char) {
    c == '\n' || c == '\r' || c == '\U{2028}' || c == '\U{2029}'
  }

  /** `/(.*)/` from the start: up to the first line end. */
  function FirstLine(s: string): string {
    if s == "" || IsLineEnd(s[0]) then "" else [s[0]] + FirstLine(s[1..])
  }

  /** The rule for a user: everything before the first `@`, which is dropped. */
  function TakeAuth(address: string): (string, string) {
    var i := IndexOf(address, '@');
    if i < |address| then (address[..i], address[i + 1..]) else ("", address)
  }

  /** The first two colon-separated parts of the user information. */
  function UserOf(auth: string): (string, string) {
    var i := IndexOf(auth, ':');
    if i == |auth| then (auth, "")
    else
      var rest := auth[i + 1..];
      (auth[..i], rest[..IndexOf(rest, ':')])
  }

  /** A value, or the one inherited. */
  function Or(value: string, inherited: string): string {
    if value != "" then value else inherited
  }

  function NoLocation(): Location {
    Location(false, "", "", "", "", None)
  }

  /** Host, port and host name from what is left of the address, a default port dropped. */
  function HostParts(address: string, protocol: string, inherit: Location): (string, string, string)
    requires AllDigits(inherit.port)
  {
    var host := ToLower(Or(address, inherit.host));
    var at := PortIndex(address);
    var port := Or(if at.Some? then address[at.value + 1..] else "", inherit.port);
    var hostname := ToLower(Or(if at.Some? then address[..at.value] else address, inherit.hostname));
    if Required(port, protocol) then (host, port, hostname) else (hostname, "", hostname)
  }

  /** The path, resolved against the location's where the address is relative. */
  function PathOf(path: string, relative: bool, location: Location): string {
    if relative && location.slashes && (path == "" || path[0] != '/') && (path != "" || location.pathname != Some(""))
    then DotSegments.Resolved(path, location.pathname.GetOr(""))
    else path
  }

  /** `new URL(address, location)`, the query left as text. */
  function Parse(address: string, location: Location): Parsed
    requires AllDigits(location.port)
  {
    var x := ExtractProtocol(address);
    var relative := x.protocol == "" && !x.slashes;
    var protocol := Or(x.protocol, location.protocol);
    var (hash, a1) := TakeFrom(x.rest, '#');
    var (query, a2) := TakeFrom(a1, '?');
    var (path, a3) := if x.slashes then TakeFrom(a2, '/') else (FirstLine(a2), "");
    var (auth, a4) := TakeAuth(a3);
    var (host, port, hostname) := HostParts(a4, protocol, if relative then location else NoLocation());
    var (username, password) := UserOf(auth);
    Parsed(x.slashes || (relative && location.slashes), protocol, username, password, host, port, hostname,
           PathOf(path, relative, location), query, hash)
  }

  // ---------------------------------------------------------------- the printer

  function WithColon(protocol: string): string {
    if protocol != "" && protocol[|protocol| - 1] != ':' then protocol + ":" else protocol
  }

  function UserInfo(username: string, password: string): string {
    if username == "" then "" else username + (if password == "" then "" else ":" + password) + "@"
  }

  function QueryText(query: string): string {
    if query != "" && query[0] != '?' then "?" + query else query
  }

  /** `toString`. */
  function Print(u: Parsed): string {
    WithColon(u.protocol) + (if u.slashes then "//" else "") + UserInfo(u.username, u.password)
    + (u.host + u.pathname) + QueryText(u.query) + u.hash
  }
}
