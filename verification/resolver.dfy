/** The resolving half of `xio_uri_to_ss` (lines 163-198 of
    src/kernel/xio/xio_kernel_utils.c) and its helper `priv_parse_ip_addr`
    (lines 51-81): validate the port, then resolve the host as a wildcard,
    an IPv4 literal or an IPv6 literal. */
module Resolver {
  import opened Text
  import opened Numerals
  import opened NetAddr
  import opened Tokenizer
  import Ipv4Text
  import Ipv6Text

  /** Lines 166-175: `strict_strtoul(port, 10, ...)` must accept the whole
      text as a decimal number, the value must be at most 0xFFFF, and it is
      stored through `htons`. */
  function ParsePort(s: string): (r: Option<Be16>)
    ensures r.Some? <==> 0 < |s| && AllDigits(s, 10) && Value(s, 10) <= MaxPort
    ensures r.Some? ==> Ntohs(r.value) == Value(s, 10)
  {
    if 0 < |s| && AllDigits(s, 10) && Value(s, 10) <= MaxPort then Some(Htons(Value(s, 10))) else None
  }

  /** Every port number survives being written in decimal and parsed. */
  lemma ParsePortDecimal(v: nat)
    requires v <= MaxPort
    ensures ParsePort(ToDigits(v, 10)) == Some(Htons(v))
    ensures Ntohs(ParsePort(ToDigits(v, 10)).value) == v
  {
  }

  /** Parsing a port depends only on its number: leading zeros are accepted. */
  lemma ParsePortLeadingZero(s: string)
    requires 0 < |s| && AllDigits(s, 10)
    ensures ParsePort("0" + s) == ParsePort(s)
  {
    var z := "0" + s;
    assert Value(z, 10) == Value(s, 10) by {
      LeadingZero(s);
    }
  }

  lemma {:induction false} LeadingZero(s: string)
    requires AllDigits(s, 10)
    ensures Value("0" + s, 10) == Value(s, 10)
    decreases |s|
  {
    if |s| > 0 {
      var z := "0" + s;
      assert z[..|z| - 1] == "0" + s[..|s| - 1];
      LeadingZero(s[..|s| - 1]);
    }
  }

  /** What a call returns (`ret`) and the address it leaves in `ss`. */
  datatype Outcome =
    | Returned(ret: int, ss: Option<Endpoint>)
    | Undefined(hazard: Hazard)   // the C code has undefined behaviour

  const Failed: Outcome := Returned(-1, None)

  /** Lines 51-81, `priv_parse_ip_addr(host, len, port, ss)`. `strnchr`
      examines only the first `len` characters of the host; `in4_pton` is
      given `len` as the source length, so its end pointer can reach the
      terminator only when `len` covers the host; `in6_pton` is given -1 and
      reads the whole host. */
  function ParseIpAddr(host: string, len: nat, port: Be16): (r: Outcome)
    ensures r.Returned? && (r.ret == -1 || r.ret == 0 || r.ret == 1)
    ensures r.ret == 0 <==> r.ss.Some? && r.ss.value.V4?
    ensures r.ret == 1 <==> r.ss.Some? && r.ss.value.V6?
    ensures r.ss.Some? ==> r.ss.value.port == port
    ensures r.ret == 0 ==> len >= |host| && Ipv4Text.Parse(host) == Some(r.ss.value.addr4)
    ensures r.ret == 1 ==> Ipv6Text.Parse(host) == Some(r.ss.value.addr16)
  {
    if OccursWithin(host, len, '.') then
      if len >= |host| then
        match Ipv4Text.Parse(host)
        case Some(a) => Returned(0, Some(V4(a, port)))
        case None => Failed
      else Failed
    else if OccursWithin(host, len, ':') then
      match Ipv6Text.Parse(host)
      case Some(a) => Returned(1, Some(V6(a, port)))
      case None => Failed
    else Failed
  }

  /** A wildcard host: empty, or starting with `*` (line 177). */
  predicate Wildcard(host: string)
  {
    |host| == 0 || host[0] == '*'
  }

  /** Lines 166-198, given what the scan copied out. */
  function Resolve(t: Tokens): (r: Outcome)
    ensures r.Returned? && (r.ret == 0 || r.ret == -1)
    ensures r.ret == 0 <==> r.ss.Some?
    ensures r.ss.Some? ==> ParsePort(t.port) == Some(r.ss.value.port)
    ensures r.ss.Some? && t.bracketed && Wildcard(t.host) ==> r.ss.value.V6?
  {
    match ParsePort(t.port)
    case None => Failed
    case Some(port) =>
      if Wildcard(t.host) then
        Returned(0, Some(if t.bracketed then V6(AnyAddr16, port) else V4(AnyAddr4, port)))
      else
        if ParseIpAddr(t.host, t.len, port).ret < 0 then Failed
        else Returned(0, ParseIpAddr(t.host, t.len, port).ss)
  }

  /** `xio_uri_to_ss(uri, ss)`, lines 89-199. */
  function UriToSs(uri: string): (r: Outcome)
    ensures r.Returned? ==> (r.ret == 0 || r.ret == -1) && (r.ret == 0 <==> r.ss.Some?)
    ensures r.Undefined? <==> Tokenize(uri).Hazardous?
    ensures r.Returned? && r.ss.Some? ==> Tokenize(uri).Scanned? && ParsePort(Tokenize(uri).tokens.port) == Some(r.ss.value.port)
  {
    match Tokenize(uri)
    case Malformed => Failed
    case Hazardous(h) => Undefined(h)
    case Scanned(t) => Resolve(t)
  }

  /** Lines 102-104: a URI without `://` is refused. */
  lemma NoSeparatorFails(uri: string)
    requires NoOccurrence(uri, "://", 0)
    ensures UriToSs(uri) == Failed
  {
    NoSeparatorIsMalformed(uri);
  }

  /** Lines 166-173: a port that is not a decimal number up to 65535 is
      refused whatever the host. */
  lemma BadPortFails(uri: string)
    requires Tokenize(uri).Scanned?
    requires var p := Tokenize(uri).tokens.port; |p| == 0 || !AllDigits(p, 10) || Value(p, 10) > MaxPort
    ensures UriToSs(uri) == Failed
  {
  }

  /** Lines 177-190: a wildcard host gives the unspecified address of the
      family the brackets chose, with the parsed port. */
  lemma WildcardResolves(uri: string)
    requires Tokenize(uri).Scanned? && Wildcard(Tokenize(uri).tokens.host)
    requires ParsePort(Tokenize(uri).tokens.port).Some?
    ensures var t := Tokenize(uri).tokens; var p := ParsePort(t.port).value;
      UriToSs(uri) == Returned(0, Some(if t.bracketed then V6(AnyAddr16, p) else V4(AnyAddr4, p)))
  {
  }

  /** Lines 56-66: a host with a dot among its first `len` characters is
      tried only as IPv4 and never falls back to IPv6, even when it is an
      IPv6 literal with an embedded dotted quad. */
  lemma DotMeansIpv4Only(host: string, len: nat, port: Be16)
    requires OccursWithin(host, len, '.')
    ensures ParseIpAddr(host, len, port).ss.Some? <==> len >= |host| && Ipv4Text.Parse(host).Some?
    ensures ParseIpAddr(host, len, port).ss.Some? ==> ParseIpAddr(host, len, port).ss.value == V4(Ipv4Text.Parse(host).value, port)
  {
  }

  /** Lines 67-78: a host without a dot but with a colon among its first
      `len` characters is tried only as IPv6, on the whole host. */
  lemma ColonMeansIpv6Only(host: string, len: nat, port: Be16)
    requires !OccursWithin(host, len, '.') && OccursWithin(host, len, ':')
    ensures ParseIpAddr(host, len, port).ss.Some? <==> Ipv6Text.Parse(host).Some?
    ensures ParseIpAddr(host, len, port).ss.Some? ==> ParseIpAddr(host, len, port).ss.value == V6(Ipv6Text.Parse(host).value, port)
  {
  }

  /** Line 80: a host with neither a dot nor a colon in its first `len`
      characters is not resolved, since no name lookup is done. */
  lemma NeitherFails(host: string, len: nat, port: Be16)
    requires !OccursWithin(host, len, '.') && !OccursWithin(host, len, ':')
    ensures ParseIpAddr(host, len, port) == Failed
  {
  }

  /** Lines 192-198: the helper's 1 for IPv6 is only tested for being
      negative, so the function returns 0 for both families. */
  lemma Ipv6ReturnsZero(uri: string)
    requires Tokenize(uri).Scanned? && !Wildcard(Tokenize(uri).tokens.host)
    requires var t := Tokenize(uri).tokens; ParsePort(t.port).Some? && ParseIpAddr(t.host, t.len, ParsePort(t.port).value).ret == 1
    ensures UriToSs(uri).ret == 0 && UriToSs(uri).ss.value.V6?
  {
  }
}
