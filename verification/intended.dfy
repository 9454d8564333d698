/** `xio_uri_to_ss` as its comments and structure evidently intend, with the
    defects of src/kernel/xio/xio_kernel_utils.c lines 119-122, 156 and 192
    and the unchecked copies of lines 113, 118, 140, 153 and 159 corrected:
    the bracketed port runs up to the slash, the host is resolved on its
    own length, and every copy that would have a negative length or
    overrun its buffer is refused instead. The plain form and all the
    resolving are the ones of `Tokenizer` and `Resolver`. */
module Intended {
  import opened Text
  import opened Numerals
  import opened NetAddr
  import opened Tokenizer
  import opened Resolver
  import Ipv6Text
  import Uris

  /** Lines 106-123 corrected: the port is everything between `]:` and the
      first slash, and `len` stays the host length. */
  function Bracketed(uri: string, start: nat): (r: Tokenized)
    requires SchemeEnd(uri, start) && start + 3 < |uri| && uri[start + 3] == '['
    ensures !r.Hazardous?
    ensures r.Scanned? ==> |r.tokens.host| < HostCapacity && |r.tokens.port| < PortCapacity
    ensures r.Scanned? ==> '/' !in r.tokens.port && r.tokens.bracketed && r.tokens.len == |r.tokens.host|
  {
    match FindFrom(uri, "]:", start + 3)
    case None => Malformed
    case Some(close) =>
      assert "]:"[0] == ']' && uri[close + 0] == "]:"[0];
      var host := uri[start + 4..close];
      var port :=
        match IndexFrom(uri, '/', close + 2)
        case None => uri[close + 2..]
        case Some(slash) => uri[close + 2..slash];
      if |host| >= HostCapacity || |port| >= PortCapacity then Malformed
      else Scanned(Tokens(host, port, true, |host|))
  }

  /** Lines 101-161 corrected: whatever the as-written scan would copy
      with undefined behaviour is refused. */
  function Tokenize(uri: string): (r: Tokenized)
    ensures !r.Hazardous?
    ensures r.Scanned? ==> |r.tokens.host| < HostCapacity && |r.tokens.port| < PortCapacity
    ensures r.Scanned? ==> '/' !in r.tokens.port && r.tokens.len == |r.tokens.host|
  {
    match FindFrom(uri, "://", 0)
    case None => Malformed
    case Some(start) =>
      if start + 3 < |uri| && uri[start + 3] == '[' then Bracketed(uri, start)
      else
        match Plain(uri, start)
        case Hazardous(_) => Malformed
        case r => r
  }

  /** Lines 89-199 corrected. */
  function UriToSs(uri: string): (r: Outcome)
    ensures r.Returned? && (r.ret == 0 || r.ret == -1) && (r.ret == 0 <==> r.ss.Some?)
    ensures r.ss.Some? ==> Tokenize(uri).Scanned? && ParsePort(Tokenize(uri).tokens.port) == Some(r.ss.value.port)
  {
    match Tokenize(uri)
    case Scanned(t) => Resolve(t)
    case _ => Failed
  }

  /** The correction changes nothing where the as-written scan is defined
      and the host is bare: the two agree on every such URI, and a URI
      the as-written scan refuses is refused here too. */
  lemma AgreesOnPlain(uri: string)
    ensures Tokenizer.Tokenize(uri).Malformed? ==> Tokenize(uri).Malformed?
    ensures Tokenizer.Tokenize(uri).Scanned? && !Tokenizer.Tokenize(uri).tokens.bracketed ==>
      Tokenize(uri) == Tokenizer.Tokenize(uri) && UriToSs(uri) == Resolver.UriToSs(uri)
    ensures Tokenizer.Tokenize(uri).Hazardous? && Tokenizer.Tokenize(uri).hazard != NegativePortLength ==>
      UriToSs(uri) == Failed
  {
  }

  /** `scheme://[host]:port/res` hands the whole port and the host length
      to the resolver. */
  lemma BracketedResourceTokens(scheme: string, host: string, port: string, res: string)
    requires ':' !in scheme && ']' !in host && '/' !in port
    ensures var uri := scheme + "://[" + host + "]:" + port + "/" + res;
      && (|host| < HostCapacity && |port| < PortCapacity ==> Tokenize(uri) == Scanned(Tokens(host, port, true, |host|)))
      && (|host| >= HostCapacity || |port| >= PortCapacity ==> Tokenize(uri) == Malformed)
  {
    Uris.Regroup(scheme + "://[" + host + "]:", port, "/", res);
    Uris.BracketedLayout(scheme, host, port + "/" + res);
    SlashResult(scheme + "://[" + host + "]:" + port + "/" + res, |scheme|, host, port, res);
  }

  /** The outcome of the corrected lines 106-123 once `]:` and the slash
      are known. */
  lemma SlashOutcome(uri: string, start: nat, close: nat, slash: nat)
    requires FindFrom(uri, "://", 0) == Some(start) && start + 3 < |uri| && uri[start + 3] == '['
    requires FindFrom(uri, "]:", start + 3) == Some(close) && start + 4 <= close
    requires IndexFrom(uri, '/', close + 2) == Some(slash)
    ensures Tokenize(uri) ==
      if close - (start + 4) >= HostCapacity || slash - (close + 2) >= PortCapacity then Malformed
      else Scanned(Tokens(uri[start + 4..close], uri[close + 2..slash], true, close - (start + 4)))
  {
    assert SchemeEnd(uri, start);
    assert Tokenize(uri) == Bracketed(uri, start);
  }

  lemma SlashResult(uri: string, start: nat, host: string, port: string, res: string)
    requires Uris.BracketedFound(uri, start, host) && uri[start + 6 + |host|..] == port + "/" + res && '/' !in port
    ensures |host| < HostCapacity && |port| < PortCapacity ==> Tokenize(uri) == Scanned(Tokens(host, port, true, |host|))
    ensures |host| >= HostCapacity || |port| >= PortCapacity ==> Tokenize(uri) == Malformed
  {
    var close := start + 4 + |host|;
    Uris.SlashAt(uri, close + 2, port, res);
    SlashOutcome(uri, start, close, close + 2 + |port|);
  }

  /** The bracketed form with a resource resolves to the address and the
      port written, for every IPv6 address and port. */
  lemma BracketedIpv6Resource(scheme: string, g: seq<nat>, p: nat, res: string)
    requires ':' !in scheme && Ipv6Text.Groups(g) && p <= MaxPort
    ensures UriToSs(scheme + "://[" + Ipv6Text.FormatFull(g) + "]:" + ToDigits(p, 10) + "/" + res) ==
      Returned(0, Some(V6(Ipv6Text.ToBytes(g), Htons(p))))
  {
    var host, port := Ipv6Text.FormatFull(g), ToDigits(p, 10);
    Uris.Ipv6Host(g);
    Uris.DecimalPort(p);
    BracketedResourceTokens(scheme, host, port, res);
    ColonMeansIpv6Only(host, |host|, Htons(p));
    assert Resolve(Tokens(host, port, true, |host|)) == Returned(0, Some(V6(Ipv6Text.ToBytes(g), Htons(p))));
  }

  /** `]:` directly followed by `/` leaves an empty port, which is refused. */
  lemma EmptyBracketedPortFails(scheme: string, host: string, res: string)
    requires ':' !in scheme && ']' !in host
    ensures UriToSs(scheme + "://[" + host + "]:" + "/" + res) == Failed
  {
    BracketedResourceTokens(scheme, host, "", res);
    assert scheme + "://[" + host + "]:" + "" + "/" + res == scheme + "://[" + host + "]:" + "/" + res;
  }

  /** A URI with a resource but no port is refused. */
  lemma MissingPortFails(scheme: string, host: string, res: string)
    requires ':' !in scheme
    requires '/' !in host && ':' !in host && 0 < |host| && host[0] != '['
    ensures UriToSs(scheme + "://" + host + "/" + res) == Failed
  {
    Uris.MissingPortTokens(scheme, host, res);
    AgreesOnPlain(scheme + "://" + host + "/" + res);
  }

  /** A port or a host too long for its buffer is refused. */
  lemma LongFieldFails(scheme: string, host: string, port: string)
    requires ':' !in scheme && '/' !in host && '/' !in port && ':' !in port
    requires host == [] || host[0] != '['
    requires |port| >= PortCapacity || |host| >= HostCapacity
    ensures UriToSs(scheme + "://" + host + ":" + port) == Failed
  {
    Uris.PlainTokens(scheme, host, port);
    AgreesOnPlain(scheme + "://" + host + ":" + port);
  }

  /** The bracketed form without a resource is unchanged by the correction. */
  lemma BracketedAgrees(scheme: string, host: string, port: string)
    requires ':' !in scheme && ']' !in host && '/' !in port
    requires |host| < HostCapacity && |port| < PortCapacity
    ensures var uri := scheme + "://[" + host + "]:" + port;
      Tokenize(uri) == Tokenizer.Tokenize(uri) && UriToSs(uri) == Resolver.UriToSs(uri)
  {
    Uris.BracketedLayout(scheme, host, port);
    EndAgrees(scheme + "://[" + host + "]:" + port, |scheme|, host, port);
  }

  lemma EndAgrees(uri: string, start: nat, host: string, port: string)
    requires Uris.BracketedFound(uri, start, host) && uri[start + 6 + |host|..] == port && '/' !in port
    requires |host| < HostCapacity && |port| < PortCapacity
    ensures Tokenize(uri) == Tokenizer.Tokenize(uri) && UriToSs(uri) == Resolver.UriToSs(uri)
  {
    Uris.BracketedEndResult(uri, start, host, port);
    assert Tokenize(uri) == Scanned(Tokens(host, port, true, |host|));
  }

  /** `rdma://[fe80::1]:1234/resource` resolves to `fe80::1`, port 1234. */
  lemma LinkLocalResolves()
    ensures UriToSs("rdma://[fe80::1]:1234/resource") == Returned(0, Some(V6(LinkLocal, Htons(1234))))
  {
    var t := Tokens("fe80::1", "1234", true, 7);
    LinkLocalTokens();
    LinkLocalPort();
    LinkLocalHost(Htons(1234));
    assert !Wildcard(t.host);
    assert Resolve(t) == Returned(0, Some(V6(LinkLocal, Htons(1234))));
  }

  lemma LinkLocalTokens()
    ensures Tokenize("rdma://[fe80::1]:1234/resource") == Scanned(Tokens("fe80::1", "1234", true, 7))
  {
    assert "rdma://[fe80::1]:1234/resource" == "rdma" + "://[" + "fe80::1" + "]:" + "1234" + "/" + "resource";
    BracketedResourceTokens("rdma", "fe80::1", "1234", "resource");
  }

  /** `fe80::1`, a link-local address. */
  const LinkLocal: Addr16 := Ipv6Text.ToBytes([0xfe80, 0, 0, 0, 0, 0, 0, 1])

  lemma LinkLocalPort()
    ensures ParsePort("1234") == Some(Htons(1234))
  {
    assert AllDigits("1234", 10);
    assert "1234"[..3] == "123" && "123"[..2] == "12" && "12"[..1] == "1" && "1"[..0] == "";
    assert Value("1234", 10) == 1234;
  }

  lemma LinkLocalHost(port: Be16)
    ensures ParseIpAddr("fe80::1", 7, port) == Returned(1, Some(V6(LinkLocal, port)))
  {
    assert OccursWithin("fe80::1", 7, ':') by {
      assert "fe80::1"[4] == ':';
    }
    assert !OccursWithin("fe80::1", 7, '.');
    Ipv6Literal();
  }

  lemma Ipv6Literal()
    ensures Ipv6Text.Parse("fe80::1") == Some(LinkLocal)
  {
    var s := "fe80::1";
    DoubleColonAt();
    assert s[..4] == "fe80" && s[6..] == "1";
    GroupLiterals();
    var groups := [0xfe80] + Ipv6Text.Zeros(6) + [1];
    assert groups == [0xfe80, 0, 0, 0, 0, 0, 0, 1];
  }

  lemma DoubleColonAt()
    ensures FindFrom("fe80::1", "::", 0) == Some(4)
  {
    var s := "fe80::1";
    assert "::"[0] == ':' && "::"[1] == ':';
    assert OccursAt(s, "::", 4);
    forall k | 0 <= k < 4
      ensures !OccursAt(s, "::", k)
    {
      assert s[k] != ':';
    }
    FindFromIs(s, "::", 0, 4);
  }

  lemma GroupLiterals()
    ensures Split("fe80", ':') == ["fe80"] && Split("1", ':') == ["1"]
    ensures Ipv6Text.ParseGroups(["fe80"], false) == Some([0xfe80])
    ensures Ipv6Text.ParseGroups(["1"], true) == Some([1])
  {
    assert IndexFrom("fe80", ':', 0) == None;
    assert IndexFrom("1", ':', 0) == None;
    assert AllDigits("fe80", 16) && AllDigits("1", 16);
    assert "fe80"[..3] == "fe8" && "fe8"[..2] == "fe" && "fe"[..1] == "f" && "f"[..0] == "";
    assert "1"[..0] == "";
    assert Value("fe80", 16) == 0xfe80;
    assert Value("1", 16) == 1;
    assert Ipv6Text.ParseGroup("fe80") == Some(0xfe80);
    assert Ipv6Text.ParseGroup("1") == Some(1);
    assert ["fe80"][1..] == [] && ["1"][1..] == [];
    assert Ipv6Text.ParseGroups([], false) == Some([]) && Ipv6Text.ParseGroups([], true) == Some([]);
    assert [0xfe80] + [] == [0xfe80] && [1] + [] == [1];
  }
}
