/** A few example URIs for `xio_uri_to_ss`
    (src/kernel/xio/xio_kernel_utils.c, lines 89-199), each resolved by the
    model of the code as written. Each sample is split into its scan, its
    port and its host, so that no proof has to evaluate a whole URI. */
module Samples {
  import opened Text
  import opened Numerals
  import opened NetAddr
  import opened Tokenizer
  import opened Resolver
  import Ipv4Text
  import Uris

  /** `scheme://192.168.1.5:7174` is the IPv4 address 192.168.1.5, port 7174. */
  lemma Ipv4Sample()
    ensures UriToSs("scheme://192.168.1.5:7174") == Returned(0, Some(V4([192, 168, 1, 5], Htons(7174))))
  {
    Ipv4SampleTokens();
    Port7174();
    Quad192();
    DottedResolves("scheme://192.168.1.5:7174", Tokens("192.168.1.5", "7174", false, 11), Htons(7174));
  }

  lemma Ipv4SampleTokens()
    ensures Tokenize("scheme://192.168.1.5:7174") == Scanned(Tokens("192.168.1.5", "7174", false, 11))
  {
    assert "scheme://192.168.1.5:7174" == "scheme://" + "192.168.1.5" + ":" + "7174";
    SchemeTokens("192.168.1.5", "7174");
  }

  /** A host that is just `*`, followed by port 5555, is the IPv4 wildcard. */
  lemma StarSample()
    ensures UriToSs("scheme://*:5555") == Returned(0, Some(V4(AnyAddr4, Htons(5555))))
  {
    StarSampleTokens();
    Port5555();
    WildcardResolves("scheme://*:5555");
  }

  lemma StarSampleTokens()
    ensures Tokenize("scheme://*:5555") == Scanned(Tokens("*", "5555", false, 1))
  {
    assert "scheme://*:5555" == "scheme://" + "*" + ":" + "5555";
    SchemeTokens("*", "5555");
  }

  /** `scheme://:5555`, with an empty host, is the same wildcard. */
  lemma EmptyHostSample()
    ensures UriToSs("scheme://:5555") == Returned(0, Some(V4(AnyAddr4, Htons(5555))))
  {
    EmptyHostSampleTokens();
    Port5555();
    WildcardResolves("scheme://:5555");
  }

  lemma EmptyHostSampleTokens()
    ensures Tokenize("scheme://:5555") == Scanned(Tokens("", "5555", false, 0))
  {
    assert "scheme://:5555" == "scheme://" + "" + ":" + "5555";
    SchemeTokens("", "5555");
  }

  /** `192.168.1.5:7174` has no `://` and is refused. */
  lemma NoSeparatorSample()
    ensures UriToSs("192.168.1.5:7174") == Failed
  {
    var uri := "192.168.1.5:7174";
    assert '/' !in uri;
    SlashFree(uri);
    NoSeparatorFails(uri);
  }

  /** A string without a slash holds no `://`. */
  lemma SlashFree(s: string)
    requires '/' !in s
    ensures NoOccurrence(s, "://", 0)
  {
    forall k | 0 <= k <= |s|
      ensures !OccursAt(s, "://", k)
    {
      if k + 3 <= |s| {
        assert s[k + 1] in s;
        assert s[k + 1] != "://"[1];
      }
    }
  }

  /** `scheme://host:70000` is refused: the port exceeds 65535. */
  lemma LargePortSample()
    ensures UriToSs("scheme://host:70000") == Failed
  {
    LargePortSampleTokens();
    var p := "70000";
    assert p[..4] == "7000" && "7000"[..3] == "700" && "700"[..2] == "70" && "70"[..1] == "7" && "7"[..0] == "";
    assert Value(p, 10) == 70000;
    BadPortFails("scheme://host:70000");
  }

  lemma LargePortSampleTokens()
    ensures Tokenize("scheme://host:70000") == Scanned(Tokens("host", "70000", false, 4))
  {
    assert "scheme://host:70000" == "scheme://" + "host" + ":" + "70000";
    SchemeTokens("host", "70000");
  }

  /** `scheme://300.1.1.1:80` is refused: 300 is no octet, and a dotted
      host is never tried as IPv6. */
  lemma BadQuadSample()
    ensures UriToSs("scheme://300.1.1.1:80") == Failed
  {
    BadQuadSampleTokens();
    Port80();
    Quad300();
    DottedResolves("scheme://300.1.1.1:80", Tokens("300.1.1.1", "80", false, 9), Htons(80));
  }

  lemma BadQuadSampleTokens()
    ensures Tokenize("scheme://300.1.1.1:80") == Scanned(Tokens("300.1.1.1", "80", false, 9))
  {
    assert "scheme://300.1.1.1:80" == "scheme://" + "300.1.1.1" + ":" + "80";
    SchemeTokens("300.1.1.1", "80");
  }

  /** The scan of `scheme://host:port` for a short host and port. */
  lemma SchemeTokens(host: string, port: string)
    requires |host| < HostCapacity && |port| < PortCapacity
    requires '/' !in host && '/' !in port && ':' !in port
    requires host == [] || host[0] != '['
    ensures Tokenize("scheme://" + host + ":" + port) == Scanned(Tokens(host, port, false, |host|))
  {
    assert "scheme://" + host + ":" + port == "scheme" + "://" + host + ":" + port;
    Uris.PlainTokens("scheme", host, port);
  }

  lemma Port80()
    ensures ParsePort("80") == Some(Htons(80))
  {
    assert "80"[..1] == "8" && "8"[..0] == "";
    assert Value("80", 10) == 80;
  }

  lemma Port7174()
    ensures ParsePort("7174") == Some(Htons(7174))
  {
    assert "7174"[..3] == "717" && "717"[..2] == "71" && "71"[..1] == "7" && "7"[..0] == "";
    assert Value("7174", 10) == 7174;
  }

  lemma Port5555()
    ensures ParsePort("5555") == Some(Htons(5555))
  {
    assert "5555"[..3] == "555" && "555"[..2] == "55" && "55"[..1] == "5" && "5"[..0] == "";
    assert Value("5555", 10) == 5555;
  }

  /** A URI scanned to a dotted host that fills its length resolves to the
      address the host spells, and is refused when it spells none. */
  lemma DottedResolves(uri: string, t: Tokens, port: Be16)
    requires Tokenize(uri) == Scanned(t) && ParsePort(t.port) == Some(port)
    requires !Wildcard(t.host) && t.len == |t.host| && OccursWithin(t.host, t.len, '.')
    ensures UriToSs(uri) == match Ipv4Text.Parse(t.host)
      case Some(a) => Returned(0, Some(V4(a, port)))
      case None => Failed
  {
    DotMeansIpv4Only(t.host, t.len, port);
    Uris.ScannedResolves(uri, t);
  }

  /** Four fields joined by dots. */
  lemma QuadJoin(a: string, b: string, c: string, d: string)
    ensures Join([a, b, c, d], '.') == a + "." + b + "." + c + "." + d
  {
    assert [c, d][1..] == [d];
    assert Join([c, d], '.') == c + "." + d;
    assert [b, c, d][1..] == [c, d];
    assert Join([b, c, d], '.') == b + "." + (c + "." + d);
    assert [a, b, c, d][1..] == [b, c, d];
    assert Join([a, b, c, d], '.') == a + "." + (b + "." + (c + "." + d));
  }

  /** The dot-separated fields of a dotted host. */
  lemma QuadFields(a: string, b: string, c: string, d: string)
    requires '.' !in a && '.' !in b && '.' !in c && '.' !in d
    ensures Split(a + "." + b + "." + c + "." + d, '.') == [a, b, c, d]
  {
    QuadJoin(a, b, c, d);
    SplitJoin([a, b, c, d], '.');
  }

  /** A dotted host of four fields is the address its octets spell, or
      nothing when one of them is no octet. */
  lemma QuadParse(a: string, b: string, c: string, d: string)
    requires '.' !in a && '.' !in b && '.' !in c && '.' !in d
    ensures var r := Ipv4Text.Parse(a + "." + b + "." + c + "." + d);
      match (Ipv4Text.ParseOctet(a), Ipv4Text.ParseOctet(b), Ipv4Text.ParseOctet(c), Ipv4Text.ParseOctet(d))
      case (Some(x), Some(y), Some(z), Some(w)) => r == Some([x, y, z, w])
      case _ => r == None
  {
    QuadFields(a, b, c, d);
  }

  lemma Quad192()
    ensures Ipv4Text.Parse("192.168.1.5") == Some([192, 168, 1, 5])
    ensures OccursWithin("192.168.1.5", 11, '.')
  {
    assert "192.168.1.5"[3] == '.';
    assert "192.168.1.5" == "192" + "." + "168" + "." + "1" + "." + "5";
    assert "192"[..2] == "19" && "19"[..1] == "1" && "1"[..0] == "";
    assert "168"[..2] == "16" && "16"[..1] == "1";
    assert "5"[..0] == "";
    assert Ipv4Text.ParseOctet("192") == Some(192);
    assert Ipv4Text.ParseOctet("168") == Some(168);
    assert Ipv4Text.ParseOctet("1") == Some(1);
    assert Ipv4Text.ParseOctet("5") == Some(5);
    QuadParse("192", "168", "1", "5");
  }

  lemma Quad300()
    ensures Ipv4Text.Parse("300.1.1.1") == None
    ensures OccursWithin("300.1.1.1", 9, '.')
  {
    assert "300.1.1.1"[3] == '.';
    assert "300.1.1.1" == "300" + "." + "1" + "." + "1" + "." + "1";
    assert "300"[..2] == "30" && "30"[..1] == "3" && "3"[..0] == "";
    assert Value("300", 10) == 300;
    assert Ipv4Text.ParseOctet("300") == None;
    QuadParse("300", "1", "1", "1");
  }
}
