/** What `xio_uri_to_ss` (src/kernel/xio/xio_kernel_utils.c, lines 89-199)
    makes of URIs assembled from their parts: a scheme, `://`, a host that
    is bare or in brackets, `:`, a port, and optionally `/` and a resource.
    These lemmas connect the scan to the grammar a caller writes, and the
    resolver to the canonical address texts. */
module Uris {
  import opened Text
  import opened Numerals
  import opened NetAddr
  import opened Tokenizer
  import opened Resolver
  import Ipv4Text
  import Ipv6Text

  /** The characters of `scheme + sep + rest` when `scheme` has no colon. */
  lemma SchemeChars(scheme: string, sep: string, rest: string)
    requires ':' !in scheme
    ensures var uri := scheme + sep + rest;
      && (forall k :: 0 <= k < |scheme| ==> uri[k] != ':')
      && (forall k :: 0 <= k < |sep| ==> uri[|scheme| + k] == sep[k])
      && uri[|scheme| + |sep|..] == rest
  {
    var uri := scheme + sep + rest;
    forall k | 0 <= k < |scheme|
      ensures uri[k] != ':'
    {
      assert uri[k] == scheme[k] && scheme[k] in scheme;
    }
  }

  /** Concatenation regrouped to the right. */
  lemma Regroup(a: string, b: string, c: string, d: string)
    ensures a + b + c + d == a + (b + c + d)
  {
  }

  /** `strchr(uri + from, '/')` finds the slash after `port`. */
  lemma SlashAt(uri: string, from: nat, port: string, res: string)
    requires from <= |uri| && uri[from..] == port + "/" + res && '/' !in port
    ensures IndexFrom(uri, '/', from) == Some(from + |port|)
    ensures uri[from..from + |port|] == port
  {
    var tail := port + "/" + res;
    forall k | from <= k < from + |port|
      ensures uri[k] != '/'
    {
      assert uri[k] == tail[k - from] == port[k - from] && port[k - from] in port;
    }
    assert uri[from + |port|] == tail[|port|] == '/';
    IndexFromIs(uri, '/', from, from + |port|);
    assert uri[from..from + |port|] == tail[..|port|] == port;
  }

  /** `strchr(uri + from, '/')` finds nothing in a slash-free rest. */
  lemma NoSlash(uri: string, from: nat)
    requires from <= |uri| && '/' !in uri[from..]
    ensures IndexFrom(uri, '/', from) == None
  {
    forall k | from <= k < |uri|
      ensures uri[k] != '/'
    {
      assert uri[k] == uri[from..][k - from];
    }
  }

  /** Characters that avoid `c` in a slice avoid it in the whole. */
  lemma Avoids(s: string, from: nat, piece: string, c: char)
    requires from + |piece| <= |s| && s[from..from + |piece|] == piece && c !in piece
    ensures forall k :: from <= k < from + |piece| ==> s[k] != c
  {
    forall k | from <= k < from + |piece|
      ensures s[k] != c
    {
      assert s[k] == piece[k - from];
    }
  }

  // ---------------------------------------------------------------------
  // The bracketed form `scheme://[host]:port[/res]`. Each URI shape is
  // handled in three steps: its characters (`...Shape`), where the
  // searches of the scan stop on such characters (`...Found`), and what
  // the scan then produces (`...Result`).
  // ---------------------------------------------------------------------

  /** The characters of `scheme://[host]:` at the front of `uri`. */
  predicate BracketedShape(uri: string, start: nat, host: string)
  {
    var close := start + 4 + |host|;
    && close + 1 < |uri|
    && (forall k :: 0 <= k < start ==> uri[k] != ':')
    && uri[start] == ':' && uri[start + 1] == '/' && uri[start + 2] == '/' && uri[start + 3] == '['
    && (forall k :: start + 4 <= k < close ==> uri[k] != ']')
    && uri[close] == ']' && uri[close + 1] == ':'
    && uri[start + 4..close] == host
  }

  /** `strstr` finds `://` at `start`, a bracket follows, and `strstr`
      finds `]:` right after `host`. */
  predicate BracketedFound(uri: string, start: nat, host: string)
  {
    var close := start + 4 + |host|;
    && FindFrom(uri, "://", 0) == Some(start) && start + 3 < |uri| && uri[start + 3] == '['
    && FindFrom(uri, "]:", start + 3) == Some(close) && close + 2 <= |uri|
    && uri[start + 4..close] == host
  }

  lemma BracketedChars(scheme: string, host: string, tail: string)
    requires ':' !in scheme && ']' !in host
    ensures var uri := scheme + "://[" + host + "]:" + tail;
      BracketedShape(uri, |scheme|, host) && uri[|scheme| + 6 + |host|..] == tail
  {
    var uri := scheme + "://[" + host + "]:" + tail;
    var start := |scheme|;
    SchemeChars(scheme, "://[", host + "]:" + tail);
    assert uri == scheme + "://[" + (host + "]:" + tail);
    assert uri[start + 4..start + 4 + |host|] == host;
    Avoids(uri, start + 4, host, ']');
  }

  lemma BracketedSearches(uri: string, start: nat, host: string)
    requires BracketedShape(uri, start, host)
    ensures BracketedFound(uri, start, host)
  {
    assert OccursAt(uri, "://", start);
    FindAt(uri, "://", 0, start);
    assert OccursAt(uri, "]:", start + 4 + |host|);
    FindAt(uri, "]:", start + 3, start + 4 + |host|);
  }

  /** In `scheme://[host]:tail` the bracketed host is found whole when it
      holds no `]`, and what follows `]:` is `tail`. */
  lemma BracketedLayout(scheme: string, host: string, tail: string)
    requires ':' !in scheme && ']' !in host
    ensures var uri := scheme + "://[" + host + "]:" + tail;
      BracketedFound(uri, |scheme|, host) && uri[|scheme| + 6 + |host|..] == tail
  {
    BracketedChars(scheme, host, tail);
    BracketedSearches(scheme + "://[" + host + "]:" + tail, |scheme|, host);
  }

  /** The outcome of lines 106-118 once `]:` is known and no slash follows. */
  lemma BracketedEndOutcome(uri: string, start: nat, close: nat)
    requires FindFrom(uri, "://", 0) == Some(start) && start + 3 < |uri| && uri[start + 3] == '['
    requires FindFrom(uri, "]:", start + 3) == Some(close) && start + 4 <= close
    requires IndexFrom(uri, '/', close + 2) == None
    ensures Tokenize(uri) ==
      if close - (start + 4) >= HostCapacity then Hazardous(HostOverflow)
      else if |uri| - (close + 2) >= PortCapacity then Hazardous(PortOverflow)
      else Scanned(Tokens(uri[start + 4..close], uri[close + 2..], true, close - (start + 4)))
  {
    assert Tokenize(uri) == Bracketed(uri, start);
  }

  /** The outcome of lines 106-123 once `]:` and the slash are known. */
  lemma BracketedSlashOutcome(uri: string, start: nat, close: nat, slash: nat)
    requires FindFrom(uri, "://", 0) == Some(start) && start + 3 < |uri| && uri[start + 3] == '['
    requires FindFrom(uri, "]:", start + 3) == Some(close) && start + 4 <= close
    requires IndexFrom(uri, '/', close + 2) == Some(slash)
    ensures Tokenize(uri) ==
      if close - (start + 4) >= HostCapacity then Hazardous(HostOverflow)
      else if slash == close + 2 then Hazardous(NegativePortLength)
      else if slash - (close + 3) >= PortCapacity then Hazardous(PortOverflow)
      else Scanned(Tokens(uri[start + 4..close], uri[close + 2..slash - 1], true, slash - (close + 3)))
  {
    assert Tokenize(uri) == Bracketed(uri, start);
  }

  lemma BracketedEndResult(uri: string, start: nat, host: string, port: string)
    requires BracketedFound(uri, start, host) && uri[start + 6 + |host|..] == port && '/' !in port
    ensures |host| >= HostCapacity ==> Tokenize(uri) == Hazardous(HostOverflow)
    ensures |host| < HostCapacity && |port| >= PortCapacity ==> Tokenize(uri) == Hazardous(PortOverflow)
    ensures |host| < HostCapacity && |port| < PortCapacity ==> Tokenize(uri) == Scanned(Tokens(host, port, true, |host|))
  {
    NoSlash(uri, start + 6 + |host|);
    BracketedEndOutcome(uri, start, start + 4 + |host|);
  }

  lemma BracketedSlashResult(uri: string, start: nat, host: string, port: string, res: string)
    requires BracketedFound(uri, start, host) && uri[start + 6 + |host|..] == port + "/" + res && '/' !in port
    ensures |host| >= HostCapacity ==> Tokenize(uri) == Hazardous(HostOverflow)
    ensures |host| < HostCapacity && |port| == 0 ==> Tokenize(uri) == Hazardous(NegativePortLength)
    ensures |host| < HostCapacity && 0 < |port| && |port| - 1 >= PortCapacity ==> Tokenize(uri) == Hazardous(PortOverflow)
    ensures |host| < HostCapacity && 0 < |port| && |port| - 1 < PortCapacity ==>
      Tokenize(uri) == Scanned(Tokens(host, port[..|port| - 1], true, |port| - 1))
  {
    var close := start + 4 + |host|;
    var slash := close + 2 + |port|;
    SlashAt(uri, close + 2, port, res);
    if 0 < |port| {
      assert uri[close + 2..slash - 1] == uri[close + 2..slash][..|port| - 1];
    }
    BracketedSlashOutcome(uri, start, close, slash);
  }

  /** Lines 106-118 on `scheme://[host]:port`: the host and the whole port
      are copied, `len` is the host length, and each must fit its buffer. */
  lemma BracketedTokens(scheme: string, host: string, port: string)
    requires ':' !in scheme && ']' !in host && '/' !in port
    ensures var uri := scheme + "://[" + host + "]:" + port;
      && (|host| >= HostCapacity ==> Tokenize(uri) == Hazardous(HostOverflow))
      && (|host| < HostCapacity && |port| >= PortCapacity ==> Tokenize(uri) == Hazardous(PortOverflow))
      && (|host| < HostCapacity && |port| < PortCapacity ==> Tokenize(uri) == Scanned(Tokens(host, port, true, |host|)))
  {
    BracketedLayout(scheme, host, port);
    BracketedEndResult(scheme + "://[" + host + "]:" + port, |scheme|, host, port);
  }

  /** Lines 106-123 on `scheme://[host]:port/res`: the port copy stops one
      character short of the slash and `len` keeps that shortened length;
      an empty port makes the length -1. */
  lemma BracketedResourceTokens(scheme: string, host: string, port: string, res: string)
    requires ':' !in scheme && ']' !in host && '/' !in port
    ensures var uri := scheme + "://[" + host + "]:" + port + "/" + res;
      && (|host| >= HostCapacity ==> Tokenize(uri) == Hazardous(HostOverflow))
      && (|host| < HostCapacity && |port| == 0 ==> Tokenize(uri) == Hazardous(NegativePortLength))
      && (|host| < HostCapacity && 0 < |port| && |port| - 1 >= PortCapacity ==> Tokenize(uri) == Hazardous(PortOverflow))
      && (|host| < HostCapacity && 0 < |port| && |port| - 1 < PortCapacity ==>
            Tokenize(uri) == Scanned(Tokens(host, port[..|port| - 1], true, |port| - 1)))
  {
    Regroup(scheme + "://[" + host + "]:", port, "/", res);
    BracketedLayout(scheme, host, port + "/" + res);
    BracketedSlashResult(scheme + "://[" + host + "]:" + port + "/" + res, |scheme|, host, port, res);
  }

  // ---------------------------------------------------------------------
  // The plain form `scheme://host:port[/res]`.
  // ---------------------------------------------------------------------

  /** The characters of `scheme://host:tail` with a bare host. */
  lemma PlainChars(scheme: string, host: string, tail: string)
    requires ':' !in scheme && '/' !in host
    requires host == [] || host[0] != '['
    ensures var uri := scheme + "://" + host + ":" + tail;
      var start := |scheme|;
      var colon := start + 3 + |host|;
      && |uri| == colon + 1 + |tail|
      && (forall k :: 0 <= k < start ==> uri[k] != ':')
      && uri[start] == ':' && uri[start + 1] == '/' && uri[start + 2] == '/' && uri[start + 3] != '['
      && (forall k :: start + 3 <= k < colon ==> uri[k] != '/')
      && uri[colon] == ':'
      && uri[start + 3..colon] == host
      && uri[colon + 1..] == tail
  {
    var uri := scheme + "://" + host + ":" + tail;
    var start := |scheme|;
    SchemeChars(scheme, "://", host + ":" + tail);
    assert uri == scheme + "://" + (host + ":" + tail);
    assert uri[start + 3..start + 3 + |host|] == host;
    Avoids(uri, start + 3, host, '/');
  }

  /** The characters of `scheme://host:port` with a bare host. */
  predicate PlainEndShape(uri: string, start: nat, host: string, port: string)
  {
    var colon := start + 3 + |host|;
    && |uri| == colon + 1 + |port|
    && (forall k :: 0 <= k < start ==> uri[k] != ':')
    && uri[start] == ':' && uri[start + 1] == '/' && uri[start + 2] == '/' && uri[start + 3] != '['
    && (forall k :: start + 3 <= k < colon ==> uri[k] != '/')
    && uri[colon] == ':'
    && (forall k :: colon < k < |uri| ==> uri[k] != ':' && uri[k] != '/')
    && uri[start + 3..colon] == host && uri[colon + 1..] == port
  }

  /** The searches of lines 124-139 find no slash after `://` and the last
      colon right after `host`. */
  predicate PlainEndFound(uri: string, start: nat, host: string, port: string)
  {
    var colon := start + 3 + |host|;
    && FindFrom(uri, "://", 0) == Some(start) && (start + 3 < |uri| ==> uri[start + 3] != '[')
    && IndexFrom(uri, '/', start + 4) == None
    && LastBefore(uri, ':', 0, |uri|) == Some(colon)
    && uri[start + 3..colon] == host && uri[colon + 1..] == port
  }

  lemma PlainEndChars(scheme: string, host: string, port: string)
    requires ':' !in scheme && '/' !in host && '/' !in port && ':' !in port
    requires host == [] || host[0] != '['
    ensures PlainEndShape(scheme + "://" + host + ":" + port, |scheme|, host, port)
  {
    var uri := scheme + "://" + host + ":" + port;
    var colon := |scheme| + 3 + |host|;
    PlainChars(scheme, host, port);
    assert uri[colon + 1..colon + 1 + |port|] == port;
    Avoids(uri, colon + 1, port, ':');
    Avoids(uri, colon + 1, port, '/');
  }

  lemma PlainEndSearches(uri: string, start: nat, host: string, port: string)
    requires PlainEndShape(uri, start, host, port)
    ensures PlainEndFound(uri, start, host, port)
  {
    assert OccursAt(uri, "://", start);
    FindAt(uri, "://", 0, start);
    LastBeforeIs(uri, ':', 0, |uri|, start + 3 + |host|);
  }

  /** The outcome of lines 136-161 once the last colon is known and no
      slash follows `://`. */
  lemma PlainEndOutcome(uri: string, start: nat, colon: nat)
    requires FindFrom(uri, "://", 0) == Some(start) && (start + 3 < |uri| ==> uri[start + 3] != '[')
    requires IndexFrom(uri, '/', start + 4) == None
    requires LastBefore(uri, ':', 0, |uri|) == Some(colon) && start + 3 <= colon
    ensures Tokenize(uri) ==
      if |uri| - (colon + 1) >= PortCapacity then Hazardous(PortOverflow)
      else if colon - (start + 3) >= HostCapacity then Hazardous(HostOverflow)
      else Scanned(Tokens(uri[start + 3..colon], uri[colon + 1..], false, colon - (start + 3)))
  {
    assert Tokenize(uri) == Plain(uri, start);
  }

  lemma PlainEndResult(uri: string, start: nat, host: string, port: string)
    requires PlainEndFound(uri, start, host, port)
    ensures |port| >= PortCapacity ==> Tokenize(uri) == Hazardous(PortOverflow)
    ensures |port| < PortCapacity && |host| >= HostCapacity ==> Tokenize(uri) == Hazardous(HostOverflow)
    ensures |port| < PortCapacity && |host| < HostCapacity ==> Tokenize(uri) == Scanned(Tokens(host, port, false, |host|))
  {
    PlainEndOutcome(uri, start, start + 3 + |host|);
  }

  /** Lines 124-161 on `scheme://host:port` with a bare host: the port is
      what follows the last colon, the host what precedes it, so a bare
      host may itself hold colons. */
  lemma PlainTokens(scheme: string, host: string, port: string)
    requires ':' !in scheme && '/' !in host && '/' !in port && ':' !in port
    requires host == [] || host[0] != '['
    ensures var uri := scheme + "://" + host + ":" + port;
      && (|port| >= PortCapacity ==> Tokenize(uri) == Hazardous(PortOverflow))
      && (|port| < PortCapacity && |host| >= HostCapacity ==> Tokenize(uri) == Hazardous(HostOverflow))
      && (|port| < PortCapacity && |host| < HostCapacity ==> Tokenize(uri) == Scanned(Tokens(host, port, false, |host|)))
  {
    var uri := scheme + "://" + host + ":" + port;
    PlainEndChars(scheme, host, port);
    PlainEndSearches(uri, |scheme|, host, port);
    PlainEndResult(uri, |scheme|, host, port);
  }

  /** The characters of `scheme://host:port/res` with a bare host. */
  predicate PlainSlashShape(uri: string, start: nat, host: string, port: string)
  {
    var colon := start + 3 + |host|;
    var slash := colon + 1 + |port|;
    && slash < |uri|
    && (forall k :: 0 <= k < start ==> uri[k] != ':')
    && uri[start] == ':' && uri[start + 1] == '/' && uri[start + 2] == '/' && uri[start + 3] != '['
    && (forall k :: start + 3 <= k < colon ==> uri[k] != '/')
    && uri[colon] == ':'
    && (forall k :: colon < k < slash ==> uri[k] != ':' && uri[k] != '/')
    && uri[slash] == '/'
    && uri[start + 3..colon] == host && uri[colon + 1..slash] == port
  }

  /** The searches of lines 124-149 find `host` and `port` around a colon,
      with the port ending at the first slash after `://`. */
  predicate PlainSlashFound(uri: string, start: nat, host: string, port: string)
  {
    var colon := start + 3 + |host|;
    var slash := colon + 1 + |port|;
    && FindFrom(uri, "://", 0) == Some(start) && (start + 3 < |uri| ==> uri[start + 3] != '[')
    && IndexFrom(uri, '/', start + 4) == Some(slash)
    && LastBefore(uri, ':', 1, slash) == Some(colon)
    && uri[start + 3..colon] == host && uri[colon + 1..slash] == port
  }

  lemma PlainSlashChars(scheme: string, host: string, port: string, res: string)
    requires ':' !in scheme && '/' !in host && '/' !in port && ':' !in port
    requires host == [] || host[0] != '['
    ensures PlainSlashShape(scheme + "://" + host + ":" + port + "/" + res, |scheme|, host, port)
  {
    var uri := scheme + "://" + host + ":" + port + "/" + res;
    var colon := |scheme| + 3 + |host|;
    var slash := colon + 1 + |port|;
    Regroup(scheme + "://" + host + ":", port, "/", res);
    PlainChars(scheme, host, port + "/" + res);
    assert uri[colon + 1..slash] == port;
    Avoids(uri, colon + 1, port, ':');
    Avoids(uri, colon + 1, port, '/');
  }

  lemma PlainSlashSearches(uri: string, start: nat, host: string, port: string)
    requires PlainSlashShape(uri, start, host, port)
    ensures PlainSlashFound(uri, start, host, port)
  {
    var colon := start + 3 + |host|;
    var slash := colon + 1 + |port|;
    assert OccursAt(uri, "://", start);
    FindAt(uri, "://", 0, start);
    IndexFromIs(uri, '/', start + 4, slash);
    LastBeforeIs(uri, ':', 1, slash, colon);
  }

  /** The outcome of lines 141-161 once the slash and the colon are known. */
  lemma PlainSlashOutcome(uri: string, start: nat, slash: nat, colon: nat)
    requires FindFrom(uri, "://", 0) == Some(start) && (start + 3 < |uri| ==> uri[start + 3] != '[')
    requires IndexFrom(uri, '/', start + 4) == Some(slash)
    requires LastBefore(uri, ':', 1, slash) == Some(colon) && start + 3 <= colon
    ensures Tokenize(uri) ==
      if slash - (colon + 1) >= PortCapacity then Hazardous(PortOverflow)
      else if colon - (start + 3) >= HostCapacity then Hazardous(HostOverflow)
      else Scanned(Tokens(uri[start + 3..colon], uri[colon + 1..slash], false, colon - (start + 3)))
  {
    assert Tokenize(uri) == Plain(uri, start);
  }

  lemma PlainSlashResult(uri: string, start: nat, host: string, port: string)
    requires PlainSlashFound(uri, start, host, port)
    ensures |port| >= PortCapacity ==> Tokenize(uri) == Hazardous(PortOverflow)
    ensures |port| < PortCapacity && |host| >= HostCapacity ==> Tokenize(uri) == Hazardous(HostOverflow)
    ensures |port| < PortCapacity && |host| < HostCapacity ==> Tokenize(uri) == Scanned(Tokens(host, port, false, |host|))
  {
    var colon := start + 3 + |host|;
    PlainSlashOutcome(uri, start, colon + 1 + |port|, colon);
  }

  /** Lines 124-161 on `scheme://host:port/res`: the port lies between the
      last colon before the first slash and that slash. */
  lemma PlainResourceTokens(scheme: string, host: string, port: string, res: string)
    requires ':' !in scheme && '/' !in host && '/' !in port && ':' !in port
    requires host == [] || host[0] != '['
    ensures var uri := scheme + "://" + host + ":" + port + "/" + res;
      && (|port| >= PortCapacity ==> Tokenize(uri) == Hazardous(PortOverflow))
      && (|port| < PortCapacity && |host| >= HostCapacity ==> Tokenize(uri) == Hazardous(HostOverflow))
      && (|port| < PortCapacity && |host| < HostCapacity ==> Tokenize(uri) == Scanned(Tokens(host, port, false, |host|)))
  {
    var uri := scheme + "://" + host + ":" + port + "/" + res;
    PlainSlashChars(scheme, host, port, res);
    PlainSlashSearches(uri, |scheme|, host, port);
    PlainSlashResult(uri, |scheme|, host, port);
  }

  // ---------------------------------------------------------------------
  // A plain host followed by a resource but no port: `scheme://host/res`.
  // ---------------------------------------------------------------------

  /** The characters of `scheme://host/res`. */
  predicate MissingPortShape(uri: string, start: nat, host: string)
  {
    var slash := start + 3 + |host|;
    && slash < |uri|
    && (forall k :: 0 <= k < start ==> uri[k] != ':')
    && uri[start] == ':' && uri[start + 1] == '/' && uri[start + 2] == '/' && uri[start + 3] != '['
    && (forall k :: start + 3 <= k < slash ==> uri[k] != '/' && uri[k] != ':')
    && uri[slash] == '/'
  }

  /** The searches of lines 124-149 stop at the slash after `host` and, going
      back from it, at the scheme's colon unless that is the first character. */
  predicate MissingPortFound(uri: string, start: nat, host: string)
  {
    var slash := start + 3 + |host|;
    && FindFrom(uri, "://", 0) == Some(start) && start + 3 < |uri| && uri[start + 3] != '['
    && IndexFrom(uri, '/', start + 4) == Some(slash)
    && LastBefore(uri, ':', 1, slash) == (if 0 < start then Some(start) else None)
  }

  lemma MissingPortChars(scheme: string, host: string, res: string)
    requires ':' !in scheme && '/' !in host && ':' !in host
    requires 0 < |host| && host[0] != '['
    ensures MissingPortShape(scheme + "://" + host + "/" + res, |scheme|, host)
  {
    var uri := scheme + "://" + host + "/" + res;
    var start := |scheme|;
    SchemeChars(scheme, "://", host + "/" + res);
    assert uri == scheme + "://" + (host + "/" + res);
    assert uri[start + 3..start + 3 + |host|] == host;
    Avoids(uri, start + 3, host, '/');
    Avoids(uri, start + 3, host, ':');
  }

  lemma MissingPortSearches(uri: string, start: nat, host: string)
    requires MissingPortShape(uri, start, host) && 0 < |host|
    ensures MissingPortFound(uri, start, host)
  {
    var slash := start + 3 + |host|;
    assert OccursAt(uri, "://", start);
    FindAt(uri, "://", 0, start);
    IndexFromIs(uri, '/', start + 4, slash);
    if 0 < start {
      LastBeforeIs(uri, ':', 1, slash, start);
    }
  }

  /** The outcome of lines 141-156 when the colon found is the scheme's. */
  lemma MissingPortOutcome(uri: string, start: nat, slash: nat)
    requires FindFrom(uri, "://", 0) == Some(start) && start + 3 < |uri| && uri[start + 3] != '['
    requires IndexFrom(uri, '/', start + 4) == Some(slash)
    requires LastBefore(uri, ':', 1, slash) == Some(start)
    ensures Tokenize(uri) ==
      if slash - (start + 1) >= PortCapacity then Hazardous(PortOverflow) else Hazardous(NegativeHostLength)
  {
    assert Tokenize(uri) == Plain(uri, start);
  }

  lemma MissingPortResult(uri: string, start: nat, host: string)
    requires MissingPortFound(uri, start, host)
    ensures start == 0 ==> Tokenize(uri) == Malformed
    ensures 0 < start && |host| + 2 >= PortCapacity ==> Tokenize(uri) == Hazardous(PortOverflow)
    ensures 0 < start && |host| + 2 < PortCapacity ==> Tokenize(uri) == Hazardous(NegativeHostLength)
  {
    if 0 < start {
      MissingPortOutcome(uri, start, start + 3 + |host|);
    }
  }

  /** Lines 141-156 on `scheme://host/res` with no port: the colon found
      before the slash is the scheme's own, so the port copied is `//host`
      and the host length at line 156 is negative; with an empty scheme the
      colon is the first character, which the walk never examines. */
  lemma MissingPortTokens(scheme: string, host: string, res: string)
    requires ':' !in scheme && '/' !in host && ':' !in host
    requires 0 < |host| && host[0] != '['
    ensures var uri := scheme + "://" + host + "/" + res;
      && (|scheme| == 0 ==> Tokenize(uri) == Malformed)
      && (0 < |scheme| && |host| + 2 >= PortCapacity ==> Tokenize(uri) == Hazardous(PortOverflow))
      && (0 < |scheme| && |host| + 2 < PortCapacity ==> Tokenize(uri) == Hazardous(NegativeHostLength))
  {
    var uri := scheme + "://" + host + "/" + res;
    MissingPortChars(scheme, host, res);
    MissingPortSearches(uri, |scheme|, host);
    MissingPortResult(uri, |scheme|, host);
  }

  /** The decimal numeral of a port number is a port text the scan copies
      whole and the resolver accepts. */
  lemma DecimalPort(p: nat)
    requires p <= MaxPort
    ensures var s := ToDigits(p, 10);
      && 0 < |s| <= 5 && ':' !in s && '/' !in s && ']' !in s
      && ParsePort(s) == Some(Htons(p))
  {
    var s := ToDigits(p, 10);
    assert Pow(10, 5) == 100000;
    ToDigitsLength(p, 10, 5);
    DigitsAvoid(s, 10, ':');
    DigitsAvoid(s, 10, '/');
    DigitsAvoid(s, 10, ']');
    ParsePortDecimal(p);
  }

  /** The canonical text of an IPv4 address is a host the scan copies whole
      and `priv_parse_ip_addr` reads as IPv4 back to the same address. */
  lemma Ipv4Host(a: Addr4)
    ensures var s := Ipv4Text.Format(a);
      && 0 < |s| < HostCapacity && s[0] != '[' && s[0] != '*'
      && '/' !in s && ':' !in s && ']' !in s
      && OccursWithin(s, |s|, '.')
      && Ipv4Text.Parse(s) == Some(a)
  {
    var s := Ipv4Text.Format(a);
    DecimalDigitIsAscii(s[0]);
    var k :| 0 <= k < |s| && s[k] == '.';
    Ipv4Text.ParseFormat(a);
  }

  /** The full text of an IPv6 address is a host the scan copies whole and
      `priv_parse_ip_addr` reads as IPv6 back to the same address. */
  lemma Ipv6Host(g: seq<nat>)
    requires Ipv6Text.Groups(g)
    ensures var s := Ipv6Text.FormatFull(g);
      && 0 < |s| < HostCapacity && s[0] != '[' && s[0] != '*'
      && '/' !in s && '.' !in s && ']' !in s
      && !OccursWithin(s, |s|, '.') && OccursWithin(s, |s|, ':')
      && Ipv6Text.Parse(s) == Some(Ipv6Text.ToBytes(g))
  {
    var s := Ipv6Text.FormatFull(g);
    var k :| 0 <= k < |s| && s[k] == ':';
    Ipv6Text.ParseFormatFull(g);
  }

  /** The last step of every successful literal resolution: a scanned
      URI whose port is accepted and whose host is resolved. */
  lemma ResolvesTo(uri: string, t: Tokens, port: Be16, ep: Endpoint)
    requires Tokenize(uri) == Scanned(t) && ParsePort(t.port) == Some(port)
    requires !Wildcard(t.host) && ParseIpAddr(t.host, t.len, port).ss == Some(ep)
    ensures UriToSs(uri) == Returned(0, Some(ep))
  {
  }

  /** `scheme://a.b.c.d:port` resolves to that IPv4 address and port. */
  lemma PlainIpv4(scheme: string, a: Addr4, p: nat)
    requires ':' !in scheme && p <= MaxPort
    ensures UriToSs(scheme + "://" + Ipv4Text.Format(a) + ":" + ToDigits(p, 10)) == Returned(0, Some(V4(a, Htons(p))))
  {
    var host := Ipv4Text.Format(a);
    Ipv4Host(a);
    DecimalPort(p);
    PlainTokens(scheme, host, ToDigits(p, 10));
    DotMeansIpv4Only(host, |host|, Htons(p));
    ResolvesTo(scheme + "://" + host + ":" + ToDigits(p, 10), Tokens(host, ToDigits(p, 10), false, |host|), Htons(p), V4(a, Htons(p)));
  }

  /** `scheme://a.b.c.d:port/res` resolves the same: the resource is ignored. */
  lemma PlainIpv4Resource(scheme: string, a: Addr4, p: nat, res: string)
    requires ':' !in scheme && p <= MaxPort
    ensures UriToSs(scheme + "://" + Ipv4Text.Format(a) + ":" + ToDigits(p, 10) + "/" + res) == Returned(0, Some(V4(a, Htons(p))))
  {
    var host := Ipv4Text.Format(a);
    Ipv4Host(a);
    DecimalPort(p);
    PlainResourceTokens(scheme, host, ToDigits(p, 10), res);
    DotMeansIpv4Only(host, |host|, Htons(p));
    ResolvesTo(scheme + "://" + host + ":" + ToDigits(p, 10) + "/" + res, Tokens(host, ToDigits(p, 10), false, |host|), Htons(p), V4(a, Htons(p)));
  }

  /** An IPv6 literal needs no brackets: the port follows the last colon. */
  lemma PlainIpv6(scheme: string, g: seq<nat>, p: nat)
    requires ':' !in scheme && Ipv6Text.Groups(g) && p <= MaxPort
    ensures UriToSs(scheme + "://" + Ipv6Text.FormatFull(g) + ":" + ToDigits(p, 10)) ==
      Returned(0, Some(V6(Ipv6Text.ToBytes(g), Htons(p))))
  {
    var host := Ipv6Text.FormatFull(g);
    Ipv6Host(g);
    DecimalPort(p);
    PlainTokens(scheme, host, ToDigits(p, 10));
    ColonMeansIpv6Only(host, |host|, Htons(p));
    ResolvesTo(scheme + "://" + host + ":" + ToDigits(p, 10), Tokens(host, ToDigits(p, 10), false, |host|), Htons(p), V6(Ipv6Text.ToBytes(g), Htons(p)));
  }

  /** `scheme://[x:x:x:x:x:x:x:x]:port` resolves to that IPv6 address. */
  lemma BracketedIpv6(scheme: string, g: seq<nat>, p: nat)
    requires ':' !in scheme && Ipv6Text.Groups(g) && p <= MaxPort
    ensures UriToSs(scheme + "://[" + Ipv6Text.FormatFull(g) + "]:" + ToDigits(p, 10)) ==
      Returned(0, Some(V6(Ipv6Text.ToBytes(g), Htons(p))))
  {
    var host := Ipv6Text.FormatFull(g);
    Ipv6Host(g);
    DecimalPort(p);
    BracketedTokens(scheme, host, ToDigits(p, 10));
    ColonMeansIpv6Only(host, |host|, Htons(p));
    ResolvesTo(scheme + "://[" + host + "]:" + ToDigits(p, 10), Tokens(host, ToDigits(p, 10), true, |host|), Htons(p), V6(Ipv6Text.ToBytes(g), Htons(p)));
  }

  /** Brackets only choose the wildcard's family: a bracketed dotted quad
      still resolves to IPv4. */
  lemma BracketedIpv4(scheme: string, a: Addr4, p: nat)
    requires ':' !in scheme && p <= MaxPort
    ensures UriToSs(scheme + "://[" + Ipv4Text.Format(a) + "]:" + ToDigits(p, 10)) == Returned(0, Some(V4(a, Htons(p))))
  {
    var host := Ipv4Text.Format(a);
    Ipv4Host(a);
    DecimalPort(p);
    BracketedTokens(scheme, host, ToDigits(p, 10));
    DotMeansIpv4Only(host, |host|, Htons(p));
    ResolvesTo(scheme + "://[" + host + "]:" + ToDigits(p, 10), Tokens(host, ToDigits(p, 10), true, |host|), Htons(p), V4(a, Htons(p)));
  }

  /** A bare host that is empty or starts with `*` is the IPv4 wildcard. */
  lemma PlainWildcard(scheme: string, host: string, p: nat)
    requires ':' !in scheme && '/' !in host && |host| < HostCapacity && p <= MaxPort
    requires host == [] || host[0] == '*'
    ensures UriToSs(scheme + "://" + host + ":" + ToDigits(p, 10)) == Returned(0, Some(V4(AnyAddr4, Htons(p))))
  {
    DecimalPort(p);
    PlainTokens(scheme, host, ToDigits(p, 10));
  }

  /** A bracketed host that is empty or starts with `*` is the IPv6 wildcard. */
  lemma BracketedWildcard(scheme: string, host: string, p: nat)
    requires ':' !in scheme && ']' !in host && |host| < HostCapacity && p <= MaxPort
    requires host == [] || host[0] == '*'
    ensures UriToSs(scheme + "://[" + host + "]:" + ToDigits(p, 10)) == Returned(0, Some(V6(AnyAddr16, Htons(p))))
  {
    DecimalPort(p);
    BracketedTokens(scheme, host, ToDigits(p, 10));
  }

  /** With a resource after a bracketed host, the port that reaches the
      resolver has lost its last digit: when the first group is 0 the
      shortened length still covers a colon, and the address resolves
      with a tenth of the port written. */
  lemma BracketedResourceDropsDigit(scheme: string, g: seq<nat>, p: nat, res: string)
    requires ':' !in scheme && Ipv6Text.Groups(g) && g[0] == 0
    requires 100 <= p <= MaxPort
    ensures UriToSs(scheme + "://[" + Ipv6Text.FormatFull(g) + "]:" + ToDigits(p, 10) + "/" + res) ==
      Returned(0, Some(V6(Ipv6Text.ToBytes(g), Htons(p / 10))))
  {
    var host := Ipv6Text.FormatFull(g);
    var digits := ToDigits(p, 10);
    var kept := ToDigits(p / 10, 10);
    Ipv6Host(g);
    DecimalPort(p);
    DivMod(p, 10);
    assert digits == kept + [DigitChar(p % 10)];
    assert digits[..|digits| - 1] == kept;
    DivMod(p / 10, 10);
    assert |kept| >= 2;
    DecimalPort(p / 10);
    BracketedResourceTokens(scheme, host, digits, res);
    var fields := Ipv6Text.HexFields(g);
    assert fields[0] == "0";
    JoinHasSeparator(fields, ':');
    assert host[1] == ':';
    assert OccursWithin(host, |kept|, ':');
    assert !OccursWithin(host, |kept|, '.');
    ColonMeansIpv6Only(host, |kept|, Htons(p / 10));
    ResolvesTo(scheme + "://[" + host + "]:" + digits + "/" + res, Tokens(host, kept, true, |kept|), Htons(p / 10), V6(Ipv6Text.ToBytes(g), Htons(p / 10)));
  }

  /** The bracketed URI with a resource `rdma://[fe80::1]:1234/resource` is
      refused: the port copied is `123`, `len` is 3, and the first three
      characters `fe8` hold neither a dot nor a colon. */
  lemma StaleLengthRefuses()
    ensures UriToSs("rdma://[fe80::1]:1234/resource") == Failed
  {
    var t := Tokens("fe80::1", "123", true, 3);
    StaleLengthTokens();
    StaleLengthHost();
    ScannedResolves("rdma://[fe80::1]:1234/resource", t);
  }

  lemma StaleLengthHost()
    ensures Resolve(Tokens("fe80::1", "123", true, 3)) == Failed
  {
    var host := "fe80::1";
    forall k | 0 <= k < 3
      ensures host[k] != '.' && host[k] != ':'
    {
    }
    UnresolvedFails(Tokens(host, "123", true, 3));
  }

  /** Once scanned, the outcome is the resolver's. */
  lemma ScannedResolves(uri: string, t: Tokens)
    requires Tokenize(uri) == Scanned(t)
    ensures UriToSs(uri) == Resolve(t)
  {
  }

  /** A host that is no wildcard and has neither a dot nor a colon in its
      first `len` characters is refused, whatever the port. */
  lemma UnresolvedFails(t: Tokens)
    requires !Wildcard(t.host) && !OccursWithin(t.host, t.len, '.') && !OccursWithin(t.host, t.len, ':')
    ensures Resolve(t) == Failed
  {
  }

  lemma StaleLengthTokens()
    ensures Tokenize("rdma://[fe80::1]:1234/resource") == Scanned(Tokens("fe80::1", "123", true, 3))
  {
    assert "rdma://[fe80::1]:1234/resource" == "rdma" + "://[" + "fe80::1" + "]:" + "1234" + "/" + "resource";
    BracketedResourceTokens("rdma", "fe80::1", "1234", "resource");
    assert "1234"[..3] == "123";
  }

  /** `]:` directly followed by `/` is undefined behaviour (line 120). */
  lemma EmptyBracketedPortUndefined(scheme: string, host: string, res: string)
    requires ':' !in scheme && ']' !in host && |host| < HostCapacity
    ensures UriToSs(scheme + "://[" + host + "]:" + "/" + res) == Undefined(NegativePortLength)
  {
    BracketedResourceTokens(scheme, host, "", res);
    assert scheme + "://[" + host + "]:" + "" + "/" + res == scheme + "://[" + host + "]:" + "/" + res;
  }

  /** A URI with a resource but no port is undefined behaviour (line 156). */
  lemma MissingPortUndefined(scheme: string, host: string, res: string)
    requires ':' !in scheme && 0 < |scheme|
    requires '/' !in host && ':' !in host && 0 < |host| && host[0] != '['
    ensures UriToSs(scheme + "://" + host + "/" + res).Undefined?
  {
    MissingPortTokens(scheme, host, res);
  }

  /** A port of 32 characters or more overruns `port` (line 140). */
  lemma LongPortUndefined(scheme: string, host: string, port: string)
    requires ':' !in scheme && '/' !in host && '/' !in port && ':' !in port
    requires host == [] || host[0] != '['
    requires |port| >= PortCapacity
    ensures UriToSs(scheme + "://" + host + ":" + port) == Undefined(PortOverflow)
  {
    PlainTokens(scheme, host, port);
  }

  /** A host of 1025 characters or more overruns `host` (line 159). */
  lemma LongHostUndefined(scheme: string, host: string, port: string)
    requires ':' !in scheme && '/' !in host && '/' !in port && ':' !in port
    requires host == [] || host[0] != '['
    requires |port| < PortCapacity && |host| >= HostCapacity
    ensures UriToSs(scheme + "://" + host + ":" + port) == Undefined(HostOverflow)
  {
    PlainTokens(scheme, host, port);
  }
}
