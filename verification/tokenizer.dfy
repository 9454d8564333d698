/** The scanning half of `xio_uri_to_ss` (src/kernel/xio/xio_kernel_utils.c,
    lines 101-161): locate `://`, then split what follows into a host and a
    port, either in the bracketed form `[host]:port[/resource]` or in the
    plain form `host:port[/resource]`, copying both into the fixed-size
    `host` and `port` buffers. The copies are modelled as substrings; a copy
    with a negative length or one that does not fit its buffer is undefined
    behaviour in C and is reported as a `Hazard` instead of a result. */
module Tokenizer {
  import opened Text

  /** `NI_MAXSERV`: bytes in the `port` buffer, terminator included. */
  const PortCapacity: nat := 32

  /** `NI_MAXHOST`: bytes in the `host` buffer, terminator included. */
  const HostCapacity: nat := 1025

  /** Undefined behaviour the scan can reach. */
  datatype Hazard =
    | HostOverflow        // the host does not fit `host`
    | PortOverflow        // the port does not fit `port`
    | NegativePortLength  // line 120 computes -1 when `/` follows `]:` at once
    | NegativeHostLength  // line 156 computes start - (start + 3) when the colon found is the scheme's

  /** What the scan hands to the rest of the function: the text copied into
      `host` and `port`, `ipv6_hint`, and the value `len` still holds when
      the address is resolved at line 192. */
  datatype Tokens = Tokens(host: string, port: string, bracketed: bool, len: nat)

  datatype Tokenized =
    | Scanned(tokens: Tokens)
    | Malformed                // the C function returns -1
    | Hazardous(hazard: Hazard)

  /** `start` is where `strstr(uri, "://")` points. */
  predicate SchemeEnd(uri: string, start: int)
  {
    FirstOccurrence(uri, "://", 0, start)
  }

  /** Lines 101-161. */
  function Tokenize(uri: string): (r: Tokenized)
    ensures r.Scanned? ==> |r.tokens.host| < HostCapacity && |r.tokens.port| < PortCapacity
    ensures r.Scanned? ==> '/' !in r.tokens.port
    ensures r.Scanned? && !r.tokens.bracketed ==> ':' !in r.tokens.port && r.tokens.len == |r.tokens.host|
  {
    match FindFrom(uri, "://", 0)
    case None => Malformed
    case Some(start) =>
      if start + 3 < |uri| && uri[start + 3] == '[' then Bracketed(uri, start) else Plain(uri, start)
  }

  /** Lines 106-123: the host is bracketed. */
  function Bracketed(uri: string, start: nat): (r: Tokenized)
    requires SchemeEnd(uri, start) && start + 3 < |uri| && uri[start + 3] == '['
    ensures r.Scanned? ==> |r.tokens.host| < HostCapacity && |r.tokens.port| < PortCapacity
    ensures r.Scanned? ==> '/' !in r.tokens.port && r.tokens.bracketed
  {
    match FindFrom(uri, "]:", start + 3)
    case None => Malformed
    case Some(close) =>
      assert "]:"[0] == ']' && uri[close + 0] == "]:"[0];
      var host := uri[start + 4..close];
      if |host| >= HostCapacity then Hazardous(HostOverflow)
      else
        match IndexFrom(uri, '/', close + 2)
        case None =>
          var port := uri[close + 2..];
          if |port| >= PortCapacity then Hazardous(PortOverflow)
          else Scanned(Tokens(host, port, true, |host|))
        case Some(slash) =>
          var len := (slash - 1) - (close + 2);
          if len < 0 then Hazardous(NegativePortLength)
          else if len >= PortCapacity then Hazardous(PortOverflow)
          else Scanned(Tokens(host, uri[close + 2..slash - 1], true, len))
  }

  /** Lines 124-161: the host is not bracketed. The backward scan of lines
      126-134 leaves `p2` at the leftmost slash after `start + 3`, which is
      `IndexFrom(uri, '/', start + 4)` (see `ScanResource`); the one of lines
      144-149 stops at the nearest colon before that slash other than the
      first character (see `ScanColon`). */
  function Plain(uri: string, start: nat): (r: Tokenized)
    requires SchemeEnd(uri, start)
    ensures r.Scanned? ==> |r.tokens.host| < HostCapacity && |r.tokens.port| < PortCapacity
    ensures r.Scanned? ==> '/' !in r.tokens.port && ':' !in r.tokens.port
    ensures r.Scanned? ==> !r.tokens.bracketed && r.tokens.len == |r.tokens.host|
  {
    assert "://"[0] == ':' && uri[start + 0] == "://"[0];
    assert uri[start + 1] == "://"[1] && uri[start + 2] == "://"[2];
    match IndexFrom(uri, '/', start + 4)
    case None =>
      (match LastBefore(uri, ':', 0, |uri|)
       case None => Malformed
       case Some(colon) =>
         if colon == start then Malformed
         else
           var port := uri[colon + 1..];
           if |port| >= PortCapacity then Hazardous(PortOverflow)
           else
             var host := uri[start + 3..colon];
             if |host| >= HostCapacity then Hazardous(HostOverflow)
             else Scanned(Tokens(host, port, false, |host|)))
    case Some(slash) =>
      match LastBefore(uri, ':', 1, slash)
      case None => Malformed
      case Some(colon) =>
        var port := uri[colon + 1..slash];
        if |port| >= PortCapacity then Hazardous(PortOverflow)
        else if colon < start + 3 then Hazardous(NegativeHostLength)
        else
          var host := uri[start + 3..colon];
          if |host| >= HostCapacity then Hazardous(HostOverflow)
          else Scanned(Tokens(host, port, false, |host|))
  }

  /** Lines 125-134 as written: walk from the terminator down to
      `start + 3`, remembering every slash seen, so that the last one
      remembered is the leftmost. The exit at lines 132-133 cannot be taken:
      the walk stops at `start + 3`, which is at least 3. */
  method ScanResource(uri: string, start: nat) returns (p2: Option<nat>)
    requires SchemeEnd(uri, start)
    ensures p2 == IndexFrom(uri, '/', start + 4)
    ensures p2.Some? ==> start + 3 < p2.value < |uri| && uri[p2.value] == '/'
  {
    var p1 := |uri|;
    p2 := None;
    while p1 != start + 3
      invariant start + 3 <= p1 <= |uri|
      invariant p2.Some? ==> FirstChar(uri, '/', p1 + 1, p2.value)
      invariant p2.None? ==> forall k :: p1 < k < |uri| ==> uri[k] != '/'
      decreases p1
    {
      // uri[|uri|] is the terminator, never a slash
      if p1 < |uri| && uri[p1] == '/' {
        p2 := Some(p1);
      }
      p1 := p1 - 1;
      assert p1 != 0;
    }
  }

  /** Lines 144-149 as written: step back from the slash until a colon; the
      first character of the string is never examined. */
  method ScanColon(uri: string, slash: nat) returns (colon: Option<nat>)
    requires 0 < slash < |uri| && uri[slash] == '/'
    ensures colon == LastBefore(uri, ':', 1, slash)
    ensures colon.Some? ==> 0 < colon.value < slash && uri[colon.value] == ':'
  {
    var p1 := slash;
    while uri[p1] != ':'
      invariant 0 < p1 <= slash
      invariant forall k :: p1 < k < slash ==> uri[k] != ':'
      decreases p1
    {
      p1 := p1 - 1;
      if p1 == 0 {
        return None;
      }
    }
    return Some(p1);
  }

  /** Lines 102-104: without `://` the scan fails. */
  lemma NoSeparatorIsMalformed(uri: string)
    requires NoOccurrence(uri, "://", 0)
    ensures Tokenize(uri) == Malformed
  {
  }

  /** Lines 108-110: a bracketed host with no `]:` after the bracket fails. */
  lemma BracketedUnclosed(uri: string, start: nat)
    requires SchemeEnd(uri, start) && start + 3 < |uri| && uri[start + 3] == '['
    requires NoOccurrence(uri, "]:", start + 3)
    ensures Tokenize(uri) == Malformed
  {
    FindFromIs(uri, "://", 0, start);
  }

  /** Lines 106-114: the bracketed host is exactly the text between `[`
      and the first `]:` after it, and it must fit the host buffer. */
  lemma BracketedHost(uri: string, start: nat, close: nat)
    requires SchemeEnd(uri, start) && start + 3 < |uri| && uri[start + 3] == '['
    requires FirstOccurrence(uri, "]:", start + 3, close)
    ensures start + 4 <= close
    ensures close - (start + 4) >= HostCapacity ==> Tokenize(uri) == Hazardous(HostOverflow)
    ensures Tokenize(uri) != Malformed
    ensures Tokenize(uri).Scanned? ==> Tokenize(uri).tokens.host == uri[start + 4..close] && Tokenize(uri).tokens.bracketed
  {
    FindFromIs(uri, "://", 0, start);
    FindFromIs(uri, "]:", start + 3, close);
    assert "]:"[0] == ']' && uri[close + 0] == "]:"[0];
  }

  /** Lines 116-118: with no slash after `]:` the port is the rest of the
      string, and `len` is the host length. */
  lemma BracketedPortToEnd(uri: string, start: nat, close: nat)
    requires SchemeEnd(uri, start) && start + 3 < |uri| && uri[start + 3] == '['
    requires FirstOccurrence(uri, "]:", start + 3, close)
    requires forall k :: close + 2 <= k < |uri| ==> uri[k] != '/'
    requires close - (start + 4) < HostCapacity
    ensures start + 4 <= close
    ensures |uri| - (close + 2) >= PortCapacity ==> Tokenize(uri) == Hazardous(PortOverflow)
    ensures |uri| - (close + 2) < PortCapacity ==>
      Tokenize(uri) == Scanned(Tokens(uri[start + 4..close], uri[close + 2..], true, close - (start + 4)))
  {
    BracketedHost(uri, start, close);
    FindFromIs(uri, "://", 0, start);
    FindFromIs(uri, "]:", start + 3, close);
  }

  /** Lines 119-123: with a slash after `]:` the port stops one character
      short of the first slash, and `len` is left holding the port length;
      a slash right after `]:` makes that length -1. */
  lemma BracketedPortBeforeSlash(uri: string, start: nat, close: nat, slash: nat)
    requires SchemeEnd(uri, start) && start + 3 < |uri| && uri[start + 3] == '['
    requires FirstOccurrence(uri, "]:", start + 3, close)
    requires FirstChar(uri, '/', close + 2, slash)
    requires close - (start + 4) < HostCapacity
    ensures start + 4 <= close
    ensures slash == close + 2 ==> Tokenize(uri) == Hazardous(NegativePortLength)
    ensures close + 2 < slash && slash - (close + 3) >= PortCapacity ==> Tokenize(uri) == Hazardous(PortOverflow)
    ensures close + 2 < slash && slash - (close + 3) < PortCapacity ==>
      Tokenize(uri) == Scanned(Tokens(uri[start + 4..close], uri[close + 2..slash - 1], true, slash - (close + 3)))
  {
    BracketedHost(uri, start, close);
    FindFromIs(uri, "://", 0, start);
    FindFromIs(uri, "]:", start + 3, close);
    IndexFromIs(uri, '/', close + 2, slash);
  }

  /** Lines 136-140 and 156-160: with no slash after `://`, the port follows
      the last colon of the whole string and the host lies between `://`
      and that colon; the scheme's own colon being the last one fails. */
  lemma PlainWithoutResource(uri: string, start: nat, colon: nat)
    requires SchemeEnd(uri, start) && (start + 3 < |uri| ==> uri[start + 3] != '[')
    requires forall k :: start + 4 <= k < |uri| ==> uri[k] != '/'
    requires LastChar(uri, ':', 0, |uri|, colon)
    ensures colon == start ==> Tokenize(uri) == Malformed
    ensures colon != start ==> start + 3 <= colon
    ensures colon != start && |uri| - (colon + 1) < PortCapacity && colon - (start + 3) < HostCapacity ==>
      Tokenize(uri) == Scanned(Tokens(uri[start + 3..colon], uri[colon + 1..], false, colon - (start + 3)))
  {
    FindFromIs(uri, "://", 0, start);
    LastBeforeIs(uri, ':', 0, |uri|, colon);
    assert IndexFrom(uri, '/', start + 4) == None;
    assert "://"[0] == ':' && uri[start + 0] == "://"[0];
    assert "://"[1] == '/' && uri[start + 1] == "://"[1];
    assert "://"[2] == '/' && uri[start + 2] == "://"[2];
  }

  /** Lines 141-160: with a slash after `://`, the port lies between the
      nearest colon before the leftmost such slash and that slash, and the
      host between `://` and that colon; when the colon is the scheme's
      own, the host length at line 156 is negative. */
  lemma PlainWithResource(uri: string, start: nat, slash: nat, colon: nat)
    requires SchemeEnd(uri, start) && (start + 3 < |uri| ==> uri[start + 3] != '[')
    requires FirstChar(uri, '/', start + 4, slash)
    requires LastChar(uri, ':', 1, slash, colon)
    ensures colon == start || start + 3 <= colon
    ensures slash - (colon + 1) < PortCapacity && colon == start ==> Tokenize(uri) == Hazardous(NegativeHostLength)
    ensures slash - (colon + 1) < PortCapacity && start + 3 <= colon && colon - (start + 3) < HostCapacity ==>
      Tokenize(uri) == Scanned(Tokens(uri[start + 3..colon], uri[colon + 1..slash], false, colon - (start + 3)))
  {
    FindFromIs(uri, "://", 0, start);
    IndexFromIs(uri, '/', start + 4, slash);
    LastBeforeIs(uri, ':', 1, slash, colon);
    assert "://"[0] == ':' && uri[start + 0] == "://"[0];
    assert "://"[1] == '/' && uri[start + 1] == "://"[1];
    assert "://"[2] == '/' && uri[start + 2] == "://"[2];
  }
}
