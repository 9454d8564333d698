/** The IPv6 text forms of section 2.2 of RFC 4291, as accepted by the
    kernel's `in6_pton` when the whole string must be consumed: eight groups
    of one to four hexadecimal digits separated by colons; at most one `::`
    standing for one or more zero groups; and an embedded dotted quad in
    place of the last two groups. */
module Ipv6Text {
  import opened Text
  import opened Numerals
  import opened NetAddr
  import Ipv4Text

  const MaxGroup: nat := 0xFFFF

  /** A numeral of at most four hexadecimal digits fits in a group. */
  lemma {:induction false} HexValueBound(f: string)
    requires |f| <= 4 && AllDigits(f, 16)
    ensures Value(f, 16) <= MaxGroup
    decreases |f|
  {
    if |f| > 0 {
      var init := f[..|f| - 1];
      HexValueBound(init);
      assert Value(init, 16) < Pow(16, |init|) by {
        HexValueBelowPow(init);
      }
      assert Pow(16, |f|) == 16 * Pow(16, |init|);
      assert Pow(16, |f|) <= 0x10000;
      HexValueBelowPow(f);
    }
  }

  lemma {:induction false} HexValueBelowPow(f: string)
    requires AllDigits(f, 16)
    ensures Value(f, 16) < Pow(16, |f|)
    decreases |f|
  {
    if |f| > 0 {
      var init := f[..|f| - 1];
      HexValueBelowPow(init);
      assert Value(f, 16) <= (Pow(16, |init|) - 1) * 16 + 15;
    }
  }

  /** One group: one to four hexadecimal digits. */
  function ParseGroup(f: string): (r: Option<nat>)
    ensures r.Some? ==> r.value <= MaxGroup
  {
    if 0 < |f| <= 4 && AllDigits(f, 16) then
      HexValueBound(f);
      Some(Value(f, 16))
    else None
  }

  /** The groups of a run of colon-separated fields; with `v4Tail` the last
      field may instead be a dotted quad, worth two groups. */
  function ParseGroups(fields: seq<string>, v4Tail: bool): (r: Option<seq<nat>>)
    ensures r.Some? ==> forall i :: 0 <= i < |r.value| ==> r.value[i] <= MaxGroup
    ensures r.Some? ==> |fields| <= |r.value| <= |fields| + 1
    decreases |fields|
  {
    if |fields| == 0 then Some([])
    else
      match ParseGroup(fields[0])
      case Some(g) =>
        (match ParseGroups(fields[1..], v4Tail)
         case Some(gs) => Some([g] + gs)
         case None => None)
      case None =>
        if |fields| == 1 && v4Tail then
          match Ipv4Text.Parse(fields[0])
          case Some(a) => Some([a[0] as nat * 256 + a[1], a[2] as nat * 256 + a[3]])
          case None => None
        else None
  }

  function Zeros(n: nat): seq<nat>
  {
    seq(n, _ => 0)
  }

  /** The sixteen address bytes of eight groups, each group most significant
      byte first. */
  function ToBytes(groups: seq<nat>): (a: Addr16)
    requires |groups| == 8 && forall i :: 0 <= i < 8 ==> groups[i] <= MaxGroup
    ensures forall i :: 0 <= i < 8 ==> a[2 * i] as nat * 256 + a[2 * i + 1] == groups[i]
  {
    seq(16, i requires 0 <= i < 16 => if i % 2 == 0 then groups[i / 2] / 256 else groups[i / 2] % 256)
  }

  /** The groups before a `::` at `k`: none when it opens the string. */
  function LeftOf(s: string, k: nat): (r: Option<seq<nat>>)
    requires k <= |s|
    ensures r.Some? ==> forall i :: 0 <= i < |r.value| ==> r.value[i] <= MaxGroup
  {
    if k == 0 then Some([]) else ParseGroups(Split(s[..k], ':'), false)
  }

  /** The groups after a `::` at `k`: none when it closes the string; the
      last of them may be a dotted quad. */
  function RightOf(s: string, k: nat): (r: Option<seq<nat>>)
    requires k + 2 <= |s|
    ensures r.Some? ==> forall i :: 0 <= i < |r.value| ==> r.value[i] <= MaxGroup
  {
    if k + 2 == |s| then Some([]) else ParseGroups(Split(s[k + 2..], ':'), true)
  }

  /** The address of the groups on either side of `::`, which stands for as
      many zero groups as make eight, at least one. */
  function Expand(left: Option<seq<nat>>, right: Option<seq<nat>>): (r: Option<Addr16>)
    requires left.Some? ==> forall i :: 0 <= i < |left.value| ==> left.value[i] <= MaxGroup
    requires right.Some? ==> forall i :: 0 <= i < |right.value| ==> right.value[i] <= MaxGroup
  {
    if left.Some? && right.Some? && |left.value| + |right.value| <= 7 then
      var groups := left.value + Zeros(8 - |left.value| - |right.value|) + right.value;
      assert forall i :: 0 <= i < 8 ==> groups[i] <= MaxGroup;
      Some(ToBytes(groups))
    else None
  }

  /** The address written by an IPv6 literal, if `s` is one. */
  function Parse(s: string): (r: Option<Addr16>)
    ensures r.Some? ==> ':' in s
  {
    match FindFrom(s, "::", 0)
    case Some(k) =>
      assert "::"[0] == ':' && s[k + 0] == "::"[0];
      Expand(LeftOf(s, k), RightOf(s, k))
    case None =>
      var fields := Split(s, ':');
      match ParseGroups(fields, true)
      case Some(groups) =>
        if |groups| == 8 then
          JoinHasSeparator(fields, ':');
          Some(ToBytes(groups))
        else None
      case None => None
  }

  /** Well-formed groups of an address. */
  predicate Groups(groups: seq<nat>)
  {
    |groups| == 8 && forall i :: 0 <= i < 8 ==> groups[i] <= MaxGroup
  }

  /** Shortest lower-case hexadecimal numerals of `groups`. */
  function HexFields(groups: seq<nat>): (fields: seq<string>)
    ensures |fields| == |groups|
    ensures forall i :: 0 <= i < |fields| ==> 0 < |fields[i]| && AllDigits(fields[i], 16)
  {
    seq(|groups|, i requires 0 <= i < |groups| => ToDigits(groups[i], 16))
  }

  /** The full, uncompressed text form `x:x:x:x:x:x:x:x` of an address. */
  function FormatFull(groups: seq<nat>): (s: string)
    requires Groups(groups)
    ensures 0 < |s| <= 39 && IsDigit(s[0], 16)
    ensures ':' in s
    ensures forall c :: !IsDigit(c, 16) && c != ':' ==> c !in s
  {
    var fields := HexFields(groups);
    var s := Join(fields, ':');
    forall i | 0 <= i < 8
      ensures |fields[i]| <= 4
    {
      ToDigitsLength(groups[i], 16, 4);
    }
    JoinLength(fields, ':', 4);
    JoinHead(fields, ':');
    JoinHasSeparator(fields, ':');
    forall c | !IsDigit(c, 16) && c != ':'
      ensures c !in s
    {
      forall i | 0 <= i < 8
        ensures c !in fields[i]
      {
        DigitsAvoid(fields[i], 16, c);
      }
      JoinAvoids(fields, ':', c);
    }
    s
  }

  /** Hexadecimal numerals of groups parse back to the groups. */
  lemma {:induction false} ParseHexFields(groups: seq<nat>, v4Tail: bool)
    requires forall i :: 0 <= i < |groups| ==> groups[i] <= MaxGroup
    ensures ParseGroups(HexFields(groups), v4Tail) == Some(groups)
    decreases |groups|
  {
    if |groups| > 0 {
      var fields := HexFields(groups);
      ToDigitsLength(groups[0], 16, 4);
      assert ParseGroup(fields[0]) == Some(groups[0]);
      assert fields[1..] == HexFields(groups[1..]);
      ParseHexFields(groups[1..], v4Tail);
      assert groups == [groups[0]] + groups[1..];
    }
  }

  /** Parsing the full text form of an address gives its bytes back. */
  lemma {:induction false} ParseFormatFull(groups: seq<nat>)
    requires Groups(groups)
    ensures Parse(FormatFull(groups)) == Some(ToBytes(groups))
  {
    var fields := HexFields(groups);
    var s := FormatFull(groups);
    assert s == Join(fields, ':');
    forall i | 0 <= i < 8
      ensures ':' !in fields[i]
    {
      DigitsAvoid(fields[i], 16, ':');
    }
    JoinNoDoubleSeparator(fields, ':');
    assert "::" == [':', ':'];
    assert FindFrom(s, "::", 0) == None;
    SplitJoin(fields, ':');
    ParseHexFields(groups, true);
  }

  /** The numerals of a run of groups separated by colons; no text for no
      groups. */
  function GroupsText(groups: seq<nat>): string
  {
    if |groups| == 0 then "" else Join(HexFields(groups), ':')
  }

  /** The text of a non-empty run of groups neither starts nor ends with a
      colon and holds no `::`. */
  lemma GroupsTextEnds(groups: seq<nat>)
    requires 0 < |groups| && forall i :: 0 <= i < |groups| ==> groups[i] <= MaxGroup
    ensures var s := GroupsText(groups);
      && 0 < |s| && s[0] != ':' && s[|s| - 1] != ':'
      && NoOccurrence(s, "::", 0)
  {
    var fields := HexFields(groups);
    forall i | 0 <= i < |fields|
      ensures ':' !in fields[i]
    {
      DigitsAvoid(fields[i], 16, ':');
    }
    JoinNoDoubleSeparator(fields, ':');
    assert "::" == [':', ':'];
    JoinHead(fields, ':');
    JoinLast(fields, ':');
    var f := fields[|fields| - 1];
    assert f[|f| - 1] in f;
  }

  /** The text of a non-empty run of groups parses back to the run. */
  lemma GroupsTextParses(groups: seq<nat>, v4Tail: bool)
    requires 0 < |groups| && forall i :: 0 <= i < |groups| ==> groups[i] <= MaxGroup
    ensures ParseGroups(Split(GroupsText(groups), ':'), v4Tail) == Some(groups)
  {
    var fields := HexFields(groups);
    forall i | 0 <= i < |fields|
      ensures ':' !in fields[i]
    {
      DigitsAvoid(fields[i], 16, ':');
    }
    SplitJoin(fields, ':');
    ParseHexFields(groups, v4Tail);
  }

  /** The first `::` of `left + "::" + right` is the one between them when
      `left` holds none and does not end with a colon. */
  lemma DoubleColonBetween(left: string, right: string)
    requires NoOccurrence(left, "::", 0)
    requires |left| == 0 || left[|left| - 1] != ':'
    ensures FindFrom(left + "::" + right, "::", 0) == Some(|left|)
  {
    var s := left + "::" + right;
    assert "::"[0] == ':' && "::"[1] == ':';
    assert OccursAt(s, "::", |left|);
    forall k | 0 <= k < |left|
      ensures !OccursAt(s, "::", k)
    {
      if k + 1 < |left| {
        assert !OccursAt(left, "::", k);
        assert s[k] == left[k] && s[k + 1] == left[k + 1];
      } else {
        assert s[k] == left[|left| - 1];
      }
    }
    FindFromIs(s, "::", 0, |left|);
  }

  /** The compressed text form of an address: the groups before a run of
      `n` zero groups starting at `i`, then `::`, then the groups after it. */
  function FormatCompressed(groups: seq<nat>, i: nat, n: nat): string
    requires Groups(groups) && i + n <= 8
  {
    GroupsText(groups[..i]) + "::" + GroupsText(groups[i + n..])
  }

  /** `Parse` on a string whose first `::` is at `k`, when the groups on
      either side parse and leave room for at least one zero group. */
  lemma ParseAtDoubleColon(s: string, k: nat, left: seq<nat>, right: seq<nat>)
    requires FindFrom(s, "::", 0) == Some(k)
    requires LeftOf(s, k) == Some(left) && RightOf(s, k) == Some(right)
    requires |left| + |right| <= 7
    ensures var groups := left + Zeros(8 - |left| - |right|) + right;
      Groups(groups) && Parse(s) == Some(ToBytes(groups))
  {
  }

  /** `Parse` on a string without `::` whose fields parse to eight groups. */
  lemma ParseWithoutDoubleColon(s: string, groups: seq<nat>)
    requires FindFrom(s, "::", 0) == None
    requires ParseGroups(Split(s, ':'), true) == Some(groups) && |groups| == 8
    ensures Groups(groups) && Parse(s) == Some(ToBytes(groups))
  {
  }

  /** The groups before the `::` of the compressed form parse back. */
  lemma CompressedLeft(groups: seq<nat>, i: nat, n: nat)
    requires Groups(groups) && i + n <= 8
    ensures var s := FormatCompressed(groups, i, n); var k := |GroupsText(groups[..i])|;
      && FindFrom(s, "::", 0) == Some(k)
      && LeftOf(s, k) == Some(groups[..i])
  {
    var l, r := GroupsText(groups[..i]), GroupsText(groups[i + n..]);
    var s := l + "::" + r;
    if 0 < i {
      GroupsTextEnds(groups[..i]);
      GroupsTextParses(groups[..i], false);
    }
    DoubleColonBetween(l, r);
    assert s[..|l|] == l;
  }

  /** The groups after the `::` of the compressed form parse back. */
  lemma CompressedRight(groups: seq<nat>, i: nat, n: nat)
    requires Groups(groups) && i + n <= 8
    ensures var s := FormatCompressed(groups, i, n); var k := |GroupsText(groups[..i])|;
      k + 2 <= |s| && RightOf(s, k) == Some(groups[i + n..])
  {
    var l, r := GroupsText(groups[..i]), GroupsText(groups[i + n..]);
    var s := l + "::" + r;
    if i + n < 8 {
      GroupsTextEnds(groups[i + n..]);
      GroupsTextParses(groups[i + n..], true);
    }
    assert s[|l| + 2..] == r;
  }

  /** Parsing the compressed text form gives the address back, wherever the
      run of zero groups the `::` stands for lies and however long it is. */
  lemma ParseFormatCompressed(groups: seq<nat>, i: nat, n: nat)
    requires Groups(groups) && 0 < n && i + n <= 8
    requires forall k :: i <= k < i + n ==> groups[k] == 0
    ensures Parse(FormatCompressed(groups, i, n)) == Some(ToBytes(groups))
  {
    var before, after := groups[..i], groups[i + n..];
    CompressedLeft(groups, i, n);
    CompressedRight(groups, i, n);
    ParseAtDoubleColon(FormatCompressed(groups, i, n), |GroupsText(before)|, before, after);
    ZeroRun(groups, i, n);
  }

  /** A run of zero groups is the zeros the `::` stands for. */
  lemma ZeroRun(groups: seq<nat>, i: nat, n: nat)
    requires i + n <= |groups|
    requires forall k :: i <= k < i + n ==> groups[k] == 0
    ensures groups[..i] + Zeros(|groups| - |groups[..i]| - |groups[i + n..]|) + groups[i + n..] == groups
  {
    assert groups[i..i + n] == Zeros(n);
    assert groups == groups[..i] + groups[i..i + n] + groups[i + n..];
  }

  /** The mixed text form: six groups, then the dotted quad of the last four
      bytes. */
  function FormatMixed(groups: seq<nat>, a: Addr4): string
    requires |groups| == 6 && forall i :: 0 <= i < 6 ==> groups[i] <= MaxGroup
  {
    Join(HexFields(groups) + [Ipv4Text.Format(a)], ':')
  }

  /** The two groups a dotted quad stands for. */
  function QuadGroups(a: Addr4): seq<nat>
  {
    [a[0] as nat * 256 + a[1], a[2] as nat * 256 + a[3]]
  }

  /** A dotted quad alone, as the last field, is its two groups. */
  lemma ParseQuadField(a: Addr4)
    ensures ParseGroups([Ipv4Text.Format(a)], true) == Some(QuadGroups(a))
  {
    var q := Ipv4Text.Format(a);
    var k :| 0 <= k < |q| && q[k] == '.';
    assert !IsDigit(q[k], 16);
    assert ParseGroup(q) == None;
    Ipv4Text.ParseFormat(a);
  }

  /** The numeral of a group parses back to the group. */
  lemma HexGroup(g: nat)
    requires g <= MaxGroup
    ensures ParseGroup(ToDigits(g, 16)) == Some(g)
  {
    ToDigitsLength(g, 16, 4);
  }

  /** Hexadecimal numerals followed by a dotted quad parse, with a dotted
      tail allowed, to the groups followed by the quad's two groups. */
  lemma {:induction false} ParseMixedFields(groups: seq<nat>, a: Addr4)
    requires forall i :: 0 <= i < |groups| ==> groups[i] <= MaxGroup
    ensures ParseGroups(HexFields(groups) + [Ipv4Text.Format(a)], true) == Some(groups + QuadGroups(a))
    decreases |groups|
  {
    var fields := HexFields(groups) + [Ipv4Text.Format(a)];
    if |groups| == 0 {
      assert fields == [Ipv4Text.Format(a)];
      ParseQuadField(a);
      assert groups + QuadGroups(a) == QuadGroups(a);
    } else {
      HexGroup(groups[0]);
      assert fields[0] == ToDigits(groups[0], 16);
      assert fields[1..] == HexFields(groups[1..]) + [Ipv4Text.Format(a)];
      ParseMixedFields(groups[1..], a);
      assert groups + QuadGroups(a) == [groups[0]] + (groups[1..] + QuadGroups(a));
    }
  }

  /** The fields of the mixed form are split back apart, and no `::` is
      found in it. */
  lemma MixedFields(groups: seq<nat>, a: Addr4)
    requires |groups| == 6 && forall i :: 0 <= i < 6 ==> groups[i] <= MaxGroup
    ensures var s := FormatMixed(groups, a);
      && FindFrom(s, "::", 0) == None
      && Split(s, ':') == HexFields(groups) + [Ipv4Text.Format(a)]
  {
    var fields := HexFields(groups) + [Ipv4Text.Format(a)];
    assert !IsDigit(':', 10);
    forall i | 0 <= i < |fields|
      ensures 0 < |fields[i]| && ':' !in fields[i]
    {
      if i < 6 {
        assert fields[i] == HexFields(groups)[i];
        DigitsAvoid(fields[i], 16, ':');
      }
    }
    JoinNoDoubleSeparator(fields, ':');
    assert "::" == [':', ':'];
    SplitJoin(fields, ':');
  }

  /** The last four bytes of six groups and a quad's two groups are the quad. */
  lemma QuadBytes(groups: seq<nat>, a: Addr4)
    requires |groups| == 6 && forall i :: 0 <= i < 6 ==> groups[i] <= MaxGroup
    ensures Groups(groups + QuadGroups(a)) && ToBytes(groups + QuadGroups(a))[12..] == a
  {
    var b := ToBytes(groups + QuadGroups(a));
    GroupBytes(b[12], b[13], a[0], a[1]);
    GroupBytes(b[14], b[15], a[2], a[3]);
  }

  /** Two bytes are determined by the group they form. */
  lemma GroupBytes(hi: byte, lo: byte, hi': byte, lo': byte)
    requires hi as nat * 256 + lo == hi' as nat * 256 + lo'
    ensures hi == hi' && lo == lo'
  {
  }

  /** Parsing the mixed text form gives the six groups and then the four
      bytes of the dotted quad. */
  lemma ParseFormatMixed(groups: seq<nat>, a: Addr4)
    requires |groups| == 6 && forall i :: 0 <= i < 6 ==> groups[i] <= MaxGroup
    ensures Groups(groups + QuadGroups(a))
    ensures Parse(FormatMixed(groups, a)) == Some(ToBytes(groups + QuadGroups(a)))
    ensures Parse(FormatMixed(groups, a)).Some? && Parse(FormatMixed(groups, a)).value[12..] == a
  {
    MixedFields(groups, a);
    ParseMixedFields(groups, a);
    ParseWithoutDoubleColon(FormatMixed(groups, a), groups + QuadGroups(a));
    QuadBytes(groups, a);
  }
}
