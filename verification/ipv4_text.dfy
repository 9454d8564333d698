/** The IPv4 dotted-quad text form accepted by the kernel's `in4_pton` when
    the whole string must be consumed: four decimal components, each at most
    255, separated by single dots. */
module Ipv4Text {
  import opened Text
  import opened Numerals
  import opened NetAddr

  /** One decimal component of a dotted quad. */
  function ParseOctet(f: string): Option<byte>
  {
    if 0 < |f| && AllDigits(f, 10) && Value(f, 10) <= 255 then Some(Value(f, 10)) else None
  }

  /** The address written by a dotted-quad literal, if `s` is one. */
  function Parse(s: string): (r: Option<Addr4>)
    ensures r.Some? ==> '.' in s && ':' !in s
  {
    var fields := Split(s, '.');
    if |fields| != 4 then None
    else
      match (ParseOctet(fields[0]), ParseOctet(fields[1]), ParseOctet(fields[2]), ParseOctet(fields[3]))
      case (Some(a), Some(b), Some(c), Some(d)) =>
        JoinHasSeparator(fields, '.');
        forall i | 0 <= i < 4
          ensures ':' !in fields[i]
        {
          DigitsAvoid(fields[i], 10, ':');
        }
        JoinAvoids(fields, '.', ':');
        Some([a, b, c, d])
      case _ => None
  }

  /** The decimal fields of the canonical text of `a`. */
  function Fields(a: Addr4): (fields: seq<string>)
    ensures |fields| == 4
    ensures forall i :: 0 <= i < 4 ==> 0 < |fields[i]| <= 3 && AllDigits(fields[i], 10)
    ensures forall i :: 0 <= i < 4 ==> Value(fields[i], 10) == a[i]
  {
    var fields := seq(4, i requires 0 <= i < 4 => ToDigits(a[i], 10));
    forall i | 0 <= i < 4
      ensures |fields[i]| <= 3
    {
      ToDigitsLength(a[i], 10, 3);
    }
    fields
  }

  /** The canonical dotted-quad text of `a`: shortest decimal components. */
  function Format(a: Addr4): (s: string)
    ensures 0 < |s| <= 15 && IsDigit(s[0], 10)
    ensures '.' in s
    ensures forall c :: !IsDigit(c, 10) && c != '.' ==> c !in s
  {
    var fields := Fields(a);
    var s := Join(fields, '.');
    JoinHead(fields, '.');
    JoinHasSeparator(fields, '.');
    forall c | !IsDigit(c, 10) && c != '.'
      ensures c !in s
    {
      forall i | 0 <= i < 4
        ensures c !in fields[i]
      {
        DigitsAvoid(fields[i], 10, c);
      }
      JoinAvoids(fields, '.', c);
    }
    JoinLength(fields, '.', 3);
    s
  }

  /** Parsing the canonical text of an address gives the address back. */
  lemma {:induction false} ParseFormat(a: Addr4)
    ensures Parse(Format(a)) == Some(a)
  {
    var fields := Fields(a);
    forall i | 0 <= i < 4
      ensures '.' !in fields[i]
    {
      DigitsAvoid(fields[i], 10, '.');
    }
    SplitJoin(fields, '.');
    assert Split(Format(a), '.') == fields;
    assert forall i :: 0 <= i < 4 ==> ParseOctet(fields[i]) == Some(a[i]);
    assert [a[0], a[1], a[2], a[3]] == a;
  }
}
