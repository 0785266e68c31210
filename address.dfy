/**
 * The text forms of the two fixed-size target addresses: `parse_ipv4`
 * (each octet in decimal, joined by '.') and `parse_ipv6` (the slice taken two
 * octets at a time as a big-endian 16-bit value in lowercase hex, joined by ':').
 */
module Address {
  import opened Base
  import opened Text

  /** The decimal rendering of every octet, in order. */
  function DecimalFields(bytes: seq<byte>): (fields: seq<string>)
    ensures |fields| == |bytes|
  {
    seq(|bytes|, i requires 0 <= i < |bytes| => Numeral(bytes[i], 10))
  }

  /** `parse_ipv4`: each octet's decimal text, joined by '.'. */
  function Ipv4Text(bytes: seq<byte>): string {
    Join(DecimalFields(bytes), '.')
  }

  /**
   * The 16-bit groups of `bytes.chunks(2)`: `hi << 8 | lo`, where a last chunk
   * of one octet has `lo` defaulted to 0.
   */
  function Groups(bytes: seq<byte>): (groups: seq<u16>)
    ensures |groups| == (|bytes| + 1) / 2
    ensures forall i :: 0 <= i < |groups| ==>
      groups[i] == BigEndian16(bytes[2 * i], if 2 * i + 1 < |bytes| then bytes[2 * i + 1] else 0)
    decreases |bytes|
  {
    if |bytes| == 0 then []
    else if |bytes| == 1 then [BigEndian16(bytes[0], 0)]
    else [BigEndian16(bytes[0], bytes[1])] + Groups(bytes[2..])
  }

  /** The lowercase hex rendering, without leading zeros, of every group. */
  function HexFields(groups: seq<u16>): (fields: seq<string>)
    ensures |fields| == |groups|
  {
    seq(|groups|, i requires 0 <= i < |groups| => Numeral(groups[i], 16))
  }

  /** `parse_ipv6`: the groups formatted with `{:x}` and joined by ':'. */
  function Ipv6Text(bytes: seq<byte>): string {
    Join(HexFields(Groups(bytes)), ':')
  }

  lemma DigitsHaveNoSep(s: string, base: nat, sep: char)
    requires AllDigits(s, base) && !IsDigit(sep, base)
    ensures sep !in s
  {
    assert forall i :: 0 <= i < |s| ==> s[i] != sep;
  }

  /**
   * The IPv4 text has one '.'-separated field per octet; each field is a
   * decimal numeral without leading zeros, and it denotes that octet.
   */
  lemma {:induction false} Ipv4Fields(bytes: seq<byte>)
    requires |bytes| >= 1
    ensures var fields := Split(Ipv4Text(bytes), '.');
      |fields| == |bytes| &&
      forall i :: 0 <= i < |bytes| ==>
        Canonical(fields[i], 10) && NumeralValue(fields[i], 10) == bytes[i]
  {
    var parts := DecimalFields(bytes);
    forall i | 0 <= i < |parts|
      ensures Canonical(parts[i], 10) && NumeralValue(parts[i], 10) == bytes[i]
      ensures '.' !in parts[i]
    {
      NumeralCorrect(bytes[i], 10);
      DigitsHaveNoSep(parts[i], 10, '.');
    }
    SplitJoin(parts, '.');
  }

  /** The IPv4 text determines the octets. */
  lemma Ipv4TextInjective(a: seq<byte>, b: seq<byte>)
    requires |a| >= 1 && |b| >= 1 && Ipv4Text(a) == Ipv4Text(b)
    ensures a == b
  {
    Ipv4Fields(a);
    Ipv4Fields(b);
  }

  /** The group of every pair, for an even number of octets. */
  lemma GroupsOfPairs(bytes: seq<byte>)
    requires |bytes| % 2 == 0
    ensures var groups := Groups(bytes);
      |groups| == |bytes| / 2 &&
      forall i :: 0 <= i < |groups| ==> groups[i] == BigEndian16(bytes[2 * i], bytes[2 * i + 1])
  {
  }

  /**
   * The IPv6 text has one ':'-separated field per two octets; each field is
   * 1 to 4 lowercase hex digits without leading zeros and denotes the
   * big-endian value of its pair; and no "::" occurs anywhere in the text.
   */
  lemma {:induction false} Ipv6Fields(bytes: seq<byte>)
    requires |bytes| >= 1
    ensures var fields := Split(Ipv6Text(bytes), ':');
      |fields| == |Groups(bytes)| &&
      forall i :: 0 <= i < |fields| ==>
        Canonical(fields[i], 16) && |fields[i]| <= 4 &&
        NumeralValue(fields[i], 16) == Groups(bytes)[i]
    ensures var text := Ipv6Text(bytes);
      forall i :: 0 <= i < |text| - 1 ==> !(text[i] == ':' && text[i + 1] == ':')
  {
    var groups := Groups(bytes);
    var parts := HexFields(groups);
    forall i | 0 <= i < |parts|
      ensures Canonical(parts[i], 16) && NumeralValue(parts[i], 16) == groups[i]
      ensures ':' !in parts[i] && |parts[i]| >= 1 && |parts[i]| <= 4
    {
      NumeralCorrect(groups[i], 16);
      DigitsHaveNoSep(parts[i], 16, ':');
      HexWidth(groups[i]);
    }
    SplitJoin(parts, ':');
    var text := Ipv6Text(bytes);
    forall i | 0 <= i < |text| - 1 ensures !(text[i] == ':' && text[i + 1] == ':') {
      JoinNoDoubleSep(parts, ':', i);
    }
  }

  /** A 16-bit value takes at most four hex digits. */
  lemma HexWidth(n: u16)
    ensures |Numeral(n, 16)| <= 4
  {
    if n >= 16 {
      var q := n / 16;
      assert |Numeral(n, 16)| == |Numeral(q, 16)| + 1;
      if q >= 16 {
        var r := q / 16;
        assert |Numeral(q, 16)| == |Numeral(r, 16)| + 1;
        if r >= 16 {
          var t := r / 16;
          assert t < 16;
          assert |Numeral(r, 16)| == |Numeral(t, 16)| + 1;
          assert |Numeral(t, 16)| == 1;
        }
      }
    }
  }

  /** For the sixteen octets of the wire format: eight groups, one per pair. */
  lemma Ipv6EightGroups(bytes: seq<byte>)
    requires |bytes| == 16
    ensures var fields := Split(Ipv6Text(bytes), ':');
      |fields| == 8 &&
      forall i :: 0 <= i < 8 ==>
        Canonical(fields[i], 16) && NumeralValue(fields[i], 16) == BigEndian16(bytes[2 * i], bytes[2 * i + 1])
  {
    Ipv6Fields(bytes);
    GroupsOfPairs(bytes);
  }

  /** The IPv6 text of sixteen octets determines them. */
  lemma Ipv6TextInjective(a: seq<byte>, b: seq<byte>)
    requires |a| == 16 && |b| == 16 && Ipv6Text(a) == Ipv6Text(b)
    ensures a == b
  {
    Ipv6EightGroups(a);
    Ipv6EightGroups(b);
    forall i | 0 <= i < 8 ensures a[2 * i] == b[2 * i] && a[2 * i + 1] == b[2 * i + 1] {
      assert BigEndian16(a[2 * i], a[2 * i + 1]) == BigEndian16(b[2 * i], b[2 * i + 1]);
    }
    forall k | 0 <= k < 16 ensures a[k] == b[k] {
      if k % 2 == 0 {
        assert k == 2 * (k / 2);
      } else {
        assert k == 2 * (k / 2) + 1;
      }
    }
  }
}
