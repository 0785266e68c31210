/**
 * The account id's text form: the sixteen raw octets written as 32 lowercase
 * hex digits (`{:02x}` per octet) and cut 8-4-4-4-12 with hyphens, the layout
 * of section 3 of RFC 4122.
 */
module Uuid {
  import opened Base
  import opened Text

  /** `{:02x}`: two lowercase hex digits, high nibble first. */
  function HexPair(b: byte): string {
    [Digit(b / 16), Digit(b % 16)]
  }

  /** The hex digits of every octet in turn, as the source's loop appends them. */
  function HexOctets(bytes: seq<byte>): string
    decreases |bytes|
  {
    if bytes == [] then "" else HexOctets(bytes[..|bytes| - 1]) + HexPair(bytes[|bytes| - 1])
  }

  /** Digit `2i` is the high nibble of octet `i` and digit `2i+1` its low nibble. */
  lemma {:induction false} HexOctetsAt(bytes: seq<byte>)
    ensures |HexOctets(bytes)| == 2 * |bytes|
    ensures forall i :: 0 <= i < |bytes| ==>
      HexOctets(bytes)[2 * i] == Digit(bytes[i] / 16) && HexOctets(bytes)[2 * i + 1] == Digit(bytes[i] % 16)
    decreases |bytes|
  {
    if bytes != [] {
      var init := bytes[..|bytes| - 1];
      HexOctetsAt(init);
      forall i | 0 <= i < |init| ensures init[i] == bytes[i] { }
    }
  }

  /** The canonical text of a 16-octet id. */
  function UuidText(id: seq<byte>): (u: string)
    requires |id| == 16
    ensures |u| == 36
  {
    var hex := HexOctets(id);
    HexOctetsAt(id);
    hex[0..8] + "-" + hex[8..12] + "-" + hex[12..16] + "-" + hex[16..20] + "-" + hex[20..32]
  }

  /**
   * The source's formatting loop: append `{:02x}` of each octet to a buffer,
   * then cut the 32 digits 8-4-4-4-12 with hyphens.
   */
  method FormatUuid(id: seq<byte>) returns (u: string)
    requires |id| == 16
    ensures u == UuidText(id)
  {
    var hex := "";
    for i := 0 to |id|
      invariant hex == HexOctets(id[..i])
    {
      assert id[..i + 1][..i] == id[..i];
      hex := hex + HexPair(id[i]);
    }
    assert id[..|id|] == id;
    HexOctetsAt(id);
    u := hex[0..8] + "-" + hex[8..12] + "-" + hex[12..16] + "-" + hex[16..20] + "-" + hex[20..32];
  }

  predicate IsHyphenPosition(j: nat) {
    j == 8 || j == 13 || j == 18 || j == 23
  }

  /** Where hex digit `k` of the 32 lands in the 36-character text. */
  function HexPosition(k: nat): (j: nat)
    requires k < 32
    ensures j < 36 && !IsHyphenPosition(j)
  {
    k + (if k >= 8 then 1 else 0) + (if k >= 12 then 1 else 0)
      + (if k >= 16 then 1 else 0) + (if k >= 20 then 1 else 0)
  }

  /** The hex digit that a non-hyphen position of the text holds. */
  function HexIndex(j: nat): (k: nat)
    requires j < 36 && !IsHyphenPosition(j)
    ensures k < 32 && HexPosition(k) == j
  {
    j - (if j > 8 then 1 else 0) - (if j > 13 then 1 else 0)
      - (if j > 18 then 1 else 0) - (if j > 23 then 1 else 0)
  }

  /** 36 characters, hyphens at 8, 13, 18 and 23, lowercase hex digits elsewhere. */
  predicate CanonicalUuid(u: string) {
    |u| == 36 &&
    forall j :: 0 <= j < 36 ==> if IsHyphenPosition(j) then u[j] == '-' else IsDigit(u[j], 16)
  }

  /** The octets a canonical text spells, two hex digits per octet. */
  function UuidBytes(u: string): (id: seq<byte>)
    requires CanonicalUuid(u)
    ensures |id| == 16
  {
    seq(16, i requires 0 <= i < 16 =>
      DigitValue(u[HexPosition(2 * i)]) * 16 + DigitValue(u[HexPosition(2 * i + 1)]))
  }

  lemma UuidTextAt(id: seq<byte>)
    requires |id| == 16
    ensures |UuidText(id)| == 36 && |HexOctets(id)| == 32
    ensures forall j :: 0 <= j < 36 && IsHyphenPosition(j) ==> UuidText(id)[j] == '-'
    ensures forall k :: 0 <= k < 32 ==> UuidText(id)[HexPosition(k)] == HexOctets(id)[k]
  {
    HexOctetsAt(id);
  }

  /** The text of `id` has the canonical layout and spells exactly `id`. */
  lemma UuidTextCorrect(id: seq<byte>)
    requires |id| == 16
    ensures CanonicalUuid(UuidText(id))
    ensures UuidBytes(UuidText(id)) == id
  {
    UuidTextLayout(id);
    var u := UuidText(id);
    UuidTextAt(id);
    HexOctetsAt(id);
    forall i | 0 <= i < 16 ensures UuidBytes(u)[i] == id[i] {
      assert u[HexPosition(2 * i)] == Digit(id[i] / 16);
      assert u[HexPosition(2 * i + 1)] == Digit(id[i] % 16);
    }
  }

  lemma UuidTextLayout(id: seq<byte>)
    requires |id| == 16
    ensures CanonicalUuid(UuidText(id))
  {
    var u, hex := UuidText(id), HexOctets(id);
    UuidTextAt(id);
    HexOctetsAt(id);
    forall j | 0 <= j < 36 && !IsHyphenPosition(j) ensures IsDigit(u[j], 16) {
      var k := HexIndex(j);
      assert u[j] == hex[k];
      if k % 2 == 0 {
        assert hex[2 * (k / 2)] == Digit(id[k / 2] / 16);
      } else {
        assert hex[2 * (k / 2) + 1] == Digit(id[k / 2] % 16);
      }
    }
  }

  /** The nibbles of octet `i` of a canonical text render as the two digits it was read from. */
  lemma UuidBytesNibbles(u: string, i: nat)
    requires CanonicalUuid(u) && i < 16
    ensures Digit(UuidBytes(u)[i] / 16) == u[HexPosition(2 * i)]
    ensures Digit(UuidBytes(u)[i] % 16) == u[HexPosition(2 * i + 1)]
  {
    var hi, lo := u[HexPosition(2 * i)], u[HexPosition(2 * i + 1)];
    DigitOfValue(hi, 16);
    DigitOfValue(lo, 16);
    var b := UuidBytes(u)[i];
    assert b == DigitValue(hi) * 16 + DigitValue(lo);
    assert b / 16 == DigitValue(hi) && b % 16 == DigitValue(lo);
  }

  /** Every canonical text is the text of the octets it spells. */
  lemma UuidBytesCorrect(u: string)
    requires CanonicalUuid(u)
    ensures UuidText(UuidBytes(u)) == u
  {
    var id := UuidBytes(u);
    var t, hex := UuidText(id), HexOctets(id);
    UuidTextAt(id);
    HexOctetsAt(id);
    forall j | 0 <= j < 36 ensures t[j] == u[j] {
      if !IsHyphenPosition(j) {
        var k := HexIndex(j);
        var i := k / 2;
        UuidBytesNibbles(u, i);
        if k % 2 == 0 {
          assert k == 2 * i && t[j] == hex[2 * i];
        } else {
          assert k == 2 * i + 1 && t[j] == hex[2 * i + 1];
        }
      }
    }
  }

  /** Distinct ids never share a text. */
  lemma UuidTextInjective(a: seq<byte>, b: seq<byte>)
    requires |a| == 16 && |b| == 16 && UuidText(a) == UuidText(b)
    ensures a == b
  {
    UuidTextCorrect(a);
    UuidTextCorrect(b);
  }
}
