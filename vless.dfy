/**
 * The VLESS request-header decoder `parse_vless_header`.
 *
 * Wire layout (L is the addon length octet, c = 18 + L the command index):
 *   0 version (read, never checked) | 1..17 account id | 17 L | 18..18+L addon (skipped)
 *   | c command (1 or 2) | c+1, c+2 port, big-endian | c+3 address type
 *   | c+4.. address: 4 octets (type 1), a length octet n and n UTF-8 octets (type 2),
 *     or 16 octets (type 3).
 */
module Vless {
  import opened Base
  import opened Text
  import opened Utf8
  import opened Uuid
  import opened Address

  /** The decoded header, the fields of the source's `VlessHeader` record. */
  datatype Header = Header(uuid: string, command: byte, addressType: byte, address: string, port: u16)

  /** One variant per error message the decoder returns. */
  datatype ParseError =
    | BufferTooSmall
    | InvalidPayload
    | InvalidCommandIndex
    | UnsupportedCommand
    | MissingPort
    | MissingAddressType
    | Ipv4MissingBytes
    | DomainLengthMissing
    | DomainBytesMissing
    | DomainUtf8Error
    | Ipv6MissingBytes
    | InvalidAddressType

  /** The text the source returns for each error. */
  function Message(e: ParseError): string {
    match e
    case BufferTooSmall => "buffer too small"
    case InvalidPayload => "invalid payload"
    case InvalidCommandIndex => "invalid command index"
    case UnsupportedCommand => "unsupported command"
    case MissingPort => "missing port"
    case MissingAddressType => "missing address type"
    case Ipv4MissingBytes => "ipv4 missing bytes"
    case DomainLengthMissing => "domain length missing"
    case DomainBytesMissing => "domain bytes missing"
    case DomainUtf8Error => "domain utf8 error"
    case Ipv6MissingBytes => "ipv6 missing bytes"
    case InvalidAddressType => "invalid address type"
  }

  /** Distinct errors carry distinct messages. */
  lemma MessageInjective(a: ParseError, b: ParseError)
    requires Message(a) == Message(b)
    ensures a == b
  {
  }

  const MinLength := 24
  const AddonLengthIndex := 17

  /** Where the command octet sits: just past the addon block. */
  function CommandIndex(buf: seq<byte>): (c: nat)
    requires |buf| > AddonLengthIndex
    ensures 18 <= c <= 18 + 255
  {
    AddonLengthIndex + 1 + buf[AddonLengthIndex] as int
  }

  /**
   * The `match address_type` block: the address text for the type octet at
   * index `a`, reading the address value after it.
   */
  function ParseAddress(buf: seq<byte>, a: nat): (r: Result<string, ParseError>)
    requires a < |buf|
    ensures r.Ok? ==> buf[a] in {1, 2, 3}
  {
    var addressType := buf[a];
    if addressType == 1 then
      if |buf| < a + 5 then Err(Ipv4MissingBytes) else Ok(Ipv4Text(buf[a + 1..a + 5]))
    else if addressType == 2 then
      if |buf| < a + 2 then Err(DomainLengthMissing)
      else
        var n := buf[a + 1] as int;
        if |buf| < a + 2 + n then Err(DomainBytesMissing)
        else
          var domain := buf[a + 2..a + 2 + n];
          if !ValidUtf8(domain) then Err(DomainUtf8Error) else Ok(DecodeUtf8(domain))
    else if addressType == 3 then
      if |buf| < a + 17 then Err(Ipv6MissingBytes) else Ok(Ipv6Text(buf[a + 1..a + 17]))
    else Err(InvalidAddressType)
  }

  /** The decoder, as a function of the input octets. */
  function ParseHeader(buf: seq<byte>): (r: Result<Header, ParseError>)
    ensures r.Ok? ==> |buf| >= MinLength && |r.value.uuid| == 36
    ensures r.Ok? ==> r.value.command in {1, 2} && r.value.addressType in {1, 2, 3}
  {
    if |buf| < MinLength then Err(BufferTooSmall)
    else
      var uuid := UuidText(buf[1..17]);
      if |buf| <= AddonLengthIndex then Err(InvalidPayload)
      else
        var c := CommandIndex(buf);
        if |buf| <= c then Err(InvalidCommandIndex)
        else
          var command := buf[c];
          if command != 1 && command != 2 then Err(UnsupportedCommand)
          else if |buf| < c + 3 then Err(MissingPort)
          else
            var port := BigEndian16(buf[c + 1], buf[c + 2]);
            var a := c + 3;
            if |buf| <= a then Err(MissingAddressType)
            else
              match ParseAddress(buf, a)
              case Err(e) => Err(e)
              case Ok(address) => Ok(Header(uuid, command, buf[a], address, port))
  }

  /**
   * `parse_vless_header` step by step: the hex digits of the id are appended
   * octet by octet, then each field is read after its own bounds check.
   */
  method ParseVlessHeader(buf: seq<byte>) returns (r: Result<Header, ParseError>)
    ensures r == ParseHeader(buf)
  {
    if |buf| < MinLength {
      return Err(BufferTooSmall);
    }
    var uuid := FormatUuid(buf[1..17]);

    var payloadStart := AddonLengthIndex;
    if |buf| <= payloadStart {
      return Err(InvalidPayload);
    }
    var commandIndex := payloadStart + 1 + buf[payloadStart] as int;
    if |buf| <= commandIndex {
      return Err(InvalidCommandIndex);
    }
    var command := buf[commandIndex];
    if command != 1 && command != 2 {
      return Err(UnsupportedCommand);
    }
    var portIndex := commandIndex + 1;
    if |buf| < portIndex + 2 {
      return Err(MissingPort);
    }
    var port := BigEndian16(buf[portIndex], buf[portIndex + 1]);
    var addressTypeIndex := portIndex + 2;
    if |buf| <= addressTypeIndex {
      return Err(MissingAddressType);
    }
    var addressType := buf[addressTypeIndex];

    var address := "";
    var valueIndex: nat;
    match addressType {
      case 1 =>
        valueIndex := addressTypeIndex + 1;
        if |buf| < valueIndex + 4 {
          return Err(Ipv4MissingBytes);
        }
        address := Ipv4Text(buf[valueIndex..valueIndex + 4]);
      case 2 =>
        if |buf| < addressTypeIndex + 2 {
          return Err(DomainLengthMissing);
        }
        var domainLength := buf[addressTypeIndex + 1] as int;
        valueIndex := addressTypeIndex + 2;
        if |buf| < valueIndex + domainLength {
          return Err(DomainBytesMissing);
        }
        var domain := buf[valueIndex..valueIndex + domainLength];
        if !ValidUtf8(domain) {
          return Err(DomainUtf8Error);
        }
        address := DecodeUtf8(domain);
      case 3 =>
        valueIndex := addressTypeIndex + 1;
        if |buf| < valueIndex + 16 {
          return Err(Ipv6MissingBytes);
        }
        address := Ipv6Text(buf[valueIndex..valueIndex + 16]);
      case _ =>
        return Err(InvalidAddressType);
    }
    r := Ok(Header(uuid, command, addressType, address, port));
  }

  /** Where the address type octet sits. */
  function AddressTypeIndex(buf: seq<byte>): nat
    requires |buf| > AddonLengthIndex
  {
    CommandIndex(buf) + 3
  }

  /** The decoder gets past the command check: the octet at the command index is 1 or 2. */
  predicate CommandAccepted(buf: seq<byte>) {
    |buf| >= MinLength && CommandIndex(buf) < |buf| && buf[CommandIndex(buf)] in {1, 2}
  }

  /** The decoder gets as far as reading the address type. */
  predicate HasAddressType(buf: seq<byte>) {
    CommandAccepted(buf) && AddressTypeIndex(buf) < |buf|
  }

  /** The address is read from index `a` on: octets before it do not matter. */
  lemma AddressLocal(b: seq<byte>, buf: seq<byte>, a: nat)
    requires a < |buf| == |b| && b[a..] == buf[a..]
    ensures ParseAddress(b, a) == ParseAddress(buf, a)
  {
    assert b[a] == b[a..][0] == buf[a];
    if a + 1 < |buf| {
      assert b[a + 1] == b[a..][1] == buf[a + 1];
    }
    forall j | a <= j < |buf| ensures b[j] == buf[j] {
      assert b[j] == b[a..][j - a];
    }
    if a + 5 <= |buf| {
      assert b[a + 1..a + 5] == buf[a + 1..a + 5];
    }
    if a + 17 <= |buf| {
      assert b[a + 1..a + 17] == buf[a + 1..a + 17];
    }
    if a + 2 <= |buf| && a + 2 + buf[a + 1] <= |buf| {
      var n := buf[a + 1] as int;
      assert b[a + 2..a + 2 + n] == buf[a + 2..a + 2 + n];
    }
  }

  /** Inputs shorter than 24 octets are rejected first, whatever they hold. */
  lemma ShortBufferRejected(buf: seq<byte>)
    ensures ParseHeader(buf) == Err(BufferTooSmall) <==> |buf| < MinLength
  {
  }

  /** The length check makes the "invalid payload" branch unreachable. */
  lemma InvalidPayloadUnreachable(buf: seq<byte>)
    ensures ParseHeader(buf) != Err(InvalidPayload)
  {
  }

  /** The version octet is never examined: changing it never changes the outcome. */
  lemma VersionIgnored(buf: seq<byte>, v: byte)
    requires |buf| >= 1
    ensures ParseHeader(buf[0 := v]) == ParseHeader(buf)
  {
    var b := buf[0 := v];
    if |buf| >= MinLength {
      assert b[1..17] == buf[1..17];
      assert b[17] == buf[17];
      var a := AddressTypeIndex(buf);
      if a < |buf| {
        assert b[a..] == buf[a..];
        AddressLocal(b, buf, a);
      }
    }
  }

  /** Once the address type is in range, the outcome is that of the address block. */
  lemma HeaderFromAddress(buf: seq<byte>)
    requires HasAddressType(buf)
    ensures var c, a := CommandIndex(buf), AddressTypeIndex(buf);
      ParseHeader(buf) ==
        match ParseAddress(buf, a)
        case Err(e) => Err(e)
        case Ok(address) => Ok(Header(UuidText(buf[1..17]), buf[c], buf[a], address, BigEndian16(buf[c + 1], buf[c + 2])))
  {
  }

  /**
   * On success the uuid text is in canonical 8-4-4-4-12 form and its hex
   * digits spell exactly octets 1..17 of the input.
   */
  lemma SuccessUuid(buf: seq<byte>)
    requires ParseHeader(buf).Ok?
    ensures var u := ParseHeader(buf).value.uuid;
      |buf| >= MinLength && CanonicalUuid(u) && |u| == 36 && u[8] == u[13] == u[18] == u[23] == '-' &&
      UuidBytes(u) == buf[1..17]
  {
    UuidTextCorrect(buf[1..17]);
  }

  /** The command octet is read past the addon block; success requires it to be 1 or 2. */
  lemma CommandRule(buf: seq<byte>)
    requires |buf| >= MinLength
    ensures ParseHeader(buf) == Err(InvalidCommandIndex) <==> |buf| <= CommandIndex(buf)
    ensures CommandIndex(buf) < |buf| ==>
      (ParseHeader(buf) == Err(UnsupportedCommand) <==> buf[CommandIndex(buf)] !in {1, 2})
    ensures ParseHeader(buf).Ok? ==>
      CommandAccepted(buf) && ParseHeader(buf).value.command == buf[CommandIndex(buf)]
  {
  }

  /** The port is the big-endian value of the two octets after the command. */
  lemma PortRule(buf: seq<byte>)
    requires CommandAccepted(buf)
    ensures ParseHeader(buf) == Err(MissingPort) <==> |buf| < CommandIndex(buf) + 3
    ensures ParseHeader(buf).Ok? ==>
      var c := CommandIndex(buf);
      ParseHeader(buf).value.port == buf[c + 1] as int * 256 + buf[c + 2]
  {
  }

  /** Only address types 1, 2 and 3 are accepted. */
  lemma AddressTypeRule(buf: seq<byte>)
    requires CommandAccepted(buf) && CommandIndex(buf) + 3 <= |buf|
    ensures ParseHeader(buf) == Err(MissingAddressType) <==> |buf| == AddressTypeIndex(buf)
    ensures HasAddressType(buf) ==>
      (ParseHeader(buf) == Err(InvalidAddressType) <==> buf[AddressTypeIndex(buf)] !in {1, 2, 3})
    ensures ParseHeader(buf).Ok? ==>
      HasAddressType(buf) && ParseHeader(buf).value.addressType == buf[AddressTypeIndex(buf)]
  {
  }

  /**
   * IPv4: four octets must follow the type octet; the address is then four
   * '.'-separated decimal fields without leading zeros, field i denoting octet i.
   */
  lemma Ipv4Rule(buf: seq<byte>)
    requires HasAddressType(buf) && buf[AddressTypeIndex(buf)] == 1
    ensures ParseHeader(buf) == Err(Ipv4MissingBytes) <==> |buf| < AddressTypeIndex(buf) + 5
    ensures |buf| >= AddressTypeIndex(buf) + 5 ==>
      var a := AddressTypeIndex(buf);
      ParseHeader(buf).Ok? &&
      var fields := Split(ParseHeader(buf).value.address, '.');
      |fields| == 4 &&
      forall i :: 0 <= i < 4 ==>
        Canonical(fields[i], 10) && NumeralValue(fields[i], 10) == buf[a + 1 + i]
  {
    HeaderFromAddress(buf);
    var a := AddressTypeIndex(buf);
    if |buf| >= a + 5 {
      Ipv4Fields(buf[a + 1..a + 5]);
    }
  }

  /**
   * Domain: a length octet n and then n octets must be present, and those
   * octets must be well-formed UTF-8; the address is then the string they
   * encode, so its UTF-8 encoding is exactly those octets.
   */
  lemma DomainRule(buf: seq<byte>)
    requires HasAddressType(buf) && buf[AddressTypeIndex(buf)] == 2
    ensures ParseHeader(buf) == Err(DomainLengthMissing) <==> |buf| < AddressTypeIndex(buf) + 2
    ensures |buf| >= AddressTypeIndex(buf) + 2 ==>
      var a := AddressTypeIndex(buf);
      var n := buf[a + 1];
      (ParseHeader(buf) == Err(DomainBytesMissing) <==> |buf| < a + 2 + n) &&
      (|buf| >= a + 2 + n ==>
        (ParseHeader(buf) == Err(DomainUtf8Error) <==> !ValidUtf8(buf[a + 2..a + 2 + n])) &&
        (ParseHeader(buf).Ok? <==> ValidUtf8(buf[a + 2..a + 2 + n])) &&
        (ParseHeader(buf).Ok? ==> EncodeUtf8(ParseHeader(buf).value.address) == buf[a + 2..a + 2 + n]))
  {
    HeaderFromAddress(buf);
    var a := AddressTypeIndex(buf);
    if |buf| >= a + 2 {
      var n := buf[a + 1] as int;
      if |buf| >= a + 2 + n {
        var domain := buf[a + 2..a + 2 + n];
        if ValidUtf8(domain) {
          assert ParseAddress(buf, a) == Ok(DecodeUtf8(domain));
          DecodeUtf8Correct(domain);
        } else {
          assert ParseAddress(buf, a) == Err(DomainUtf8Error);
        }
      } else {
        assert ParseAddress(buf, a) == Err(DomainBytesMissing);
      }
    } else {
      assert ParseAddress(buf, a) == Err(DomainLengthMissing);
    }
  }

  /**
   * IPv6: sixteen octets must follow the type octet; the address is then
   * eight ':'-separated lowercase hex groups without leading zeros, group i
   * denoting the big-endian value of octets 2i and 2i+1, and no "::" appears.
   */
  lemma Ipv6Rule(buf: seq<byte>)
    requires HasAddressType(buf) && buf[AddressTypeIndex(buf)] == 3
    ensures ParseHeader(buf) == Err(Ipv6MissingBytes) <==> |buf| < AddressTypeIndex(buf) + 17
    ensures |buf| >= AddressTypeIndex(buf) + 17 ==>
      var a := AddressTypeIndex(buf);
      ParseHeader(buf).Ok? &&
      var text := ParseHeader(buf).value.address;
      var fields := Split(text, ':');
      |fields| == 8 &&
      (forall i :: 0 <= i < 8 ==>
        Canonical(fields[i], 16) &&
        NumeralValue(fields[i], 16) == buf[a + 1 + 2 * i] as int * 256 + buf[a + 2 + 2 * i]) &&
      (forall i :: 0 <= i < |text| - 1 ==> !(text[i] == ':' && text[i + 1] == ':'))
  {
    HeaderFromAddress(buf);
    var a := AddressTypeIndex(buf);
    if |buf| >= a + 17 {
      var octets := buf[a + 1..a + 17];
      Ipv6EightGroups(octets);
      Ipv6Fields(octets);
    }
  }
}
