/**
 * The client side of the header: the octets a client sends for a request,
 * and the proof that the decoder inverts it. Every accepted input is such
 * an encoding followed by payload, and trailing payload never changes the
 * decoded header.
 */
module VlessEncoding {
  import opened Base
  import opened Utf8
  import opened Uuid
  import opened Address
  import opened Vless

  datatype Target = Ipv4Target(octets: seq<byte>) | DomainTarget(name: string) | Ipv6Target(octets: seq<byte>)

  datatype Request = Request(version: byte, id: seq<byte>, addon: seq<byte>, command: byte, port: u16, target: Target)

  /** Targets the wire format can carry. */
  predicate ValidTarget(t: Target) {
    match t
    case Ipv4Target(octets) => |octets| == 4
    case DomainTarget(name) => |EncodeUtf8(name)| <= 255
    case Ipv6Target(octets) => |octets| == 16
  }

  /** Requests the decoder accepts: a 16-octet id, an addon that fits its length octet, command 1 or 2. */
  predicate ValidRequest(req: Request) {
    |req.id| == 16 && |req.addon| <= 255 && req.command in {1, 2} && ValidTarget(req.target)
  }

  /** The address type octet and the address octets. */
  function TargetOctets(t: Target): (s: seq<byte>)
    requires ValidTarget(t)
    ensures |s| >= 2
  {
    match t
    case Ipv4Target(octets) => [1] + octets
    case DomainTarget(name) => [2, |EncodeUtf8(name)|] + EncodeUtf8(name)
    case Ipv6Target(octets) => [3] + octets
  }

  function Encode(req: Request): seq<byte>
    requires ValidRequest(req)
  {
    [req.version] + req.id + [|req.addon|] + req.addon
      + [req.command, req.port / 256, req.port % 256] + TargetOctets(req.target)
  }

  /** The header the decoder should report for a request. */
  function Expected(req: Request): Header
    requires ValidRequest(req)
  {
    var text := match req.target
      case Ipv4Target(octets) => Ipv4Text(octets)
      case DomainTarget(name) => name
      case Ipv6Target(octets) => Ipv6Text(octets);
    var code: byte := match req.target
      case Ipv4Target(_) => 1
      case DomainTarget(_) => 2
      case Ipv6Target(_) => 3;
    Header(UuidText(req.id), req.command, code, text, req.port)
  }

  /** Decoding an encoded request, followed by any payload, yields the expected header. */
  lemma ParseEncoded(req: Request, payload: seq<byte>)
    requires ValidRequest(req) && |Encode(req)| + |payload| >= MinLength
    ensures ParseHeader(Encode(req) + payload) == Ok(Expected(req))
  {
    var buf := Encode(req) + payload;
    var L := |req.addon|;
    var t := TargetOctets(req.target);
    var c := 18 + L;
    assert buf[1..17] == req.id;
    assert buf[17] == L;
    assert CommandIndex(buf) == c;
    assert buf[c] == req.command;
    assert BigEndian16(buf[c + 1], buf[c + 2]) == req.port;
    var a := c + 3;
    assert buf[a..a + |t|] == t;
    assert AddressTypeIndex(buf) == a && HasAddressType(buf);
    HeaderFromAddress(buf);
    match req.target {
      case Ipv4Target(octets) =>
        assert t == [1] + octets;
        assert buf[a + 1..a + 5] == buf[a..a + |t|][1..5] == octets;
        assert ParseAddress(buf, a) == Ok(Ipv4Text(octets));
      case DomainTarget(name) =>
        var d := EncodeUtf8(name);
        assert t == [2, |d|] + d;
        assert buf[a + 1] == t[1] == |d|;
        assert buf[a + 2..a + 2 + |d|] == buf[a..a + |t|][2..] == d;
        EncodeUtf8Correct(name);
        assert ParseAddress(buf, a) == Ok(name);
      case Ipv6Target(octets) =>
        assert t == [3] + octets;
        assert buf[a + 1..a + 17] == buf[a..a + |t|][1..17] == octets;
        assert ParseAddress(buf, a) == Ok(Ipv6Text(octets));
    }
  }

  /** The inputs the decoder accepts, described by their layout. */
  predicate Accepted(buf: seq<byte>) {
    HasAddressType(buf) &&
    var a := AddressTypeIndex(buf);
    if buf[a] == 1 then a + 5 <= |buf|
    else if buf[a] == 2 then
      a + 2 <= |buf| && a + 2 + buf[a + 1] as int <= |buf| && ValidUtf8(buf[a + 2..a + 2 + buf[a + 1] as int])
    else buf[a] == 3 && a + 17 <= |buf|
  }

  /** The decoder succeeds exactly on the inputs of that layout. */
  lemma AcceptedIff(buf: seq<byte>)
    ensures ParseHeader(buf).Ok? <==> Accepted(buf)
  {
  }

  /** How many octets of an accepted input the header occupies. */
  function HeaderLength(buf: seq<byte>): (n: nat)
    requires Accepted(buf)
    ensures n <= |buf|
  {
    var a := AddressTypeIndex(buf);
    var t := buf[a];
    if t == 1 then a + 5 else if t == 2 then a + 2 + buf[a + 1] as int else a + 17
  }

  /** The request an accepted input carries. */
  function RequestOf(buf: seq<byte>): (req: Request)
    requires Accepted(buf)
    ensures ValidRequest(req)
  {
    var c := CommandIndex(buf);
    Request(buf[0], buf[1..17], buf[18..c], buf[c], BigEndian16(buf[c + 1], buf[c + 2]), TargetOf(buf))
  }

  /** The target an accepted input names. */
  function TargetOf(buf: seq<byte>): (t: Target)
    requires Accepted(buf)
    ensures ValidTarget(t)
  {
    var a := AddressTypeIndex(buf);
    if buf[a] == 1 then Ipv4Target(buf[a + 1..a + 5])
    else if buf[a] == 2 then
      var d := buf[a + 2..a + 2 + buf[a + 1] as int];
      DecodeUtf8Correct(d);
      DomainTarget(DecodeUtf8(d))
    else Ipv6Target(buf[a + 1..a + 17])
  }

  lemma TargetOctetsOf(buf: seq<byte>)
    requires Accepted(buf)
    ensures AddressTypeIndex(buf) <= HeaderLength(buf)
    ensures TargetOctets(RequestOf(buf).target) == buf[AddressTypeIndex(buf)..HeaderLength(buf)]
  {
    var a, n := AddressTypeIndex(buf), HeaderLength(buf);
    assert buf[a..n] == [buf[a]] + buf[a + 1..n];
    if buf[a] == 2 {
      DomainOctetsOf(buf);
    } else {
      assert TargetOctets(RequestOf(buf).target) == [buf[a]] + buf[a + 1..n] by {
        if buf[a] == 1 {
          assert RequestOf(buf).target == TargetOf(buf) == Ipv4Target(buf[a + 1..n]);
        } else {
          assert RequestOf(buf).target == TargetOf(buf) == Ipv6Target(buf[a + 1..n]);
        }
      }
    }
  }

  lemma DomainOctetsOf(buf: seq<byte>)
    requires Accepted(buf) && buf[AddressTypeIndex(buf)] == 2
    ensures var a := AddressTypeIndex(buf);
      TargetOctets(RequestOf(buf).target) == [buf[a]] + buf[a + 1..HeaderLength(buf)]
  {
    var a, n := AddressTypeIndex(buf), HeaderLength(buf);
    var d := buf[a + 2..n];
    var t := RequestOf(buf).target;
    assert t == TargetOf(buf) == DomainTarget(DecodeUtf8(d));
    DomainTargetOctets(d);
    DomainSlice(buf, a, n);
    assert TargetOctets(t) == [2, |d|] + d;
  }

  /** The octets of a domain address, split into its type, length and name. */
  lemma DomainSlice(buf: seq<byte>, a: nat, n: nat)
    requires a + 2 <= n <= |buf| && buf[a] == 2 && buf[a + 1] as int == n - a - 2
    ensures [buf[a]] + buf[a + 1..n] == [2, n - a - 2] + buf[a + 2..n]
  {
    assert buf[a + 1..n] == [buf[a + 1]] + buf[a + 2..n];
  }

  /** A domain decoded from well-formed octets is re-encoded as those octets, length first. */
  lemma DomainTargetOctets(d: seq<byte>)
    requires ValidUtf8(d) && |d| <= 255
    ensures EncodeUtf8(DecodeUtf8(d)) == d
    ensures TargetOctets(DomainTarget(DecodeUtf8(d))) == [2, |d|] + d
  {
    DecodeUtf8Correct(d);
  }

  /** The request read from an accepted input encodes back to the header's octets. */
  lemma RequestOfEncodes(buf: seq<byte>)
    requires Accepted(buf)
    ensures Encode(RequestOf(buf)) == buf[..HeaderLength(buf)]
  {
    TargetOctetsOf(buf);
    var req := RequestOf(buf);
    var n := HeaderLength(buf);
    var a := AddressTypeIndex(buf);
    var c := CommandIndex(buf);
    var port := BigEndian16(buf[c + 1], buf[c + 2]);
    assert [port / 256, port % 256] == buf[c + 1..c + 3];
    var prefix := [buf[0]] + buf[1..17] + [buf[17]] + buf[18..c] + [buf[c], port / 256, port % 256];
    assert prefix == buf[..a];
    assert buf[..n] == buf[..a] + buf[a..n];
  }

  /**
   * Every accepted input is a valid request's encoding followed by payload,
   * and the decoder reports exactly that request's header.
   */
  lemma AcceptedIsEncoded(buf: seq<byte>)
    requires ParseHeader(buf).Ok?
    ensures Accepted(buf)
    ensures var req := RequestOf(buf);
      buf == Encode(req) + buf[HeaderLength(buf)..] && ParseHeader(buf) == Ok(Expected(req))
  {
    AcceptedIff(buf);
    var req := RequestOf(buf);
    var n := HeaderLength(buf);
    RequestOfEncodes(buf);
    assert buf == buf[..n] + buf[n..];
    ParseEncoded(req, buf[n..]);
  }

  /** Appending octets to an accepted input never changes the decoded header. */
  lemma ExtensionStable(buf: seq<byte>, more: seq<byte>)
    requires ParseHeader(buf).Ok?
    ensures ParseHeader(buf + more) == ParseHeader(buf)
  {
    var req := RequestOf(buf);
    var rest := buf[HeaderLength(buf)..];
    AcceptedIsEncoded(buf);
    assert buf + more == Encode(req) + (rest + more);
    ParseEncoded(req, rest + more);
  }

  /**
   * A strict prefix of a valid request's encoding is always rejected, and only
   * with a message saying that data is missing, never one saying that a
   * present field is wrong.
   */
  lemma TruncatedRejected(req: Request, k: nat)
    requires ValidRequest(req) && k < |Encode(req)|
    ensures var r := ParseHeader(Encode(req)[..k]);
      r.Err? &&
      r.error in {BufferTooSmall, InvalidCommandIndex, MissingPort, MissingAddressType,
                  Ipv4MissingBytes, DomainLengthMissing, DomainBytesMissing, Ipv6MissingBytes}
  {
    var e := Encode(req);
    var p := e[..k];
    if k >= MinLength {
      var L := |req.addon|;
      var c := 18 + L;
      var t := TargetOctets(req.target);
      assert e[17] == L;
      assert p[17] == L;
      assert CommandIndex(p) == c;
      if c < k {
        assert p[c] == e[c] == req.command;
        var a := c + 3;
        if a < k {
          assert AddressTypeIndex(p) == a && HasAddressType(p);
          assert e[a..] == t;
          assert p[a] == e[a] == t[0];
          HeaderFromAddress(p);
          if t[0] == 2 {
            assert |e| == a + |t|;
            if a + 1 < k {
              assert p[a + 1] == e[a + 1] == t[1] == |t| - 2;
            }
          }
        }
      }
    }
  }

  /**
   * The 24-octet minimum rejects one complete header: with no addon and an
   * empty domain name the encoding is only 23 octets long.
   */
  lemma EmptyDomainHeaderTooSmall(id: seq<byte>)
    requires |id| == 16
    ensures var req := Request(0, id, [], 1, 80, DomainTarget(""));
      ValidRequest(req) && |Encode(req)| == 23 && ParseHeader(Encode(req)) == Err(BufferTooSmall)
  {
  }
}
