# VLESS request-header decoder

A Dafny model of `parse_vless_header` and its helpers from `src/rust/src/lib.rs`.
This is the native decoder behind a tunnelling worker. It reads the binary VLESS
request header at the start of a client connection. It returns either the
header record (`VlessHeader`: account id as a UUID string, command, address
type, target address as text, port) or one of twelve error messages.

Wire layout. `L` is the addon-length octet and `c = 18 + L` is the command index.

| offset | size | field |
|---|---|---|
| 0 | 1 | version (read, never checked) |
| 1 | 16 | account id |
| 17 | 1 | addon length `L` |
| 18 | `L` | addon block (skipped) |
| c | 1 | command, 1 or 2 |
| c+1 | 2 | port, big-endian |
| c+3 | 1 | address type: 1 IPv4, 2 domain, 3 IPv6 |
| c+4 | 4, or 1+n, or 16 | address |

Modules, one per concern of the source file:

- `Base` (`base.dfy`): `byte`, `u16`, `BigEndian16` (`u16::from_be_bytes`), `Option`, `Result`.
- `Text` (`text.dfy`): digits in base 10/16, `Numeral` (Rust's `{}`/`{:x}` on
  unsigned integers), its inverse `NumeralValue`, and `Join` and `Split` on one character.
- `Utf8` (`utf8.dfy`): well-formed UTF-8 as in section 4 of RFC 3629. This
  stands in for `std::str::from_utf8`. It gives the decoder to Unicode scalar
  values and its inverse encoder.
- `Address` (`address.dfy`): `parse_ipv4` (`Ipv4Text`) and `parse_ipv6` (`Groups`, `Ipv6Text`).
- `Uuid` (`uuid.dfy`): the `{:02x}` formatting loop (`FormatUuid`, specified by
  `UuidText`). Also the canonical 8-4-4-4-12 layout of section 3 of RFC 4122, and
  `UuidBytes`, which reads the 16 octets back.
- `Vless` (`vless.dfy`): the `Header` record and the `ParseError` variants.
  `Message` holds the exact error strings. The decoder appears twice: as the
  function `ParseHeader`, and as the method `ParseVlessHeader`, which has the
  source's early returns and its mutable `address`. The module also holds one
  lemma per field rule.
- `VlessEncoding` (`encoding.dfy`): the client-side encoder `Encode`, the
  inverse of the decoder. Decoding an encoding yields the expected header.
  Every accepted input is an encoding followed by payload. Appending octets never
  changes an accepted header. A strict prefix of an encoding is always rejected,
  and only with a message that says data is missing.

Behaviour of the decoder worth noting:

- the version octet is not checked;
- there is no separate "incomplete" versus "invalid" outcome, only the twelve messages;
- no payload offset is returned;
- the domain may be any well-formed UTF-8, not only ASCII;
- the 24-octet minimum is checked before any field is read, so a complete
  23-octet header (no addon, empty domain name) is rejected as "buffer too small".

## Model

| member | source | states |
|---|---|---|
| Base.BigEndian16 | src/rust/src/lib.rs:67 | the value's high octet is `hi` and its low octet is `lo` |
| Text.NumeralCorrect | src/rust/src/lib.rs:13-24 | the rendering of `n` has no leading zero, uses only lowercase digits of the base, and denotes `n` |
| Text.CanonicalUnique | src/rust/src/lib.rs:13-24 | a canonical digit string is exactly the rendering of its value |
| Text.NumeralInjective | src/rust/src/lib.rs:13-24 | distinct numbers render differently |
| Text.SplitJoin | src/rust/src/lib.rs:13-24 | splitting a join on its separator returns the parts, if no part contains the separator |
| Text.JoinNoDoubleSep | src/rust/src/lib.rs:17-24 | joining non-empty parts never puts two separators next to each other |
| Address.Groups | src/rust/src/lib.rs:17-22 | one 16-bit group per two octets, as `hi * 256 + lo`; a lone last octet gets `lo = 0` |
| Address.Ipv4Fields | src/rust/src/lib.rs:13-15 | one '.'-separated field per octet; each field is canonical decimal and denotes its octet |
| Address.Ipv4TextInjective | src/rust/src/lib.rs:13-15 | the IPv4 text determines the octets |
| Address.HexWidth | src/rust/src/lib.rs:21 | `{:x}` of a `u16` has at most four digits |
| Address.Ipv6Fields | src/rust/src/lib.rs:17-24 | one ':'-separated field per group; each field is 1-4 canonical lowercase hex digits and denotes its group; the text never contains "::" |
| Address.Ipv6EightGroups | src/rust/src/lib.rs:17-24 | sixteen octets give exactly eight fields; field i denotes the big-endian value of octets 2i and 2i+1 |
| Address.Ipv6TextInjective | src/rust/src/lib.rs:17-24 | the IPv6 text of sixteen octets determines them |
| Uuid.HexOctetsAt | src/rust/src/lib.rs:38-42 | the hex buffer has two digits per octet: the high nibble, then the low nibble |
| Uuid.FormatUuid | src/rust/src/lib.rs:36-45 | the appending loop and the 8-4-4-4-12 cut produce the id's canonical text |
| Uuid.UuidTextCorrect | src/rust/src/lib.rs:36-45 | the text is 36 characters, with hyphens at 8, 13, 18 and 23 and lowercase hex digits elsewhere; reading it back gives the 16 octets |
| Uuid.UuidBytesCorrect | src/rust/src/lib.rs:36-45 | every canonical text is the text of the octets it spells |
| Uuid.UuidTextInjective | src/rust/src/lib.rs:36-45 | distinct account ids never share a text |
| Utf8.EncodeCharCorrect | src/rust/src/lib.rs:93-96 | a scalar value's encoding is one well-formed character that decodes back to it |
| Utf8.DecodeCharCorrect | src/rust/src/lib.rs:93-96 | re-encoding a decoded well-formed character gives the same octets |
| Utf8.DecodeUtf8Correct | src/rust/src/lib.rs:93-96 | well-formed octets are exactly the encoding of the string they decode to |
| Utf8.EncodeUtf8Correct | src/rust/src/lib.rs:93-96 | every string encodes to well-formed octets that decode back to it |
| Utf8.EncodeUtf8Injective | src/rust/src/lib.rs:93-96 | two strings with the same octets are equal |
| Vless.MessageInjective | src/rust/src/lib.rs:28-106 | each error variant has its own message text |
| Vless.ParseAddress | src/rust/src/lib.rs:79-107 | an address is produced only for address types 1, 2 and 3 |
| Vless.ParseHeader | src/rust/src/lib.rs:27-115 | a success needs at least 24 octets and gives a 36-character uuid, command 1 or 2, and address type 1, 2 or 3 |
| Vless.ParseVlessHeader | src/rust/src/lib.rs:27-115 | the step-by-step decoder, with its hex loop, early returns and mutable address, returns exactly `ParseHeader(buf)` |
| Vless.ShortBufferRejected | src/rust/src/lib.rs:28-30 | "buffer too small" is returned exactly for inputs shorter than 24 octets |
| Vless.InvalidPayloadUnreachable | src/rust/src/lib.rs:47-50 | "invalid payload" is never returned |
| Vless.VersionIgnored | src/rust/src/lib.rs:32-33 | replacing octet 0 never changes the outcome |
| Vless.SuccessUuid | src/rust/src/lib.rs:36-45 | on success the uuid is canonical, with hyphens at 8, 13, 18 and 23, and reads back to octets 1..17 |
| Vless.CommandRule | src/rust/src/lib.rs:52-61 | the command is the octet at `18 + buf[17]`; "invalid command index" exactly when that index is past the end; "unsupported command" exactly when the octet is not 1 or 2 |
| Vless.PortRule | src/rust/src/lib.rs:63-67 | "missing port" exactly when fewer than two octets follow the command; on success the port is `buf[c+1]*256 + buf[c+2]` |
| Vless.AddressTypeRule | src/rust/src/lib.rs:69-107 | "missing address type" exactly when the input ends after the port; "invalid address type" exactly when the type is not 1, 2 or 3; on success the type is that octet |
| Vless.HeaderFromAddress | src/rust/src/lib.rs:75-115 | once the type octet is present, the outcome is the address block's error, or a header built from the fields read so far |
| Vless.AddressLocal | src/rust/src/lib.rs:79-107 | the address block depends only on octets from the type index on |
| Vless.Ipv4Rule | src/rust/src/lib.rs:80-86 | "ipv4 missing bytes" exactly when four octets do not follow; otherwise the address has four canonical decimal fields, field i equal to octet i |
| Vless.DomainRule | src/rust/src/lib.rs:87-98 | "domain length missing", "domain bytes missing" and "domain utf8 error" each exactly under its condition; on success the address's UTF-8 octets are exactly the n domain octets |
| Vless.Ipv6Rule | src/rust/src/lib.rs:99-105 | "ipv6 missing bytes" exactly when sixteen octets do not follow; otherwise the address has eight canonical hex groups of the big-endian pairs, and no "::" |
| VlessEncoding.ParseEncoded | src/rust/src/lib.rs:27-115 | decoding any valid request's encoding, followed by any payload, gives the request's header |
| VlessEncoding.AcceptedIff | src/rust/src/lib.rs:48-107 | the decoder succeeds exactly on inputs with the accepted layout |
| VlessEncoding.AcceptedIsEncoded | src/rust/src/lib.rs:27-115 | every accepted input is a valid request's encoding followed by payload, and decodes to that request's header |
| VlessEncoding.ExtensionStable | src/rust/src/lib.rs:48-107 | appending octets to an accepted input leaves the decoded header unchanged |
| VlessEncoding.DomainTargetOctets | src/rust/src/lib.rs:87-98 | a domain target read from well-formed octets re-encodes as its length octet followed by exactly those octets |
| VlessEncoding.TruncatedRejected | src/rust/src/lib.rs:28-105 | every strict prefix of a valid request's encoding is rejected, and only with a message that says data is missing |
| VlessEncoding.EmptyDomainHeaderTooSmall | src/rust/src/lib.rs:28-30 | a valid request with no addon and an empty domain name encodes to 23 octets and is rejected as "buffer too small" |

## Left out

- The `wasm_bindgen`/`JsValue` boundary (lib.rs:1, lib.rs:26-27): errors are `ParseError` values. `Message` gives the string each one carries.
- JSON serialisation with `serde_json::to_string` and its "serialize error" branch (lib.rs:117-120): it is a library call the model cannot see. The model returns the header record itself.
- `address_len` (lib.rs:76, 85, 97, 104): it is assigned but never used, so the model does not compute it.
- Rust's `String` representation: the uuid and address are Dafny strings of Unicode scalar values. The domain is the decoded string; its UTF-8 octets are related back by `EncodeUtf8`.
- Account lookup, quota checks, usage metering and the relay loop are not part of this model. They are not in `src/rust/src/lib.rs`, and they are store and network I/O.
- Never reading out of bounds is not a separate lemma. It follows from every index and slice in `ParseHeader` and `ParseVlessHeader` passing Dafny's bounds checks with no precondition on the input.
