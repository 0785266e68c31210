/**
 * UTF-8 as defined in section 4 of RFC 3629, standing in for Rust's
 * `std::str::from_utf8`: a well-formedness predicate over octets, the decoder
 * to Unicode scalar values (Dafny's `char`), and the encoder that inverts it.
 */
module Utf8 {
  import opened Base

  /** UTF8-tail = %x80-BF */
  predicate IsTail(b: byte) {
    0x80 <= b <= 0xBF
  }

  /** The number of octets of the character a lead octet opens, or 0 if it opens none. */
  function SequenceLength(lead: byte): (n: nat)
    ensures n <= 4
  {
    if lead <= 0x7F then 1
    else if 0xC2 <= lead <= 0xDF then 2
    else if 0xE0 <= lead <= 0xEF then 3
    else if 0xF0 <= lead <= 0xF4 then 4
    else 0
  }

  /** `s` is exactly one UTF8-char of the RFC 3629 grammar. */
  predicate WellFormedChar(s: seq<byte>) {
    (|s| == 1 && s[0] <= 0x7F) ||
    (|s| == 2 && 0xC2 <= s[0] <= 0xDF && IsTail(s[1])) ||
    (|s| == 3 &&
      ((s[0] == 0xE0 && 0xA0 <= s[1] <= 0xBF && IsTail(s[2])) ||
       (0xE1 <= s[0] <= 0xEC && IsTail(s[1]) && IsTail(s[2])) ||
       (s[0] == 0xED && 0x80 <= s[1] <= 0x9F && IsTail(s[2])) ||
       (0xEE <= s[0] <= 0xEF && IsTail(s[1]) && IsTail(s[2])))) ||
    (|s| == 4 &&
      ((s[0] == 0xF0 && 0x90 <= s[1] <= 0xBF && IsTail(s[2]) && IsTail(s[3])) ||
       (0xF1 <= s[0] <= 0xF3 && IsTail(s[1]) && IsTail(s[2]) && IsTail(s[3])) ||
       (s[0] == 0xF4 && 0x80 <= s[1] <= 0x8F && IsTail(s[2]) && IsTail(s[3]))))
  }

  /** UTF8-octets = *( UTF8-char ), split at the length each lead octet announces. */
  predicate ValidUtf8(s: seq<byte>)
    decreases |s|
  {
    if s == [] then true
    else
      var n := SequenceLength(s[0]);
      1 <= n <= |s| && WellFormedChar(s[..n]) && ValidUtf8(s[n..])
  }

  /** The lead octet of a well-formed character announces the character's length. */
  lemma CharLength(s: seq<byte>)
    requires WellFormedChar(s)
    ensures SequenceLength(s[0]) == |s|
  {
  }

  /** The scalar value one well-formed character encodes. */
  function DecodeChar(s: seq<byte>): (c: char)
    requires WellFormedChar(s)
  {
    var v: int :=
      if |s| == 1 then s[0]
      else if |s| == 2 then (s[0] - 0xC0) as int * 64 + (s[1] - 0x80)
      else if |s| == 3 then (s[0] - 0xE0) as int * 4096 + (s[1] - 0x80) as int * 64 + (s[2] - 0x80)
      else (s[0] - 0xF0) as int * 262144 + (s[1] - 0x80) as int * 4096 + (s[2] - 0x80) as int * 64 + (s[3] - 0x80);
    v as char
  }

  /** The shortest octet sequence for a scalar value. */
  function EncodeChar(c: char): seq<byte> {
    var n := c as int;
    if n < 0x80 then [n]
    else if n < 0x800 then [0xC0 + n / 64, 0x80 + n % 64]
    else if n < 0x10000 then [0xE0 + n / 4096, 0x80 + (n / 64) % 64, 0x80 + n % 64]
    else [0xF0 + n / 262144, 0x80 + (n / 4096) % 64, 0x80 + (n / 64) % 64, 0x80 + n % 64]
  }

  /** Encoding a scalar value gives one well-formed character that decodes back to it. */
  lemma EncodeCharCorrect(c: char)
    ensures WellFormedChar(EncodeChar(c))
    ensures DecodeChar(EncodeChar(c)) == c
  {
    var n := c as int;
    if n >= 0x10000 {
      EncodeFour(n);
    } else if n >= 0x800 {
      EncodeThree(n);
    } else if n >= 0x80 {
      var a, b := n / 64, n % 64;
      assert n == a * 64 + b;
    }
  }

  lemma EncodeThree(n: int)
    requires 0x800 <= n < 0x10000 && (n < 0xD800 || 0xE000 <= n)
    ensures var s := [0xE0 + n / 4096, 0x80 + (n / 64) % 64, 0x80 + n % 64];
      WellFormedChar(s) && (s[0] - 0xE0) * 4096 + (s[1] - 0x80) * 64 + (s[2] - 0x80) == n
  {
    var a, b, d := n / 4096, (n / 64) % 64, n % 64;
    assert n / 64 == a * 64 + b;
    assert n == a * 4096 + b * 64 + d;
    assert a == 0 ==> b >= 0x20;
    assert a == 0xD ==> b < 0x20;
  }

  lemma EncodeFour(n: int)
    requires 0x10000 <= n <= 0x10FFFF
    ensures var s := [0xF0 + n / 262144, 0x80 + (n / 4096) % 64, 0x80 + (n / 64) % 64, 0x80 + n % 64];
      WellFormedChar(s) &&
      (s[0] - 0xF0) * 262144 + (s[1] - 0x80) * 4096 + (s[2] - 0x80) * 64 + (s[3] - 0x80) == n
  {
    var a, b, d, e := n / 262144, (n / 4096) % 64, (n / 64) % 64, n % 64;
    assert n / 4096 == a * 64 + b;
    assert n / 64 == (a * 64 + b) * 64 + d;
    assert n == a * 262144 + b * 4096 + d * 64 + e;
    assert a == 0 ==> b >= 0x10;
    assert a == 4 ==> b < 0x10;
  }

  /** Decoding a well-formed character and encoding it again gives the same octets. */
  lemma DecodeCharCorrect(s: seq<byte>)
    requires WellFormedChar(s)
    ensures EncodeChar(DecodeChar(s)) == s
  {
    if |s| == 2 {
      DecodeTwoCorrect(s);
    } else if |s| == 3 {
      DecodeThreeCorrect(s);
    } else if |s| == 4 {
      DecodeFourCorrect(s);
    }
  }

  lemma DecodeTwoCorrect(s: seq<byte>)
    requires WellFormedChar(s) && |s| == 2
    ensures EncodeChar(DecodeChar(s)) == s
  {
    var x, y: int := s[0] - 0xC0, s[1] - 0x80;
    assert DecodeChar(s) as int == x * 64 + y;
    DecodeTwo(x, y);
    assert EncodeChar(DecodeChar(s)) == [0xC0 + x, 0x80 + y];
  }

  lemma DecodeThreeCorrect(s: seq<byte>)
    requires WellFormedChar(s) && |s| == 3
    ensures EncodeChar(DecodeChar(s)) == s
  {
    var x, y, z: int := s[0] - 0xE0, s[1] - 0x80, s[2] - 0x80;
    assert DecodeChar(s) as int == x * 4096 + y * 64 + z;
    DecodeThree(x, y, z);
    assert EncodeChar(DecodeChar(s)) == [0xE0 + x, 0x80 + y, 0x80 + z];
  }

  lemma DecodeFourCorrect(s: seq<byte>)
    requires WellFormedChar(s) && |s| == 4
    ensures EncodeChar(DecodeChar(s)) == s
  {
    var w, x, y, z: int := s[0] - 0xF0, s[1] - 0x80, s[2] - 0x80, s[3] - 0x80;
    assert DecodeChar(s) as int == w * 262144 + x * 4096 + y * 64 + z;
    DecodeFour(w, x, y, z);
    assert EncodeChar(DecodeChar(s)) == [0xF0 + w, 0x80 + x, 0x80 + y, 0x80 + z];
  }

  lemma DecodeTwo(x: int, y: int)
    requires 0 <= x < 32 && 0 <= y < 64
    ensures var n := x * 64 + y; n / 64 == x && n % 64 == y
  {
  }

  lemma DecodeThree(x: int, y: int, z: int)
    requires 0 <= x < 16 && 0 <= y < 64 && 0 <= z < 64
    ensures var n := x * 4096 + y * 64 + z;
      n / 4096 == x && (n / 64) % 64 == y && n % 64 == z
  {
    var n := x * 4096 + y * 64 + z;
    assert n / 64 == x * 64 + y;
  }

  lemma DecodeFour(w: int, x: int, y: int, z: int)
    requires 0 <= w < 8 && 0 <= x < 64 && 0 <= y < 64 && 0 <= z < 64
    ensures var n := w * 262144 + x * 4096 + y * 64 + z;
      n / 262144 == w && (n / 4096) % 64 == x && (n / 64) % 64 == y && n % 64 == z
  {
    var n := w * 262144 + x * 4096 + y * 64 + z;
    assert n / 4096 == w * 64 + x;
    assert n / 64 == w * 4096 + x * 64 + y;
  }

  /** The string well-formed octets spell. */
  function DecodeUtf8(s: seq<byte>): string
    requires ValidUtf8(s)
    decreases |s|
  {
    if s == [] then ""
    else
      var n := SequenceLength(s[0]);
      [DecodeChar(s[..n])] + DecodeUtf8(s[n..])
  }

  /** The UTF-8 octets of a string, one character after another. */
  function EncodeUtf8(str: string): seq<byte>
    decreases |str|
  {
    if str == [] then [] else EncodeChar(str[0]) + EncodeUtf8(str[1..])
  }

  /** Well-formed octets are exactly the encoding of what they decode to. */
  lemma {:induction false} DecodeUtf8Correct(s: seq<byte>)
    requires ValidUtf8(s)
    ensures EncodeUtf8(DecodeUtf8(s)) == s
    decreases |s|
  {
    if s != [] {
      var n := SequenceLength(s[0]);
      var c, rest := DecodeChar(s[..n]), DecodeUtf8(s[n..]);
      DecodeCharCorrect(s[..n]);
      DecodeUtf8Correct(s[n..]);
      var str := [c] + rest;
      assert DecodeUtf8(s) == str;
      assert str[0] == c && str[1..] == rest;
      assert EncodeUtf8(str) == EncodeChar(c) + EncodeUtf8(rest);
      assert s == s[..n] + s[n..];
    }
  }

  /** Every string encodes to well-formed octets that decode back to it. */
  lemma {:induction false} EncodeUtf8Correct(str: string)
    ensures ValidUtf8(EncodeUtf8(str))
    ensures DecodeUtf8(EncodeUtf8(str)) == str
    decreases |str|
  {
    if str != [] {
      var head, rest := EncodeChar(str[0]), EncodeUtf8(str[1..]);
      var s := EncodeUtf8(str);
      EncodeCharCorrect(str[0]);
      CharLength(head);
      EncodeUtf8Correct(str[1..]);
      assert s == head + rest;
      assert s[0] == head[0];
      assert s[..|head|] == head;
      assert s[|head|..] == rest;
      assert str == [str[0]] + str[1..];
    }
  }

  /** Two strings with the same UTF-8 octets are the same string. */
  lemma EncodeUtf8Injective(a: string, b: string)
    requires EncodeUtf8(a) == EncodeUtf8(b)
    ensures a == b
  {
    EncodeUtf8Correct(a);
    EncodeUtf8Correct(b);
  }
}
