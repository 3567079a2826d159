/** UTF-8 (RFC 3629), the charset AesGcmCryptoService uses between a field's
    text and the bytes the cipher sees: `getBytes(UTF_8)` on the way in and
    `new String(bytes, UTF_8)` on the way out. Strings are sequences of
    Unicode scalar values. */
module Utf8 {
  import opened JavaLang

  /** The number of bytes UTF-8 spends on c. */
  function Width(c: char): (n: nat)
    ensures 1 <= n <= 4
  {
    var v := c as int;
    if v < 0x80 then 1 else if v < 0x800 then 2 else if v < 0x1_0000 then 3 else 4
  }

  /** A continuation byte, 10xxxxxx. */
  predicate IsContinuation(b: byte)
  {
    0x80 <= b < 0xC0
  }

  /** The bytes of one scalar value. */
  function EncodeChar(c: char): (b: seq<byte>)
    ensures |b| == Width(c)
  {
    var v := c as int;
    if v < 0x80 then [v]
    else if v < 0x800 then [0xC0 + v / 64, 0x80 + v % 64]
    else if v < 0x1_0000 then [0xE0 + v / 4096, 0x80 + (v / 64) % 64, 0x80 + v % 64]
    else [0xF0 + v / 262144, 0x80 + (v / 4096) % 64, 0x80 + (v / 64) % 64, 0x80 + v % 64]
  }

  /** `s.getBytes(StandardCharsets.UTF_8)`. */
  function Encode(s: string): (b: seq<byte>)
    ensures |b| == EncodedLength(s)
    ensures |b| >= |s|
  {
    if s == [] then [] else EncodeChar(s[0]) + Encode(s[1..])
  }

  /** The sum of the widths of the characters of s. */
  function EncodedLength(s: string): nat
  {
    if s == [] then 0 else Width(s[0]) + EncodedLength(s[1..])
  }

  const Replacement: char := '�'

  /** The value bits of a two-, three- and four-byte sequence. */
  function Payload2(b0: int, b1: int): int { (b0 - 0xC0) * 64 + (b1 - 0x80) }
  function Payload3(b0: int, b1: int, b2: int): int { (b0 - 0xE0) * 4096 + (b1 - 0x80) * 64 + (b2 - 0x80) }
  function Payload4(b0: int, b1: int, b2: int, b3: int): int
  {
    (b0 - 0xF0) * 262144 + (b1 - 0x80) * 4096 + (b2 - 0x80) * 64 + (b3 - 0x80)
  }

  /** The scalar value at the start of b and the number of bytes it takes;
      a malformed byte decodes to U+FFFD and takes one byte. */
  function DecodeOne(b: seq<byte>): (r: (char, nat))
    requires |b| > 0
    ensures 1 <= r.1 <= |b|
  {
    var b0: int := b[0];
    if b0 < 0x80 then
      (b0 as char, 1)
    else if 0xC2 <= b0 < 0xE0 && |b| >= 2 && IsContinuation(b[1]) then
      (Payload2(b0, b[1]) as char, 2)
    else if 0xE0 <= b0 < 0xF0 && |b| >= 3 && IsContinuation(b[1]) && IsContinuation(b[2]) then
      var v := Payload3(b0, b[1], b[2]);
      if 0x800 <= v && !(0xD800 <= v < 0xE000) then (v as char, 3) else (Replacement, 1)
    else if 0xF0 <= b0 < 0xF5 && |b| >= 4
            && IsContinuation(b[1]) && IsContinuation(b[2]) && IsContinuation(b[3]) then
      var v := Payload4(b0, b[1], b[2], b[3]);
      if 0x1_0000 <= v < 0x11_0000 then (v as char, 4) else (Replacement, 1)
    else
      (Replacement, 1)
  }

  /** `new String(b, StandardCharsets.UTF_8)`. */
  function Decode(b: seq<byte>): string
    decreases |b|
  {
    if b == [] then [] else var (c, n) := DecodeOne(b); [c] + Decode(b[n..])
  }

  /** Decoding reads back the scalar value that EncodeChar wrote, whatever
      follows it. */
  lemma DecodeOneEncodeChar(c: char, rest: seq<byte>)
    ensures DecodeOne(EncodeChar(c) + rest) == (c, Width(c))
  {
    var v := c as int;
    var b := EncodeChar(c) + rest;
    if v < 0x80 {
    } else if v < 0x800 {
      assert b[0] == 0xC0 + v / 64 && b[1] == 0x80 + v % 64;
      assert Payload2(b[0], b[1]) == v;
    } else if v < 0x1_0000 {
      assert b[0] == 0xE0 + v / 4096 && b[1] == 0x80 + (v / 64) % 64 && b[2] == 0x80 + v % 64;
      Split3(v);
      assert Payload3(b[0], b[1], b[2]) == v;
    } else {
      assert b[0] == 0xF0 + v / 262144 && b[1] == 0x80 + (v / 4096) % 64;
      assert b[2] == 0x80 + (v / 64) % 64 && b[3] == 0x80 + v % 64;
      Split4(v);
      assert Payload4(b[0], b[1], b[2], b[3]) == v;
    }
  }

  lemma Split3(v: nat)
    ensures (v / 4096) * 4096 + ((v / 64) % 64) * 64 + v % 64 == v
  {
    assert v == (v / 64) * 64 + v % 64;
    assert v / 64 == (v / 4096) * 64 + (v / 64) % 64;
  }

  lemma Split4(v: nat)
    ensures (v / 262144) * 262144 + ((v / 4096) % 64) * 4096 + ((v / 64) % 64) * 64 + v % 64 == v
  {
    Split3(v);
    assert v / 4096 == (v / 262144) * 64 + (v / 4096) % 64;
  }

  /** Decoding undoes encoding: a text survives the round trip through its
      UTF-8 bytes. */
  lemma {:induction false} DecodeEncode(s: string)
    ensures Decode(Encode(s)) == s
  {
    if s != [] {
      var head, tail := EncodeChar(s[0]), Encode(s[1..]);
      DecodeOneEncodeChar(s[0], tail);
      assert (head + tail)[|head|..] == tail;
      DecodeEncode(s[1..]);
    }
  }
}
