/** Base64 as `java.util.Base64` does it (RFC 4648): the basic encoder with
    padding (section 4) used for the encrypted-field envelope and the master
    key, and the URL-safe encoder without padding (section 5) used for the
    refresh-token parts. */
module Base64 {
  import opened Wrappers
  import opened JavaLang

  /** A six-bit group, the value one Base64 character stands for. */
  type sextet = v: int | 0 <= v < 64

  /** The two alphabets: they differ only in the characters for 62 and 63. */
  datatype Alphabet = Standard | UrlSafe

  const Pad: char := '='

  /** The character for v in alphabet a. */
  function CharOf(a: Alphabet, v: sextet): char
  {
    if v < 26 then ('A' as int + v) as char
    else if v < 52 then ('a' as int + v - 26) as char
    else if v < 62 then ('0' as int + v - 52) as char
    else if v == 62 then (if a == Standard then '+' else '-')
    else (if a == Standard then '/' else '_')
  }

  /** The value of c in alphabet a, or None when c is not in it. */
  function ValueOf(a: Alphabet, c: char): (r: Option<sextet>)
    ensures r.Some? ==> CharOf(a, r.value) == c
  {
    if 'A' <= c <= 'Z' then Some(c as int - 'A' as int)
    else if 'a' <= c <= 'z' then Some(c as int - 'a' as int + 26)
    else if '0' <= c <= '9' then Some(c as int - '0' as int + 52)
    else if c == (if a == Standard then '+' else '-') then Some(62)
    else if c == (if a == Standard then '/' else '_') then Some(63)
    else None
  }

  /** Every character an alphabet uses decodes back to its value. */
  lemma ValueOfCharOf(a: Alphabet, v: sextet)
    ensures ValueOf(a, CharOf(a, v)) == Some(v)
  {
  }

  /** The characters of three bytes. */
  function EncodeTriple(a: Alphabet, b0: byte, b1: byte, b2: byte): string
  {
    [CharOf(a, b0 / 4), CharOf(a, (b0 % 4) * 16 + b1 / 16), CharOf(a, (b1 % 16) * 4 + b2 / 64), CharOf(a, b2 % 64)]
  }

  /** The number of characters n bytes encode to. */
  function EncodedLength(n: nat, padded: bool): nat
  {
    if padded then 4 * ((n + 2) / 3)
    else 4 * (n / 3) + (if n % 3 == 0 then 0 else n % 3 + 1)
  }

  /** A character the encoder may emit: one of the alphabet, or the pad
      character when padding. */
  predicate Emitted(a: Alphabet, padded: bool, c: char)
  {
    ValueOf(a, c).Some? || (padded && c == Pad)
  }

  /** `Base64.getEncoder().encodeToString(b)` (Standard, padded) and
      `Base64.getUrlEncoder().withoutPadding().encodeToString(b)` (UrlSafe,
      unpadded). */
  function Encode(a: Alphabet, padded: bool, b: seq<byte>): (s: string)
    ensures |s| == EncodedLength(|b|, padded)
    ensures forall i :: 0 <= i < |s| ==> Emitted(a, padded, s[i])
    decreases |b|
  {
    if |b| == 0 then []
    else if |b| == 1 then
      var v0, v1 := b[0] / 4, (b[0] % 4) * 16;
      ValueOfCharOf(a, v0);
      ValueOfCharOf(a, v1);
      [CharOf(a, v0), CharOf(a, v1)] + (if padded then [Pad, Pad] else [])
    else if |b| == 2 then
      var v0, v1, v2 := b[0] / 4, (b[0] % 4) * 16 + b[1] / 16, (b[1] % 16) * 4;
      ValueOfCharOf(a, v0);
      ValueOfCharOf(a, v1);
      ValueOfCharOf(a, v2);
      [CharOf(a, v0), CharOf(a, v1), CharOf(a, v2)] + (if padded then [Pad] else [])
    else
      var rest := Encode(a, padded, b[3..]);
      var head := EncodeTriple(a, b[0], b[1], b[2]);
      TripleEmitted(a, b[0], b[1], b[2]);
      EncodedLengthStep(|b|, padded);
      head + rest
  }

  /** A group of three bytes encodes ahead of the rest. */
  lemma EncodeStep(a: Alphabet, padded: bool, b: seq<byte>)
    requires |b| >= 3
    ensures Encode(a, padded, b) == EncodeTriple(a, b[0], b[1], b[2]) + Encode(a, padded, b[3..])
  {
  }

  /** Each group of three bytes adds four characters. */
  lemma EncodedLengthStep(n: nat, padded: bool)
    requires n >= 3
    ensures EncodedLength(n, padded) == 4 + EncodedLength(n - 3, padded)
  {
    assert (n + 2) / 3 == 1 + (n - 3 + 2) / 3 && n / 3 == 1 + (n - 3) / 3 && n % 3 == (n - 3) % 3;
  }

  /** The four characters of a triple are all in the alphabet. */
  lemma TripleEmitted(a: Alphabet, b0: byte, b1: byte, b2: byte)
    ensures forall i :: 0 <= i < 4 ==> ValueOf(a, EncodeTriple(a, b0, b1, b2)[i]).Some?
  {
    ValueOfCharOf(a, b0 / 4);
    ValueOfCharOf(a, (b0 % 4) * 16 + b1 / 16);
    ValueOfCharOf(a, (b1 % 16) * 4 + b2 / 64);
    ValueOfCharOf(a, b2 % 64);
  }

  /** The bytes that two, three or four sextets carry. */
  function Byte0(v0: sextet, v1: sextet): byte { v0 * 4 + v1 / 16 }
  function Byte1(v1: sextet, v2: sextet): byte { (v1 % 16) * 16 + v2 / 4 }
  function Byte2(v2: sextet, v3: sextet): byte { (v2 % 4) * 64 + v3 }

  /** `Base64.getDecoder().decode(s)` (Standard) and the URL-safe decoder:
      groups of four characters; the last group may be two or three
      characters, written with or without its padding; nothing may follow
      padding; a lone trailing character or a character outside the
      alphabet is rejected (`IllegalArgumentException`). Unused low bits of
      the last character are ignored. */
  function Decode(a: Alphabet, s: string): (r: Option<seq<byte>>)
    decreases |s|
  {
    if |s| == 0 then Some([])
    else if |s| == 1 then None
    else
      var v0, v1 := ValueOf(a, s[0]), ValueOf(a, s[1]);
      if v0.None? || v1.None? then None
      else if |s| == 2 || (|s| == 4 && s[2] == Pad && s[3] == Pad) then
        Some([Byte0(v0.value, v1.value)])
      else
        var v2 := ValueOf(a, s[2]);
        if v2.None? then None
        else if |s| == 3 || (|s| == 4 && s[3] == Pad) then
          Some([Byte0(v0.value, v1.value), Byte1(v1.value, v2.value)])
        else
          var v3 := ValueOf(a, s[3]);
          if v3.None? then None
          else
            match Decode(a, s[4..])
            case None => None
            case Some(rest) =>
              Some([Byte0(v0.value, v1.value), Byte1(v1.value, v2.value), Byte2(v2.value, v3.value)] + rest)
  }

  /** The three bytes of a group come back from its four sextets. */
  lemma TripleBytes(b0: byte, b1: byte, b2: byte)
    ensures Byte0(b0 / 4, (b0 % 4) * 16 + b1 / 16) == b0
    ensures Byte1((b0 % 4) * 16 + b1 / 16, (b1 % 16) * 4 + b2 / 64) == b1
    ensures Byte2((b1 % 16) * 4 + b2 / 64, b2 % 64) == b2
  {
  }

  /** A full group decodes to its three bytes, followed by whatever the
      rest decodes to. */
  lemma DecodeTriple(a: Alphabet, b0: byte, b1: byte, b2: byte, rest: string)
    ensures Decode(a, EncodeTriple(a, b0, b1, b2) + rest)
         == if Decode(a, rest).Some? then Some([b0, b1, b2] + Decode(a, rest).value) else None
  {
    var s := EncodeTriple(a, b0, b1, b2) + rest;
    ValueOfCharOf(a, b0 / 4);
    ValueOfCharOf(a, (b0 % 4) * 16 + b1 / 16);
    ValueOfCharOf(a, (b1 % 16) * 4 + b2 / 64);
    ValueOfCharOf(a, b2 % 64);
    TripleBytes(b0, b1, b2);
    assert s[4..] == rest;
  }

  /** One trailing byte decodes back. */
  lemma DecodeOne(a: Alphabet, padded: bool, b: seq<byte>)
    requires |b| == 1
    ensures Decode(a, Encode(a, padded, b)) == Some(b)
  {
    var s := Encode(a, padded, b);
    var v0, v1 := b[0] / 4, (b[0] % 4) * 16;
    ValueOfCharOf(a, v0);
    ValueOfCharOf(a, v1);
    assert s[0] == CharOf(a, v0) && s[1] == CharOf(a, v1);
    assert Byte0(v0, v1) == b[0];
    assert Decode(a, s) == Some([Byte0(v0, v1)]);
    assert b == [b[0]];
  }

  /** Two trailing bytes decode back. */
  lemma DecodeTwo(a: Alphabet, padded: bool, b: seq<byte>)
    requires |b| == 2
    ensures Decode(a, Encode(a, padded, b)) == Some(b)
  {
    var s := Encode(a, padded, b);
    var v0, v1, v2 := b[0] / 4, (b[0] % 4) * 16 + b[1] / 16, (b[1] % 16) * 4;
    ValueOfCharOf(a, v0);
    ValueOfCharOf(a, v1);
    ValueOfCharOf(a, v2);
    assert s[0] == CharOf(a, v0) && s[1] == CharOf(a, v1) && s[2] == CharOf(a, v2);
    assert Byte0(v0, v1) == b[0] && Byte1(v1, v2) == b[1];
    assert Decode(a, s) == Some([Byte0(v0, v1), Byte1(v1, v2)]);
    assert b == [b[0], b[1]];
  }

  /** Decoding undoes encoding, with or without padding. */
  lemma {:induction false} DecodeEncode(a: Alphabet, padded: bool, b: seq<byte>)
    ensures Decode(a, Encode(a, padded, b)) == Some(b)
    decreases |b|
  {
    if |b| == 1 {
      DecodeOne(a, padded, b);
    } else if |b| == 2 {
      DecodeTwo(a, padded, b);
    } else if |b| >= 3 {
      DecodeEncode(a, padded, b[3..]);
      DecodeGroup(a, padded, b);
    }
  }

  /** If the bytes after the first group decode back, so do all of them. */
  lemma DecodeGroup(a: Alphabet, padded: bool, b: seq<byte>)
    requires |b| >= 3 && Decode(a, Encode(a, padded, b[3..])) == Some(b[3..])
    ensures Decode(a, Encode(a, padded, b)) == Some(b)
  {
    var rest := Encode(a, padded, b[3..]);
    EncodeStep(a, padded, b);
    DecodeTriple(a, b[0], b[1], b[2], rest);
    SplitThree(b);
  }

  /** A sequence of at least three is its first three followed by the rest. */
  lemma SplitThree<T>(b: seq<T>)
    requires |b| >= 3
    ensures b == [b[0], b[1], b[2]] + b[3..]
  {
  }

  /** The URL-safe alphabet has no '.', so no encoding contains one. */
  lemma NoDotInUrlSafe(b: seq<byte>)
    ensures '.' !in Encode(UrlSafe, false, b)
  {
  }

  /** No encoding character is white space. */
  lemma EncodedNotBlank(a: Alphabet, padded: bool, b: seq<byte>)
    requires |b| > 0
    ensures !IsBlank(Encode(a, padded, b))
  {
    var s := Encode(a, padded, b);
    assert Emitted(a, padded, s[0]);
  }
}
