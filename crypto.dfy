/** AesGcmCryptoService: the envelope that protects an account's stored
    credentials. A field is encrypted with AES-GCM (NIST SP 800-38D) under
    one 256-bit master key, packed as [version 1][12-byte IV][cipher output]
    and stored as Base64 text. The cipher itself is a parameter (`Aead`);
    everything around it is modelled exactly. */
module Crypto {
  import opened Wrappers
  import opened JavaLang
  import Utf8
  import Base64

  /** The envelope layout version, the only one `decrypt` accepts. */
  const Version: byte := 1
  /** IV_LENGTH_BYTES, the recommended 96-bit GCM nonce. */
  const IvLength: nat := 12
  /** GCM_TAG_LENGTH_BITS / 8. */
  const TagLength: nat := 128 / 8
  /** The master key is AES-256. */
  const KeyLength: nat := 32

  /** The AES/GCM/NoPadding transformation: `seal(key, iv, plain)` is
      `doFinal` in ENCRYPT_MODE, `open(key, iv, cipher)` is `doFinal` in
      DECRYPT_MODE, None standing for a failed tag check. */
  datatype Aead = Aead(
    seal: (seq<byte>, seq<byte>, seq<byte>) -> seq<byte>,
    open: (seq<byte>, seq<byte>, seq<byte>) -> Option<seq<byte>>)

  /** What the model assumes of the cipher: opening what was sealed under the
      same key and IV gives the plain bytes back, sealing appends a 128-bit
      tag, and cipher output shorter than the tag is always refused. */
  ghost predicate Correct(aead: Aead)
  {
    && (forall key, iv, plain {:trigger aead.seal(key, iv, plain)} ::
          && aead.open(key, iv, aead.seal(key, iv, plain)) == Some(plain)
          && |aead.seal(key, iv, plain)| == |plain| + TagLength)
    && (forall key, iv, c {:trigger aead.open(key, iv, c)} ::
          |c| < TagLength ==> aead.open(key, iv, c).None?)
  }

  /** Why the constructor refuses a master key. */
  datatype KeyError =
    | MissingKey          // null or blank property (IllegalStateException)
    | MalformedKey        // not Base64 (IllegalArgumentException from the decoder)
    | WrongKeyLength(n: nat) // decodes to n != 32 bytes (IllegalStateException)

  /** Why `decrypt` fails; every case surfaces as
      IllegalStateException("Decryption failed"). */
  datatype CryptoError =
    | MalformedBase64
    | Truncated                    // BufferUnderflowException while reading the header
    | UnsupportedVersion(version: byte) // unsigned here; Java's message prints the signed byte
    | AuthenticationFailed         // AEADBadTagException from the cipher

  /** The constructor's check of `app.enc.master-key`. */
  function DecodeMasterKey(b64Key: Option<string>): (r: Result<seq<byte>, KeyError>)
    ensures r.Success? ==> |r.value| == KeyLength
    ensures r.Success? <==>
      b64Key.Some? && !IsBlank(b64Key.value)
      && Base64.Decode(Base64.Standard, b64Key.value).Some?
      && |Base64.Decode(Base64.Standard, b64Key.value).value| == KeyLength
  {
    if b64Key.None? || IsBlank(b64Key.value) then Failure(MissingKey)
    else
      match Base64.Decode(Base64.Standard, b64Key.value)
      case None => Failure(MalformedKey)
      case Some(keyBytes) =>
        if |keyBytes| != KeyLength then Failure(WrongKeyLength(|keyBytes|)) else Success(keyBytes)
  }

  /** A key written out by the standard encoder is accepted as it is; a null
      or blank property is refused as missing. */
  lemma MasterKeyAccepted(key: seq<byte>)
    requires |key| == KeyLength
    ensures DecodeMasterKey(Some(Base64.Encode(Base64.Standard, true, key))) == Success(key)
    ensures DecodeMasterKey(None) == Failure(MissingKey)
    ensures DecodeMasterKey(Some("")) == Failure(MissingKey)
  {
    Base64.EncodedNotBlank(Base64.Standard, true, key);
    Base64.DecodeEncode(Base64.Standard, true, key);
  }

  /** The envelope's bytes: the version, then the IV, then the cipher output. */
  function Pack(iv: seq<byte>, cipherBytes: seq<byte>): seq<byte>
  {
    [Version] + iv + cipherBytes
  }

  /** Reading an envelope through a moving position: one version byte, which
      must be 1, then 12 IV bytes, then all that remains. */
  function Unpack(packed: seq<byte>): (r: Result<(seq<byte>, seq<byte>), CryptoError>)
    ensures |packed| >= 1 && packed[0] != Version ==> r == Failure(UnsupportedVersion(packed[0]))
    ensures |packed| < 1 + IvLength ==> r.Failure?
    ensures r.Success? ==> Pack(r.value.0, r.value.1) == packed && |r.value.0| == IvLength
  {
    if |packed| < 1 then Failure(Truncated)
    else if packed[0] != Version then Failure(UnsupportedVersion(packed[0]))
    else if |packed| < 1 + IvLength then Failure(Truncated)
    else Success((packed[1..1 + IvLength], packed[1 + IvLength..]))
  }

  /** The packed envelope is exactly 1 + 12 + |cipher| bytes: byte 0 is the
      version, bytes 1..12 the IV, the rest the cipher output. */
  lemma PackLayout(iv: seq<byte>, cipherBytes: seq<byte>)
    requires |iv| == IvLength
    ensures |Pack(iv, cipherBytes)| == 1 + IvLength + |cipherBytes|
    ensures Pack(iv, cipherBytes)[0] == Version
    ensures Pack(iv, cipherBytes)[1..1 + IvLength] == iv
    ensures Pack(iv, cipherBytes)[1 + IvLength..] == cipherBytes
  {
  }

  /** Unpacking inverts packing. */
  lemma UnpackPack(iv: seq<byte>, cipherBytes: seq<byte>)
    requires |iv| == IvLength
    ensures Unpack(Pack(iv, cipherBytes)) == Success((iv, cipherBytes))
  {
    PackLayout(iv, cipherBytes);
  }

  /** `encrypt(plainText)` with the IV the random source produced; null
      passes through. */
  function EncryptValue(aead: Aead, key: seq<byte>, plainText: Option<string>, iv: seq<byte>): Option<string>
  {
    match plainText
    case None => None
    case Some(p) =>
      Some(Base64.Encode(Base64.Standard, true, Pack(iv, aead.seal(key, iv, Utf8.Encode(p)))))
  }

  /** `decrypt(cipherText)`; null passes through without touching the cipher. */
  function DecryptValue(aead: Aead, key: seq<byte>, cipherText: Option<string>): Result<Option<string>, CryptoError>
  {
    match cipherText
    case None => Success(None)
    case Some(text) =>
      match Base64.Decode(Base64.Standard, text)
      case None => Failure(MalformedBase64)
      case Some(packed) =>
        match Unpack(packed)
        case Failure(e) => Failure(e)
        case Success(parts) =>
          match aead.open(key, parts.0, parts.1)
          case None => Failure(AuthenticationFailed)
          case Some(plain) => Success(Some(Utf8.Decode(plain)))
  }

  /** The round trip: with a cipher that inverts, decrypting what was
      encrypted gives the field back, null included. */
  lemma DecryptEncrypt(aead: Aead, key: seq<byte>, plainText: Option<string>, iv: seq<byte>)
    requires Correct(aead)
    requires |iv| == IvLength
    ensures DecryptValue(aead, key, EncryptValue(aead, key, plainText, iv)) == Success(plainText)
  {
    if plainText.Some? {
      var bytes := Utf8.Encode(plainText.value);
      var cipherBytes := aead.seal(key, iv, bytes);
      Base64.DecodeEncode(Base64.Standard, true, Pack(iv, cipherBytes));
      UnpackPack(iv, cipherBytes);
      Utf8.DecodeEncode(plainText.value);
    }
  }

  /** The size of an envelope: the cipher output is the UTF-8 length of the
      text plus the 16-byte tag, the packed bytes add 13, and the Base64 text
      is four characters per started group of three bytes. */
  lemma EnvelopeLength(aead: Aead, key: seq<byte>, plainText: string, iv: seq<byte>)
    requires Correct(aead)
    requires |iv| == IvLength
    ensures var packed := Pack(iv, aead.seal(key, iv, Utf8.Encode(plainText)));
            && |packed| == 1 + IvLength + |Utf8.Encode(plainText)| + TagLength
            && EncryptValue(aead, key, Some(plainText), iv) == Some(Base64.Encode(Base64.Standard, true, packed))
            && |EncryptValue(aead, key, Some(plainText), iv).value| == 4 * ((|packed| + 2) / 3)
  {
    var plain := Utf8.Encode(plainText);
    assert |aead.seal(key, iv, plain)| == |plain| + TagLength;
  }

  /** Whatever text decodes to it (padded or not, canonical or not),
      `decrypt` never hands back plaintext for an envelope with another
      version or fewer than 13 bytes. */
  lemma DecryptRejectsBadHeader(aead: Aead, key: seq<byte>, text: string, packed: seq<byte>)
    requires Base64.Decode(Base64.Standard, text) == Some(packed)
    requires |packed| < 1 + IvLength || packed[0] != Version
    ensures DecryptValue(aead, key, Some(text)).Failure?
    ensures |packed| >= 1 && packed[0] != Version ==>
      DecryptValue(aead, key, Some(text)) == Failure(UnsupportedVersion(packed[0]))
  {
  }

  /** An envelope too short to hold the IV and the 16-byte tag never
      decrypts, whatever text decodes to it. */
  lemma DecryptRejectsShort(aead: Aead, key: seq<byte>, text: string, packed: seq<byte>)
    requires Correct(aead)
    requires Base64.Decode(Base64.Standard, text) == Some(packed)
    requires |packed| < 1 + IvLength + TagLength
    ensures DecryptValue(aead, key, Some(text)).Failure?
  {
    if Unpack(packed).Success? {
      var parts := Unpack(packed).value;
      assert aead.open(key, parts.0, parts.1).None?;
    }
  }

  /** `ByteBuffer.put(src)`: copy src into buf at pos and move past it. */
  method Put(buf: array<byte>, pos: nat, src: seq<byte>) returns (next: nat)
    requires pos + |src| <= buf.Length
    modifies buf
    ensures next == pos + |src|
    ensures buf[..] == old(buf[..pos]) + src + old(buf[next..])
  {
    next := pos;
    while next < pos + |src|
      invariant pos <= next <= pos + |src|
      invariant buf[..pos] == old(buf[..pos])
      invariant buf[pos..next] == src[..next - pos]
      invariant buf[pos + |src|..] == old(buf[pos + |src|..])
    {
      buf[next] := src[next - pos];
      next := next + 1;
    }
    assert buf[..] == buf[..pos] + buf[pos..next] + buf[next..];
  }

  /** `ByteBuffer.get(dst)`: fill dst from src at pos and move past it. */
  method Get(src: seq<byte>, pos: nat, dst: array<byte>) returns (next: nat)
    requires pos + dst.Length <= |src|
    modifies dst
    ensures next == pos + dst.Length
    ensures dst[..] == src[pos..next]
  {
    var i := 0;
    while i < dst.Length
      invariant 0 <= i <= dst.Length
      invariant dst[..i] == src[pos..pos + i]
    {
      dst[i] := src[pos + i];
      i := i + 1;
    }
    next := pos + dst.Length;
  }

  /** The service: a master key fixed once at construction, and the cipher. */
  class AesGcmCryptoService {
    const key: seq<byte>
    const aead: Aead

    /** Only reached through Create, with a key that passed the checks. */
    constructor (keyBytes: seq<byte>, aead: Aead)
      requires |keyBytes| == KeyLength
      ensures key == keyBytes && this.aead == aead
    {
      key := keyBytes;
      this.aead := aead;
    }

    /** The constructor with its checks: a null or blank property, text the
        Base64 decoder refuses, or a key that is not 32 bytes, and no service
        is made. */
    static method Create(b64Key: Option<string>, aead: Aead) returns (r: Result<AesGcmCryptoService, KeyError>)
      ensures r.Success? <==> DecodeMasterKey(b64Key).Success?
      ensures r.Failure? ==> r.error == DecodeMasterKey(b64Key).error
      ensures r.Success? ==> fresh(r.value) && r.value.key == DecodeMasterKey(b64Key).value && r.value.aead == aead
    {
      if b64Key.None? || IsBlank(b64Key.value) {
        return Failure(MissingKey);
      }
      var keyBytes := Base64.Decode(Base64.Standard, b64Key.value);
      if keyBytes.None? {
        return Failure(MalformedKey);
      }
      if |keyBytes.value| != KeyLength {
        return Failure(WrongKeyLength(|keyBytes.value|));
      }
      var svc := new AesGcmCryptoService(keyBytes.value, aead);
      return Success(svc);
    }

    /** `encrypt`: null stays null; otherwise the UTF-8 bytes are sealed under
        the fresh IV and [1][iv][cipher] is packed into a buffer of exactly
        the right size, then Base64-encoded. */
    method Encrypt(plainText: Option<string>, iv: seq<byte>) returns (r: Option<string>)
      requires |iv| == IvLength
      ensures r == EncryptValue(aead, key, plainText, iv)
      ensures plainText.Some? ==> r.Some?
    {
      if plainText.None? {
        return None;
      }
      var cipherBytes := aead.seal(key, iv, Utf8.Encode(plainText.value));
      var bb := new byte[1 + |iv| + |cipherBytes|];
      var pos := Put(bb, 0, [Version]);
      pos := Put(bb, pos, iv);
      pos := Put(bb, pos, cipherBytes);
      assert bb[..] == Pack(iv, cipherBytes);
      r := Some(Base64.Encode(Base64.Standard, true, bb[..]));
    }

    /** `decrypt`: null stays null; otherwise the text is Base64-decoded and
        read through a moving position (version, IV, the rest) and the rest
        is opened under the key. Any failure is an error, never plaintext. */
    method Decrypt(cipherText: Option<string>) returns (r: Result<Option<string>, CryptoError>)
      ensures r == DecryptValue(aead, key, cipherText)
    {
      if cipherText.None? {
        return Success(None);
      }
      var decoded := Base64.Decode(Base64.Standard, cipherText.value);
      if decoded.None? {
        return Failure(MalformedBase64);
      }
      var packed := decoded.value;
      var pos := 0;
      if |packed| - pos < 1 {
        return Failure(Truncated);
      }
      var version := packed[pos];
      pos := pos + 1;
      if version != Version {
        return Failure(UnsupportedVersion(version));
      }
      var iv := new byte[IvLength];
      if |packed| - pos < iv.Length {
        return Failure(Truncated);
      }
      pos := Get(packed, pos, iv);
      assert iv[..] == packed[1..1 + IvLength];
      var cipherBytes := new byte[|packed| - pos];
      pos := Get(packed, pos, cipherBytes);
      assert cipherBytes[..] == packed[1 + IvLength..];
      assert Unpack(packed) == Success((iv[..], cipherBytes[..]));
      var plain := aead.open(key, iv[..], cipherBytes[..]);
      if plain.None? {
        return Failure(AuthenticationFailed);
      }
      r := Success(Some(Utf8.Decode(plain.value)));
    }
  }
}
