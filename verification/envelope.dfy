/** The encrypted envelope (`encryptContent` / `decryptContent` in
    src/lib/crypto.ts, and the server's copy of `decryptContent` in
    src/app/api/paste/route.ts).

    PBKDF2, AES-GCM and the UTF-8 `TextEncoder` / `TextDecoder` are foreign
    calls: a `Primitives` value carries them as plain functions, and `Sound`
    states the only facts about them the model relies on. The random salt and
    iv are inputs. What is modelled is the shape around them: which bytes go
    where, how they are base64-encoded, and how every failure collapses into
    one error. */
module Envelope {
  import opened Common
  import Base64

  const SaltLength: nat := 16
  const IvLength: nat := 12

  /** The fixed key-derivation settings: PBKDF2 with SHA-256, 100000
      iterations, producing a 256-bit AES-GCM key. */
  datatype KdfSettings = KdfSettings(iterations: nat, hash: string, keyBits: nat)
  const Kdf: KdfSettings := KdfSettings(100000, "SHA-256", 256)

  /** The one error every decryption failure becomes. */
  const DecryptFailed: string := "Failed to decrypt - invalid key or corrupted data"

  /** `EncryptedPaste`: three base64 texts. */
  datatype EncryptedPaste = EncryptedPaste(iv: string, ciphertext: string, salt: string)

  /** The foreign functions the cipher is built from. `derive` is
      `deriveKey(password, salt)`; `seal` / `open` are AES-GCM encryption and
      decryption under a key and iv, `open` yielding `None` where Web Crypto
      rejects the input. */
  datatype Primitives = Primitives(
    utf8Encode: string -> seq<byte>,
    utf8Decode: seq<byte> -> string,
    derive: (KdfSettings, seq<byte>, seq<byte>) -> seq<byte>,
    seal: (seq<byte>, seq<byte>, seq<byte>) -> seq<byte>,
    open: (seq<byte>, seq<byte>, seq<byte>) -> Option<seq<byte>>)

  /** The byte order mark, U+FEFF. */
  const Bom: char := '\U{FEFF}'

  /** The text without one leading byte order mark. */
  function StripLeadingBom(s: string): (t: string)
    ensures |s| > 0 && s[0] == Bom ==> s == [Bom] + t
    ensures |s| == 0 || s[0] != Bom ==> t == s
  {
    if |s| > 0 && s[0] == Bom then s[1..] else s
  }

  /** Authenticated decryption undoes encryption under the same key and iv.
      UTF-8 decoding undoes encoding except that `new TextDecoder()`, whose
      `ignoreBOM` is false, drops one leading U+FEFF. */
  ghost predicate Sound(p: Primitives)
  {
    && (forall k, iv, m :: p.open(k, iv, p.seal(k, iv, m)) == Some(m))
    && (forall s :: p.utf8Decode(p.utf8Encode(s)) == StripLeadingBom(s))
  }

  /** `deriveKey(password, salt)`: the password's UTF-8 bytes stretched with the
      fixed settings. */
  function DeriveKey(p: Primitives, password: string, salt: seq<byte>): seq<byte>
  {
    p.derive(Kdf, p.utf8Encode(password), salt)
  }

  /** The settings `deriveKey` passes are PBKDF2 with SHA-256, 100000
      iterations and a 256-bit AES-GCM key. */
  lemma KdfFixed()
    ensures Kdf.iterations == 100000 && Kdf.hash == "SHA-256" && Kdf.keyBits == 256
  {
  }

  /** `encryptContent(plaintext, key)` with its fresh 16-byte salt and 12-byte iv. */
  function EncryptContent(p: Primitives, plaintext: string, key: string,
                          salt: seq<byte>, iv: seq<byte>): (e: EncryptedPaste)
    requires |salt| == SaltLength && |iv| == IvLength
    ensures Base64.Decode(e.salt) == Some(salt)
    ensures Base64.Decode(e.iv) == Some(iv)
    ensures Base64.Decode(e.ciphertext)
              == Some(p.seal(DeriveKey(p, key, salt), iv, p.utf8Encode(plaintext)))
    ensures forall i :: 0 <= i < |e.salt| ==> Base64.IsEncodingChar(e.salt[i])
    ensures forall i :: 0 <= i < |e.iv| ==> Base64.IsEncodingChar(e.iv[i])
    ensures forall i :: 0 <= i < |e.ciphertext| ==> Base64.IsEncodingChar(e.ciphertext[i])
  {
    Base64.DecodeEncode(salt);
    Base64.DecodeEncode(iv);
    Base64.DecodeEncode(p.seal(DeriveKey(p, key, salt), iv, p.utf8Encode(plaintext)));
    EncryptedPaste(Base64.Encode(iv),
                   Base64.Encode(p.seal(DeriveKey(p, key, salt), iv, p.utf8Encode(plaintext))),
                   Base64.Encode(salt))
  }

  /** The salt is stored as 24 characters and the iv as 16. */
  lemma EncryptedFieldLengths(p: Primitives, plaintext: string, key: string,
                              salt: seq<byte>, iv: seq<byte>)
    requires |salt| == SaltLength && |iv| == IvLength
    ensures var e := EncryptContent(p, plaintext, key, salt, iv);
            |e.salt| == 24 && |e.iv| == 16
  {
    var e := EncryptContent(p, plaintext, key, salt, iv);
    Base64.EncodeLength(salt);
    Base64.EncodeLength(iv);
    assert |salt| / 3 == 5 && |salt| % 3 == 1;
    assert |iv| / 3 == 4 && |iv| % 3 == 0;
    assert e.salt == Base64.Encode(salt);
    assert e.iv == Base64.Encode(iv);
  }

  /** `decryptContent(encrypted, key)`: the plaintext, or the single fixed error
      when any field is not base64 or authenticated decryption rejects. */
  function DecryptContent(p: Primitives, e: EncryptedPaste, key: string): (r: Result<string, string>)
    ensures r.Err? ==> r.error == DecryptFailed
    ensures r.Ok? <==>
              && Base64.Decode(e.salt).Some?
              && Base64.Decode(e.iv).Some?
              && Base64.Decode(e.ciphertext).Some?
              && p.open(DeriveKey(p, key, Base64.Decode(e.salt).value),
                        Base64.Decode(e.iv).value, Base64.Decode(e.ciphertext).value).Some?
    ensures r.Ok? ==>
              r.value == p.utf8Decode(p.open(DeriveKey(p, key, Base64.Decode(e.salt).value),
                                             Base64.Decode(e.iv).value, Base64.Decode(e.ciphertext).value).value)
  {
    match (Base64.Decode(e.salt), Base64.Decode(e.iv), Base64.Decode(e.ciphertext))
    case (Some(salt), Some(iv), Some(ciphertext)) =>
      (match p.open(DeriveKey(p, key, salt), iv, ciphertext)
       case Some(plain) => Ok(p.utf8Decode(plain))
       case None => Err(DecryptFailed))
    case _ => Err(DecryptFailed)
  }

  /** Decrypting with the key that encrypted gives back the plaintext, less one
      leading byte order mark; any other plaintext comes back exactly. */
  lemma DecryptEncrypt(p: Primitives, plaintext: string, key: string, salt: seq<byte>, iv: seq<byte>)
    requires Sound(p)
    requires |salt| == SaltLength && |iv| == IvLength
    ensures DecryptContent(p, EncryptContent(p, plaintext, key, salt, iv), key) == Ok(StripLeadingBom(plaintext))
    ensures |plaintext| == 0 || plaintext[0] != Bom ==>
              DecryptContent(p, EncryptContent(p, plaintext, key, salt, iv), key) == Ok(plaintext)
  {
    var e := EncryptContent(p, plaintext, key, salt, iv);
    var k := DeriveKey(p, key, salt);
    var m := p.utf8Encode(plaintext);
    assert p.open(k, iv, p.seal(k, iv, m)) == Some(m);
  }

  /** A plaintext that starts with U+FEFF comes back one character shorter. */
  lemma LeadingBomDropped(p: Primitives, rest: string, key: string, salt: seq<byte>, iv: seq<byte>)
    requires Sound(p)
    requires |salt| == SaltLength && |iv| == IvLength
    ensures DecryptContent(p, EncryptContent(p, [Bom] + rest, key, salt, iv), key) == Ok(rest)
  {
    DecryptEncrypt(p, [Bom] + rest, key, salt, iv);
    assert ([Bom] + rest)[1..] == rest;
  }
}
