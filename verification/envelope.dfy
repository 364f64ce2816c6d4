/**
  The `.finbak` encryption envelope and `decrypt_data`.

  An encrypted `database.db` is laid out as

      HEADER (16) | salt (32) | iv (12) | ciphertext and GCM tag (rest)

  The parser checks the magic header and then cuts the fields at fixed
  offsets with Python's clamping slices. It has no length check of its
  own: a short input yields a short salt or iv and an empty ciphertext,
  and only the key derivation or the cipher can turn it away.
 */
module Envelope {
  import opened Wrappers
  import opened Bytes
  import Utf8
  import opened Primitives

  /** `b'FINBAK_ENC_V1\x00\x00\x00'`: the ASCII tag padded with three zero bytes. */
  const HEADER: seq<byte> :=
    [0x46, 0x49, 0x4E, 0x42, 0x41, 0x4B, 0x5F, 0x45, 0x4E, 0x43, 0x5F, 0x56, 0x31,
     0x00, 0x00, 0x00]
  /** The format and version tag the header spells out. */
  const TAG: string := "FINBAK_ENC_V1"
  const SALT_LENGTH: nat := 32
  const IV_LENGTH: nat := 12

  const ARGON2_ITERATIONS: nat := 3
  const ARGON2_LANES: nat := 1
  const ARGON2_MEMORY_KIB: nat := 64 * 1024

  /** Offsets at which the parser cuts its input. */
  const SALT_OFFSET: nat := |HEADER|
  const IV_OFFSET: nat := SALT_OFFSET + SALT_LENGTH
  const CIPHERTEXT_OFFSET: nat := IV_OFFSET + IV_LENGTH

  /** The fixed Argon2id parameters of `derive_key`: no associated data, no secret. */
  const KDF_PARAMS: Argon2Params :=
    Argon2Params(KEY_LENGTH, ARGON2_ITERATIONS, ARGON2_LANES, ARGON2_MEMORY_KIB, None, None)

  /** The `ValueError`s `decrypt_data` can raise. `KeyDerivationRejected` is
      the key-derivation library refusing its input (it is not caught inside
      `decrypt_data` but is a `ValueError` all the same). */
  datatype DecryptError = InvalidHeader | KeyDerivationRejected | DecryptionFailed

  /** The three fields that follow the header. */
  datatype Fields = Fields(salt: seq<byte>, iv: seq<byte>, ciphertextAndTag: seq<byte>)

  /** The header check and field slicing of `decrypt_data`. */
  function Parse(data: seq<byte>): (r: Result<Fields, DecryptError>)
    ensures r.Failure? <==> !(HEADER <= data)
    ensures r.Failure? ==> r.error == InvalidHeader
    ensures r.Success? ==> HEADER + r.value.salt + r.value.iv + r.value.ciphertextAndTag == data
    ensures r.Success? ==> |r.value.salt| <= SALT_LENGTH && |r.value.iv| <= IV_LENGTH
    ensures r.Success? && |r.value.iv| > 0 ==> |r.value.salt| == SALT_LENGTH
    ensures r.Success? && |r.value.ciphertextAndTag| > 0 ==> |r.value.iv| == IV_LENGTH
  {
    var header := Slice(data, 0, |HEADER|);
    if header != HEADER then
      Failure(InvalidHeader)
    else
      var offset := |HEADER|;
      var salt := Slice(data, offset, offset + SALT_LENGTH);
      var offset' := offset + SALT_LENGTH;
      var iv := Slice(data, offset', offset' + IV_LENGTH);
      var offset'' := offset' + IV_LENGTH;
      var rest := From(data, offset'');
      SliceAdjacent(data, offset, offset', offset'');
      SplitAt(data, offset);
      SplitAt(data, offset'');
      assert From(data, offset) == Slice(data, offset, offset'') + rest by {
        SliceAdjacent(data, offset, offset'', if offset'' <= |data| then |data| else offset'');
      }
      Success(Fields(salt, iv, rest))
  }

  /** `derive_key`: Argon2id over the UTF-8 bytes of the password and the
      salt, with 3 iterations, 1 lane, 65536 KiB of memory, a 32-byte output
      and neither associated data nor a secret. */
  function DeriveKey(password: string, salt: seq<byte>, o: Oracles): (r: Option<Key>)
    ensures r == o.argon2id(Argon2Params(32, 3, 1, 65536, None, None), salt, Utf8.Encode(password))
    ensures r.Some? ==> |r.value| == 32
  {
    o.argon2id(KDF_PARAMS, salt, Utf8.Encode(password))
  }

  /** `decrypt_data`: parse, derive the key, open the AES-GCM box with no
      associated data. */
  function DecryptData(data: seq<byte>, password: string, o: Oracles): (r: Result<seq<byte>, DecryptError>)
    ensures r == Failure(InvalidHeader) <==> !(HEADER <= data)
    ensures r.Success? <==>
      && Parse(data).Success?
      && DeriveKey(password, Parse(data).value.salt, o).Some?
      && o.aesGcmDecrypt(DeriveKey(password, Parse(data).value.salt, o).value,
                         Parse(data).value.iv, Parse(data).value.ciphertextAndTag, None).Some?
    ensures Parse(data).Success? && DeriveKey(password, Parse(data).value.salt, o).None? ==>
      r == Failure(KeyDerivationRejected)
    ensures
      (&& Parse(data).Success?
       && DeriveKey(password, Parse(data).value.salt, o).Some?
       && o.aesGcmDecrypt(DeriveKey(password, Parse(data).value.salt, o).value,
                          Parse(data).value.iv, Parse(data).value.ciphertextAndTag, None).None?)
      ==> r == Failure(DecryptionFailed)
    ensures r.Success? ==>
      Some(r.value) == o.aesGcmDecrypt(DeriveKey(password, Parse(data).value.salt, o).value,
                                       Parse(data).value.iv, Parse(data).value.ciphertextAndTag, None)
  {
    match Parse(data)
    case Failure(e) => Failure(e)
    case Success(f) =>
      match DeriveKey(password, f.salt, o)
      case None => Failure(KeyDerivationRejected)
      case Some(key) =>
        match o.aesGcmDecrypt(key, f.iv, f.ciphertextAndTag, None)
        case None => Failure(DecryptionFailed)
        case Some(plaintext) => Success(plaintext)
  }

  /** HEADER is the UTF-8 (here ASCII) encoding of TAG followed by three zero bytes. */
  lemma HeaderIsTag()
    ensures HEADER == Utf8.Encode(TAG) + [0, 0, 0]
    ensures |HEADER| == 16
  {
    Utf8.EncodeAsciiExactly(TAG, HEADER[..13]);
    assert HEADER[..13] + [0, 0, 0] == HEADER;
  }

  /** The header check is an exact-prefix check: it fails precisely when the
      first (at most) 16 bytes differ from HEADER, so every input shorter
      than the header is rejected. */
  lemma HeaderCheckIsPrefix(data: seq<byte>)
    ensures Parse(data).Failure? <==> Slice(data, 0, |HEADER|) != HEADER
    ensures |data| < |HEADER| ==> Parse(data) == Failure(InvalidHeader)
  {
  }

  /** The fields sit at the fixed offsets 16, 48 and 60 of the input. */
  lemma FieldOffsets(data: seq<byte>)
    requires HEADER <= data
    ensures Parse(data).Success?
    ensures Parse(data).value.salt == data[SALT_OFFSET..Min(IV_OFFSET, |data|)]
    ensures Parse(data).value.iv == (if |data| <= IV_OFFSET then [] else data[IV_OFFSET..Min(CIPHERTEXT_OFFSET, |data|)])
    ensures Parse(data).value.ciphertextAndTag == (if |data| <= CIPHERTEXT_OFFSET then [] else data[CIPHERTEXT_OFFSET..])
  {
  }

  /** Parsing an envelope built from a full salt and iv gives back exactly its parts. */
  lemma ParseRoundTrip(salt: seq<byte>, iv: seq<byte>, ciphertextAndTag: seq<byte>)
    requires |salt| == SALT_LENGTH && |iv| == IV_LENGTH
    ensures Parse(HEADER + salt + iv + ciphertextAndTag) == Success(Fields(salt, iv, ciphertextAndTag))
  {
    var data := HEADER + salt + iv + ciphertextAndTag;
    assert HEADER <= data;
    FieldOffsets(data);
    assert data[SALT_OFFSET..IV_OFFSET] == salt;
    assert data[IV_OFFSET..CIPHERTEXT_OFFSET] == iv;
    assert data[CIPHERTEXT_OFFSET..] == ciphertextAndTag;
  }

  /** There is no minimum-length check after the header: an input of at
      most 60 bytes with the right header parses, with a salt or iv that may
      be short and an empty ciphertext, and what happens next is up to the primitives. */
  lemma ShortEnvelopeIsParsed(data: seq<byte>)
    requires HEADER <= data && |data| <= CIPHERTEXT_OFFSET
    ensures Parse(data).Success?
    ensures Parse(data).value.ciphertextAndTag == []
    ensures |Parse(data).value.salt| + |Parse(data).value.iv| == |data| - |HEADER|
  {
    FieldOffsets(data);
  }

  /** A rejected header decides the result before any primitive runs: the
      result is the same whatever the primitives and whatever the password. */
  lemma HeaderRejectionSkipsCrypto(data: seq<byte>, p1: string, p2: string, o1: Oracles, o2: Oracles)
    requires !(HEADER <= data)
    ensures DecryptData(data, p1, o1) == DecryptData(data, p2, o2) == Failure(InvalidHeader)
  {
  }

  /** On a well-formed envelope the decryption returns exactly what AES-GCM
      returns for the key derived from the envelope's own salt, its iv and
      its ciphertext, with no associated data; a derivation failure and a
      cipher failure each map to their single error. */
  lemma DecryptEnvelope(password: string, salt: seq<byte>, iv: seq<byte>, ciphertextAndTag: seq<byte>, o: Oracles)
    requires |salt| == SALT_LENGTH && |iv| == IV_LENGTH
    ensures var r := DecryptData(HEADER + salt + iv + ciphertextAndTag, password, o);
      match o.argon2id(KDF_PARAMS, salt, Utf8.Encode(password))
      case None => r == Failure(KeyDerivationRejected)
      case Some(key) =>
        match o.aesGcmDecrypt(key, iv, ciphertextAndTag, None)
        case None => r == Failure(DecryptionFailed)
        case Some(plaintext) => r == Success(plaintext)
  {
    ParseRoundTrip(salt, iv, ciphertextAndTag);
  }
}
