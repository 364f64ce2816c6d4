/**
  The decision flow of `extract_and_decrypt_backup` once the archive is
  extracted and `metadata.json` is read: is `database.db` there, is it
  encrypted, does it decrypt, does its checksum match, and what gets
  written. File reads and writes, printing and `sys.exit` are replaced by
  the returned `Outcome`; `Failed` is every path that ends in `sys.exit(1)`.
 */
module Restore {
  import opened Wrappers
  import opened Bytes
  import Hex
  import Utf8
  import opened Primitives
  import opened Manifest
  import opened Envelope

  /** Why a restore stopped with an error. */
  datatype FailureKind =
    | DatabaseNotFound
    | Decrypt(error: DecryptError)

  /** The three results of the optional checksum verification. */
  datatype ChecksumStatus = Verified | Mismatch | Skipped

  /** What one run of the driver ends with. `Written` is the plaintext that
      goes to `database_decrypted.db`. */
  datatype Outcome =
    | NotEncrypted
    | Failed(kind: FailureKind)
    | Written(plaintext: seq<byte>, checksum: ChecksumStatus)

  /** `calculate_checksum`: the SHA-256 digest rendered by `hexdigest()`. */
  function CalculateChecksum(data: seq<byte>, o: Oracles): (r: string)
    ensures |r| == 2 * DIGEST_LENGTH
    ensures forall i :: 0 <= i < |r| ==> Hex.IsLowerHexDigit(r[i])
    ensures Hex.Parse(r) == Some(o.sha256(data))
  {
    Hex.ParseRender(o.sha256(data));
    Hex.Render(o.sha256(data))
  }

  /** Two checksums are equal exactly when the two SHA-256 digests are. */
  lemma ChecksumDeterminesDigest(a: seq<byte>, b: seq<byte>, o: Oracles)
    ensures CalculateChecksum(a, o) == CalculateChecksum(b, o) <==> o.sha256(a) == o.sha256(b)
  {
  }

  /** The checksum step: skipped unless the manifest's `checksum` is truthy,
      otherwise an exact, case-sensitive string comparison. */
  function CheckChecksum(metadata: Metadata, plaintext: seq<byte>, o: Oracles): (s: ChecksumStatus)
    ensures s == Skipped <==> !Truthy(Get(metadata, "checksum", JNull))
    ensures s == Verified <==>
      "checksum" in metadata && metadata["checksum"] == JString(CalculateChecksum(plaintext, o))
  {
    if Truthy(Get(metadata, "checksum", JNull)) then
      var actual := CalculateChecksum(plaintext, o);
      var expected := metadata["checksum"];
      if expected == JString(actual) then Verified else Mismatch
    else
      Skipped
  }

  /** `extract_and_decrypt_backup` from the `database.db` check on. */
  function ExtractAndDecrypt(databaseExists: bool, metadata: Metadata, payload: seq<byte>,
                             password: string, o: Oracles): (r: Outcome)
    ensures !databaseExists <==> r == Failed(DatabaseNotFound)
    ensures r == NotEncrypted <==> databaseExists && !Truthy(Get(metadata, "encrypted", JBool(false)))
    ensures r.Failed? && r.kind.Decrypt? <==>
      databaseExists && Truthy(Get(metadata, "encrypted", JBool(false)))
      && DecryptData(payload, password, o).Failure?
    ensures r.Failed? && r.kind.Decrypt? ==> DecryptData(payload, password, o) == Failure(r.kind.error)
    ensures r.Written? ==> DecryptData(payload, password, o) == Success(r.plaintext)
    ensures r.Written? ==> r.checksum == CheckChecksum(metadata, r.plaintext, o)
  {
    if !databaseExists then
      Failed(DatabaseNotFound)
    else if !Truthy(Get(metadata, "encrypted", JBool(false))) then
      NotEncrypted
    else
      match DecryptData(payload, password, o)
      case Failure(e) => Failed(Decrypt(e))
      case Success(plaintext) => Written(plaintext, CheckChecksum(metadata, plaintext, o))
  }

  /** A missing `database.db` is an error even when the backup is not
      encrypted: the existence check comes before the `encrypted` flag is read. */
  lemma MissingDatabaseFailsFirst(metadata: Metadata, payload: seq<byte>, password: string, o: Oracles)
    ensures ExtractAndDecrypt(false, metadata, payload, password, o) == Failed(DatabaseNotFound)
  {
  }

  /** An unencrypted backup (flag absent or falsy) ends without touching the
      payload: the outcome does not depend on the payload bytes, the password
      or any primitive, and nothing is written. */
  lemma NotEncryptedSkipsDecryption(metadata: Metadata, p1: seq<byte>, p2: seq<byte>,
                                    w1: string, w2: string, o1: Oracles, o2: Oracles)
    requires !Truthy(Get(metadata, "encrypted", JBool(false)))
    ensures ExtractAndDecrypt(true, metadata, p1, w1, o1) == ExtractAndDecrypt(true, metadata, p2, w2, o2) == NotEncrypted
  {
  }

  /** A decryption error ends the run before the checksum is computed: the
      outcome is the same whatever SHA-256 is and whatever the manifest's
      checksum says, and no plaintext is written. */
  lemma DecryptionFailureSkipsChecksum(m1: Metadata, m2: Metadata, payload: seq<byte>, password: string,
                                       o: Oracles, sha: seq<byte> -> Digest)
    requires Truthy(Get(m1, "encrypted", JBool(false))) && Truthy(Get(m2, "encrypted", JBool(false)))
    requires DecryptData(payload, password, o).Failure?
    ensures var r := ExtractAndDecrypt(true, m1, payload, password, o);
      && r == ExtractAndDecrypt(true, m2, payload, password, o.(sha256 := sha))
      && r == Failed(Decrypt(DecryptData(payload, password, o).error))
  {
    assert DecryptData(payload, password, o.(sha256 := sha)) == DecryptData(payload, password, o);
  }

  /** The checksum never stops the write: whenever decryption succeeds the
      plaintext is written, with a mismatch only reported. */
  lemma DecryptedIsAlwaysWritten(metadata: Metadata, payload: seq<byte>, password: string, o: Oracles)
    requires Truthy(Get(metadata, "encrypted", JBool(false)))
    requires DecryptData(payload, password, o).Success?
    ensures ExtractAndDecrypt(true, metadata, payload, password, o).Written?
    ensures ExtractAndDecrypt(true, metadata, payload, password, o).plaintext == DecryptData(payload, password, o).value
  {
  }

  /** An absent, null or empty checksum means the check is skipped. */
  lemma EmptyChecksumSkipped(metadata: Metadata, plaintext: seq<byte>, o: Oracles)
    requires "checksum" !in metadata || metadata["checksum"] in {JNull, JString("")}
    ensures CheckChecksum(metadata, plaintext, o) == Skipped
  {
  }

  /** The comparison is exact and case-sensitive: a checksum that is not
      64 lower-case hex digits, such as an upper-case rendering of the
      right digest, is a mismatch, never a verification. */
  lemma ChecksumIsCaseSensitive(metadata: Metadata, plaintext: seq<byte>, o: Oracles)
    requires "checksum" in metadata && metadata["checksum"].JString?
    requires var c := metadata["checksum"].s;
      |c| > 0 && (|c| != 64 || exists i :: 0 <= i < |c| && 'A' <= c[i] <= 'F')
    ensures CheckChecksum(metadata, plaintext, o) == Mismatch
  {
    var c := metadata["checksum"].s;
    var actual := CalculateChecksum(plaintext, o);
    if |c| == 64 {
      var i :| 0 <= i < |c| && 'A' <= c[i] <= 'F';
      assert Hex.IsLowerHexDigit(actual[i]);
      assert c != actual;
    }
  }

  /** A checksum that is truthy but not a JSON string never equals the hex
      digest, so it is reported as a mismatch. */
  lemma NonStringChecksumMismatches(metadata: Metadata, plaintext: seq<byte>, o: Oracles)
    requires "checksum" in metadata && !metadata["checksum"].JString? && Truthy(metadata["checksum"])
    ensures CheckChecksum(metadata, plaintext, o) == Mismatch
  {
  }

  /** The full path of a good backup: an encrypted, well-formed envelope
      whose AES-GCM box opens to `plaintext`, and a manifest whose checksum
      is the SHA-256 hex of that plaintext, is written out as `plaintext`
      and reported as verified. */
  lemma EndToEndVerified(metadata: Metadata, password: string, salt: seq<byte>, iv: seq<byte>,
                         ciphertextAndTag: seq<byte>, plaintext: seq<byte>, o: Oracles)
    requires |salt| == SALT_LENGTH && |iv| == IV_LENGTH
    requires o.argon2id(KDF_PARAMS, salt, Utf8.Encode(password)).Some?
    requires o.aesGcmDecrypt(o.argon2id(KDF_PARAMS, salt, Utf8.Encode(password)).value,
                             iv, ciphertextAndTag, None) == Some(plaintext)
    requires "encrypted" in metadata && metadata["encrypted"] == JBool(true)
    requires "checksum" in metadata && metadata["checksum"] == JString(CalculateChecksum(plaintext, o))
    ensures ExtractAndDecrypt(true, metadata, HEADER + salt + iv + ciphertextAndTag, password, o)
            == Written(plaintext, Verified)
  {
    DecryptEnvelope(password, salt, iv, ciphertextAndTag, o);
  }
}
