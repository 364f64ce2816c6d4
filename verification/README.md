# Kashr `.finbak` backup decryption, modelled in Dafny

Kashr writes its backups as `.finbak` files: a ZIP archive holding a
`metadata.json` manifest and a `database.db` payload. When the manifest
says `encrypted`, the payload is an envelope

    HEADER "FINBAK_ENC_V1\0\0\0" (16) | salt (32) | iv (12) | AES-GCM ciphertext and tag (rest)

and the decryption tool derives a 32-byte key from the password with
Argon2id (section 3.1 of RFC 9106; t = 3, p = 1, m = 65536 KiB) over the
salt, opens the box with AES-256-GCM (section 7.2 of NIST SP 800-38D) and,
if the manifest carries a checksum, compares it with the SHA-256
(section 6.2 of FIPS 180-4) hex digest of the plaintext before writing
`database_decrypted.db`.

The model covers `decrypt_data`, `derive_key`, `calculate_checksum` and the
decision flow of `extract_and_decrypt_backup` from the `database.db` check
on. It is purely functional:

- `bytes.dfy` (`Bytes`): octets and Python's clamping slice `s[lo:hi]`.
- `utf8.dfy` (`Utf8`): `str.encode('utf-8')` per section 3 of RFC 3629, with a decoder that is its left inverse.
- `hex.dfy` (`Hex`): `hexdigest()` rendering, with a parser that is its left inverse.
- `primitives.dfy` (`Primitives`): Argon2id, AES-256-GCM decryption and SHA-256 as the fields of an `Oracles` value. Every theorem holds for every choice of them.
- `manifest.dfy` (`Manifest`): JSON values, Python truthiness and `dict.get`.
- `envelope.dfy` (`Envelope`): the format constants, the parser, `derive_key` and `decrypt_data`.
- `restore.dfy` (`Restore`): checksum verification and the outcome of one run: `NotEncrypted`, `Failed(kind)`, or `Written(plaintext, Verified | Mismatch | Skipped)`.

The primitives are parameters because they are library calls whose
internals are not part of this model. Argon2id returns `Option<Key>`. A
`Key` is always 32 bytes. `None` means the library raised, which it does
for parameters it refuses, such as a very short salt. AES-GCM returns the
plaintext, or `None` for any exception. SHA-256 returns a 32-byte digest.
Determinism comes for free, because they are mathematical functions.

Points of the code's behaviour worth knowing:
- There is no length check past the header (decrypt/decrypt_backup.py:64-75). An input of 16 to 59 bytes with the right header is parsed into a salt or iv that may be short and an empty ciphertext, and only the primitives can reject it.
- The checksum comparison is exact string equality, so it is case-sensitive (decrypt/decrypt_backup.py:165).
- An unencrypted backup makes the tool report and return without writing anything (decrypt/decrypt_backup.py:143-146).
- The module docstring (decrypt/decrypt_backup.py:6) names PBKDF2, but the code uses Argon2id.

## Model

| member | source | states |
|---|---|---|
| Bytes.Slice | decrypt/decrypt_backup.py:60-75 | Python slicing never fails: in range it is the ordinary subsequence, an end past the sequence truncates to `s[lo..]`, a start past the end or an inverted range gives the empty sequence, and every element is the input's element at `lo + k` |
| Bytes.From | decrypt/decrypt_backup.py:75 | `s[lo:]` is the suffix from `lo` when `lo` is within the sequence and empty past its end |
| Bytes.SliceAdjacent | decrypt/decrypt_backup.py:64-75 | cutting at consecutive clamped offsets loses and duplicates nothing: adjacent slices concatenate to the spanning slice |
| Bytes.SplitAt | decrypt/decrypt_backup.py:60-75 | `s[:n] + s[n:] == s` for every `n`, including `n` beyond the end |
| Utf8.EncodeChar | decrypt/decrypt_backup.py:54 | each character becomes 1 to 4 bytes, a single byte exactly for ASCII, and the trailing bytes are continuation bytes |
| Utf8.Encode | decrypt/decrypt_backup.py:54 | `password.encode('utf-8')`: at least one and at most four bytes per character, one byte per character for ASCII text; DecodeEncode makes it exact |
| Utf8.EncodeAscii | decrypt/decrypt_backup.py:54 | ASCII text encodes byte for byte |
| Utf8.EncodeAsciiExactly | decrypt/decrypt_backup.py:36 | ASCII text encodes to exactly the bytes holding its character codes |
| Utf8.DecodeFirstEncodeChar | decrypt/decrypt_backup.py:54 | the encoding of one character is self-delimiting: it decodes to that character whatever bytes follow |
| Utf8.DecodeEncode | decrypt/decrypt_backup.py:54 | decoding the UTF-8 encoding of a password gives the password back |
| Utf8.EncodeInjective | decrypt/decrypt_backup.py:54 | two passwords have the same UTF-8 bytes exactly when they are the same password |
| Hex.Render | decrypt/decrypt_backup.py:91 | `hexdigest()` gives two lower-case hex digits per byte |
| Hex.ParseRender | decrypt/decrypt_backup.py:91 | reading a hex rendering back gives the digest bytes |
| Hex.RenderInjective | decrypt/decrypt_backup.py:91 | two digests render to the same text exactly when they are equal |
| Manifest.TruthTable | decrypt/decrypt_backup.py:143 | Python's truth test on a JSON value: null, false, zero, the empty string, the empty array and the empty object are false, everything else is true |
| Manifest.Get | decrypt/decrypt_backup.py:161 | `metadata.get(key, default)` is the stored value when the key is present and the default otherwise |
| Envelope.HeaderIsTag | decrypt/decrypt_backup.py:36 | HEADER is the 16 bytes `FINBAK_ENC_V1` followed by three zero bytes |
| Envelope.Parse | decrypt/decrypt_backup.py:59-75 | rejects with InvalidHeader exactly when HEADER is not a prefix of the input; otherwise header, salt, iv and ciphertext concatenate back to the input, salt and iv never exceed 32 and 12 bytes, and a later field is non-empty only when the earlier one is full |
| Envelope.HeaderCheckIsPrefix | decrypt/decrypt_backup.py:59-62 | the check `data[:16] != HEADER` fails exactly when the parse fails, so every input shorter than 16 bytes is rejected |
| Envelope.FieldOffsets | decrypt/decrypt_backup.py:64-75 | once the header matches, salt is `data[16:48]`, iv is `data[48:60]` and the ciphertext is `data[60:]`, each clamped to the input |
| Envelope.ParseRoundTrip | decrypt/decrypt_backup.py:64-75 | parsing `HEADER + salt + iv + ct` for a 32-byte salt and 12-byte iv returns exactly `(salt, iv, ct)` |
| Envelope.ShortEnvelopeIsParsed | decrypt/decrypt_backup.py:67-75 | the parser has no length check past the header: inputs of 16 to 60 bytes with the right header parse, with an empty ciphertext and a salt and iv (short below 60 bytes) sharing the remaining bytes |
| Envelope.HeaderRejectionSkipsCrypto | decrypt/decrypt_backup.py:59-62 | a wrong header fails with InvalidHeader whatever the password and whatever the primitives do, so key derivation and decryption are not reached |
| Envelope.DeriveKey | decrypt/decrypt_backup.py:39-54 | the key is Argon2id of the password's UTF-8 bytes and the salt with 3 iterations, 1 lane, 65536 KiB of memory, a 32-byte output, and no associated data or secret; a derived key is 32 bytes, which the primitive's result type guarantees for the `KEY_LENGTH` request |
| Envelope.DecryptData | decrypt/decrypt_backup.py:57-86 | a wrong header is exactly the InvalidHeader error; after a good header, a refused key derivation is KeyDerivationRejected and any cipher failure is the single DecryptionFailed error; success happens exactly when the header matches, the derivation succeeds and AES-GCM opens the parsed iv and ciphertext with no associated data, and the result is exactly that plaintext |
| Envelope.DecryptEnvelope | decrypt/decrypt_backup.py:78-86 | on a well-formed envelope the result is the AES-GCM plaintext for the key from the envelope's own salt, KeyDerivationRejected when the derivation raises, and the single DecryptionFailed error with no partial output when the cipher raises |
| Restore.CalculateChecksum | decrypt/decrypt_backup.py:89-91 | the checksum is the 64 lower-case hex digits of the SHA-256 digest: parsing it back gives exactly `sha256(data)` |
| Restore.ChecksumDeterminesDigest | decrypt/decrypt_backup.py:89-91 | two checksums are equal exactly when the SHA-256 digests are |
| Restore.CheckChecksum | decrypt/decrypt_backup.py:161-170 | Skipped exactly when the manifest checksum is falsy; Verified exactly when it is the string equal to the computed hex; Mismatch otherwise |
| Restore.ExtractAndDecrypt | decrypt/decrypt_backup.py:138-175 | a missing database is exactly the DatabaseNotFound failure; NotEncrypted exactly when the database exists and `encrypted` is absent or falsy; a decryption error is passed on unchanged with nothing written; a written plaintext is the decrypted one, and its checksum status is the checksum step's |
| Restore.MissingDatabaseFailsFirst | decrypt/decrypt_backup.py:138-143 | a missing `database.db` is an error even for an unencrypted backup |
| Restore.NotEncryptedSkipsDecryption | decrypt/decrypt_backup.py:143-146 | an unencrypted backup ends as NotEncrypted whatever the payload, password and primitives, so nothing is decrypted or written |
| Restore.DecryptionFailureSkipsChecksum | decrypt/decrypt_backup.py:154-161 | a decryption error ends the run whatever SHA-256 does and whatever the manifest checksum is, so the checksum step is never reached |
| Restore.DecryptedIsAlwaysWritten | decrypt/decrypt_backup.py:160-175 | a checksum mismatch is not fatal: every successful decryption is written |
| Restore.EmptyChecksumSkipped | decrypt/decrypt_backup.py:161 | an absent, null or empty checksum skips verification |
| Restore.ChecksumIsCaseSensitive | decrypt/decrypt_backup.py:161-170 | a non-empty checksum string that is not 64 characters, or contains an upper-case hex digit, is a Mismatch and never Verified |
| Restore.NonStringChecksumMismatches | decrypt/decrypt_backup.py:161-170 | a truthy checksum that is not a string is a Mismatch |
| Restore.EndToEndVerified | decrypt/decrypt_backup.py:138-175 | an encrypted manifest, a well-formed envelope that AES-GCM opens to P, and the SHA-256 hex of P as checksum give `Written(P, Verified)` |

## Left out

- Lines 97–135 of decrypt/decrypt_backup.py are out of the model because they are file-system and archive I/O: the backup-file existence check, output directory choice and `mkdir`, ZIP extraction, the `metadata.json` existence check and JSON parsing, and printing the metadata. The model starts with the manifest already parsed, and the existence of `database.db` is a boolean input.
- `main` (lines 182–207) is out because it is CLI plumbing: argument handling, the `getpass` prompt and its empty-password check, `KeyboardInterrupt`, and the generic exception handler with its traceback.
- Printing, `sys.exit` and file writes are left out as I/O. Each exit is a `Failed` outcome, and the write is the `Written` outcome.
- The error messages are left out as I/O: the `ValueError` text and the expected/actual checksum lines.
- The internals of Argon2id, AES-GCM and SHA-256 are left out because they are library code. Wrong-password and tamper detection are cryptographic assumptions about them, so they are not stated.
- The library's own parameter validation is not modelled. For example, it may refuse a short salt or a bad nonce length. Such a refusal is only a possible `None` from the primitive.
- Python strings with lone surrogates are not modelled, in the password or in manifest strings. A Dafny `char` is a Unicode scalar value, so every modelled password has a UTF-8 encoding; in Python, `encode('utf-8')` would raise on such a password. `json.load` accepts an escaped lone surrogate such as `"\ud800"` in a manifest string; a `checksum` holding one can never equal the hex digest, so it would be a Mismatch and no outcome changes.
- A manifest that is valid JSON but not an object is not modelled. On such a manifest, `metadata.get` would raise.
- JSON numbers are modelled as reals. The non-standard `NaN` and `Infinity` literals, which `json.load` also accepts and which are truthy, are not represented.
