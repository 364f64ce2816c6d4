/**
  The three cryptographic primitives the decryption calls into, as
  uninterpreted functions carrying only the facts the code relies on.

  - Argon2id (section 3.1 of RFC 9106), from the `cryptography` package.
    It is deterministic (a mathematical function) and, asked for
    `KEY_LENGTH` bytes, returns that many. The library validates its
    parameters and may raise instead, which is `None`.
  - AES-256-GCM authenticated decryption (section 7.2 of NIST SP 800-38D).
    It returns the whole plaintext or fails (`None`) on a bad tag, a short
    input or a nonce length the library refuses; there is no partial result.
  - SHA-256 (section 6.2 of FIPS 180-4): a 32-byte digest of any input.

  Nothing about their internals is modelled: in particular no statement
  here says that a wrong password or tampered data fails authentication.
 */
module Primitives {
  import opened Wrappers
  import opened Bytes

  /** Length of the derived AES-256 key, in bytes. */
  const KEY_LENGTH: nat := 32

  /** Length of a SHA-256 digest, in bytes. */
  const DIGEST_LENGTH: nat := 32

  type Key = k: seq<byte> | |k| == KEY_LENGTH
    witness seq(KEY_LENGTH, _ => 0)

  type Digest = d: seq<byte> | |d| == DIGEST_LENGTH
    witness seq(DIGEST_LENGTH, _ => 0)

  /** The arguments of the `Argon2id` constructor other than the salt.
      `memoryCostKiB` is in kibibytes, as the library counts it. */
  datatype Argon2Params = Argon2Params(
    length: nat,
    iterations: nat,
    lanes: nat,
    memoryCostKiB: nat,
    associatedData: Option<seq<byte>>,
    secret: Option<seq<byte>>)

  /** One choice of the three primitives; every theorem of the model holds for all of them.
      `argon2id` returns a `Key` whatever `Argon2Params.length` says: the
      decryption only ever asks for `KEY_LENGTH` bytes, so a key's length
      follows from this type and not from the `length` argument. */
  datatype Oracles = Oracles(
    argon2id: (Argon2Params, seq<byte>, seq<byte>) -> Option<Key>,
    aesGcmDecrypt: (Key, seq<byte>, seq<byte>, Option<seq<byte>>) -> Option<seq<byte>>,
    sha256: seq<byte> -> Digest)
}
