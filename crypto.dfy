/**
 * The cryptographic and encoding primitives the link lock relies on, kept abstract.
 *
 * AES-GCM (NIST SP 800-38D), PBKDF2 (section 5.2 of RFC 8018), the standard base64 codec
 * (section 4 of RFC 4648) and UTF-8 are library code on both sides (the Python `cryptography`
 * package and `base64` module; the browser's Web Crypto, `atob`, `TextEncoder`/`TextDecoder`).
 * They are passed around as a record of functions, and `Sound` collects the only facts the model
 * uses about them: each decoder inverts its encoder (UTF-8 decoding only on text that does not
 * start with a byte order mark, which the browser's decoder drops), and the base64 encoder emits
 * padded standard-alphabet text.
 */
module Crypto {
  import opened Wrappers

  newtype byte = x: int | 0 <= x < 256

  /** A 12-byte AES-GCM nonce (`os.urandom(12)`). */
  type Nonce = b: seq<byte> | |b| == 12 witness [0, 0, 0, 0, 0, 0, 0, 0, 0, 0, 0, 0]

  datatype HashAlgorithm = Sha256

  /** The parameters of a PBKDF2 derivation; the key length is in bits. */
  datatype KdfParams = KdfParams(salt: string, iterations: nat, hash: HashAlgorithm, keyBits: nat)

  datatype Primitives = Primitives(
    pbkdf2: (seq<byte>, KdfParams) -> seq<byte>,
    seal: (seq<byte>, Nonce, seq<byte>) -> seq<byte>,
    open: (seq<byte>, seq<byte>, seq<byte>) -> Option<seq<byte>>,
    base64Encode: seq<byte> -> string,
    base64Decode: string -> Option<seq<byte>>,
    utf8Encode: string -> seq<byte>,
    utf8Decode: seq<byte> -> string)

  /** The standard base64 alphabet with its padding character. */
  predicate IsBase64Char(c: char) {
    ('A' <= c <= 'Z') || ('a' <= c <= 'z') || ('0' <= c <= '9') || c == '+' || c == '/' || c == '='
  }

  /** Padded base64 text: standard-alphabet characters, a multiple of four of them. */
  predicate IsPaddedBase64(s: string) {
    |s| % 4 == 0 && forall i :: 0 <= i < |s| ==> IsBase64Char(s[i])
  }

  /** The byte order mark, U+FEFF. */
  const Bom: char := '\U{FEFF}'

  /**
   * Text that does not start with a byte order mark. A default `TextDecoder` drops a leading
   * BOM, so UTF-8 decoding inverts encoding only on such text.
   */
  predicate NoLeadingBom(s: string) {
    s == [] || s[0] != Bom
  }

  /** The inverse laws of the primitives. */
  ghost predicate Sound(p: Primitives) {
    && (forall b :: IsPaddedBase64(p.base64Encode(b)))
    && (forall b :: p.base64Decode(p.base64Encode(b)) == Some(b))
    && (forall k, n: Nonce, m :: p.open(k, n, p.seal(k, n, m)) == Some(m))
    && (forall s :: NoLeadingBom(s) ==> p.utf8Decode(p.utf8Encode(s)) == s)
  }
}
