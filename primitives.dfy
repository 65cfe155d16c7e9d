/**
 * The cryptographic primitives the codec calls, kept abstract: SHA-256
 * (FIPS 180-4) and AES-256 in CBC mode (NIST SP 800-38A, section 6.2) with
 * PKCS#7 padding (RFC 5652, section 6.3). They are values of `Crypto`, passed
 * in as parameters; what the model relies on of them is `Sound`.
 */
module Primitives {
  import opened Wrappers
  import opened Hex

  /** The cipher name handed to Node's `createCipheriv`/`createDecipheriv`. */
  const ALGORITHM := "aes-256-cbc"
  /** Octets in an initialisation vector: one AES block. */
  const IV_LENGTH := 16
  /** Octets in a SHA-256 digest, which is also the AES-256 key size. */
  const KEY_LENGTH := 32

  type Key = b: Bytes | |b| == KEY_LENGTH witness seq(KEY_LENGTH, _ => 0)
  type Iv = b: Bytes | |b| == IV_LENGTH witness seq(IV_LENGTH, _ => 0)

  /**
   * sha256(m) is the digest of the UTF-8 octets of m.
   * aesEncrypt and aesDecrypt stand for Node's cipher named ALGORITHM.
   * aesEncrypt(k, iv, t) is the CBC encryption under (k, iv) of the UTF-8
   * octets of t, PKCS#7-padded (`cipher.update(t, 'utf8')` then `final()`).
   * aesDecrypt(k, iv, c) is `decipher.update(c)` then `final('utf8')`:
   * None when the cipher or the padding check rejects c.
   */
  datatype Crypto = Crypto(
    sha256: string -> Key,
    aesEncrypt: (Key, Iv, string) -> Bytes,
    aesDecrypt: (Key, Iv, Bytes) -> Option<string>)

  /** The one property assumed of the cipher: under the same key and IV,
      decryption inverts encryption. */
  ghost predicate Sound(c: Crypto) {
    forall k: Key, iv: Iv, t: string :: c.aesDecrypt(k, iv, c.aesEncrypt(k, iv, t)) == Some(t)
  }
}
