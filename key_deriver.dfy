/** `generateKey`: the per-document AES key is SHA-256 of the identifier
    followed by the server secret. */
module KeyDeriver {
  import opened Primitives

  /** The string hashed for a document: the identifier, then the secret,
      with no separator. */
  function HashInput(textId: string, secret: string): (m: string)
    ensures |m| == |textId| + |secret|
    ensures m[..|textId|] == textId && m[|textId|..] == secret
  {
    textId + secret
  }

  function DeriveKey(c: Crypto, secret: string, textId: string): (k: Key) {
    c.sha256(HashInput(textId, secret))
  }

  /** For a fixed secret, the hash input determines the identifier: distinct
      identifiers are hashed from distinct strings. */
  lemma HashInputInjective(a: string, b: string, secret: string)
    ensures HashInput(a, secret) == HashInput(b, secret) <==> a == b
  {
  }

  /** The key is a function of the hash input alone, so of the pair
      (identifier, secret): nothing else reaches it. */
  lemma KeyDeterminedByHashInput(c: Crypto, s1: string, id1: string, s2: string, id2: string)
    requires HashInput(id1, s1) == HashInput(id2, s2)
    ensures DeriveKey(c, s1, id1) == DeriveKey(c, s2, id2)
  {
  }
}
