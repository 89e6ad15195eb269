/** The primitives the protocols are built on, kept uninterpreted: every theorem holds
    for any functions with the stated laws. */
module Crypto {
  import opened Bytes

  const TAG_LEN: nat := 16

  /** Authenticated encryption: key, nonce, associated data, then plaintext (`seal`) or
      ciphertext followed by its tag (`open`). */
  datatype Aead = Aead(
    seal: (bytes, bytes, bytes, bytes) -> bytes,
    open: (bytes, bytes, bytes, bytes) -> Option<bytes>)
  {
    /** Opening undoes sealing, and both keep lengths 16 apart. */
    ghost predicate Correct() {
      && (forall k, n, a, p :: |seal(k, n, a, p)| == |p| + TAG_LEN)
      && (forall k, n, a, p :: open(k, n, a, seal(k, n, a, p)) == Some(p))
      && (forall k, n, a, c :: open(k, n, a, c).Some? ==> |c| == |open(k, n, a, c).value| + TAG_LEN)
    }
  }

  /** The laws can be met. */
  lemma AeadExists() returns (aead: Aead)
    ensures aead.Correct()
  {
    aead := Aead(
      (k, n, a, p: bytes) => p + Zeros(TAG_LEN),
      (k, n, a, c: bytes) =>
        if |c| >= TAG_LEN && c[|c| - TAG_LEN..] == Zeros(TAG_LEN) then Some(c[..|c| - TAG_LEN]) else None);
    forall k: bytes, n: bytes, a: bytes, p: bytes
      ensures aead.open(k, n, a, aead.seal(k, n, a, p)) == Some(p)
    {
      var c := p + Zeros(TAG_LEN);
      assert c[|c| - TAG_LEN..] == Zeros(TAG_LEN) && c[..|c| - TAG_LEN] == p;
    }
  }
}
