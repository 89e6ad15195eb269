/** The handshake read from its numbers: where each field of the two messages is, and every
    key, ciphertext and hash as one flat expression over what the two sides started from. */
module HandshakeView {
  import opened Bytes
  import opened Crypto
  import opened Transport
  import opened HandshakeSpec

  /** Both sides' first chaining key, and the hash bound to the responder. */
  function FirstKey(suite: Suite): bytes {
    suite.hash(Ascii("Noise_IKpsk2_25519_ChaChaPoly_BLAKE2s"))
  }

  function FirstHash(suite: Suite, responder: publicKey): bytes {
    suite.hash(suite.hash(FirstKey(suite) + Ascii("WireGuard v1 zx2c4 Jason@zx2c4.com")) + responder)
  }

  /** A chaining key after a list of inputs. */
  function Mixed(suite: Suite, key: bytes, inputs: seq<bytes>): bytes {
    if inputs == [] then key else suite.kdf(Mixed(suite, key, inputs[..|inputs| - 1]), inputs[|inputs| - 1], 1)
  }

  /** A hash after a list of data. */
  function Hashed(suite: Suite, h: bytes, data: seq<bytes>): bytes {
    if data == [] then h else suite.hash(Hashed(suite, h, data[..|data| - 1]) + data[|data| - 1])
  }

  lemma Mixes(suite: Suite, key: bytes, a: bytes, b: bytes, c: bytes, d: bytes)
    ensures Mixed(suite, key, [a]) == suite.kdf(key, a, 1)
    ensures Mixed(suite, key, [a, b]) == suite.kdf(suite.kdf(key, a, 1), b, 1)
    ensures Mixed(suite, key, [a, b, c]) == suite.kdf(suite.kdf(suite.kdf(key, a, 1), b, 1), c, 1)
    ensures Mixed(suite, key, [a, b, c, d]) == suite.kdf(suite.kdf(suite.kdf(suite.kdf(key, a, 1), b, 1), c, 1), d, 1)
  {
    assert [a][..0] == [] && [a, b][..1] == [a] && [a, b, c][..2] == [a, b] && [a, b, c, d][..3] == [a, b, c];
  }

  lemma Hashes(suite: Suite, h: bytes, a: bytes, b: bytes, c: bytes)
    ensures Hashed(suite, h, [a]) == suite.hash(h + a)
    ensures Hashed(suite, h, [a, b]) == suite.hash(suite.hash(h + a) + b)
    ensures Hashed(suite, h, [a, b, c]) == suite.hash(suite.hash(suite.hash(h + a) + b) + c)
  {
    assert [a][..0] == [] && [a, b][..1] == [a] && [a, b, c][..2] == [a, b];
  }

  lemma {:induction false} MixedConcat(suite: Suite, key: bytes, a: seq<bytes>, b: seq<bytes>)
    ensures Mixed(suite, key, a + b) == Mixed(suite, Mixed(suite, key, a), b)
  {
    if b == [] {
      assert a + b == a;
    } else {
      var n := |b| - 1;
      MixedConcat(suite, key, a, b[..n]);
      assert (a + b)[..|a| + n] == a + b[..n];
    }
  }

  /** An initiation, byte by byte. */
  lemma InitiationIsRead(suite: Suite, own: bytes, peer: publicKey, ephemeral: bytes, index: u32, time: timestamp)
    requires suite.Lawful()
    ensures var msg := Initiate(suite, own, peer, ephemeral, index, time).message;
            var e, first := suite.public(ephemeral), FirstKey(suite);
            && |msg| == 148 && msg[..4] == [1, 0, 0, 0] && FromLe(msg[4..8]) == index && msg[8..40] == e
            && msg[40..88] == suite.aead.seal(
                 suite.kdf(Mixed(suite, first, [e]), suite.dh(ephemeral, peer), 2), Zeros(12),
                 Hashed(suite, FirstHash(suite, peer), [e]), suite.public(own))
            && msg[88..116] == suite.aead.seal(
                 suite.kdf(Mixed(suite, first, [e, suite.dh(ephemeral, peer)]), suite.dh(own, peer), 2), Zeros(12),
                 Hashed(suite, FirstHash(suite, peer), [e, msg[40..88]]), time)
            && msg[116..132] == suite.mac(suite.hash(Ascii("mac1----") + peer), msg[..116]) && msg[132..] == Zeros(16)
  {
    hide Ascii, Suite.Lawful, U32Le, Mixed, Hashed;
    var e, es, ss := suite.public(ephemeral), suite.dh(ephemeral, peer), suite.dh(own, peer);
    var s := SendSecret(suite, EphemeralMixed(suite, Begin(suite, peer), e), es, suite.public(own));
    var t := SendSecret(suite, s.chain, ss, time);
    var prefix := [MSG_INITIATION, 0, 0, 0] + Le(index, 4) + e + s.text + t.text;
    Mixes(suite, FirstKey(suite), e, es, ss, []);
    Hashes(suite, FirstHash(suite, peer), e, s.text, t.text);
    ReadUndoesSend(suite, EphemeralMixed(suite, Begin(suite, peer), e), es, suite.public(own));
    ReadUndoesSend(suite, s.chain, ss, time);
    MacLength(suite, peer, prefix);
    InitiationFields(index, e, s.text, t.text, Mac1(suite, peer, prefix), Zeros(MAC_LEN));
    ReadsLe(index);
    var msg := prefix + Mac1(suite, peer, prefix) + Zeros(MAC_LEN);
    assert msg[4..8] == Le(index, 4) && msg[..4] == [1, 0, 0, 0] && msg[132..] == Zeros(16);
  }

  lemma ReadsLe(index: u32)
    ensures FromLe(Le(index, 4)) == index
  {
    Pow256Values();
    LeRoundTrip(index, 4);
  }

  /** A response, byte by byte: it names the index of the initiation it answers. */
  lemma ResponseIsRead(suite: Suite, learned: Learned, ephemeral: bytes, index: u32)
    requires suite.Lawful()
    ensures var msg := Respond(suite, learned, ephemeral, index).message;
            var e := suite.public(ephemeral);
            var inputs := [e, suite.dh(ephemeral, learned.peerEphemeral), suite.dh(ephemeral, learned.peerStatic)];
            var key := Mixed(suite, learned.chain.c, inputs);
            && |msg| == 92 && msg[..4] == [2, 0, 0, 0] && FromLe(msg[4..8]) == index
            && FromLe(msg[8..12]) == learned.peerIndex && msg[12..44] == e
            && msg[44..60] == suite.aead.seal(
                 suite.kdf(key, Zeros(32), 3), Zeros(12),
                 Hashed(suite, learned.chain.h, [e, suite.kdf(key, Zeros(32), 2)]), [])
            && msg[60..76] == suite.mac(suite.hash(Ascii("mac1----") + learned.peerStatic), msg[..60])
            && msg[76..] == Zeros(16)
  {
    hide Ascii, Suite.Lawful, U32Le, Mixed, Hashed;
    var e := suite.public(ephemeral);
    var ee, se := suite.dh(ephemeral, learned.peerEphemeral), suite.dh(ephemeral, learned.peerStatic);
    var chain := ResponseMixed(suite, learned.chain, e, ee, se);
    Mixes(suite, learned.chain.c, e, ee, se, []);
    Hashes(suite, learned.chain.h, e, suite.kdf(chain.c, Zeros(32), 2), []);
    var empty := Sealed(suite, PskMixed(suite, chain), PskCipher(suite, chain), []);
    EmptyOpens(suite, PskMixed(suite, chain), PskCipher(suite, chain));
    var prefix := [MSG_RESPONSE, 0, 0, 0] + Le(index, 4) + Le(learned.peerIndex, 4) + e + empty;
    MacLength(suite, learned.peerStatic, prefix);
    ResponseFields(index, learned.peerIndex, e, empty, Mac1(suite, learned.peerStatic, prefix), Zeros(MAC_LEN));
    ReadsLe(index);
    ReadsLe(learned.peerIndex);
    var msg := prefix + Mac1(suite, learned.peerStatic, prefix) + Zeros(MAC_LEN);
    assert msg[4..8] == Le(index, 4) && msg[8..12] == Le(learned.peerIndex, 4) && msg[..4] == [2, 0, 0, 0];
  }

  /** The answer to any accepted initiation is addressed to its sender. */
  lemma AnswerIsAddressed(suite: Suite, own: bytes, msg: bytes, ephemeral: bytes, index: u32)
    requires suite.Lawful() && Accept(suite, own, msg).Ok?
    ensures |msg| == 148
    ensures FromLe(Respond(suite, Accept(suite, own, msg).value, ephemeral, index).message[8..12]) == FromLe(msg[4..8])
  {
    hide ReadSecret, EphemeralMixed, Begin, Mac1, Respond, Suite.Lawful;
    ResponseIsRead(suite, Accept(suite, own, msg).value, ephemeral, index);
  }

  /** The keys of a session from the responder's side: the first chaining key mixed with two
      ephemerals, four Diffie-Hellman results and the empty pre-shared key, in that order. */
  lemma SessionKeysAreFlat(suite: Suite, a: bytes, b: bytes, ephA: bytes, ephB: bytes, indexA: u32, indexB: u32,
                           time: timestamp, learned: Learned)
    requires suite.Lawful()
    requires Accept(suite, b, Initiate(suite, a, suite.public(b), ephA, indexA, time).message) == Ok(learned)
    ensures var sent := Initiate(suite, a, suite.public(b), ephA, indexA, time);
            var answer := Respond(suite, learned, ephB, indexB);
            var key := Mixed(suite, FirstKey(suite), [
              suite.public(ephA), suite.dh(ephA, suite.public(b)), suite.dh(a, suite.public(b)),
              suite.public(ephB), suite.dh(ephB, suite.public(ephA)), suite.dh(ephB, suite.public(a)), Zeros(32)]);
            && answer.keys == SessionKeys(suite.kdf(key, [], 2), suite.kdf(key, [], 1), indexB, indexA)
            && Finish(suite, sent, answer.message)
               == Ok(SessionKeys(suite.kdf(key, [], 1), suite.kdf(key, [], 2), indexA, indexB))
  {
    hide Ascii, Suite.Lawful, U32Le, Mixed, Accept, Finish;
    InitiationIsAccepted(suite, a, b, ephA, indexA, time);
    var sent := Initiate(suite, a, suite.public(b), ephA, indexA, time);
    ResponseIsAccepted(suite, sent, learned, ephB, indexB);
    var x, y, z := suite.public(ephA), suite.dh(ephA, suite.public(b)), suite.dh(a, suite.public(b));
    var p, q, r := suite.public(ephB), suite.dh(ephB, suite.public(ephA)), suite.dh(ephB, suite.public(a));
    MixedConcat(suite, FirstKey(suite), [x, y, z], [p, q, r, Zeros(32)]);
    assert [x, y, z] + [p, q, r, Zeros(32)] == [x, y, z, p, q, r, Zeros(32)];
    Mixes(suite, FirstKey(suite), x, y, z, []);
    Mixes(suite, sent.chain.c, p, q, r, Zeros(32));
  }

  /** Why a message is turned down before any key agreement: its length and first byte, and
      for an initiation then the sixteen bytes at 116, which authenticate what is before
      them under the responder's own key. */
  lemma RefusalsByCause(suite: Suite, own: bytes, started: Initiated, msg: bytes)
    requires suite.Lawful()
    ensures Accept(suite, own, msg) == Err(Malformed) <==> |msg| != 148 || msg[0] != 1
    ensures Accept(suite, own, msg) == Err(BadMac) <==>
              |msg| == 148 && msg[0] == 1
              && msg[116..132] != suite.mac(suite.hash(Ascii("mac1----") + suite.public(own)), msg[..116])
    ensures Finish(suite, started, msg) == Err(Malformed) <==> |msg| != 92 || msg[0] != 2
    ensures Finish(suite, started, msg) != Err(BadMac)
  {
  }
}
