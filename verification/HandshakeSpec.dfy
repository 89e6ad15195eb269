/** WireGuard's handshake as pure transcripts and messages,
    `Noise_IKpsk2_25519_ChaChaPoly_BLAKE2s`, and the agreement of its two halves. */
module HandshakeSpec {
  import opened Bytes
  import opened Crypto
  import opened Transport

  const MSG_INITIATION: byte := 1
  const MSG_RESPONSE: byte := 2
  const INITIATION_LEN: nat := 148
  const RESPONSE_LEN: nat := 92
  const TIMESTAMP_LEN: nat := 12
  const MAC_LEN: nat := 16

  // Field offsets within an initiation, then within a response.
  const INIT_SENDER: nat := 4
  const INIT_EPHEMERAL: nat := 8
  const INIT_STATIC: nat := 40
  const INIT_TIMESTAMP: nat := 88
  const INIT_MAC1: nat := 116
  const RESP_SENDER: nat := 4
  const RESP_RECEIVER: nat := 8
  const RESP_EPHEMERAL: nat := 12
  const RESP_EMPTY: nat := 44
  const RESP_MAC1: nat := 60

  /** A public key: 32 bytes on the wire. */
  type publicKey = k: bytes | |k| == KEY_LEN witness Zeros(KEY_LEN)
  type timestamp = t: bytes | |t| == TIMESTAMP_LEN witness Zeros(TIMESTAMP_LEN)

  /** The cipher suite: `kdf(key, input, i)` is the `i`th output, counted from one. */
  datatype Suite = Suite(
    hash: bytes -> bytes,
    mac: (bytes, bytes) -> bytes,
    kdf: (bytes, bytes, nat) -> bytes,
    public: bytes -> publicKey,
    dh: (bytes, publicKey) -> bytes,
    aead: Aead)
  {
    ghost predicate Lawful() {
      && aead.Correct()
      && (forall k, m :: |mac(k, m)| == MAC_LEN)
      && (forall a, b :: dh(a, public(b)) == dh(b, public(a)))
    }
  }

  lemma SuiteHasAead(suite: Suite)
    requires suite.Lawful()
    ensures suite.aead.Correct()
  {
  }

  /** The laws can be met. */
  lemma SuiteExists() returns (suite: Suite)
    ensures suite.Lawful()
  {
    var aead := AeadExists();
    suite := Suite(
      m => m, (k, m) => Zeros(MAC_LEN), (k, m, i) => k + m, k => Zeros(KEY_LEN), (a, b) => b, aead);
  }

  // ---------------------------------------------------------------- the transcript

  /** The chaining key and the transcript hash. */
  datatype Chain = Chain(c: bytes, h: bytes)

  function HashMixed(suite: Suite, chain: Chain, data: bytes): Chain {
    chain.(h := suite.hash(chain.h + data))
  }

  function KeyMixed(suite: Suite, chain: Chain, input: bytes): Chain {
    chain.(c := suite.kdf(chain.c, input, 1))
  }

  /** An ephemeral goes into the chaining key first, then into the hash. */
  function EphemeralMixed(suite: Suite, chain: Chain, ephemeral: bytes): Chain {
    HashMixed(suite, KeyMixed(suite, chain, ephemeral), ephemeral)
  }

  function Begin(suite: Suite, responder: publicKey): Chain {
    var c := suite.hash(Ascii("Noise_IKpsk2_25519_ChaChaPoly_BLAKE2s"));
    var h := suite.hash(c + Ascii("WireGuard v1 zx2c4 Jason@zx2c4.com"));
    Chain(c, suite.hash(h + responder))
  }

  const ZERO_NONCE := Zeros(12)

  /** Sealing binds the plaintext to the transcript, and the transcript to the ciphertext. */
  function Sealed(suite: Suite, chain: Chain, cipher: bytes, plain: bytes): bytes {
    suite.aead.seal(cipher, ZERO_NONCE, chain.h, plain)
  }

  function Opened(suite: Suite, chain: Chain, cipher: bytes, sealed: bytes): Option<bytes> {
    suite.aead.open(cipher, ZERO_NONCE, chain.h, sealed)
  }

  /** A secret sent under a key derived from a Diffie-Hellman result. */
  datatype Secret = Secret(chain: Chain, text: bytes)

  function SendSecret(suite: Suite, chain: Chain, shared: bytes, plain: bytes): Secret {
    var keyed := KeyMixed(suite, chain, shared);
    var sealed := Sealed(suite, keyed, suite.kdf(chain.c, shared, 2), plain);
    Secret(HashMixed(suite, keyed, sealed), sealed)
  }

  function ReadSecret(suite: Suite, chain: Chain, shared: bytes, sealed: bytes): Option<Secret> {
    var keyed := KeyMixed(suite, chain, shared);
    match Opened(suite, keyed, suite.kdf(chain.c, shared, 2), sealed)
    case None => None
    case Some(plain) => Some(Secret(HashMixed(suite, keyed, sealed), plain))
  }

  /** With the same transcript and the same shared secret, reading undoes sending and
      leaves both sides with the same transcript again. */
  lemma ReadUndoesSend(suite: Suite, chain: Chain, shared: bytes, plain: bytes)
    requires suite.Lawful()
    ensures var sent := SendSecret(suite, chain, shared, plain);
            && |sent.text| == |plain| + TAG_LEN
            && ReadSecret(suite, chain, shared, sent.text) == Some(Secret(sent.chain, plain))
  {
  }

  const NO_PSK := Zeros(KEY_LEN)

  /** The transcript and the cipher once the pre-shared key is mixed in. */
  function PskMixed(suite: Suite, chain: Chain): Chain {
    HashMixed(suite, KeyMixed(suite, chain, NO_PSK), suite.kdf(chain.c, NO_PSK, 2))
  }

  function PskCipher(suite: Suite, chain: Chain): bytes {
    suite.kdf(chain.c, NO_PSK, 3)
  }

  function Mac1(suite: Suite, recipient: publicKey, prefix: bytes): bytes {
    suite.mac(suite.hash(Ascii("mac1----") + recipient), prefix)
  }

  // ---------------------------------------------------------------- the two messages

  /** What the initiator knows once its message is sent. */
  datatype Initiated = Initiated(chain: Chain, ephemeral: bytes, own: bytes, localIndex: u32, message: bytes)

  function Initiate(suite: Suite, own: bytes, peer: publicKey, ephemeral: bytes, index: u32, time: timestamp): Initiated {
    var e := suite.public(ephemeral);
    var s := SendSecret(suite, EphemeralMixed(suite, Begin(suite, peer), e), suite.dh(ephemeral, peer), suite.public(own));
    var t := SendSecret(suite, s.chain, suite.dh(own, peer), time);
    var prefix := [MSG_INITIATION, 0, 0, 0] + Le(index, 4) + e + s.text + t.text;
    Initiated(t.chain, ephemeral, own, index, prefix + Mac1(suite, peer, prefix) + Zeros(MAC_LEN))
  }

  /** What the responder learned from an initiation, and keeps for its reply. */
  datatype Learned = Learned(chain: Chain, peerStatic: publicKey, time: timestamp, peerEphemeral: publicKey, peerIndex: u32)

  function Accept(suite: Suite, own: bytes, msg: bytes): Result<Learned, WgError>
    requires suite.Lawful()
  {
    if |msg| != INITIATION_LEN || msg[0] != MSG_INITIATION then Err(Malformed)
    else if msg[INIT_MAC1..INIT_MAC1 + MAC_LEN] != Mac1(suite, suite.public(own), msg[..INIT_MAC1]) then Err(BadMac)
    else
      var e := msg[INIT_EPHEMERAL..INIT_STATIC];
      var chain := EphemeralMixed(suite, Begin(suite, suite.public(own)), e);
      match ReadSecret(suite, chain, suite.dh(own, e), msg[INIT_STATIC..INIT_TIMESTAMP])
      case None => Err(Decrypt)
      case Some(s) =>
        match ReadSecret(suite, s.chain, suite.dh(own, s.text), msg[INIT_TIMESTAMP..INIT_MAC1])
        case None => Err(Decrypt)
        case Some(t) => Ok(Learned(t.chain, s.text, t.text, e, U32Le(msg[INIT_SENDER..INIT_EPHEMERAL])))
  }

  /** `u32::from_le_bytes`. */
  function U32Le(s: bytes): u32
    requires |s| == 4
  {
    FromLeBound(s);
    Pow256Values();
    FromLe(s)
  }

  lemma U32LeUndoesLe(n: u32)
    ensures U32Le(Le(n, 4)) == n
  {
    Pow256Values();
    LeRoundTrip(n, 4);
  }

  /** The transcript after the response's ephemeral and its two shared secrets. */
  function ResponseMixed(suite: Suite, chain: Chain, ephemeral: bytes, ee: bytes, se: bytes): Chain {
    KeyMixed(suite, KeyMixed(suite, EphemeralMixed(suite, chain, ephemeral), ee), se)
  }

  datatype Responded = Responded(message: bytes, keys: SessionKeys)

  function Respond(suite: Suite, learned: Learned, ephemeral: bytes, index: u32): Responded {
    var e := suite.public(ephemeral);
    var chain := ResponseMixed(suite, learned.chain, e,
                             suite.dh(ephemeral, learned.peerEphemeral), suite.dh(ephemeral, learned.peerStatic));
    var empty := Sealed(suite, PskMixed(suite, chain), PskCipher(suite, chain), []);
    var prefix := [MSG_RESPONSE, 0, 0, 0] + Le(index, 4) + Le(learned.peerIndex, 4) + e + empty;
    var last := HashMixed(suite, PskMixed(suite, chain), empty);
    Responded(prefix + Mac1(suite, learned.peerStatic, prefix) + Zeros(MAC_LEN),
              SessionKeys(suite.kdf(last.c, [], 2), suite.kdf(last.c, [], 1), index, learned.peerIndex))
  }

  function Finish(suite: Suite, started: Initiated, msg: bytes): Result<SessionKeys, WgError> {
    if |msg| != RESPONSE_LEN || msg[0] != MSG_RESPONSE then Err(Malformed)
    else
      var e := msg[RESP_EPHEMERAL..RESP_EMPTY];
      var chain := ResponseMixed(suite, started.chain, e, suite.dh(started.ephemeral, e), suite.dh(started.own, e));
      var empty := msg[RESP_EMPTY..RESP_MAC1];
      match Opened(suite, PskMixed(suite, chain), PskCipher(suite, chain), empty)
      case None => Err(Decrypt)
      case Some(_) =>
        var last := HashMixed(suite, PskMixed(suite, chain), empty);
        Ok(SessionKeys(suite.kdf(last.c, [], 1), suite.kdf(last.c, [], 2),
                       started.localIndex, U32Le(msg[RESP_SENDER..RESP_RECEIVER])))
  }

  // ---------------------------------------------------------------- agreement

  lemma InitiationFields(index: u32, e: bytes, s: bytes, t: bytes, mac: bytes, more: bytes)
    requires |e| == KEY_LEN && |s| == KEY_LEN + TAG_LEN && |t| == TIMESTAMP_LEN + TAG_LEN
    requires |mac| == MAC_LEN && |more| == MAC_LEN
    ensures var prefix := [MSG_INITIATION, 0, 0, 0] + Le(index, 4) + e + s + t;
            var msg := prefix + mac + more;
            && |msg| == INITIATION_LEN && msg[0] == MSG_INITIATION && msg[..INIT_MAC1] == prefix
            && U32Le(msg[INIT_SENDER..INIT_EPHEMERAL]) == index && msg[INIT_EPHEMERAL..INIT_STATIC] == e
            && msg[INIT_STATIC..INIT_TIMESTAMP] == s && msg[INIT_TIMESTAMP..INIT_MAC1] == t
            && msg[INIT_MAC1..INIT_MAC1 + MAC_LEN] == mac
  {
    var msg := [MSG_INITIATION, 0, 0, 0] + Le(index, 4) + e + s + t + mac + more;
    assert msg[INIT_SENDER..INIT_EPHEMERAL] == Le(index, 4);
    U32LeUndoesLe(index);
  }

  lemma ResponseFields(index: u32, receiver: u32, e: bytes, empty: bytes, mac: bytes, more: bytes)
    requires |e| == KEY_LEN && |empty| == TAG_LEN && |mac| == MAC_LEN && |more| == MAC_LEN
    ensures var prefix := [MSG_RESPONSE, 0, 0, 0] + Le(index, 4) + Le(receiver, 4) + e + empty;
            var msg := prefix + mac + more;
            && |msg| == RESPONSE_LEN && msg[0] == MSG_RESPONSE && msg[..RESP_MAC1] == prefix
            && U32Le(msg[RESP_SENDER..RESP_RECEIVER]) == index && msg[RESP_EPHEMERAL..RESP_EMPTY] == e
            && U32Le(msg[RESP_RECEIVER..RESP_EPHEMERAL]) == receiver && msg[RESP_EMPTY..RESP_MAC1] == empty
            && msg[RESP_MAC1..RESP_MAC1 + MAC_LEN] == mac && msg[RESP_MAC1 + MAC_LEN..] == more
  {
    var msg := [MSG_RESPONSE, 0, 0, 0] + Le(index, 4) + Le(receiver, 4) + e + empty + mac + more;
    assert msg[RESP_SENDER..RESP_RECEIVER] == Le(index, 4) && msg[RESP_RECEIVER..RESP_EPHEMERAL] == Le(receiver, 4);
    U32LeUndoesLe(index);
    U32LeUndoesLe(receiver);
  }

  /** The responder accepts what the initiator sent, learns who sent it, when and with
      which index, and holds the same transcript. */
  lemma InitiationIsAccepted(suite: Suite, own: bytes, peer: bytes, ephemeral: bytes, index: u32, time: timestamp)
    requires suite.Lawful()
    ensures var sent := Initiate(suite, own, suite.public(peer), ephemeral, index, time);
            Accept(suite, peer, sent.message)
            == Ok(Learned(sent.chain, suite.public(own), time, suite.public(ephemeral), index))
  {
    hide EphemeralMixed, Begin, SendSecret, ReadSecret, Mac1, Suite.Lawful, U32Le;
    var p := suite.public(peer);
    var e := suite.public(ephemeral);
    var chain := EphemeralMixed(suite, Begin(suite, p), e);
    var s := SendSecret(suite, chain, suite.dh(ephemeral, p), suite.public(own));
    var t := SendSecret(suite, s.chain, suite.dh(own, p), time);
    ReadUndoesSend(suite, chain, suite.dh(ephemeral, p), suite.public(own));
    ReadUndoesSend(suite, s.chain, suite.dh(own, p), time);
    SharedSecrets(suite, peer, ephemeral);
    SharedSecrets(suite, peer, own);
    var prefix := [MSG_INITIATION, 0, 0, 0] + Le(index, 4) + e + s.text + t.text;
    MacLength(suite, p, prefix);
    InitiationFields(index, e, s.text, t.text, Mac1(suite, p, prefix), Zeros(MAC_LEN));
  }

  lemma SharedSecrets(suite: Suite, a: bytes, b: bytes)
    requires suite.Lawful()
    ensures suite.dh(a, suite.public(b)) == suite.dh(b, suite.public(a))
  {
  }

  lemma MacLength(suite: Suite, recipient: publicKey, prefix: bytes)
    requires suite.Lawful()
    ensures |Mac1(suite, recipient, prefix)| == MAC_LEN
  {
  }

  lemma EmptyOpens(suite: Suite, chain: Chain, cipher: bytes)
    requires suite.Lawful()
    ensures var empty := Sealed(suite, chain, cipher, []);
            |empty| == TAG_LEN && Opened(suite, chain, cipher, empty) == Some([])
  {
  }

  /** Each side's sending key is the other's receiving key, and each knows the other's
      index. */
  ghost predicate Crossed(a: SessionKeys, b: SessionKeys) {
    && a.send == b.receive && a.receive == b.send
    && a.localIndex == b.peerIndex && a.peerIndex == b.localIndex
  }

  /** The initiator accepts the answer to its own message, and the two sides agree. */
  lemma ResponseIsAccepted(suite: Suite, started: Initiated, learned: Learned, ephemeral: bytes, index: u32)
    requires suite.Lawful()
    requires learned.chain == started.chain && learned.peerIndex == started.localIndex
    requires learned.peerStatic == suite.public(started.own)
    requires learned.peerEphemeral == suite.public(started.ephemeral)
    ensures var answer := Respond(suite, learned, ephemeral, index);
            var keys := Finish(suite, started, answer.message);
            && keys.Ok? && Crossed(keys.value, answer.keys)
            && keys.value.localIndex == started.localIndex && keys.value.peerIndex == index
  {
    hide EphemeralMixed, PskMixed, PskCipher, Sealed, Opened, Mac1, Suite.Lawful, U32Le, HashMixed, KeyMixed;
    var e := suite.public(ephemeral);
    var chain := ResponseMixed(suite, learned.chain, e,
                             suite.dh(ephemeral, learned.peerEphemeral), suite.dh(ephemeral, learned.peerStatic));
    var empty := Sealed(suite, PskMixed(suite, chain), PskCipher(suite, chain), []);
    EmptyOpens(suite, PskMixed(suite, chain), PskCipher(suite, chain));
    SharedSecrets(suite, ephemeral, started.ephemeral);
    SharedSecrets(suite, ephemeral, started.own);
    var prefix := [MSG_RESPONSE, 0, 0, 0] + Le(index, 4) + Le(learned.peerIndex, 4) + e + empty;
    MacLength(suite, learned.peerStatic, prefix);
    ResponseFields(index, learned.peerIndex, e, empty, Mac1(suite, learned.peerStatic, prefix), Zeros(MAC_LEN));
  }
}
