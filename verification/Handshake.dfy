/** WireGuard's handshake, both roles, as it mixes its state and fills its messages. */
module Handshake {
  import opened Bytes
  import opened Crypto
  import opened Transport
  import opened HandshakeSpec
  import HandshakeView

  /** The next field of a zeroed message goes right after what is written so far. */
  ghost predicate Written(msg: array<byte>, text: bytes)
    reads msg
  {
    |text| <= msg.Length && msg[..] == text + Zeros(msg.Length - |text|)
  }

  method Put(msg: array<byte>, at: nat, data: bytes, ghost text: bytes)
    requires Written(msg, text) && at == |text| && at + |data| <= msg.Length
    modifies msg
    ensures Written(msg, text + data)
  {
    forall i | 0 <= i < |data| { msg[at + i] := data[i]; }
    assert msg[..] == text + data + Zeros(msg.Length - |text + data|);
  }

  /** The transcript so far: chaining key and hash, each replaced at every step. */
  class State {
    const suite: Suite
    var c: bytes
    var h: bytes

    ghost function Now(): Chain
      reads this
    {
      Chain(c, h)
    }

    constructor (suite: Suite, responder: publicKey)
      ensures this.suite == suite && Now() == Begin(suite, responder)
    {
      this.suite := suite;
      var first := suite.hash(Ascii("Noise_IKpsk2_25519_ChaChaPoly_BLAKE2s"));
      var second := suite.hash(first + Ascii("WireGuard v1 zx2c4 Jason@zx2c4.com"));
      c, h := first, suite.hash(second + responder);
    }

    method MixHash(data: bytes)
      modifies this
      ensures Now() == HashMixed(suite, old(Now()), data)
    {
      h := suite.hash(h + data);
    }

    method MixKey(input: bytes)
      modifies this
      ensures Now() == KeyMixed(suite, old(Now()), input)
    {
      c := suite.kdf(c, input, 1);
    }

    /** The first key-derivation output replaces the chaining key, the second is returned. */
    method MixKeyAndCipher(input: bytes) returns (cipher: bytes)
      modifies this
      ensures Now() == KeyMixed(suite, old(Now()), input)
      ensures cipher == suite.kdf(old(c), input, 2)
    {
      cipher := suite.kdf(c, input, 2);
      c := suite.kdf(c, input, 1);
    }

    method MixPreShared() returns (cipher: bytes)
      modifies this
      ensures Now() == PskMixed(suite, old(Now()))
      ensures cipher == PskCipher(suite, old(Now()))
    {
      var tau := suite.kdf(c, NO_PSK, 2);
      cipher := suite.kdf(c, NO_PSK, 3);
      c := suite.kdf(c, NO_PSK, 1);
      MixHash(tau);
    }

    /** Seals `plain` into `msg[lo..hi]`, right after what is written so far. */
    method Seal(cipher: bytes, msg: array<byte>, lo: nat, hi: nat, plain: bytes, ghost text: bytes)
      returns (r: Result<(), WgError>)
      requires suite.Lawful() && lo <= hi <= msg.Length
      requires Written(msg, text) && lo == |text|
      modifies this, msg
      ensures if hi - lo != |plain| + TAG_LEN then
                r == Err(ShortBuffer) && Now() == old(Now()) && msg[..] == old(msg[..])
              else
                var sealed := Sealed(suite, old(Now()), cipher, plain);
                && r == Ok(()) && |sealed| == hi - lo
                && Written(msg, text + sealed) && Now() == HashMixed(suite, old(Now()), sealed)
    {
      if hi - lo != |plain| + TAG_LEN {
        return Err(ShortBuffer);
      }
      var sealed := suite.aead.seal(cipher, ZERO_NONCE, h, plain);
      Put(msg, lo, sealed, text);
      MixHash(sealed);
      r := Ok(());
    }

    /** Opens `sealed`, which must hold exactly `len` bytes and a tag. */
    method Open(cipher: bytes, len: nat, sealed: bytes) returns (r: Result<bytes, WgError>)
      requires suite.Lawful()
      modifies this
      ensures if |sealed| != len + TAG_LEN then r == Err(Malformed) && Now() == old(Now())
              else
                match Opened(suite, old(Now()), cipher, sealed)
                case None => r == Err(Decrypt) && Now() == old(Now())
                case Some(plain) =>
                  r == Ok(plain) && |plain| == len && Now() == HashMixed(suite, old(Now()), sealed)
    {
      if |sealed| != len + TAG_LEN {
        return Err(Malformed);
      }
      var plain := suite.aead.open(cipher, ZERO_NONCE, h, sealed);
      if plain.None? {
        return Err(Decrypt);
      }
      MixHash(sealed);
      r := Ok(plain.value);
    }

    /** The transport keys, in the initiator's order. */
    method Split() returns (a: bytes, b: bytes)
      ensures a == suite.kdf(c, [], 1) && b == suite.kdf(c, [], 2)
    {
      a, b := suite.kdf(c, [], 1), suite.kdf(c, [], 2);
    }
  }

  /** The initiator between its message and the answer: `Holds` ties it to the specification. */
  class Initiator {
    const suite: Suite
    const state: State
    const ephemeral: bytes
    const own: bytes
    const localIndex: u32

    constructor (state: State, ephemeral: bytes, own: bytes, localIndex: u32)
      ensures this.suite == state.suite && this.state == state
      ensures this.ephemeral == ephemeral && this.own == own && this.localIndex == localIndex
    {
      this.suite, this.state := state.suite, state;
      this.ephemeral, this.own, this.localIndex := ephemeral, own, localIndex;
    }

    /** This side stands where the specification says it does after `started`. */
    ghost predicate Holds(started: Initiated)
      reads state
    {
      && state.suite == suite && suite.Lawful() && state.Now() == started.chain
      && started.ephemeral == ephemeral && started.own == own && started.localIndex == localIndex
    }

    /** For any bytes, the outcome the specification gives for them. */
    method ConsumeResponse(msg: bytes, ghost started: Initiated) returns (r: Result<SessionKeys, WgError>)
      requires Holds(started)
      modifies state
      ensures r == Finish(suite, started, msg)
    {
      hide HashMixed, KeyMixed, PskMixed, PskCipher, Opened, Suite.Lawful, U32Le;
      if |msg| != RESPONSE_LEN || msg[0] != MSG_RESPONSE {
        return Err(Malformed);
      }
      var peerIndex := U32Le(msg[RESP_SENDER..RESP_SENDER + 4]);
      var peerEphemeral := msg[RESP_EPHEMERAL..RESP_EPHEMERAL + KEY_LEN];
      state.MixKey(peerEphemeral);
      state.MixHash(peerEphemeral);
      state.MixKey(suite.dh(ephemeral, peerEphemeral));
      state.MixKey(suite.dh(own, peerEphemeral));
      var cipher := state.MixPreShared();
      var empty := state.Open(cipher, 0, msg[RESP_EMPTY..RESP_EMPTY + TAG_LEN]);
      if empty.Err? {
        return Err(empty.error);
      }
      var send, receive := state.Split();
      r := Ok(SessionKeys(send, receive, localIndex, peerIndex));
    }
  }

  /** Fills the initiation field by field, exactly as the specification composes it. */
  method Start(suite: Suite, own: bytes, peer: publicKey, ephemeral: bytes, index: u32, time: timestamp)
    returns (initiator: Initiator, msg: array<byte>)
    requires suite.Lawful()
    ensures fresh(initiator) && fresh(initiator.state) && initiator.suite == suite
    ensures var started := Initiate(suite, own, peer, ephemeral, index, time);
            initiator.Holds(started) && msg[..] == started.message
  {
    hide HashMixed, KeyMixed, Begin, Sealed, Suite.Lawful, Written, Mac1;
    var state := new State(suite, peer);
    msg := new byte[INITIATION_LEN](_ => 0);
    Blank(msg);
    ghost var text := [];
    Put(msg, 0, [MSG_INITIATION], text);
    text := WithReserved(msg, MSG_INITIATION);
    Put(msg, INIT_SENDER, Le(index, 4), text);
    text := text + Le(index, 4);

    var e := suite.public(ephemeral);
    state.MixKey(e);
    Put(msg, INIT_EPHEMERAL, e, text);
    text := text + e;
    state.MixHash(e);

    ghost var chain := state.Now();
    var cipher := state.MixKeyAndCipher(suite.dh(ephemeral, peer));
    ghost var s := SendSecret(suite, chain, suite.dh(ephemeral, peer), suite.public(own));
    var ok := state.Seal(cipher, msg, INIT_STATIC, INIT_STATIC + KEY_LEN + TAG_LEN, suite.public(own), text);
    text := text + s.text;

    cipher := state.MixKeyAndCipher(suite.dh(own, peer));
    ghost var t := SendSecret(suite, s.chain, suite.dh(own, peer), time);
    ok := state.Seal(cipher, msg, INIT_TIMESTAMP, INIT_TIMESTAMP + TIMESTAMP_LEN + TAG_LEN, time, text);
    text := text + t.text;

    WrittenPrefix(msg, text);
    MacLength(suite, peer, text);
    var mac := Mac1(suite, peer, msg[..INIT_MAC1]);
    Put(msg, INIT_MAC1, mac, text);
    WrittenAll(msg, text + mac);
    initiator := new Initiator(state, ephemeral, own, index);
  }

  lemma Blank(msg: array<byte>)
    requires msg[..] == Zeros(msg.Length)
    ensures Written(msg, [])
  {
  }

  lemma WithReserved(msg: array<byte>, kind: byte) returns (text: bytes)
    requires msg.Length >= 4 && Written(msg, [] + [kind])
    ensures text == [kind, 0, 0, 0] && Written(msg, text)
  {
    text := [kind, 0, 0, 0];
    assert [] + [kind] == [kind];
  }

  lemma WrittenPrefix(msg: array<byte>, text: bytes)
    requires Written(msg, text)
    ensures msg[..|text|] == text
  {
  }

  lemma WrittenAll(msg: array<byte>, text: bytes)
    requires Written(msg, text)
    ensures msg[..] == text + Zeros(msg.Length - |text|)
  {
  }

  /** The responder between a message it accepted and its answer. */
  class Responder {
    const suite: Suite
    const state: State
    const peerStatic: publicKey
    const peerEphemeral: publicKey
    const peerIndex: u32

    constructor (state: State, peerStatic: publicKey, peerEphemeral: publicKey, peerIndex: u32)
      ensures this.suite == state.suite && this.state == state
      ensures this.peerStatic == peerStatic && this.peerEphemeral == peerEphemeral && this.peerIndex == peerIndex
    {
      this.suite, this.state := state.suite, state;
      this.peerStatic, this.peerEphemeral, this.peerIndex := peerStatic, peerEphemeral, peerIndex;
    }

    ghost predicate Holds(learned: Learned)
      reads state
    {
      && state.suite == suite && suite.Lawful() && state.Now() == learned.chain
      && learned.peerStatic == peerStatic && learned.peerEphemeral == peerEphemeral && learned.peerIndex == peerIndex
    }

    /** Fills the response field by field; the keys are those of the specification. */
    method MakeResponse(ephemeral: bytes, index: u32, ghost learned: Learned)
      returns (msg: array<byte>, keys: SessionKeys)
      requires Holds(learned)
      modifies state
      ensures var answer := Respond(suite, learned, ephemeral, index);
              msg[..] == answer.message && keys == answer.keys
      ensures msg.Length == RESPONSE_LEN && FromLe(msg[8..12]) == peerIndex == learned.peerIndex
    {
      hide HashMixed, KeyMixed, PskMixed, PskCipher, Sealed, Suite.Lawful, Written, Mac1, Le, Begin;
      msg := new byte[RESPONSE_LEN](_ => 0);
      Blank(msg);
      ghost var text := [];
      Put(msg, 0, [MSG_RESPONSE], text);
      text := WithReserved(msg, MSG_RESPONSE);
      Put(msg, RESP_SENDER, Le(index, 4), text);
      text := text + Le(index, 4);
      Put(msg, RESP_RECEIVER, Le(peerIndex, 4), text);
      text := text + Le(peerIndex, 4);

      var e := suite.public(ephemeral);
      state.MixKey(e);
      Put(msg, RESP_EPHEMERAL, e, text);
      text := text + e;
      state.MixHash(e);
      state.MixKey(suite.dh(ephemeral, peerEphemeral));
      state.MixKey(suite.dh(ephemeral, peerStatic));

      var cipher := state.MixPreShared();
      ghost var empty := Sealed(suite, state.Now(), cipher, []);
      var ok := state.Seal(cipher, msg, RESP_EMPTY, RESP_EMPTY + TAG_LEN, [], text);
      text := text + empty;

      WrittenPrefix(msg, text);
      MacLength(suite, peerStatic, text);
      var mac := Mac1(suite, peerStatic, msg[..RESP_MAC1]);
      Put(msg, RESP_MAC1, mac, text);
      WrittenAll(msg, text + mac);
      var receive, send := state.Split();
      keys := SessionKeys(send, receive, index, peerIndex);
      NamesReceiver(suite, msg, learned, ephemeral, index);
    }
  }

  lemma NamesReceiver(suite: Suite, msg: array<byte>, learned: Learned, ephemeral: bytes, index: u32)
    requires suite.Lawful() && msg[..] == Respond(suite, learned, ephemeral, index).message
    ensures msg.Length == RESPONSE_LEN && FromLe(msg[8..12]) == learned.peerIndex
  {
    hide Suite.Lawful, Respond;
    HandshakeView.ResponseIsRead(suite, learned, ephemeral, index);
    assert msg[..][8..12] == msg[8..12];
  }

  /** For any bytes, the verdict of the specification: a bad length or type first, then a bad
      MAC, then a field that does not open. */
  method ConsumeInitiation(suite: Suite, own: bytes, msg: bytes)
    returns (r: Result<(Responder, timestamp), WgError>)
    requires suite.Lawful()
    ensures var accepted := Accept(suite, own, msg);
            if accepted.Err? then r == Err(accepted.error)
            else r.Ok? && fresh(r.value.0) && fresh(r.value.0.state) && r.value.0.suite == suite
                 && r.value.0.Holds(accepted.value) && r.value.1 == accepted.value.time
  {
    hide HashMixed, KeyMixed, Begin, Opened, Suite.Lawful, Mac1, U32Le;
    if |msg| != INITIATION_LEN || msg[0] != MSG_INITIATION {
      return Err(Malformed);
    }
    var public := suite.public(own);
    var expected := Mac1(suite, public, msg[..INIT_MAC1]);
    MacLength(suite, public, msg[..INIT_MAC1]);
    if msg[INIT_MAC1..INIT_MAC1 + |expected|] != expected {
      return Err(BadMac);
    }
    var peerIndex := U32Le(msg[INIT_SENDER..INIT_SENDER + 4]);
    var state := new State(suite, public);
    var peerEphemeral := msg[INIT_EPHEMERAL..INIT_EPHEMERAL + KEY_LEN];
    state.MixKey(peerEphemeral);
    state.MixHash(peerEphemeral);

    var cipher := state.MixKeyAndCipher(suite.dh(own, peerEphemeral));
    var peerStatic := state.Open(cipher, KEY_LEN, msg[INIT_STATIC..INIT_STATIC + KEY_LEN + TAG_LEN]);
    if peerStatic.Err? {
      return Err(peerStatic.error);
    }

    cipher := state.MixKeyAndCipher(suite.dh(own, peerStatic.value));
    var time := state.Open(cipher, TIMESTAMP_LEN, msg[INIT_TIMESTAMP..INIT_TIMESTAMP + TIMESTAMP_LEN + TAG_LEN]);
    if time.Err? {
      return Err(time.error);
    }
    var responder := new Responder(state, peerStatic.value, peerEphemeral, peerIndex);
    r := Ok((responder, time.value));
  }

  /** Both halves run against each other: they always agree. */
  method Connect(suite: Suite, i: bytes, r: bytes, iEphemeral: bytes, rEphemeral: bytes, iIndex: u32, rIndex: u32,
                 time: timestamp)
    returns (a: SessionKeys, b: SessionKeys)
    requires suite.Lawful()
    ensures Crossed(a, b) && a.localIndex == iIndex && b.localIndex == rIndex
  {
    hide Initiate, Accept, Respond, Finish;
    var initiator, m1 := Start(suite, i, suite.public(r), iEphemeral, iIndex, time);
    ghost var started := Initiate(suite, i, suite.public(r), iEphemeral, iIndex, time);
    InitiationIsAccepted(suite, i, r, iEphemeral, iIndex, time);
    StartedAs(suite, i, suite.public(r), iEphemeral, iIndex, time);
    var consumed := ConsumeInitiation(suite, r, m1[..]);
    var responder := consumed.value.0;
    ghost var learned := Accept(suite, r, m1[..]).value;
    var m2, bKeys := responder.MakeResponse(rEphemeral, rIndex, learned);
    ResponseIsAccepted(suite, started, learned, rEphemeral, rIndex);
    var finished := initiator.ConsumeResponse(m2[..], started);
    a, b := finished.value, bKeys;
  }

  lemma StartedAs(suite: Suite, own: bytes, peer: publicKey, ephemeral: bytes, index: u32, time: timestamp)
    ensures var started := Initiate(suite, own, peer, ephemeral, index, time);
            started.own == own && started.ephemeral == ephemeral && started.localIndex == index
  {
  }
}
