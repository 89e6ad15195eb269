/** The firmware's WireGuard responder, and the counters it must never repeat. */
module Node {
  import opened Bytes
  import opened Crypto
  import opened Replay
  import opened Transport
  import opened HandshakeSpec
  import opened Tsmp
  import opened Delivery
  import Handshake
  import HandshakeView

  // ---------------------------------------------------------------- nonces

  const NONCE_LEN: nat := 24

  /** A little-endian counter, one further. */
  function Bumped(s: bytes): (r: bytes)
    ensures |r| == |s|
  {
    if s == [] then []
    else if s[0] == 255 then [0] + Bumped(s[1..])
    else [s[0] + 1] + s[1..]
  }

  /** `v` and `n` more, wrapping once at `p`. */
  function Around(v: nat, n: nat, p: nat): nat
    requires v < p && n <= p
  {
    if v + n < p then v + n else v + n - p
  }

  lemma {:induction false} BumpedAddsOne(s: bytes)
    ensures FromLe(s) < Pow256(|s|)
    ensures FromLe(Bumped(s)) == Around(FromLe(s), 1, Pow256(|s|))
  {
    if s != [] {
      BumpedAddsOne(s[1..]);
      assert Bumped(s)[1..] == if s[0] == 255 then Bumped(s[1..]) else s[1..];
    }
  }

  /** A carry runs through every 255 and stops at the first other byte. */
  lemma {:induction false} CarryStops(s: bytes, i: nat)
    requires i <= |s| && forall k :: 0 <= k < i ==> s[k] == 255
    ensures i == |s| ==> Bumped(s) == Zeros(i)
    ensures i < |s| && s[i] < 255 ==> Bumped(s) == Zeros(i) + [s[i] + 1] + s[i + 1..]
    decreases i
  {
    if i > 0 {
      CarryStops(s[1..], i - 1);
      assert Zeros(i) == [0] + Zeros(i - 1);
      assert i < |s| ==> s[1..][i..] == s[i + 1..];
    }
  }

  /** In place, the byte sequence one further in little-endian order. */
  method Bump(nonce: array<byte>)
    modifies nonce
    ensures nonce[..] == Bumped(old(nonce[..]))
  {
    hide Bumped;
    ghost var was := nonce[..];
    for i := 0 to nonce.Length
      invariant forall k :: 0 <= k < i ==> nonce[k] == 0 && was[k] == 255
      invariant forall k :: i <= k < nonce.Length ==> nonce[k] == was[k]
    {
      nonce[i] := (nonce[i] as int + 1) % 256;
      if nonce[i] != 0 {
        CarryStops(was, i);
        assert nonce[..] == Zeros(i) + [was[i] + 1] + was[i + 1..];
        return;
      }
    }
    CarryStops(was, nonce.Length);
    assert nonce[..] == Zeros(nonce.Length);
  }

  function BumpedTimes(s: bytes, n: nat): (r: bytes)
    ensures |r| == |s|
  {
    if n == 0 then s else Bumped(BumpedTimes(s, n - 1))
  }

  lemma {:induction false} BumpedTimesAdds(s: bytes, n: nat)
    requires n <= Pow256(|s|)
    ensures FromLe(s) < Pow256(|s|)
    ensures FromLe(BumpedTimes(s, n)) == Around(FromLe(s), n, Pow256(|s|))
  {
    hide Bumped, FromLe, Pow256;
    BumpedAddsOne(s);
    if n > 0 {
      BumpedTimesAdds(s, n - 1);
      BumpedAddsOne(BumpedTimes(s, n - 1));
    }
  }

  lemma {:induction false} BumpedTimesSum(s: bytes, i: nat, n: nat)
    ensures BumpedTimes(s, i + n) == BumpedTimes(BumpedTimes(s, i), n)
  {
    hide Bumped;
    if n > 0 {
      BumpedTimesSum(s, i, n - 1);
    }
  }

  /** The nonces of any two pongs fewer than 2^192 apart differ. */
  lemma NoncesNeverRepeat(seed: bytes, i: nat, j: nat)
    requires |seed| == NONCE_LEN && i < j < i + Pow256(NONCE_LEN)
    ensures BumpedTimes(seed, i) != BumpedTimes(seed, j)
  {
    hide FromLe, Pow256, BumpedTimes;
    BumpedTimesSum(seed, i, j - i);
    BumpedTimesAdds(BumpedTimes(seed, i), j - i);
  }

  // ---------------------------------------------------------------- session indices

  /** The index after `i`: two further, wrapping at 2^32 and never zero. */
  function NextIndex(i: u32): u32 {
    Max(1, (i + 2) % U32)
  }

  function IndexAfter(seed: u32, n: nat): u32 {
    if n == 0 then seed + 1 - seed % 2 else NextIndex(IndexAfter(seed, n - 1))
  }

  lemma {:induction false} IndexIsOdd(seed: u32, n: nat)
    ensures IndexAfter(seed, n) % 2 == 1
    ensures IndexAfter(seed, n) == (IndexAfter(seed, 0) + 2 * n) % U32
  {
    if n > 0 {
      IndexIsOdd(seed, n - 1);
      TwoFurther(IndexAfter(seed, 0) + 2 * (n - 1));
    }
  }

  lemma TwoFurther(a: nat)
    ensures (a % U32 + 2) % U32 == (a + 2) % U32
    ensures a % U32 % 2 == 1 ==> (a + 2) % U32 % 2 == 1
  {
    var q, r := a / U32, a % U32;
    assert a == q * U32 + r;
    if r + 2 < U32 {
      assert (a + 2) / U32 == q;
    } else {
      assert (a + 2) / U32 == q + 1;
    }
  }

  /** Two handshakes get the same index only if a multiple of 2^31 others lie between. */
  lemma IndicesRepeatRarely(seed: u32, i: nat, j: nat)
    requires i <= j
    ensures IndexAfter(seed, i) == IndexAfter(seed, j) <==> (j - i) % 0x8000_0000 == 0
  {
    hide IndexAfter;
    IndexIsOdd(seed, i);
    IndexIsOdd(seed, j);
    SameRemainder(IndexAfter(seed, 0) + 2 * i, j - i);
  }

  lemma SameRemainder(a: nat, d: nat)
    ensures a % U32 == (a + 2 * d) % U32 <==> d % 0x8000_0000 == 0
  {
  }

  // ---------------------------------------------------------------- the responder

  const BUFFER: nat := 1600

  /** The path of a packet; it becomes the peer's return path. */
  datatype Source = Udp(endpoint: bytes) | Derp(key: bytes)

  datatype Action = Reply(len: nat) | Forward(len: nat)

  datatype PeerSlot = PeerSlot(key: publicKey, session: Session, source: Source)

  /** The ephemeral private key of the handshake with a given index. */
  function EphemeralSeed(index: u32, packetLen: nat): bytes {
    Le(index, 4) + Le(packetLen, 4) + Zeros(24)
  }

  /** The seed holds the index and the length of the packet, low bytes first, and zeros. */
  lemma SeedIsRead(index: u32, packetLen: nat)
    requires packetLen < U32
    ensures var s := EphemeralSeed(index, packetLen);
            && |s| == 32 && FromLe(s[..4]) == index && FromLe(s[4..8]) == packetLen
            && forall i :: 8 <= i < 32 ==> s[i] == 0
  {
    Pow256Values();
    var s := EphemeralSeed(index, packetLen);
    assert s[..4] == Le(index, 4) && s[4..8] == Le(packetLen, 4);
    LeRoundTrip(index, 4);
    LeRoundTrip(packetLen, 4);
  }

  class Node {
    const suite: Suite
    const nodeKey: bytes
    var peer: Option<PeerSlot>
    var nextIndex: u32

    ghost predicate Valid()
      reads this, Parts()
    {
      suite.Lawful() && (peer.Some? ==> peer.value.session.Valid() && peer.value.session.aead == suite.aead)
    }

    /** The objects a handled packet may change. */
    ghost function Parts(): set<object>
      reads `peer
    {
      if peer.None? then {}
      else {peer.value.session, peer.value.session.replay, peer.value.session.replay.bits}
    }

    constructor (suite: Suite, nodeKey: bytes, seed: u32)
      requires suite.Lawful()
      ensures Valid() && this.suite == suite && this.nodeKey == nodeKey
      ensures peer == None && nextIndex == IndexAfter(seed, 0)
    {
      this.suite, this.nodeKey := suite, nodeKey;
      peer, nextIndex := None, seed + 1 - seed % 2;
    }

    /** Answers an initiation. The index is spent once the initiation is accepted, and the
        session replaced only when the response fits. */
    method HandleInitiation(packet: bytes, from: Source, out: array<byte>) returns (r: Option<Action>)
      requires Valid() && out !in Parts()
      modifies this, out
      ensures Valid()
      ensures var accepted := Accept(suite, nodeKey, packet);
              var index := old(nextIndex);
              if accepted.Err? then r == None && peer == old(peer) && nextIndex == index
              else
                var answer := Respond(suite, accepted.value, EphemeralSeed(index, |packet|), index);
                && nextIndex == NextIndex(index)
                && if out.Length < RESPONSE_LEN then r == None && peer == old(peer)
                   else
                     && r == Some(Reply(RESPONSE_LEN)) && out[..RESPONSE_LEN] == answer.message
                     && peer.Some? && peer.value.key == accepted.value.peerStatic && peer.value.source == from
                     && peer.value.session.keys == answer.keys && peer.value.session.sendCounter == 0
                     && peer.value.session.replay.seen == {} && fresh(Parts())
      // The reply names the sender of the initiation.
      ensures r.Some? ==> |packet| == INITIATION_LEN && FromLe(out[8..12]) == FromLe(packet[4..8])
    {
      hide Accept, Respond, Suite.Lawful, Session.Valid, Handshake.Responder.Holds, FromLe, Le;
      var consumed := Handshake.ConsumeInitiation(suite, nodeKey, packet);
      if consumed.Err? {
        return None;
      }
      var responder := consumed.value.0;
      var index := nextIndex;
      nextIndex := Max(1, (nextIndex + 2) % U32);
      ghost var learned := Accept(suite, nodeKey, packet).value;
      var key := responder.peerStatic;
      LearnsStatic(responder, learned);
      var msg, keys := responder.MakeResponse(EphemeralSeed(index, |packet|), index, learned);
      RespondLength(suite, learned, EphemeralSeed(index, |packet|), index);
      if out.Length < msg.Length {
        return None;
      }
      forall i | 0 <= i < msg.Length { out[i] := msg[i]; }
      assert out[..msg.Length] == msg[..];
      SuiteHasAead(suite);
      var session := new Session(suite.aead, keys);
      peer := Some(PeerSlot(key, session, from));
      r := Some(Reply(msg.Length));
      HandshakeView.AnswerIsAddressed(suite, nodeKey, packet, EphemeralSeed(index, |packet|), index);
      assert out[..RESPONSE_LEN][8..12] == out[8..12];
    }

    /** Opens a transport packet; a ping is answered, anything else is for the LAN. */
    method HandleTransport(packet: bytes, from: Source, out: array<byte>) returns (r: Option<Action>)
      requires Valid() && out !in Parts()
      modifies `peer, Parts(), out
      ensures Valid() && nextIndex == old(nextIndex)
      ensures old(peer).None? ==> r == None && peer == None
      ensures old(peer).Some? ==> peer == Some(old(peer).value.(source := from))
      ensures old(peer).Some? ==>
                var session := peer.value.session;
                var m := Authentic(suite.aead, session.keys.receive, session.keys.localIndex, packet);
                var taken := |packet| <= BUFFER && m.Some? && Acceptable(old(session.replay.seen), m.value.counter);
                && session.replay.seen == old(session.replay.seen) + (if taken then {m.value.counter} else {})
                && if !taken then r == None && session.sendCounter == old(session.sendCounter)
                   else Handled(session, m.value.plain, old(session.sendCounter), r, out[..])
    {
      hide Acceptable, Authentic, Session.Valid, Handled;
      if peer.None? {
        return None;
      }
      var session := peer.value.session;
      // The session stays whichever way the packet came; replies go back that way.
      peer := Some(peer.value.(source := from));
      if |packet| > BUFFER {
        return None;
      }
      var opened_ := Receive(session, packet);
      if opened_.None? {
        return None;
      }
      r := Answer(session, opened_.value.plain, out);
    }
  }

  /** Nothing about an initiation but its own text decides whether it is accepted, so one
      that was accepted is accepted again: it is answered under the next index, and a fresh
      session takes the place of the live one. */
  method HandleAgain(node: Node, packet: bytes, first: Source, second: Source, out: array<byte>)
    returns (r: Option<Action>)
    requires node.Valid() && out !in node.Parts() && out.Length >= RESPONSE_LEN
    requires Accept(node.suite, node.nodeKey, packet).Ok?
    modifies node, out
    ensures node.Valid() && fresh(node.Parts()) && r == Some(Reply(RESPONSE_LEN))
    ensures node.nextIndex == NextIndex(NextIndex(old(node.nextIndex)))
    ensures var answer := Answered(node.suite, Accept(node.suite, node.nodeKey, packet).value, |packet|,
                                   NextIndex(old(node.nextIndex)));
            && out[..RESPONSE_LEN] == answer.message && node.peer.Some? && node.peer.value.source == second
            && node.peer.value.session.keys == answer.keys
            && node.peer.value.session.sendCounter == 0 && node.peer.value.session.replay.seen == {}
  {
    hide Accept, Respond, Suite.Lawful, Session.Valid;
    r := node.HandleInitiation(packet, first, out);
    r := node.HandleInitiation(packet, second, out);
  }

  /** The answer to one initiation under one index. */
  function Answered(suite: Suite, learned: Learned, packetLen: nat, index: u32): Responded {
    Respond(suite, learned, EphemeralSeed(index, packetLen), index)
  }

  /** One initiation handled again and again gets the same answer, and so the same keys with
      both counters back at zero, exactly when its index comes around: once in 2^31 times. */
  lemma AnswersRecurRarely(suite: Suite, learned: Learned, packetLen: nat, seed: u32, i: nat, j: nat)
    requires i <= j
    ensures Answered(suite, learned, packetLen, IndexAfter(seed, i))
            == Answered(suite, learned, packetLen, IndexAfter(seed, j))
            <==> (j - i) % 0x8000_0000 == 0
  {
    hide IndexAfter;
    IndicesRepeatRarely(seed, i, j);
    KeysNameIndex(suite, learned, packetLen, IndexAfter(seed, i));
    KeysNameIndex(suite, learned, packetLen, IndexAfter(seed, j));
  }

  lemma KeysNameIndex(suite: Suite, learned: Learned, packetLen: nat, index: u32)
    ensures Answered(suite, learned, packetLen, index).keys.localIndex == index
  {
  }

  /** Answers a ping, or hands the packet over. */
  method Answer(session: Session, plain: bytes, out: array<byte>) returns (r: Option<Action>)
    requires session.Valid() && out != session.replay.bits as object
    modifies session`sendCounter, out
    ensures session.Valid() && Handled(session, plain, old(session.sendCounter), r, out[..])
  {
    hide Packet, PingOf, Pong, ReplayWindow.Valid;
    var ping := PingOf(plain);
    if ping.Some? {
      var pong := new byte[64];
      var len := WritePong(ping.value, pong);
      assert pong[..len.value] == Pong(ping.value);
      PacketLength(session.aead, session.keys.send, session.keys.peerIndex, session.sendCounter, Pong(ping.value));
      var sent := session.Encrypt(pong[..len.value], out);
      return if sent.Ok? then Some(Reply(sent.value)) else None;
    }
    if out.Length < |plain| {
      return None;
    }
    forall i | 0 <= i < |plain| { out[i] := plain[i]; }
    r := Some(Forward(|plain|));
  }

  lemma PacketLength(aead: Aead, key: bytes, receiver: nat, counter: nat, payload: bytes)
    requires aead.Correct()
    ensures |Packet(aead, key, receiver, counter, payload)| == Transport.HEADER_LEN + PaddedLen(|payload|) + TAG_LEN
  {
  }

  /** What becomes of a decrypted packet. */
  ghost predicate Handled(session: Session, plain: bytes, counter: nat, r: Option<Action>, out: bytes)
    reads session`sendCounter
  {
    match PingOf(plain)
    case None =>
      && session.sendCounter == counter
      && if |out| < |plain| then r == None else r == Some(Forward(|plain|)) && out[..|plain|] == plain
    case Some(ping) =>
      var packet := Packet(session.aead, session.keys.send, session.keys.peerIndex, counter, Pong(ping));
      if counter >= REJECT_AFTER_MESSAGES || |out| < |packet| then r == None && session.sendCounter == counter
      else r == Some(Reply(|packet|)) && out[..|packet|] == packet && session.sendCounter == counter + 1
  }

  lemma LearnsStatic(responder: Handshake.Responder, learned: Learned)
    requires responder.Holds(learned)
    ensures responder.peerStatic == learned.peerStatic
  {
  }

  lemma RespondLength(suite: Suite, learned: Learned, ephemeral: bytes, index: u32)
    requires suite.Lawful()
    ensures |Respond(suite, learned, ephemeral, index).message| == RESPONSE_LEN
  {
  }

  /** A controller handshakes with a node that has just started, pings it, and gets back a
      valid IPv4 pong that echoes its data. */
  method PingIsAnswered(suite: Suite, controller: bytes, nodeKey: bytes, ephemeral: bytes, index: u32, seed: u32,
                        time: timestamp, from: Source, payload: bytes) returns (pong: Ipv4)
    requires suite.Lawful()
    requires PingOf(payload).Some? && Transport.HEADER_LEN + PaddedLen(|payload|) + TAG_LEN <= BUFFER
    ensures var ping := PingOf(payload).value;
            pong == Ipv4(64, IP_PROTO_TSMP, ping.dst, ping.src, [TYPE_PONG] + ping.data + [0, 0])
  {
    hide Accept, Respond, Finish, Initiate, Suite.Lawful, Session.Valid, ReplayWindow.Valid, Authentic, Packet;
    hide PingOf, Pong, Padded, DecodeIpv4, Handshake.Initiator.Holds;
    var node := new Node(suite, nodeKey, seed);
    var out := new byte[BUFFER];
    var session := Greet(suite, controller, node, ephemeral, index, time, from, out);
    var wire := new byte[BUFFER];
    var n := session.Encrypt(payload, wire);
    PacketIsAuthentic(suite.aead, session.keys.send, session.keys.peerIndex, 0, payload);
    var reply := node.HandleTransport(wire[..n.value], from, out);
    PaddingKeepsPing(payload);
    var ping := PingOf(payload).value;
    PacketIsAuthentic(suite.aead, session.keys.receive, session.keys.localIndex, 0, Pong(ping));
    PacketLength(suite.aead, session.keys.receive, session.keys.localIndex, 0, Pong(ping));
    var got := Receive(session, out[..reply.value.len]);
    var plain := got.value.plain;
    assert plain == Padded(Pong(ping));
    PaddedSplits(Pong(ping));
    PongDecodes(ping, plain[PONG_LEN..]);
    pong := DecodeIpv4(plain).value;
  }

  lemma PaddedSplits(payload: bytes)
    ensures Padded(payload) == payload + Padded(payload)[|payload|..]
  {
  }

  /** The handshake with a node, from the controller's side. */
  method Greet(suite: Suite, controller: bytes, node: Node, ephemeral: bytes, index: u32, time: timestamp,
               from: Source, out: array<byte>) returns (session: Session)
    requires suite.Lawful() && node.Valid() && node.suite == suite
    requires out !in node.Parts() && out.Length >= RESPONSE_LEN
    modifies node, out
    ensures node.Valid() && node.peer.Some? && fresh(node.Parts())
    ensures fresh(session) && fresh(session.replay) && fresh(session.replay.bits)
    ensures {session, session.replay, session.replay.bits} !! node.Parts()
    ensures session.Valid() && session.aead == suite.aead && session.sendCounter == 0 && session.replay.seen == {}
    ensures Crossed(session.keys, node.peer.value.session.keys)
    ensures node.peer.value.session.sendCounter == 0 && node.peer.value.session.replay.seen == {}
    ensures node.peer.value.key == suite.public(controller) && session.keys.peerIndex == old(node.nextIndex)
  {
    hide Accept, Respond, Finish, Initiate, Suite.Lawful, Session.Valid, ReplayWindow.Valid, Handshake.Initiator.Holds;
    var initiator, m1 := Handshake.Start(suite, controller, suite.public(node.nodeKey), ephemeral, index, time);
    ghost var started := Initiate(suite, controller, suite.public(node.nodeKey), ephemeral, index, time);
    InitiationIsAccepted(suite, controller, node.nodeKey, ephemeral, index, time);
    Handshake.StartedAs(suite, controller, suite.public(node.nodeKey), ephemeral, index, time);
    ghost var learned := Accept(suite, node.nodeKey, m1[..]).value;
    var own := node.nextIndex;
    var reply := node.HandleInitiation(m1[..], from, out);
    ResponseIsAccepted(suite, started, learned, EphemeralSeed(own, m1.Length), own);
    var keys := initiator.ConsumeResponse(out[..RESPONSE_LEN], started);
    SuiteHasAead(suite);
    session := new Session(suite.aead, keys.value);
  }
}
