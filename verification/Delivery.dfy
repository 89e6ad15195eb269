/** One direction of an established WireGuard session over a network that may drop,
    duplicate, reorder, corrupt and inject packets. */
module Delivery {
  import opened Bytes
  import opened Crypto
  import opened Replay
  import opened Transport

  /** What the sending session and the receiving session have in common. */
  datatype Link = Link(aead: Aead, key: bytes, receiver: u32)

  datatype Event =
    | Send(payload: bytes)
    | Deliver(packet: bytes)

  /** `sent[i]` is the payload encrypted as message `i`; `delivered` is what decryption
      returned, oldest first. */
  datatype State = State(sent: seq<bytes>, seen: set<nat>, delivered: seq<Message>)

  const START := State([], {}, [])

  ghost function Step(link: Link, s: State, e: Event): State {
    match e
    case Send(payload) =>
      if |s.sent| < REJECT_AFTER_MESSAGES then s.(sent := s.sent + [payload]) else s
    case Deliver(packet) =>
      var m := Authentic(link.aead, link.key, link.receiver, packet);
      if m.Some? && Acceptable(s.seen, m.value.counter) then
        s.(seen := s.seen + {m.value.counter}, delivered := s.delivered + [m.value])
      else s
  }

  ghost function After(link: Link, events: seq<Event>): State {
    if events == [] then START
    else Step(link, After(link, events[..|events| - 1]), events[|events| - 1])
  }

  ghost predicate SealedAs(link: Link, sent: seq<bytes>, i: nat, packet: bytes)
    requires |packet| >= HEADER_LEN
  {
    && i < |sent|
    && Nonce(CounterOf(packet)) == Nonce(i)
    && packet[HEADER_LEN..] == link.aead.seal(link.key, Nonce(i), [], Padded(sent[i]))
  }

  /** The ideal cipher: a packet opens only if its body was sealed, under that nonce, for
      one of the payloads sent so far. */
  ghost predicate Unforged(link: Link, sent: seq<bytes>, packet: bytes) {
    Authentic(link.aead, link.key, link.receiver, packet).Some? ==>
      exists i: nat :: SealedAs(link, sent, i, packet)
  }

  ghost predicate Ideal(link: Link, events: seq<Event>) {
    forall n :: 0 <= n < |events| && events[n].Deliver? ==>
      Unforged(link, After(link, events[..n]).sent, events[n].packet)
  }

  /** The network only moves packets about: it delivers what was sent, any number of
      times, in any order. */
  ghost predicate Relays(link: Link, events: seq<Event>) {
    forall n :: 0 <= n < |events| && events[n].Deliver? ==>
      var sent := After(link, events[..n]).sent;
      exists i: nat :: i < |sent| && events[n].packet == Packet(link.aead, link.key, link.receiver, i, sent[i])
  }

  /** Every delivery is the padded payload of one send, no send is delivered twice, and
      the filter remembers exactly what was delivered. */
  ghost predicate Sound(s: State) {
    && |s.sent| <= REJECT_AFTER_MESSAGES
    && (forall k :: 0 <= k < |s.delivered| ==>
          var m := s.delivered[k];
          m.counter in s.seen && m.counter < |s.sent| && m.plain == Padded(s.sent[m.counter]))
    && (forall c :: c in s.seen ==> exists k :: 0 <= k < |s.delivered| && s.delivered[k].counter == c)
    && (forall j, k :: 0 <= j < k < |s.delivered| ==> s.delivered[j].counter != s.delivered[k].counter)
  }

  lemma OpensAsSent(link: Link, sent: seq<bytes>, packet: bytes)
    requires link.aead.Correct() && |sent| <= REJECT_AFTER_MESSAGES
    requires Authentic(link.aead, link.key, link.receiver, packet).Some?
    requires Unforged(link, sent, packet)
    ensures var m := Authentic(link.aead, link.key, link.receiver, packet).value;
            m.counter < |sent| && m.plain == Padded(sent[m.counter])
  {
    hide Nonce, Padded;
    var i: nat :| SealedAs(link, sent, i, packet);
    Pow256Values();
    FromLeBound(packet[8..16]);
    NonceInjective(CounterOf(packet), i);
  }

  lemma StepKeepsSound(link: Link, s: State, e: Event)
    requires link.aead.Correct() && Sound(s)
    requires e.Deliver? ==> Unforged(link, s.sent, e.packet)
    ensures Sound(Step(link, s, e))
  {
    hide Unforged, Authentic, Padded;
    var t := Step(link, s, e);
    if t != s && e.Deliver? {
      OpensAsSent(link, s.sent, e.packet);
      var last := |s.delivered|;
      forall c | c in t.seen ensures exists k :: 0 <= k < |t.delivered| && t.delivered[k].counter == c {
        if c in s.seen {
          var k :| 0 <= k < |s.delivered| && s.delivered[k].counter == c;
          assert t.delivered[k].counter == c;
        } else {
          assert t.delivered[last].counter == c;
        }
      }
    }
  }

  /** At-most-once authentic delivery, over every run. */
  lemma {:induction false} DeliveryIsSound(link: Link, events: seq<Event>)
    requires link.aead.Correct() && Ideal(link, events)
    ensures Sound(After(link, events))
  {
    hide Sound, Unforged, Step;
    if events == [] {
      StartIsSound();
    } else {
      var n := |events| - 1;
      forall k | 0 <= k < n && events[k].Deliver?
        ensures Unforged(link, After(link, events[..n][..k]).sent, events[..n][k].packet)
      {
        assert events[..n][..k] == events[..k];
      }
      DeliveryIsSound(link, events[..n]);
      StepKeepsSound(link, After(link, events[..n]), events[n]);
    }
  }

  lemma StartIsSound()
    ensures Sound(START)
  {
  }

  /** A network that forges nothing needs no idealisation of the cipher. */
  lemma RelayingIsIdeal(link: Link, events: seq<Event>)
    requires link.aead.Correct() && Relays(link, events)
    ensures Ideal(link, events)
  {
    forall n | 0 <= n < |events| && events[n].Deliver?
      ensures Unforged(link, After(link, events[..n]).sent, events[n].packet)
    {
      var sent := After(link, events[..n]).sent;
      SentIsBounded(link, events[..n]);
      var i: nat :| i < |sent| && events[n].packet == Packet(link.aead, link.key, link.receiver, i, sent[i]);
      HeaderReads(link.receiver, i, link.aead.seal(link.key, Nonce(i), [], Padded(sent[i])));
      assert SealedAs(link, sent, i, events[n].packet);
    }
  }

  lemma {:induction false} SentIsBounded(link: Link, events: seq<Event>)
    ensures |After(link, events).sent| <= REJECT_AFTER_MESSAGES
  {
    hide Authentic, Acceptable;
    if events != [] {
      SentIsBounded(link, events[..|events| - 1]);
    }
  }

  /** A packet that was sent, arrives for the first time and is less than a window behind
      the highest delivered is delivered. */
  lemma FirstArrivalIsDelivered(link: Link, s: State, i: nat)
    requires link.aead.Correct() && i < |s.sent| <= REJECT_AFTER_MESSAGES
    requires i !in s.seen && forall h :: h in s.seen ==> i + WINDOW_BITS > h
    ensures var packet := Packet(link.aead, link.key, link.receiver, i, s.sent[i]);
            Step(link, s, Deliver(packet)).delivered == s.delivered + [Message(i, Padded(s.sent[i]))]
  {
    hide Packet, Padded, Authentic;
    PacketIsAuthentic(link.aead, link.key, link.receiver, i, s.sent[i]);
  }

  /** What was delivered stays delivered, and a second copy changes nothing. */
  lemma SecondCopyIsRejected(link: Link, s: State, packet: bytes)
    ensures var e := Deliver(packet);
            var once := Step(link, s, e);
            Step(link, once, e) == once
  {
  }

  /** Copies a packet off the network into a buffer and decrypts it there. */
  method Receive(receiver: Session, packet: bytes) returns (r: Option<Message>)
    requires receiver.Valid()
    modifies receiver.replay, receiver.replay.bits
    ensures receiver.Valid() && receiver.sendCounter == old(receiver.sendCounter)
    ensures var m := Authentic(receiver.aead, receiver.keys.receive, receiver.keys.localIndex, packet);
            && r == (if m.Some? && Acceptable(old(receiver.replay.seen), m.value.counter) then m else None)
            && receiver.replay.seen
               == old(receiver.replay.seen) + if r.Some? then {r.value.counter} else {}
  {
    hide Authentic, Acceptable, Addressed;
    var buf := new byte[|packet|](i requires 0 <= i < |packet| => packet[i]);
    assert buf[..|packet|] == packet;
    var n := receiver.DecryptPacket(buf, |packet|);
    match n
    case Err(_) => r := None;
    case Ok(len) =>
      PlainNeedsHeader(receiver.aead, receiver.keys.receive, receiver.keys.localIndex, packet);
      r := Some(Message(CounterOf(packet), buf[HEADER_LEN..HEADER_LEN + len]));
  }

  lemma PlainNeedsHeader(aead: Aead, key: bytes, localIndex: nat, packet: bytes)
    ensures var m := Authentic(aead, key, localIndex, packet);
            m.Some? ==> |packet| >= HEADER_LEN && m.value.counter == CounterOf(packet)
  {
  }

  ghost predicate AreOnTheWire(link: Link, sent: seq<bytes>, packets: seq<bytes>) {
    && |packets| == |sent|
    && forall i :: 0 <= i < |sent| ==> packets[i] == Packet(link.aead, link.key, link.receiver, i, sent[i])
  }

  /** Two sessions with the same key, driven by any events: what encryption puts on the
      wire and what decryption returns are what the specification says. */
  method Run(sender: Session, receiver: Session, link: Link, events: seq<Event>)
    returns (packets: seq<bytes>, delivered: seq<Message>)
    requires sender.Valid() && receiver.Valid()
    requires sender.aead == receiver.aead == link.aead
    requires sender.keys.send == receiver.keys.receive == link.key
    requires sender.keys.peerIndex == receiver.keys.localIndex == link.receiver
    requires sender != receiver && sender.replay != receiver.replay
    requires sender.replay.bits != receiver.replay.bits
    requires sender.sendCounter == 0 && receiver.replay.seen == {}
    modifies sender, receiver.replay, receiver.replay.bits
    ensures sender.Valid() && receiver.Valid()
    ensures AreOnTheWire(link, After(link, events).sent, packets)
    ensures delivered == After(link, events).delivered
    ensures sender.sendCounter == |After(link, events).sent|
    ensures receiver.replay.seen == After(link, events).seen
  {
    hide Authentic, Acceptable, Packet, ReplayWindow.Valid;
    packets, delivered := [], [];
    for n := 0 to |events|
      invariant sender.Valid() && receiver.Valid()
      invariant var s := After(link, events[..n]);
                && AreOnTheWire(link, s.sent, packets)
                && delivered == s.delivered
                && sender.sendCounter == |s.sent|
                && receiver.replay.seen == s.seen
    {
      assert events[..n + 1][..n] == events[..n];
      SentIsBounded(link, events[..n]);
      match events[n]
      case Send(payload) =>
        var out := new byte[HEADER_LEN + PaddedLen(|payload|) + TAG_LEN];
        var r := sender.Encrypt(payload, out);
        if r.Ok? {
          packets := packets + [out[..r.value]];
        }
      case Deliver(packet) =>
        var got := Receive(receiver, packet);
        if got.Some? {
          delivered := delivered + [got.value];
        }
    }
    assert events[..|events|] == events;
  }
}
