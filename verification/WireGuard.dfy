/** From handshake to data: two nodes agree on keys, then deliver packets at most once. */
module WireGuard {
  import opened Bytes
  import opened Crypto
  import opened Transport
  import opened HandshakeSpec
  import opened Delivery
  import Handshake

  /** Long-term and ephemeral private keys and the index of one node. */
  datatype Node = Node(own: bytes, ephemeral: bytes, index: u32)

  function LinkFrom(suite: Suite, keys: SessionKeys): Link {
    Link(suite.aead, keys.send, keys.peerIndex)
  }

  /** What one direction promises: the sender's packets are what it was given to send, and
      if the cipher is ideal every delivery is one of them, once. */
  ghost predicate Delivers(link: Link, events: seq<Event>, packets: seq<bytes>, delivered: seq<Message>) {
    var s := After(link, events);
    && AreOnTheWire(link, s.sent, packets) && delivered == s.delivered
    && (Ideal(link, events) ==> Sound(s))
    && (Relays(link, events) ==> Ideal(link, events))
  }

  /** The handshake, then any traffic in both directions over any network. The two
      directions share no state, so running them one after the other loses no order. */
  method ConnectAndDeliver(suite: Suite, a: Node, b: Node, time: timestamp, forth: seq<Event>, back: seq<Event>)
    returns (keys: SessionKeys,
             sentForth: seq<bytes>, receivedForth: seq<Message>, sentBack: seq<bytes>, receivedBack: seq<Message>)
    requires suite.Lawful()
    ensures keys.localIndex == a.index && keys.peerIndex == b.index
    ensures Delivers(LinkFrom(suite, keys), forth, sentForth, receivedForth)
    ensures Delivers(Link(suite.aead, keys.receive, a.index), back, sentBack, receivedBack)
  {
    hide After, Ideal, Relays, Sound, AreOnTheWire, Session.Valid;
    var aKeys, bKeys := Handshake.Connect(suite, a.own, b.own, a.ephemeral, b.ephemeral, a.index, b.index, time);
    SuiteHasAead(suite);
    var aSession := new Session(suite.aead, aKeys);
    var bSession := new Session(suite.aead, bKeys);
    keys := aKeys;
    sentForth, receivedForth := Run(aSession, bSession, LinkFrom(suite, aKeys), forth);
    sentBack, receivedBack := Run(bSession, aSession, LinkFrom(suite, bKeys), back);
    Promises(LinkFrom(suite, aKeys), forth);
    Promises(LinkFrom(suite, bKeys), back);
  }

  lemma Promises(link: Link, events: seq<Event>)
    requires link.aead.Correct()
    ensures Ideal(link, events) ==> Sound(After(link, events))
    ensures Relays(link, events) ==> Ideal(link, events)
  {
    hide After, Ideal, Relays, Sound;
    if Ideal(link, events) {
      DeliveryIsSound(link, events);
    }
    if Relays(link, events) {
      RelayingIsIdeal(link, events);
    }
  }
}
