/** WireGuard transport packets: `type | reserved | receiver | counter | ciphertext`. */
module Transport {
  import opened Bytes
  import opened Crypto
  import opened Replay

  const MSG_TRANSPORT: byte := 4
  const HEADER_LEN: nat := 16
  const KEY_LEN: nat := 32

  datatype WgError =
    | Malformed | Decrypt | BadMac | ReplayedHandshake | ReplayedTransport | NonceExhausted | ShortBuffer

  /** Keys and indices of an established session, from one side's point of view. */
  datatype SessionKeys = SessionKeys(send: bytes, receive: bytes, localIndex: u32, peerIndex: u32)

  /** Four zero bytes, then the counter, little-endian. */
  function Nonce(counter: nat): bytes {
    Zeros(4) + Le(counter, 8)
  }

  lemma NonceInjective(i: nat, j: nat)
    requires i < U64 && j < U64 && Nonce(i) == Nonce(j)
    ensures i == j
  {
    Pow256Values();
    assert Nonce(i)[4..] == Le(i, 8) && Nonce(j)[4..] == Le(j, 8);
    LeRoundTrip(i, 8);
    LeRoundTrip(j, 8);
  }

  function PaddedLen(n: nat): (m: nat)
    ensures n <= m < n + 16 && m % 16 == 0
  {
    (n + 15) / 16 * 16
  }

  /** The payload zero-filled to a multiple of sixteen. */
  function Padded(payload: bytes): (p: bytes)
    ensures |p| == PaddedLen(|payload|) && payload <= p
  {
    payload + Zeros(PaddedLen(|payload|) - |payload|)
  }

  function Header(receiver: nat, counter: nat): (h: bytes)
    ensures |h| == HEADER_LEN
  {
    [MSG_TRANSPORT, 0, 0, 0] + Le(receiver, 4) + Le(counter, 8)
  }

  /** The packet that carries `payload` as message `counter`. */
  function Packet(aead: Aead, key: bytes, receiver: nat, counter: nat, payload: bytes): bytes {
    Header(receiver, counter) + aead.seal(key, Nonce(counter), [], Padded(payload))
  }

  /** A packet that is addressed to us and authentic: its counter and plaintext. */
  datatype Message = Message(counter: nat, plain: bytes)

  function CounterOf(packet: bytes): nat
    requires |packet| >= HEADER_LEN
  {
    FromLe(packet[8..16])
  }

  function ReceiverOf(packet: bytes): nat
    requires |packet| >= HEADER_LEN
  {
    FromLe(packet[4..8])
  }

  predicate Addressed(localIndex: nat, packet: bytes) {
    |packet| >= HEADER_LEN + TAG_LEN && packet[0] == MSG_TRANSPORT && ReceiverOf(packet) == localIndex
  }

  function Authentic(aead: Aead, key: bytes, localIndex: nat, packet: bytes): Option<Message> {
    if !Addressed(localIndex, packet) then None
    else
      match aead.open(key, Nonce(CounterOf(packet)), [], packet[HEADER_LEN..])
      case None => None
      case Some(plain) => Some(Message(CounterOf(packet), plain))
  }

  lemma HeaderReads(receiver: nat, counter: nat, body: bytes)
    requires receiver < U32 && counter < U64
    ensures var packet := Header(receiver, counter) + body;
            && ReceiverOf(packet) == receiver && CounterOf(packet) == counter
            && packet[0] == MSG_TRANSPORT && packet[HEADER_LEN..] == body
  {
    Pow256Values();
    var packet := Header(receiver, counter) + body;
    assert packet[4..8] == Le(receiver, 4) && packet[8..16] == Le(counter, 8);
    LeRoundTrip(receiver, 4);
    LeRoundTrip(counter, 8);
  }

  /** A packet as its reader sees it: type 4 and three zeros, receiver and counter with the
      low byte first, and the sealed payload, zero-filled to the next multiple of sixteen,
      its nonce four zeros and the counter. */
  lemma PacketIsRead(aead: Aead, key: bytes, receiver: nat, counter: nat, payload: bytes)
    requires aead.Correct() && receiver < U32 && counter < U64
    ensures var p := Packet(aead, key, receiver, counter, payload);
            && |p| >= 32 && p[..4] == [4, 0, 0, 0] && FromLe(p[4..8]) == receiver && FromLe(p[8..16]) == counter
            && exists nonce: bytes, padded: bytes ::
                 && |nonce| == 12 && nonce[..4] == [0, 0, 0, 0] && FromLe(nonce[4..]) == counter
                 && payload <= padded && |padded| % 16 == 0 && |padded| < |payload| + 16
                 && (forall i :: |payload| <= i < |padded| ==> padded[i] == 0)
                 && p[16..] == aead.seal(key, nonce, [], padded)
  {
    hide FromLe, Le;
    var p, nonce, padded := Packet(aead, key, receiver, counter, payload), Nonce(counter), Padded(payload);
    var sealed := aead.seal(key, nonce, [], padded);
    HeaderReads(receiver, counter, sealed);
    Pow256Values();
    LeRoundTrip(counter, 8);
    assert p[..4] == [4, 0, 0, 0];
    assert nonce[4..] == Le(counter, 8) && nonce[..4] == [0, 0, 0, 0];
    assert p[16..] == sealed;
  }

  /** What one side seals the other side opens: the zero-padded payload. */
  lemma PacketIsAuthentic(aead: Aead, key: bytes, receiver: nat, counter: nat, payload: bytes)
    requires aead.Correct() && receiver < U32 && counter < U64
    ensures Authentic(aead, key, receiver, Packet(aead, key, receiver, counter, payload))
         == Some(Message(counter, Padded(payload)))
  {
    hide Header, Padded;
    HeaderReads(receiver, counter, aead.seal(key, Nonce(counter), [], Padded(payload)));
  }

  class Session {
    const aead: Aead
    const keys: SessionKeys
    var sendCounter: u64
    const replay: ReplayWindow

    ghost predicate Valid()
      reads this, replay, replay.bits
    {
      aead.Correct() && replay.Valid() && sendCounter <= REJECT_AFTER_MESSAGES
    }

    constructor (aead: Aead, keys: SessionKeys)
      requires aead.Correct()
      ensures Valid() && this.aead == aead && this.keys == keys && sendCounter == 0 && replay.seen == {}
      ensures fresh(replay) && fresh(replay.bits)
    {
      this.aead, this.keys := aead, keys;
      sendCounter := 0;
      replay := new ReplayWindow();
    }

    /** Encrypts `payload` as the next message, into `out`. */
    method Encrypt(payload: bytes, out: array<byte>) returns (r: Result<nat, WgError>)
      requires Valid() && out != replay.bits as object
      modifies `sendCounter, out
      ensures Valid()
      ensures var total := HEADER_LEN + PaddedLen(|payload|) + TAG_LEN;
              if old(sendCounter) >= REJECT_AFTER_MESSAGES then r == Err(NonceExhausted)
              else if out.Length < total then r == Err(ShortBuffer)
              else r == Ok(total)
                   && out[..total] == Packet(aead, keys.send, keys.peerIndex, old(sendCounter), payload)
      ensures sendCounter == if r.Ok? then old(sendCounter) + 1 else old(sendCounter)
      ensures r.Err? ==> out[..] == old(out[..])
    {
      if sendCounter >= REJECT_AFTER_MESSAGES {
        return Err(NonceExhausted);
      }
      var paddedLen := (|payload| + 15) / 16 * 16;
      var total := HEADER_LEN + paddedLen + TAG_LEN;
      if out.Length < total {
        return Err(ShortBuffer);
      }
      WriteHeader(out, keys.peerIndex, sendCounter);
      forall i | 0 <= i < paddedLen {
        out[HEADER_LEN + i] := if i < |payload| then payload[i] else 0;
      }
      assert out[HEADER_LEN..HEADER_LEN + paddedLen] == Padded(payload);
      var sealed := aead.seal(keys.send, Nonce(sendCounter), [], out[HEADER_LEN..HEADER_LEN + paddedLen]);
      forall i | 0 <= i < |sealed| { out[HEADER_LEN + i] := sealed[i]; }
      assert out[HEADER_LEN..total] == sealed;
      assert out[..total] == out[..HEADER_LEN] + out[HEADER_LEN..total];
      sendCounter := sendCounter + 1;
      r := Ok(total);
    }

    method WriteHeader(out: array<byte>, receiver: nat, counter: nat)
      requires out.Length >= HEADER_LEN
      modifies out
      ensures out[..HEADER_LEN] == Header(receiver, counter)
      ensures out[HEADER_LEN..] == old(out[HEADER_LEN..])
    {
      hide Le;
      var header := Header(receiver, counter);
      forall i | 0 <= i < HEADER_LEN { out[i] := header[i]; }
      assert out[..HEADER_LEN] == header;
    }

    /** Decrypts the packet in `buf[..len]` in place. The packet is authenticated before
        the replay window is consulted, and a rejected one leaves the window as it was. */
    method DecryptPacket(buf: array<byte>, len: nat) returns (r: Result<nat, WgError>)
      requires Valid() && len <= buf.Length && buf != replay.bits as object
      modifies replay, replay.bits, buf
      ensures Valid() && sendCounter == old(sendCounter)
      ensures var m := Authentic(aead, keys.receive, keys.localIndex, old(buf[..len]));
              if m.Some? && Acceptable(old(replay.seen), m.value.counter) then
                && r.Ok? && HEADER_LEN + r.value <= len && buf[HEADER_LEN..HEADER_LEN + r.value] == m.value.plain
                && replay.seen == old(replay.seen) + {m.value.counter}
              else
                && r.Err? && replay.seen == old(replay.seen)
                && (r.error == ReplayedTransport <==> m.Some?)
                && (r.error == Malformed <==> !Addressed(keys.localIndex, old(buf[..len])))
                && (m.None? ==> buf[..] == old(buf[..]))
    {
      hide Nonce, Acceptable, FromLe;
      ghost var packet := buf[..len];
      if len < HEADER_LEN + TAG_LEN || buf[0] != MSG_TRANSPORT {
        return Err(Malformed);
      }
      assert buf[4..8] == packet[4..8] && buf[8..16] == packet[8..16];
      var receiver := FromLe(buf[4..8]);
      if receiver != keys.localIndex {
        return Err(Malformed);
      }
      var counter := FromLe(buf[8..16]);
      var bodyLen := len - HEADER_LEN - TAG_LEN;
      assert buf[HEADER_LEN..len] == packet[HEADER_LEN..];
      var clear := aead.open(keys.receive, Nonce(counter), [], buf[HEADER_LEN..len]);
      if clear.None? {
        return Err(Decrypt);
      }
      var plain := clear.value;
      assert |plain| == bodyLen;
      forall i | 0 <= i < bodyLen { buf[HEADER_LEN + i] := plain[i]; }
      assert buf[HEADER_LEN..HEADER_LEN + bodyLen] == plain;
      var ok := replay.Accept(counter);
      if !ok {
        return Err(ReplayedTransport);
      }
      r := Ok(bodyLen);
    }
  }
}
