/** What a relay sends, written from its numbers, and what becomes of it over a whole run. */
module DerpMessages {
  import opened Bytes
  import opened Framing
  import opened DerpFrames
  import opened DerpPump

  /** A packet relayed from a peer, a ping, or any frame that asks for nothing. */
  datatype Message = Relayed(from: bytes, packet: bytes) | Pinged(data: bytes) | Quiet(kind: FrameType, payload: bytes)
  {
    predicate Legal() {
      match this
      case Relayed(from, packet) => |from| == 32 && packet != [] && |packet| <= MAX_FRAME_LEN - 32
      case Pinged(data) => 8 <= |data| <= MAX_FRAME_LEN
      case Quiet(kind, payload) =>
        |payload| <= MAX_FRAME_LEN && (kind.RecvPacket? ==> |payload| <= 32) && (kind.Ping? ==> |payload| < 8)
    }
  }

  /** The bytes of a message: a type, four bytes of length, and a payload. A relayed packet
      stands behind the key of its sender. */
  function Wire(m: Message): bytes {
    match m
    case Relayed(from, packet) => [0x05] + BeU32(32 + |packet|) + from + packet
    case Pinged(data) => [0x12] + BeU32(|data|) + data
    case Quiet(kind, payload) => [kind.Code()] + BeU32(|payload|) + payload
  }

  /** What it asks for: a packet is passed on with its sender, cut where the buffer ends, and
      a ping is answered with its first eight bytes. */
  function Meant(m: Message): seq<Effect> {
    match m
    case Relayed(from, packet) => [Pass(from, Truncate(packet, 1568))]
    case Pinged(data) => [Answer(data[..Min(8, |data|)])]
    case Quiet(_, _) => []
  }

  function LastSender(messages: seq<Message>): Option<bytes> {
    if messages == [] then None
    else
      var n := |messages| - 1;
      if messages[n].Relayed? then Some(messages[n].from) else LastSender(messages[..n])
  }

  /** Every frame within the limit is one of these messages. */
  lemma EveryFrameIsAMessage(f: Frame) returns (m: Message)
    requires |f.payload| <= MAX_FRAME_LEN
    ensures m.Legal() && Wire(m) == TextOf(f)
  {
    if f.kind.RecvPacket? && |f.payload| > 32 {
      m := Relayed(f.payload[..32], f.payload[32..]);
      assert f.payload[..32] + f.payload[32..] == f.payload;
      assert Wire(m) == TextOf(f);
    } else if f.kind.Ping? && |f.payload| >= 8 {
      m := Pinged(f.payload);
    } else {
      m := Quiet(f.kind, f.payload);
    }
  }

  function FrameOf(m: Message): Frame {
    match m
    case Relayed(from, packet) => Frame(RecvPacket, from + packet)
    case Pinged(data) => Frame(Ping, data)
    case Quiet(kind, payload) => Frame(kind, payload)
  }

  lemma OneMessage(m: Message)
    requires m.Legal()
    ensures Wire(m) == TextOf(FrameOf(m)) && |FrameOf(m).payload| <= MAX_FRAME_LEN
    ensures EffectOf(HandledAs(FrameOf(m))) == Meant(m)
    ensures m.Relayed? ==> LastPeer([HandledAs(FrameOf(m))]) == Some(m.from)
    ensures !m.Relayed? ==> LastPeer([HandledAs(FrameOf(m))]) == None
  {
    hide BeU32;
    var f := HandledAs(FrameOf(m));
    PeerOf([], f);
    assert [] + [f] == [f];
    if m.Relayed? {
      assert f.payload == m.from + Truncate(m.packet, 1568);
      assert f.payload[..32] == m.from && f.payload[32..] == Truncate(m.packet, 1568);
      assert Wire(m) == TextOf(FrameOf(m));
    } else if m.Pinged? {
      assert f.payload[..8] == m.data[..8];
    }
  }

  /** Messages sent one after the other take effect one after the other, and the last sender
      of a packet is the peer that replies go to. */
  lemma {:induction false} MessagesTakeEffect(messages: seq<Message>)
    requires forall i :: 0 <= i < |messages| ==> messages[i].Legal()
    ensures Frames(Flatten(Map(Wire, messages))) == Map(HandledAs, Map(FrameOf, messages))
    ensures Effects(Frames(Flatten(Map(Wire, messages)))) == Flatten(Map(Meant, messages))
    ensures LastPeer(Frames(Flatten(Map(Wire, messages)))) == LastSender(messages)
  {
    hide Frames, Flatten, EffectOf, HandledAs, Wire, Meant, TextOf, Message.Legal, FrameOf;
    var frames := Map(FrameOf, messages);
    forall i | 0 <= i < |messages|
      ensures Wire(messages[i]) == TextOf(frames[i]) && |frames[i].payload| <= MAX_FRAME_LEN
      ensures EffectOf(HandledAs(frames[i])) == Meant(messages[i])
    {
      OneMessage(messages[i]);
    }
    assert Map(Wire, messages) == Map(TextOf, frames);
    SentFramesAreHandled(frames);
    assert Map(EffectOf, Map(HandledAs, frames)) == Map(Meant, messages);
    SendersAreFound(messages);
  }

  lemma {:induction false} SendersAreFound(messages: seq<Message>)
    requires forall i :: 0 <= i < |messages| ==> messages[i].Legal()
    ensures LastPeer(Map(HandledAs, Map(FrameOf, messages))) == LastSender(messages)
  {
    hide HandledAs, FrameOf, Message.Legal, EffectOf, Meant, Wire, TextOf;
    if messages != [] {
      var n := |messages| - 1;
      var before, last := Map(HandledAs, Map(FrameOf, messages[..n])), HandledAs(FrameOf(messages[n]));
      SendersAreFound(messages[..n]);
      OneMessage(messages[n]);
      PeerOf(before, last);
      PeerOf([], last);
      assert Map(HandledAs, Map(FrameOf, messages)) == before + [last] && [] + [last] == [last];
    }
  }

  /** What has been handled of a part of the stream is the first of what the whole asks for. */
  lemma PartTakesEffect(part: bytes, later: bytes)
    ensures Effects(Frames(part)) <= Effects(Frames(part + later))
  {
    hide EffectOf, Shown, Cut;
    CutConcat(DERP, part, later);
    var first, more := Cut(DERP, part).frames, Cut(DERP, Cut(DERP, part).rest + later).frames;
    MapConcat(Shown, first, more);
    MapConcat(EffectOf, Map(Shown, first), Map(Shown, more));
    FlattenConcat(Map(EffectOf, Map(Shown, first)), Map(EffectOf, Map(Shown, more)));
  }

  /** The relay loop on what a relay sends: however reads complete or are cancelled, what has
      been done is the first of what the messages ask for, and all of it once they have all
      arrived; the relay's frames are never why the loop ends. */
  method RunOnMessages(pump: Pump, events: seq<Event>, ghost messages: seq<Message>, ghost later: bytes)
    returns (failure: Option<PumpError>, waits: nat)
    requires pump.Valid()
    requires forall i :: 0 <= i < |events| && events[i].Arrived? ==> |events[i].data| <= STAGED
    requires forall i :: 0 <= i < |messages| ==> messages[i].Legal()
    requires pump.Seen() + Received(events) + later == Flatten(Map(Wire, messages))
    modifies pump, pump.reader, pump.reader.header, pump.reader.control, pump.assembled, pump.staged
    ensures waits <= |events| && pump.effects <= Flatten(Map(Meant, messages)) && failure != Some(Protocol)
    ensures failure.None? && later == [] ==>
              pump.effects == Flatten(Map(Meant, messages)) && pump.peerKey == LastSender(messages)
  {
    hide Frames, Flatten, EffectOf, Cut, Wire, Meant, Message.Legal, Stuck, FrameReader.Valid, Effects, Gives;
    ghost var first := pump.Seen();
    MessagesTakeEffect(messages);
    failure, waits := pump.Run(events);
    ghost var part, rest := first + Received(events[..waits]), Received(events[waits..]) + later;
    ReceivedSplit(events, waits);
    assert part + rest == Flatten(Map(Wire, messages));
    PartTakesEffect(part, rest);
    NeverStuck(messages, part, rest);
    if failure.None? && later == [] {
      assert events[..waits] == events && part + [] == part;
    }
  }

  lemma ReceivedSplit(events: seq<Event>, n: nat)
    requires n <= |events|
    ensures Received(events) == Received(events[..n]) + Received(events[n..])
  {
    hide Gives, Flatten;
    assert events == events[..n] + events[n..];
    MapConcat(Gives, events[..n], events[n..]);
    FlattenConcat(Map(Gives, events[..n]), Map(Gives, events[n..]));
  }

  lemma NeverStuck(messages: seq<Message>, part: bytes, later: bytes)
    requires forall i :: 0 <= i < |messages| ==> messages[i].Legal()
    requires part + later == Flatten(Map(Wire, messages))
    ensures !Stuck(DERP, Cut(DERP, part).rest)
  {
    hide Cut, Flatten, Wire, TextOf, Message.Legal, Exact, FrameOf, HeaderText;
    var texts := Map(Wire, messages);
    forall i | 0 <= i < |texts| ensures Exact(DERP, texts[i]) {
      OneMessage(messages[i]);
      TextIsExact(FrameOf(messages[i]));
    }
    CutOfPrefix(DERP, texts, part, later);
  }

  lemma TextIsExact(f: Frame)
    requires |f.payload| <= MAX_FRAME_LEN
    ensures Exact(DERP, TextOf(f))
  {
    hide HeaderText, Exact;
    WrittenFrameReads(f.kind, f.payload);
  }
}
