/** The relay loop: one connection read into a fixed staging buffer, with the read
    raced against outbound packets and cancelled whenever it loses. */
module DerpPump {
  import opened Bytes
  import opened Framing
  import opened DerpFrames

  const STAGED: nat := 1024
  const ASSEMBLED: nat := 1600
  const KEY_LEN: nat := 32

  /** How one wait ends. `backlog` is what other tasks put into the outbound channel
      before the loop looks at it again. */
  datatype Event =
    | Arrived(data: bytes, backlog: seq<bytes>)
    /** The read is cancelled, with nothing consumed: a packet was taken instead. */
    | Cancelled(packet: bytes, backlog: seq<bytes>)
    /** The read fails. */
    | Failed

  datatype PumpError = Protocol | Io

  /** What became of one packet taken from the channel: sent to this peer, or dropped
      because no peer is known yet. */
  datatype Outbound = Outbound(peer: Option<bytes>, packet: bytes)

  /** A frame as it reaches `handle_frame`: cut to the assembly buffer. */
  function Shown(raw: bytes): Frame {
    Frame(Present(raw).kind, Truncate(Present(raw).payload, ASSEMBLED))
  }

  function Frames(stream: bytes): seq<Frame> {
    Map(Shown, Cut(DERP, stream).frames)
  }

  /** A frame as the relay writes it, and as it then reaches `handle_frame`. */
  function TextOf(f: Frame): bytes {
    HeaderText(f.kind, |f.payload|) + f.payload
  }

  function HandledAs(f: Frame): Frame {
    Frame(f.kind, Truncate(f.payload, if f.kind.IsControl() then CONTROL_FRAME_MAX else ASSEMBLED))
  }

  /** Frames written one after the other are handled one after the other. */
  lemma SentFramesAreHandled(frames: seq<Frame>)
    requires forall i :: 0 <= i < |frames| ==> |frames[i].payload| <= MAX_FRAME_LEN
    ensures Frames(Flatten(Map(TextOf, frames))) == Map(HandledAs, frames)
  {
    hide Exact, HeaderText, Present, Flatten, Cut;
    var texts := Map(TextOf, frames);
    forall i | 0 <= i < |texts| ensures Exact(DERP, texts[i]) && Shown(texts[i]) == HandledAs(frames[i]) {
      WrittenFrameReads(frames[i].kind, frames[i].payload);
    }
    assert !Whole(DERP, []);
    CutInvertsWriter(DERP, texts, []);
    assert Flatten(texts) + [] == Flatten(texts);
    assert Map(Shown, texts) == Map(HandledAs, frames);
  }

  /** The bytes an event adds to the stream. */
  function Gives(e: Event): bytes {
    if e.Arrived? then e.data else []
  }

  /** The packets an event puts into the outbound channel, in order. */
  function Puts(e: Event): seq<bytes> {
    match e
    case Arrived(_, backlog) => backlog
    case Cancelled(packet, backlog) => [packet] + backlog
    case Failed => []
  }

  function Received(events: seq<Event>): bytes {
    Flatten(Map(Gives, events))
  }

  function Offered(events: seq<Event>): seq<bytes> {
    Flatten(Map(Puts, events))
  }

  lemma RunSnoc(events: seq<Event>, last: Event)
    ensures Received(events + [last]) == Received(events) + Gives(last)
    ensures Offered(events + [last]) == Offered(events) + Puts(last)
  {
    MapConcat(Gives, events, [last]);
    MapConcat(Puts, events, [last]);
    FlattenSnoc(Map(Gives, events), Gives(last));
    FlattenSnoc(Map(Puts, events), Puts(last));
    assert Map(Gives, [last]) == [Gives(last)] && Map(Puts, [last]) == [Puts(last)];
  }

  /** The peer replies go to: the sender of the last relayed packet handled. */
  function LastPeer(frames: seq<Frame>): Option<bytes> {
    if frames == [] then None
    else
      var f := frames[|frames| - 1];
      if f.kind.RecvPacket? && |f.payload| > KEY_LEN then Some(f.payload[..KEY_LEN])
      else LastPeer(frames[..|frames| - 1])
  }

  lemma PeerOf(frames: seq<Frame>, f: Frame)
    ensures LastPeer(frames + [f])
         == if f.kind.RecvPacket? && |f.payload| > KEY_LEN then Some(f.payload[..KEY_LEN]) else LastPeer(frames)
  {
    assert (frames + [f])[..|frames|] == frames;
  }

  /** What a frame asks for: a relayed packet goes to WireGuard together with its sender, and
      a ping is answered with its first eight bytes. */
  datatype Effect = Pass(from: bytes, packet: bytes) | Answer(data: bytes)

  const PING_LEN: nat := 8

  function EffectOf(f: Frame): seq<Effect> {
    if f.kind.RecvPacket? && |f.payload| > KEY_LEN then [Pass(f.payload[..KEY_LEN], f.payload[KEY_LEN..])]
    else if f.kind.Ping? && |f.payload| >= PING_LEN then [Answer(f.payload[..PING_LEN])]
    else []
  }

  function Effects(frames: seq<Frame>): seq<Effect> {
    Flatten(Map(EffectOf, frames))
  }

  lemma EffectsOf(frames: seq<Frame>, f: Frame)
    ensures Effects([]) == [] && Effects(frames + [f]) == Effects(frames) + EffectOf(f)
  {
    hide EffectOf;
    MapConcat(EffectOf, frames, [f]);
    FlattenSnoc(Map(EffectOf, frames), EffectOf(f));
    assert Map(EffectOf, [f]) == [EffectOf(f)];
  }

  function Packets(log: seq<Outbound>): seq<bytes> {
    Map((o: Outbound) => o.packet, log)
  }

  /** Once a peer is known nothing more is dropped. */
  ghost predicate NothingDroppedOnceKnown(log: seq<Outbound>, peer: Option<bytes>) {
    && (forall i, j :: 0 <= i < j < |log| ==> log[i].peer.Some? ==> log[j].peer.Some?)
    && (peer.None? ==> forall i :: 0 <= i < |log| ==> log[i].peer.None?)
  }

  /** Packets sent to a peer. */
  function To(peer: Option<bytes>, packets: seq<bytes>): seq<Outbound> {
    Map((p: bytes) => Outbound(peer, p), packets)
  }

  lemma ToFirst(log: seq<Outbound>, peer: Option<bytes>, packets: seq<bytes>)
    ensures To(peer, []) == []
    ensures packets != [] ==>
              log + [Outbound(peer, packets[0])] + To(peer, packets[1..]) == log + To(peer, packets)
  {
    if packets != [] {
      assert To(peer, packets) == [Outbound(peer, packets[0])] + To(peer, packets[1..]);
    }
  }

  lemma KnownIsEnough(log: seq<Outbound>, peer: Option<bytes>)
    requires NothingDroppedOnceKnown(log, peer)
    ensures forall later: bytes :: NothingDroppedOnceKnown(log, Some(later))
  {
  }

  lemma TruncateGrows<T>(a: seq<T>, b: seq<T>, n: nat)
    ensures Truncate(a + b, n) == Truncate(a, n) + Truncate(b, n - |Truncate(a, n)|)
  {
  }

  class Pump {
    const reader: FrameReader
    const staged: array<byte>
    var stagedLen: nat
    var pos: nat
    const assembled: array<byte>
    var filled: nat
    var peerKey: Option<bytes>
    /** What the frames handled asked for, in order. */
    var effects: seq<Effect>
    /** The outbound channel. */
    var channel: seq<bytes>

    /** All bytes given to the reader, and all frames handed on. */
    ghost var parsed: bytes
    ghost var handled: seq<Frame>
    ghost var log: seq<Outbound>

    ghost predicate Shape()
      reads `stagedLen, `pos, `filled
    {
      && staged.Length == STAGED && assembled.Length == ASSEMBLED && staged != assembled
      && staged != reader.header && staged != reader.control
      && assembled != reader.header && assembled != reader.control
      && pos <= stagedLen <= STAGED && filled <= ASSEMBLED
    }

    /** The reader is where the one-shot parse of `parsed` is, and the assembly buffer
        holds what has been streamed of the frame in progress. */
    ghost predicate Parsing()
      reads `stagedLen, `pos, `filled, `parsed, reader, reader.header, reader.control, assembled
    {
      && Shape() && reader.Valid()
      && reader.part == Cut(DERP, parsed).rest
      && assembled[..filled] == Truncate(StreamedPart(reader.part), ASSEMBLED)
    }

    ghost predicate Valid()
      reads this, reader, reader.header, reader.control, assembled
    {
      && Parsing() && pos == 0
      && handled == Frames(parsed) && effects == Effects(handled)
      && peerKey == LastPeer(handled) && NothingDroppedOnceKnown(log, peerKey)
    }

    /** Everything read so far: what was parsed, then what is staged. */
    ghost function Seen(): bytes
      reads `stagedLen, `pos, `filled, `parsed, staged
      requires Shape()
    {
      parsed + staged[pos..stagedLen]
    }

    /** The relay's handshake may leave bytes staged that it has not parsed. */
    constructor (reader: FrameReader, leftover: bytes)
      requires reader.Valid() && reader.part == [] && |leftover| <= STAGED
      ensures this.reader == reader && Valid() && Seen() == leftover && handled == [] && log == [] && channel == []
      ensures fresh(staged) && fresh(assembled)
    {
      this.reader := reader;
      staged := new byte[STAGED](i => if 0 <= i < |leftover| then leftover[i] else 0);
      assembled := new byte[ASSEMBLED];
      stagedLen, pos, filled := |leftover|, 0, 0;
      peerKey, channel, effects := None, [], [];
      parsed, handled, log := [], [], [];
    }

    /** Puts an item into the assembly buffer; a body beyond its size is cut. */
    method Assemble(item: Option<Item>) returns (frame: Option<(FrameType, nat)>)
      requires Shape() && (item.Some? && item.value.Control? ==> filled == 0)
      modifies `filled, assembled
      ensures Shape() && frame.Some? == Finishes(item)
      ensures item.None? ==> assembled[..filled] == old(assembled[..filled])
      ensures frame.Some? ==> filled == 0 && frame.value.0 == item.value.kind && frame.value.1 <= ASSEMBLED
      ensures item.Some? && item.value.Control? ==>
                assembled[..frame.value.1] == Truncate(item.value.payload, ASSEMBLED)
      ensures item.Some? && item.value.Body? ==>
                var kept := old(assembled[..filled]) + Truncate(item.value.chunk, ASSEMBLED - old(filled));
                assembled[..if item.value.end then frame.value.1 else filled] == kept
    {
      match item {
        case None =>
          return None;
        case Some(Control(kind, payload)) =>
          var take := Min(|payload|, ASSEMBLED);
          TruncateIs(payload, ASSEMBLED);
          forall i | 0 <= i < take { assembled[i] := payload[i]; }
          return Some((kind, take));
        case Some(Body(kind, total, chunk, end)) =>
          var take := Min(|chunk|, ASSEMBLED - filled);
          TruncateIs(chunk, ASSEMBLED - filled);
          ghost var before := assembled[..filled];
          forall i | 0 <= i < take { assembled[filled + i] := chunk[i]; }
          filled := filled + take;
          assert assembled[..filled] == before + chunk[..take];
          if end {
            frame := Some((kind, filled));
            filled := 0;
          } else {
            frame := None;
          }
      }
    }

    /** Feeds the reader once from the staged bytes. */
    method FeedOnce() returns (r: Result<Option<(FrameType, nat)>, PumpError>)
      requires Parsing() && pos < stagedLen
      modifies `pos, `filled, `parsed, reader, reader.header, reader.control, assembled
      ensures Shape() && Seen() == old(Seen()) && old(pos) < pos
      ensures r.Err? ==> r.error == Protocol && Stuck(DERP, Cut(DERP, Seen()).rest)
      ensures r.Err? ==> Frames(Seen()) == old(Frames(parsed))
      ensures r.Ok? ==> Parsing()
      ensures r == Ok(None) ==> Frames(parsed) == old(Frames(parsed))
      ensures r.Ok? && r.value.Some? ==>
                && r.value.value.1 <= ASSEMBLED && filled == 0
                && Frames(parsed) == old(Frames(parsed))
                   + [Frame(r.value.value.0, assembled[..r.value.value.1])]
    {
      hide Emitted, Present, StreamedPart, Frames, Cut, Stuck, Fed, Truncate, FrameReader.Valid, Whole, Min;
      ghost var rest, streamed := staged[pos..stagedLen], StreamedPart(reader.part);
      ghost var part := reader.part;
      var used, fed := reader.Feed(staged[pos..stagedLen]);
      ghost var taken := rest[..used];
      SplitAt(parsed, rest, used);
      pos := pos + used;
      assert staged[pos..stagedLen] == rest[used..];
      if fed.Err? {
        StuckStays(parsed, taken, rest[used..]);
        parsed := parsed + taken;
        return Err(Protocol);
      }
      FedShows(parsed, taken, fed.value, reader.part);
      ItemContinues(part, taken, fed.value, reader.part);
      parsed := parsed + taken;
      if fed.value.Some? && fed.value.value.Body? {
        TruncateGrows(streamed, fed.value.value.chunk, ASSEMBLED);
      }
      TruncateNothing(ASSEMBLED);
      var frame := Assemble(fed.value);
      r := Ok(frame);
      if frame.Some? {
        assert assembled[..filled] == [];
      }
    }

    /** Parses what is staged, up to the next complete frame, and reclaims the consumed
        prefix. Without a frame nothing stays staged. */
    method ParseStaged() returns (r: Result<Option<(FrameType, nat)>, PumpError>)
      requires Parsing() && pos == 0
      modifies `pos, `stagedLen, `filled, `parsed, reader, reader.header, reader.control, assembled, staged
      ensures Shape() && pos == 0 && Seen() == old(Seen())
      ensures r.Err? ==> r.error == Protocol && Stuck(DERP, Cut(DERP, Seen()).rest)
      ensures r.Ok? ==> Parsing()
      ensures r == Ok(None) ==> stagedLen == 0 && parsed == Seen() && Frames(parsed) == old(Frames(parsed))
      ensures r.Ok? && r.value.Some? ==> stagedLen < old(stagedLen)
      ensures r.Err? ==> Frames(Seen()) == old(Frames(parsed))
      ensures r.Ok? && r.value.Some? ==>
                && r.value.value.1 <= ASSEMBLED && filled == 0
                && Frames(parsed) == old(Frames(parsed))
                   + [Frame(r.value.value.0, assembled[..r.value.value.1])]
    {
      hide Frames, Cut, Stuck, FrameReader.Valid, Truncate, StreamedPart;
      r := Ok(None);
      while pos < stagedLen
        invariant Parsing() && r == Ok(None) && Seen() == old(Seen())
        invariant Frames(parsed) == old(Frames(parsed)) && stagedLen == old(stagedLen)
      {
        r := FeedOnce();
        if r != Ok(None) {
          break;
        }
      }
      ghost var at := pos;
      Reclaim();
      assert stagedLen == old(stagedLen) - at;
      assert r == Ok(None) ==> parsed + [] == parsed;
    }

    /** Moves the unparsed bytes to the front of the staging buffer. */
    method Reclaim()
      requires Shape()
      modifies `pos, `stagedLen, staged
      ensures Shape() && pos == 0 && stagedLen == old(stagedLen - pos) && Seen() == old(Seen())
    {
      if pos > 0 {
        ghost var kept := staged[pos..stagedLen];
        forall i | 0 <= i < stagedLen - pos { staged[i] := staged[pos + i]; }
        stagedLen := stagedLen - pos;
        pos := 0;
        assert staged[pos..stagedLen] == kept;
      }
    }

    /** Acts on a frame: a relayed packet tells which peer to reply to and is passed on, a ping
        is answered. */
    method HandleFrame(kind: FrameType, len: nat)
      requires Parsing() && len <= ASSEMBLED
      requires Frames(parsed) == handled + [Frame(kind, assembled[..len])]
      requires pos == 0 && peerKey == LastPeer(handled) && NothingDroppedOnceKnown(log, peerKey)
      requires effects == Effects(handled)
      modifies `peerKey, `handled, `effects
      ensures Valid() && handled == Frames(parsed)
      ensures effects == old(effects) + EffectOf(Frame(kind, old(assembled[..len])))
      ensures old(peerKey).Some? ==> peerKey.Some?
    {
      hide Cut, Truncate, StreamedPart, FrameReader.Valid, Frames, LastPeer, NothingDroppedOnceKnown, Effects;
      ghost var frame := Frame(kind, assembled[..len]);
      PeerOf(handled, frame);
      EffectsOf(handled, frame);
      KnownIsEnough(log, peerKey);
      handled := handled + [frame];
      if kind.RecvPacket? && len > KEY_LEN {
        assert frame.payload[..KEY_LEN] == assembled[..KEY_LEN];
        assert frame.payload[KEY_LEN..] == assembled[KEY_LEN..len];
        peerKey := Some(assembled[..KEY_LEN]);
        effects := effects + [Pass(assembled[..KEY_LEN], assembled[KEY_LEN..len])];
      } else if kind.Ping? && len >= PING_LEN {
        assert frame.payload[..PING_LEN] == assembled[..PING_LEN];
        effects := effects + [Answer(assembled[..PING_LEN])];
      }
    }

    /** Sends what is waiting in the outbound channel, once there is a peer. */
    method DrainOutbound()
      requires Valid()
      modifies `channel, `log
      ensures Valid()
      ensures Packets(log) + channel == old(Packets(log) + channel)
      ensures if peerKey.Some? then channel == [] && log == old(log) + To(peerKey, old(channel))
              else channel == old(channel) && log == old(log)
    {
      hide Cut, Truncate, StreamedPart, FrameReader.Valid, Frames, LastPeer, Effects, To, Packets, NothingDroppedOnceKnown;
      if peerKey.Some? {
        while channel != []
          invariant NothingDroppedOnceKnown(log, peerKey)
          invariant Packets(log) + channel == old(Packets(log) + channel)
          invariant log + To(peerKey, channel) == old(log) + To(peerKey, old(channel))
        {
          ToFirst(log, peerKey, channel);
          TakeFirst();
        }
        ToFirst(log, peerKey, []);
      }
    }

    /** Takes one packet from the channel: it is sent if a peer is known. */
    method TakeFirst()
      requires channel != [] && NothingDroppedOnceKnown(log, peerKey)
      modifies `channel, `log
      ensures NothingDroppedOnceKnown(log, peerKey) && channel == old(channel)[1..]
      ensures log == old(log) + [Outbound(peerKey, old(channel)[0])]
      ensures Packets(log) + channel == old(Packets(log) + channel)
    {
      MapConcat((o: Outbound) => o.packet, log, [Outbound(peerKey, channel[0])]);
      assert channel == [channel[0]] + channel[1..];
      log := log + [Outbound(peerKey, channel[0])];
      channel := channel[1..];
    }

    /** A read completes with `data`. */
    method ReadInto(data: bytes)
      requires Shape() && pos == 0 && stagedLen + |data| <= STAGED
      modifies `stagedLen, staged
      ensures Shape() && Seen() == old(Seen()) + data
    {
      ghost var before := staged[..stagedLen];
      forall i | 0 <= i < |data| { staged[stagedLen + i] := data[i]; }
      stagedLen := stagedLen + |data|;
      assert staged[..stagedLen] == before + data;
      assert parsed + (before + data) == parsed + before + data;
    }

    /** Other tasks put packets into the channel. */
    method Enqueue(packets: seq<bytes>)
      modifies `channel
      ensures channel == old(channel) + packets
      ensures Packets(log) + channel == old(Packets(log) + channel) + packets
    {
      channel := channel + packets;
      assert Packets(log) + (old(channel) + packets) == Packets(log) + old(channel) + packets;
    }

    /** Takes the next event of a run. */
    method Wait(event: Event) returns (r: Result<(), PumpError>)
      requires Valid() && stagedLen == 0 && (event.Arrived? ==> |event.data| <= STAGED)
      modifies `stagedLen, `channel, `log, staged
      ensures r.Err? <==> event.Failed? || (event.Arrived? && event.data == [])
      ensures r.Err? ==> r.error == Io
      ensures r.Ok? ==> Valid() && Seen() == old(Seen()) + Gives(event)
      ensures r.Ok? ==> Packets(log) + channel == old(Packets(log) + channel) + Puts(event)
      ensures log == old(log) + if event.Cancelled? then [Outbound(peerKey, (old(channel) + [event.packet])[0])] else []
    {
      hide Cut, Truncate, StreamedPart, FrameReader.Valid, Frames, LastPeer, Effects, NothingDroppedOnceKnown, Packets;
      ghost var queued := Packets(log) + channel;
      match event {
        case Failed =>
          return Err(Io);
        case Arrived(data, backlog) =>
          if data == [] {
            return Err(Io);
          }
          ReadInto(data);
          Enqueue(backlog);
        case Cancelled(packet, backlog) =>
          Enqueue([packet]);
          TakeFirst();
          Enqueue(backlog);
      }
      assert queued + Puts(event) == Packets(log) + channel;
      r := Ok(());
    }

    /** Sends what waits and handles the next frame, if a whole one is staged. */
    method Serve() returns (r: Result<bool, PumpError>)
      requires Valid()
      modifies this, reader, reader.header, reader.control, assembled, staged
      ensures Shape() && pos == 0 && Seen() == old(Seen())
      ensures Packets(log) + channel == old(Packets(log) + channel) && effects == Effects(handled)
      ensures r.Ok? ==> Valid()
      ensures r.Ok? && r.value ==> stagedLen < old(stagedLen)
      ensures r.Ok? && !r.value ==> stagedLen == 0 && handled == Frames(Seen()) && !Stuck(DERP, Cut(DERP, Seen()).rest)
      ensures r.Ok? && !r.value ==> filled == |Truncate(StreamedPart(Cut(DERP, Seen()).rest), ASSEMBLED)|
      ensures r.Err? ==> r.error == Protocol && Stuck(DERP, Cut(DERP, Seen()).rest) && handled == Frames(Seen())
    {
      hide Cut, Truncate, StreamedPart, FrameReader.Valid, Frames, LastPeer, Effects, NothingDroppedOnceKnown,
           Stuck, Packets;
      DrainOutbound();
      var frame := ParseStaged();
      if frame.Err? {
        return Err(frame.error);
      }
      r := Ok(frame.value.Some?);
      if frame.value.Some? {
        HandleFrame(frame.value.value.0, frame.value.value.1);
      } else {
        reader.PartIsUnfinished();
      }
    }

    /** The relay loop over a run of events. However reads complete or are cancelled,
        and whatever is sent in between, the frames handled are those of the received
        stream, in order; the loop fails only on a frame over the limit, at the end of the
        connection or when a read does, and never because the staging buffer is full. */
    method Run(events: seq<Event>) returns (failure: Option<PumpError>, waits: nat)
      requires Valid()
      requires forall i :: 0 <= i < |events| && events[i].Arrived? ==> |events[i].data| <= STAGED
      modifies this, reader, reader.header, reader.control, assembled, staged
      ensures waits <= |events| && (failure.None? ==> waits == |events|)
      ensures handled == Frames(old(Seen()) + Received(events[..waits]))
      ensures failure == Some(Protocol) <==> Stuck(DERP, Cut(DERP, old(Seen()) + Received(events[..waits])).rest)
      ensures effects == Effects(handled)
      ensures failure == Some(Io) ==>
                waits < |events| && (events[waits].Failed? || (events[waits].Arrived? && events[waits].data == []))
      ensures failure.None? ==> Valid() && stagedLen == 0
      ensures failure.None? ==>
                filled == |Truncate(StreamedPart(Cut(DERP, old(Seen()) + Received(events)).rest), ASSEMBLED)|
      ensures failure.None? ==> Packets(log) + channel == old(Packets(log) + channel) + Offered(events)
    {
      hide Cut, Truncate, StreamedPart, FrameReader.Valid, Frames, LastPeer, Effects, NothingDroppedOnceKnown,
           Stuck, Seen, Packets, Received, Offered, Gives, Puts;
      waits := 0;
      ghost var first, queued := Seen(), Packets(log) + channel;
      NothingYet(first, queued, events);
      while true
        invariant Valid() && waits <= |events| && effects == Effects(handled)
        invariant Seen() == first + Received(events[..waits])
        invariant Packets(log) + channel == queued + Offered(events[..waits])
        decreases |events| - waits, stagedLen
      {
        var served := Serve();
        if served.Err? {
          return Some(Protocol), waits;
        }
        if served.value {
          continue;
        }
        if stagedLen == staged.Length {
          assert false; // the full-buffer error
        }
        if waits == |events| {
          AllOf(events);
          return None, waits;
        }
        var event := events[waits];
        NextEvent(first, queued, events, waits);
        var r := Wait(event);
        if r.Err? {
          return Some(Io), waits;
        }
        waits := waits + 1;
      }
    }
  }

  lemma NothingYet(first: bytes, queued: seq<bytes>, events: seq<Event>)
    ensures first + Received(events[..0]) == first && queued + Offered(events[..0]) == queued
  {
  }

  lemma NextEvent(first: bytes, queued: seq<bytes>, events: seq<Event>, n: nat)
    requires n < |events|
    ensures first + Received(events[..n + 1]) == first + Received(events[..n]) + Gives(events[n])
    ensures queued + Offered(events[..n + 1]) == queued + Offered(events[..n]) + Puts(events[n])
  {
    hide Received, Offered, Gives, Puts;
    RunSnoc(events[..n], events[n]);
    assert events[..n + 1] == events[..n] + [events[n]];
  }

  lemma AllOf(events: seq<Event>)
    ensures events[..|events|] == events
  {
  }

  lemma SplitAt(before: bytes, rest: bytes, n: nat)
    requires n <= |rest|
    ensures before + rest == before + rest[..n] + rest[n..]
  {
  }

  /** A captured frame never interrupts a streamed one. */
  lemma ItemContinues(part: bytes, used: bytes, item: Option<Item>, after: bytes)
    requires Fed(part, used, item, after)
    ensures item.Some? && item.value.Control? ==> StreamedPart(part) == []
  {
  }

  lemma TruncateNothing(n: nat)
    ensures Truncate<byte>([], n) == []
  {
  }

  lemma TruncateIs<T>(s: seq<T>, n: nat)
    ensures Truncate(s, n) == s[..Min(|s|, n)]
  {
  }

  /** A header over the limit stays in front of everything that follows it. */
  lemma StuckStays(stream: bytes, used: bytes, more: bytes)
    requires Stuck(DERP, Cut(DERP, stream).rest + used)
    ensures Stuck(DERP, Cut(DERP, stream + used + more).rest)
    ensures Frames(stream + used + more) == Frames(stream)
  {
    hide Stuck, Cut, Shown;
    var rest := Cut(DERP, stream).rest;
    assert stream + used + more == stream + (used + more);
    assert rest + used + more == rest + (used + more);
    StuckLonger(rest + used, more);
    CutConcat(DERP, stream, used + more);
    assert Cut(DERP, stream).frames + [] == Cut(DERP, stream).frames;
  }

  lemma StuckLonger(s: bytes, more: bytes)
    requires Stuck(DERP, s)
    ensures Stuck(DERP, s + more) && Cut(DERP, s + more) == Parsed([], s + more)
  {
    assert (s + more)[..HEADER_LEN] == s[..HEADER_LEN];
  }

  /** What the frames and the streamed part become when the reader takes `used`. */
  lemma FedShows(stream: bytes, used: bytes, item: Option<Item>, after: bytes)
    requires Fed(Cut(DERP, stream).rest, used, item, after)
    ensures Cut(DERP, stream + used).rest == after
    ensures !Finishes(item) ==> Frames(stream + used) == Frames(stream)
    ensures item.None? ==> StreamedPart(after) == StreamedPart(Cut(DERP, stream).rest)
    ensures item.Some? && item.value.Control? ==>
              && StreamedPart(after) == []
              && Frames(stream + used) ==
                 Frames(stream) + [Frame(item.value.kind, Truncate(item.value.payload, ASSEMBLED))]
    ensures item.Some? && item.value.Body? ==>
              var streamed := StreamedPart(Cut(DERP, stream).rest) + item.value.chunk;
              if item.value.end then
                && StreamedPart(after) == []
                && Frames(stream + used) == Frames(stream) + [Frame(item.value.kind, Truncate(streamed, ASSEMBLED))]
              else StreamedPart(after) == streamed
  {
    hide Cut, Advanced;
    var part := Cut(DERP, stream).rest;
    FedAdvances(part, used, item, after);
    AdvancedFollowsCut(DERP, stream, used, Finishes(item), after);
    MapConcat(Shown, Cut(DERP, stream).frames, [part + used]);
  }
}
