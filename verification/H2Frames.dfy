/** The HTTP/2 frame reader, and its equality with the one-shot parse. */
module H2Frames {
  import opened Bytes
  import opened Framing

  const FRAME_HEADER_LEN: nat := 9
  const CONTROL_FRAME_MAX: nat := 128

  const DATA: byte := 0x0
  const HEADERS: byte := 0x1
  const RST_STREAM: byte := 0x3
  const SETTINGS: byte := 0x4
  const PING: byte := 0x6
  const GOAWAY: byte := 0x7
  const WINDOW_UPDATE: byte := 0x8

  datatype FrameHeader = FrameHeader(length: nat, kind: byte, flags: byte, streamId: nat)
  {
    predicate EndStream() {
      flags % 2 == 1
    }
  }

  /** What the reader hands back: a control frame whole, or a piece of a body. */
  datatype Item =
    | Control(header: FrameHeader, payload: bytes)
    | Body(header: FrameHeader, chunk: bytes, end: bool)

  /** A complete frame as its consumer ends up seeing it. */
  datatype Frame = Frame(header: FrameHeader, payload: bytes)

  predicate IsControl(kind: byte) {
    kind == SETTINGS || kind == PING || kind == WINDOW_UPDATE || kind == GOAWAY || kind == RST_STREAM
  }

  /** Section 4.1 of RFC 9113: 24-bit length, type, flags, and a stream number
      whose uppermost bit is reserved and ignored. */
  function DecodeHeader(h: bytes): FrameHeader
    requires |h| >= FRAME_HEADER_LEN
  {
    FrameHeader(U32Be(0, h[0], h[1], h[2]), h[3], h[4], U32Be(h[5], h[6], h[7], h[8]) % 0x8000_0000)
  }

  lemma HeaderIsStable(h: bytes, more: bytes)
    requires |h| >= FRAME_HEADER_LEN
    ensures DecodeHeader(h + more) == DecodeHeader(h)
  {
  }

  const H2: Format := Format(
    FRAME_HEADER_LEN,
    (h: bytes) => if |h| < FRAME_HEADER_LEN then 0 else DecodeHeader(h).length,
    _ => true)

  /** Long enough for the length its own header announces, and no longer. */
  predicate Complete(s: bytes) {
    |s| >= FRAME_HEADER_LEN && |s| == FRAME_HEADER_LEN + DecodeHeader(s).length
  }

  lemma FrameLenIsHeaderPlusBody(s: bytes)
    requires |s| >= FRAME_HEADER_LEN
    ensures FrameLen(H2, s) == FRAME_HEADER_LEN + DecodeHeader(s).length
    ensures Exact(H2, s) == Complete(s)
    ensures Whole(H2, s) == (|s| >= FRAME_HEADER_LEN + DecodeHeader(s).length)
  {
  }

  /** The consumer's view of one raw frame: control payloads are truncated. */
  function Present(raw: bytes): Frame {
    if |raw| < FRAME_HEADER_LEN then
      Frame(FrameHeader(0, 0, 0, 0), []) // not a frame
    else
      var h := DecodeHeader(raw);
      var body := raw[FRAME_HEADER_LEN..];
      Frame(h, if IsControl(h.kind) then Truncate(body, CONTROL_FRAME_MAX) else body)
  }

  /** Body bytes of an unfinished frame that have already been streamed out. */
  function StreamedPart(part: bytes): bytes {
    if |part| >= FRAME_HEADER_LEN && !IsControl(part[3]) then part[FRAME_HEADER_LEN..] else []
  }

  datatype State = Header | Buffering | Streaming | Draining

  class FrameReader {
    var state: State
    const headerBuf: array<byte>
    var headerHave: nat
    var current: FrameHeader
    var remaining: nat
    const control: array<byte>
    var controlLen: nat
    var pendingWindow: nat

    /** The bytes consumed of the frame in progress. The code itself forgets the
        body bytes it has streamed out. */
    ghost var part: bytes

    ghost predicate Valid()
      reads this, headerBuf, control
    {
      && headerBuf.Length == FRAME_HEADER_LEN && control.Length == CONTROL_FRAME_MAX
      && headerBuf != control
      && pendingWindow < U32
      && (state == Header ==> headerHave < FRAME_HEADER_LEN && part == headerBuf[..headerHave])
      && (state != Header ==>
            && headerHave == 0 && |part| >= FRAME_HEADER_LEN && current == DecodeHeader(part)
            && remaining > 0 && |part| + remaining == FRAME_HEADER_LEN + current.length
            && IsControl(current.kind) == (state != Streaming))
      && (state == Buffering ==>
            controlLen < CONTROL_FRAME_MAX && control[..controlLen] == part[FRAME_HEADER_LEN..])
      && (state == Draining ==>
            controlLen == CONTROL_FRAME_MAX && control[..] <= part[FRAME_HEADER_LEN..])
    }

    constructor ()
      ensures Valid() && fresh(headerBuf) && fresh(control)
      ensures part == [] && pendingWindow == 0
    {
      state := Header;
      headerBuf := new byte[FRAME_HEADER_LEN];
      headerHave := 0;
      current := FrameHeader(0, 0, 0, 0);
      remaining := 0;
      control := new byte[CONTROL_FRAME_MAX];
      controlLen := 0;
      pendingWindow := 0;
      part := [];
    }

    /** Between frames the bytes held are never a complete frame. */
    lemma PartIsUnfinished()
      requires Valid()
      ensures !Whole(H2, part)
    {
    }

    method TakePendingWindow() returns (owed: nat)
      requires Valid()
      modifies `pendingWindow
      ensures Valid() && owed == old(pendingWindow) && pendingWindow == 0
    {
      owed := pendingWindow;
      pendingWindow := 0;
    }

    /** State `Header`: fills the nine header bytes. */
    method FeedHeader(input: bytes) returns (used: nat, item: Option<Item>)
      requires Valid() && state == Header
      modifies this, headerBuf
      ensures Valid() && pendingWindow == old(pendingWindow) && Credit(item) == 0
      ensures used <= |input| && (input != [] ==> used > 0)
      ensures item.None? ==> part == old(part) + input[..used]
      ensures item.None? ==> if state == Header then used == |input| else used > 0 && |part| == FRAME_HEADER_LEN
      ensures item.None? ==> StreamedPart(part) == StreamedPart(old(part))
      ensures item.Some? ==> Emitted(old(part), old(part) + input[..used], item.value, part)
    {
      var need := FRAME_HEADER_LEN - headerHave;
      var take := Min(need, |input|);
      forall i | 0 <= i < take { headerBuf[headerHave + i] := input[i]; }
      headerHave := headerHave + take;
      part := part + input[..take];
      assert part == headerBuf[..headerHave];
      if headerHave < FRAME_HEADER_LEN {
        return take, None;
      }
      item := StartFrame();
      return take, item;
    }

    /** Parses a full header buffer; an empty frame is complete at once. */
    method StartFrame() returns (item: Option<Item>)
      requires headerBuf.Length == FRAME_HEADER_LEN && control.Length == CONTROL_FRAME_MAX
      requires state == Header && headerHave == FRAME_HEADER_LEN && part == headerBuf[..]
      requires headerBuf != control && pendingWindow < U32
      modifies this
      ensures Valid() && pendingWindow == old(pendingWindow) && Credit(item) == 0
      ensures if item.None? then state != Header && part == old(part)
              else state == Header && Emitted([], old(part), item.value, part)
    {
      headerHave := 0;
      current := FrameHeader(
        U32Be(0, headerBuf[0], headerBuf[1], headerBuf[2]), headerBuf[3], headerBuf[4],
        U32Be(headerBuf[5], headerBuf[6], headerBuf[7], headerBuf[8]) % 0x8000_0000);
      remaining := current.length;
      controlLen := 0;
      item := None;
      if current.length == 0 {
        item := Some(if IsControl(current.kind) then Control(current, control[..controlLen])
                     else Body(current, [], true));
        part := [];
        return;
      }
      state := if IsControl(current.kind) then Buffering else Streaming;
    }

    /** State `Buffering`: captures a control frame, up to the buffer's size. */
    method FeedBuffering(input: bytes) returns (used: nat, item: Option<Item>)
      requires Valid() && state == Buffering && input != []
      modifies this, control
      ensures Valid() && pendingWindow == old(pendingWindow) && Credit(item) == 0
      ensures 0 < used <= |input|
      ensures item.None? ==> part == old(part) + input[..used]
      ensures item.None? ==> if state == Buffering then used == |input| else state == Draining
      ensures item.Some? ==> item.value.Control?
      ensures item.None? ==> StreamedPart(part) == StreamedPart(old(part))
      ensures item.Some? ==> Emitted(old(part), old(part) + input[..used], item.value, part)
    {
      hide Emitted, DecodeHeader, StreamedPart;
      var space := CONTROL_FRAME_MAX - controlLen;
      var take := Min(Min(remaining, |input|), space);
      ghost var before, body := control[..controlLen], part[FRAME_HEADER_LEN..];
      forall i | 0 <= i < take { control[controlLen + i] := input[i]; }
      HeaderIsStable(part, input[..take]);
      NothingStreamed(part);
      controlLen := controlLen + take;
      remaining := remaining - take;
      part := part + input[..take];
      NothingStreamed(part);
      assert control[..controlLen] == before + input[..take];
      assert part[FRAME_HEADER_LEN..] == body + input[..take];
      used := take;
      if remaining == 0 {
        WholeIsEmitted(old(part), part);
        state := Header;
        item := Some(Control(current, control[..controlLen]));
        part := [];
        return;
      }
      if controlLen == CONTROL_FRAME_MAX {
        state := Draining;
      }
      item := None;
    }

    /** State `Draining`: discards what a control frame has beyond the buffer. */
    method FeedDraining(input: bytes) returns (used: nat, item: Option<Item>)
      requires Valid() && state == Draining
      modifies this
      ensures Valid() && pendingWindow == old(pendingWindow) && Credit(item) == 0
      ensures used <= |input| && (input != [] ==> used > 0)
      ensures item.None? ==> state == Draining && used == |input| && part == old(part) + input
      ensures item.Some? ==> item.value.Control?
      ensures item.None? ==> StreamedPart(part) == StreamedPart(old(part))
      ensures item.Some? ==> Emitted(old(part), old(part) + input[..used], item.value, part)
    {
      used := Min(remaining, |input|);
      HeaderIsStable(part, input[..used]);
      remaining := remaining - used;
      part := part + input[..used];
      if remaining > 0 {
        assert input[..used] == input;
        return used, None;
      }
      state := Header;
      item := Some(Control(current, control[..controlLen]));
      part := [];
    }

    /** State `Streaming`: passes body bytes straight through. */
    method FeedStreaming(input: bytes) returns (used: nat, item: Option<Item>)
      requires Valid() && state == Streaming && input != [] && pendingWindow + |input| < U32
      modifies this
      ensures Valid()
      ensures 0 < used <= |input| && item.Some? && item.value.Body?
      ensures Emitted(old(part), old(part) + input[..used], item.value, part)
      ensures pendingWindow == old(pendingWindow) + Credit(item) && Credit(item) <= used
    {
      used := Min(remaining, |input|);
      HeaderIsStable(part, input[..used]);
      remaining := remaining - used;
      part := part + input[..used];
      var end := remaining == 0;
      if end {
        state := Header;
        part := [];
      }
      if current.kind == DATA {
        pendingWindow := pendingWindow + used;
      }
      item := Some(Body(current, input[..used], end));
    }

    /** One turn of the reader's loop; `again` asks for another on what is left. */
    method Step(input: bytes) returns (used: nat, item: Option<Item>, again: bool)
      requires Valid() && pendingWindow + |input| < U32
      modifies this, headerBuf, control
      ensures Valid()
      ensures used <= |input| && (input != [] ==> used > 0)
      ensures item.None? ==> part == old(part) + input[..used] && StreamedPart(part) == StreamedPart(old(part))
      ensures item.None? ==> if again then used > 0 else used == |input|
      ensures item.Some? ==> !again && Emitted(old(part), old(part) + input[..used], item.value, part)
      ensures item.Some? && item.value.Body? ==> old(state) == Header || old(state) == Streaming
      ensures old(state) == Streaming ==> |old(part)| >= FRAME_HEADER_LEN && !again
      ensures old(state) != Header ==> state != Streaming || !again
      ensures again ==> state != Header && (state == Streaming ==> |part| == FRAME_HEADER_LEN > |old(part)|)
      ensures pendingWindow == old(pendingWindow) + Credit(item) && Credit(item) <= used
    {
      hide Emitted, Whole, Complete, Present;
      again := false;
      match state {
        case Header =>
          used, item := FeedHeader(input);
          again := item.None? && state != Header;
        case Buffering =>
          if input == [] {
            return 0, None, false;
          }
          used, item := FeedBuffering(input);
          again := item.None? && used < |input|;
        case Draining =>
          used, item := FeedDraining(input);
        case Streaming =>
          if input == [] {
            return 0, None, false;
          }
          used, item := FeedStreaming(input);
      }
    }

    /** Uses a prefix of `input`: some of it unless it is empty, and all of it if nothing is
        emitted. What is emitted, `Fed` says of the bytes held and used. */
    method Feed(input: bytes) returns (used: nat, item: Option<Item>)
      requires Valid() && pendingWindow + |input| < U32
      modifies this, headerBuf, control
      ensures Valid()
      ensures used <= |input| && (input != [] ==> used > 0) && (item.None? ==> used == |input|)
      ensures Fed(old(part), input[..used], item, part)
      ensures pendingWindow == old(pendingWindow) + Credit(item) && Credit(item) <= used
    {
      hide Fed, Emitted, Valid, Whole, StreamedPart, DecodeHeader, IsControl, Complete;
      var again := true;
      used, item := 0, None;
      while again
        invariant Valid() && used <= |input|
        invariant again ==> item.None? && part == old(part) + input[..used]
        invariant again ==> StreamedPart(part) == StreamedPart(old(part))
        invariant again && used > 0 ==> state != Header
        invariant again && used > 0 && state == Streaming ==> |part| == FRAME_HEADER_LEN > |old(part)|
        invariant !again ==> Fed(old(part), input[..used], item, part) && (input != [] ==> used > 0)
        invariant !again && item.None? ==> used == |input|
        invariant pendingWindow == old(pendingWindow) + Credit(item) && Credit(item) <= used
        decreases again, |input| - used
      {
        ghost var from := used;
        assert part == old(part) + input[..from];
        var n: nat;
        n, item, again := Step(input[used..]);
        TakeMore(input, from, n);
        used := used + n;
        if item.Some? {
          EmittedLater(old(part), input[..from], input[from..][..n], item.value, part);
        } else if !again {
          PartIsUnfinished();
          NothingEmitted(old(part), input[..used], part);
        }
      }
    }
  }

  /** Flow-control credit an item uses up. */
  function Credit(item: Option<Item>): nat {
    if item.Some? && item.value.Body? && item.value.header.kind == DATA then |item.value.chunk| else 0
  }

  /** What an item says about the bytes it was read from: `before` is what was held
      of the frame, `whole` the same with the bytes just used, `after` what is held
      afterwards. */
  ghost predicate Emitted(before: bytes, whole: bytes, item: Item, after: bytes) {
    && |whole| >= FRAME_HEADER_LEN && before <= whole
    && item.header == DecodeHeader(whole)
    && match item {
      case Control(h, payload) =>
        && after == [] && Complete(whole) && IsControl(h.kind)
        && payload == Present(whole).payload
      case Body(h, chunk, end) =>
        && !IsControl(h.kind)
        && chunk == whole[Max(|before|, FRAME_HEADER_LEN)..]
        && |whole| <= FRAME_HEADER_LEN + h.length && end == Complete(whole)
        && after == if end then [] else whole
    }
  }

  /** A control frame that is complete within the buffer is emitted whole. */
  lemma WholeIsEmitted(before: bytes, whole: bytes)
    requires |whole| >= FRAME_HEADER_LEN && before <= whole && IsControl(DecodeHeader(whole).kind)
    requires |whole| == FRAME_HEADER_LEN + DecodeHeader(whole).length <= FRAME_HEADER_LEN + CONTROL_FRAME_MAX
    ensures Emitted(before, whole, Control(DecodeHeader(whole), whole[FRAME_HEADER_LEN..]), [])
  {
  }

  /** A control frame has no body that is passed on in chunks. */
  lemma NothingStreamed(part: bytes)
    ensures |part| >= FRAME_HEADER_LEN && IsControl(DecodeHeader(part).kind) ==> StreamedPart(part) == []
  {
  }

  /** What one call of `Feed` does: `used` are the bytes it took. */
  ghost predicate Fed(before: bytes, used: bytes, item: Option<Item>, after: bytes) {
    match item
    case None =>
      && after == before + used && !Whole(H2, after)
      && StreamedPart(after) == StreamedPart(before)
    case Some(i) => Emitted(before, before + used, i, after)
  }

  lemma NothingEmitted(before: bytes, used: bytes, after: bytes)
    requires after == before + used && !Whole(H2, after) && StreamedPart(after) == StreamedPart(before)
    ensures Fed(before, used, None, after)
  {
  }

  /** An item seen from a point earlier in the same frame. */
  lemma EmittedLater(before: bytes, first: bytes, second: bytes, item: Item, after: bytes)
    requires Emitted(before + first, before + first + second, item, after)
    requires item.Body? ==> Max(|before + first|, FRAME_HEADER_LEN) == Max(|before|, FRAME_HEADER_LEN)
    ensures Fed(before, first + second, Some(item), after)
  {
    assert before + first + second == before + (first + second);
  }

  /** Frames put back together from items, with the chunks of the frame in progress. */
  datatype Collected = Collected(frames: seq<Frame>, streamed: bytes)

  function Collect(c: Collected, item: Option<Item>): Collected {
    match item
    case None => c
    case Some(Control(h, payload)) => Collected(c.frames + [Frame(h, payload)], [])
    case Some(Body(h, chunk, end)) =>
      if end then Collected(c.frames + [Frame(h, c.streamed + chunk)], [])
      else Collected(c.frames, c.streamed + chunk)
  }

  /** What a consumer has collected once all of `stream` has been read: its complete
      frames, and the part of the next one already streamed out. */
  function Reading(stream: bytes): Collected {
    var parsed := Cut(H2, stream);
    Collected(Map(Present, parsed.frames), StreamedPart(parsed.rest))
  }

  predicate Finishes(item: Option<Item>) {
    item.Some? && (item.value.Control? || item.value.end)
  }

  lemma FedAdvances(part: bytes, used: bytes, item: Option<Item>, after: bytes)
    requires Fed(part, used, item, after)
    ensures Advanced(H2, part, used, Finishes(item), after)
  {
  }

  /** Collecting an item adds the frame it completes, or the chunk it carries. */
  lemma FedCollects(part: bytes, used: bytes, item: Option<Item>, after: bytes, c: Collected)
    requires Fed(part, used, item, after) && c.streamed == StreamedPart(part)
    ensures Collect(c, item).streamed == StreamedPart(after)
    ensures Collect(c, item).frames == c.frames +
            if Finishes(item) then [Present(part + used)] else []
  {
    var whole := part + used;
    if item.Some? && item.value.Body? {
      var h, chunk := DecodeHeader(whole), item.value.chunk;
      if |part| >= FRAME_HEADER_LEN {
        HeaderIsStable(part, used);
        assert c.streamed + chunk == whole[FRAME_HEADER_LEN..];
      } else {
        assert c.streamed + chunk == chunk == whole[FRAME_HEADER_LEN..];
      }
    }
  }

  /** Every item keeps the collection equal to the one-shot parse of all bytes used
      so far. */
  lemma FedKeepsReading(stream: bytes, used: bytes, item: Option<Item>, after: bytes)
    requires Fed(Cut(H2, stream).rest, used, item, after)
    ensures Reading(stream + used) == Collect(Reading(stream), item)
    ensures Cut(H2, stream + used).rest == after
  {
    hide Fed, Collect, Cut, Present, StreamedPart, Advanced;
    var part := Cut(H2, stream).rest;
    FedAdvances(part, used, item, after);
    FedCollects(part, used, item, after, Reading(stream));
    AdvancedFollowsCut(H2, stream, used, Finishes(item), after);
    MapConcat(Present, Cut(H2, stream).frames, [part + used]);
  }

  lemma NothingRead()
    ensures H2.head > 0 && Cut(H2, []).rest == [] && Reading([]) == Collected([], [])
  {
  }

  /** Runs the reader over a stream that arrives in arbitrary pieces, the way both
      transports drive it. The result depends on the stream alone: it is the
      one-shot parse, however the stream was cut up. */
  method ReadAll(reader: FrameReader, pieces: seq<bytes>) returns (c: Collected)
    requires reader.Valid() && reader.part == []
    requires forall i :: 0 <= i < |pieces| ==> |pieces[i]| < U32
    modifies reader, reader.headerBuf, reader.control
    ensures reader.Valid() && reader.part == Cut(H2, Flatten(pieces)).rest
    ensures c == Reading(Flatten(pieces))
  {
    hide *;
    c := Collected([], []);
    ghost var seen := [];
    NothingRead();
    NothingFlat();
    assert pieces[..0] == [];
    for i := 0 to |pieces|
      invariant reader.Valid() && reader.part == Cut(H2, seen).rest
      invariant c == Reading(seen) && seen == Flatten(pieces[..i])
    {
      var owed := reader.TakePendingWindow();
      c := ReadPiece(reader, pieces[i], seen, c);
      seen := seen + pieces[i];
      FlattenSnoc(pieces[..i], pieces[i]);
      assert pieces[..i + 1] == pieces[..i] + [pieces[i]];
    }
    assert pieces[..|pieces|] == pieces;
  }

  /** Feeds one piece until all of it is used. */
  method ReadPiece(reader: FrameReader, piece: bytes, ghost seen: bytes, c0: Collected) returns (c: Collected)
    requires reader.Valid() && reader.pendingWindow + |piece| < U32
    requires reader.part == Cut(H2, seen).rest && c0 == Reading(seen)
    modifies reader, reader.headerBuf, reader.control
    ensures reader.Valid() && reader.part == Cut(H2, seen + piece).rest
    ensures c == Reading(seen + piece)
  {
    hide *;
    NothingRead();
    c := c0;
    var offset := 0;
    ghost var read := seen;
    while offset < |piece|
      invariant offset <= |piece| && reader.Valid()
      invariant reader.pendingWindow + |piece| - offset < U32
      invariant reader.part == Cut(H2, read).rest && c == Reading(read)
      invariant read == seen + piece[..offset]
    {
      var used, item := reader.Feed(piece[offset..]);
      FedKeepsReading(read, piece[offset..][..used], item, reader.part);
      TakeMore(piece, offset, used);
      read := read + piece[offset..][..used];
      c := Collect(c, item);
      offset := offset + used;
    }
    assert piece[..offset] == piece;
  }
}
