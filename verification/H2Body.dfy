/** Message bodies inside HTTP/2: how a request body is split into DATA frames, and how
    the chunks of a response body add up. */
module H2Body {
  import opened Bytes
  import opened Framing
  import opened H2Frames
  import opened H2Writer
  import opened Noise

  // ------------------------------------------------------------ request bodies

  /** One DATA frame has to fit one record. */
  const BODY_CHUNK: nat := MAX_PLAINTEXT_SIZE - FRAME_HEADER_LEN

  /** The DATA frames the firmware sends for a body; none for an empty one. */
  function BodyFrames(streamId: nat, body: bytes): (frames: seq<bytes>)
    ensures |frames| == |Chunks(body, BODY_CHUNK)|
    ensures forall i :: 0 <= i < |frames| ==>
              frames[i] == DataText(streamId, Chunks(body, BODY_CHUNK)[i], (i + 1) * BODY_CHUNK >= |body|)
  {
    var parts := Chunks(body, BODY_CHUNK);
    seq(|parts|, i requires 0 <= i < |parts| => DataText(streamId, parts[i], (i + 1) * BODY_CHUNK >= |body|))
  }

  /** The host's version marks the last chunk by looking ahead, and closes the stream of
      an empty body with an empty frame. */
  function HostBodyFrames(streamId: nat, body: bytes): seq<bytes> {
    var parts := Chunks(body, BODY_CHUNK);
    if parts == [] then [DataText(streamId, [], true)]
    else seq(|parts|, i requires 0 <= i < |parts| => DataText(streamId, parts[i], i == |parts| - 1))
  }

  /** The host's loop: a chunk is the last one if looking ahead shows no other. */
  method HostBody(streamId: nat, body: bytes) returns (frames: seq<bytes>)
    ensures frames == HostBodyFrames(streamId, body)
  {
    hide DataText, Chunks;
    var frame := new byte[MAX_PLAINTEXT_SIZE];
    var left := Chunks(body, BODY_CHUNK);
    frames := [];
    if left == [] {
      var n := OneData(frame, streamId, [], true);
      return [frame[..n]];
    }
    ghost var parts, k := left, 0;
    while left != []
      invariant k <= |parts| && left == parts[k..]
      invariant frames == HostBodyFrames(streamId, body)[..k]
      decreases |left|
    {
      var chunk := left[0];
      left := left[1..];
      var n := OneData(frame, streamId, chunk, left == []);
      frames := frames + [frame[..n]];
      k := k + 1;
    }
  }

  method OneData(frame: array<byte>, streamId: nat, chunk: bytes, last: bool) returns (n: nat)
    requires frame.Length == MAX_PLAINTEXT_SIZE && |chunk| <= BODY_CHUNK
    modifies frame
    ensures n <= frame.Length && frame[..n] == DataText(streamId, chunk, last)
  {
    hide HeaderText;
    var w := new Writer(frame);
    var wrote := w.Data(streamId, chunk, last);
    assert w.Text() == DataText(streamId, chunk, last);
    n := w.pos;
  }

  lemma {:induction false} ChunksAreFull(s: bytes, n: nat, i: nat)
    requires n > 0 && i < |Chunks(s, n)|
    ensures (i + 1) * n >= |s| <==> i == |Chunks(s, n)| - 1
    decreases |s|
  {
    if |s| > n {
      var rest := Chunks(s[n..], n);
      assert |rest| > 0;
      if i == 0 {
        assert (0 + 1) * n == n;
      } else {
        ChunksAreFull(s[n..], n, i - 1);
        assert (i + 1) * n == (i - 1 + 1) * n + n;
      }
    } else {
      assert i == 0 && (0 + 1) * n == n;
    }
  }

  /** The two transports send the same frames, except that the firmware sends nothing,
      and so never ends the stream, for an empty body. */
  lemma FirmwareMatchesHost(streamId: nat, body: bytes)
    ensures body == [] ==> BodyFrames(streamId, body) == []
    ensures BodyFrames(streamId, body) == HostBodyFrames(streamId, body) <==> body != []
  {
    var parts := Chunks(body, BODY_CHUNK);
    forall i | 0 <= i < |parts|
      ensures BodyFrames(streamId, body)[i] == DataText(streamId, parts[i], i == |parts| - 1)
    {
      ChunksAreFull(body, BODY_CHUNK, i);
    }
  }

  /** What the peer reads of a request body: it adds up to the body, and only the last
      frame ends the stream. */
  lemma BodyFramesRead(streamId: nat, body: bytes)
    requires streamId < 0x8000_0000
    ensures var frames := BodyFrames(streamId, body);
            && AllExact(H2, frames)
            && (forall i :: 0 <= i < |frames| ==> |frames[i]| <= MAX_PLAINTEXT_SIZE)
            && Flatten(Map((raw: bytes) => Present(raw).payload, frames)) == body
            && (forall i :: 0 <= i < |frames| ==>
                  && Present(frames[i]).header.kind == DATA
                  && Present(frames[i]).header.streamId == streamId
                  && Present(frames[i]).header.EndStream() == (i == |frames| - 1))
  {
    hide Present, Exact, FrameText, Chunks;
    var frames, parts := BodyFrames(streamId, body), Chunks(body, BODY_CHUNK);
    forall i | 0 <= i < |frames|
      ensures Exact(H2, frames[i]) && |frames[i]| <= MAX_PLAINTEXT_SIZE
      ensures Present(frames[i]).payload == parts[i] && Present(frames[i]).header.kind == DATA
      ensures Present(frames[i]).header.streamId == streamId
      ensures Present(frames[i]).header.EndStream() == (i == |frames| - 1)
    {
      ChunksAreFull(body, BODY_CHUNK, i);
      var last := (i + 1) * BODY_CHUNK >= |body|;
      FrameTextReads(DATA, if last then END_STREAM else 0, streamId, parts[i]);
      FrameTextLength(DATA, if last then END_STREAM else 0, streamId, parts[i]);
    }
    assert Map((raw: bytes) => Present(raw).payload, frames) == parts;
  }

  lemma FrameTextLength(kind: byte, flags: byte, streamId: nat, payload: bytes)
    ensures |FrameText(kind, flags, streamId, payload)| == FRAME_HEADER_LEN + |payload|
  {
  }

  // ------------------------------------------------------------ response bodies

  /** The part of a frame that counts towards a selection of DATA frames. */
  function Picked(sel: FrameHeader -> bool, header: FrameHeader, body: bytes): bytes {
    if header.kind == DATA && sel(header) then body else []
  }

  function PickedFrame(sel: FrameHeader -> bool): Frame -> bytes {
    (f: Frame) => Picked(sel, f.header, f.payload)
  }

  function PickedPart(sel: FrameHeader -> bool, part: bytes): bytes {
    if |part| < FRAME_HEADER_LEN then [] else Picked(sel, DecodeHeader(part), StreamedPart(part))
  }

  /** All DATA bytes of the selected frames in a stream, the unfinished one included. */
  function DataIn(sel: FrameHeader -> bool, stream: bytes): bytes {
    Flatten(Map(PickedFrame(sel), Reading(stream).frames)) + PickedPart(sel, Cut(H2, stream).rest)
  }

  function PickedItem(sel: FrameHeader -> bool, item: Option<Item>): bytes {
    if item.Some? && item.value.Body? then Picked(sel, item.value.header, item.value.chunk) else []
  }

  /** Chunks of DATA, handed on as they come, add up to the DATA bytes of the stream. */
  lemma FedData(sel: FrameHeader -> bool, stream: bytes, used: bytes, item: Option<Item>, after: bytes)
    requires Fed(Cut(H2, stream).rest, used, item, after)
    ensures DataIn(sel, stream + used) == DataIn(sel, stream) + PickedItem(sel, item)
  {
    hide Fed, Reading, Cut, Collect, Picked, Map, Flatten, PickedPart, StreamedPart, Finished;
    var part, c := Cut(H2, stream).rest, Reading(stream);
    FedKeepsReading(stream, used, item, after);
    FedPart(sel, part, used, item, after);
    CollectAdds(c, item);
    StreamedIsPart(stream);
    Regroup(Flatten(Map(PickedFrame(sel), c.frames)), PickedPart(sel, part), PickedItem(sel, item));
    if Finishes(item) {
      PickOneMore(sel, c.frames, Finished(c, item.value));
      FinishedGives(sel, c, item.value);
    }
  }

  lemma Regroup(a: bytes, b: bytes, c: bytes)
    ensures a + (b + c) == a + b + c && a + (b + c) + [] == a + b + c && b + [] == b
    ensures c == [] ==> a + b + c == a + b
  {
  }

  lemma FinishedGives(sel: FrameHeader -> bool, c: Collected, item: Item)
    ensures var f := Finished(c, item);
            Picked(sel, f.header, f.payload)
              == Picked(sel, item.header, if item.Control? then item.payload else c.streamed + item.chunk)
  {
  }

  lemma PickOneMore(sel: FrameHeader -> bool, frames: seq<Frame>, frame: Frame)
    ensures Flatten(Map(PickedFrame(sel), frames + [frame]))
         == Flatten(Map(PickedFrame(sel), frames)) + Picked(sel, frame.header, frame.payload)
  {
    var pick := PickedFrame(sel);
    MapConcat(pick, frames, [frame]);
    FlattenSnoc(Map(pick, frames), pick(frame));
    assert Map(pick, [frame]) == [pick(frame)];
  }

  lemma StreamedIsPart(stream: bytes)
    ensures Reading(stream).streamed == StreamedPart(Cut(H2, stream).rest)
  {
  }

  /** The frame an item completes. */
  function Finished(c: Collected, item: Item): Frame {
    match item
    case Control(h, payload) => Frame(h, payload)
    case Body(h, chunk, _) => Frame(h, c.streamed + chunk)
  }

  lemma CollectAdds(c: Collected, item: Option<Item>)
    ensures !Finishes(item) ==> Collect(c, item).frames == c.frames
    ensures Finishes(item) ==> Collect(c, item).frames == c.frames + [Finished(c, item.value)]
  {
  }

  /** The same for the frame in progress alone. */
  lemma FedPart(sel: FrameHeader -> bool, part: bytes, used: bytes, item: Option<Item>, after: bytes)
    requires Fed(part, used, item, after)
    ensures item.None? ==> PickedPart(sel, after) == PickedPart(sel, part)
    ensures item.Some? && item.value.Control? ==>
              && PickedPart(sel, part) == PickedPart(sel, after) == []
              && Picked(sel, item.value.header, item.value.payload) == []
    ensures item.Some? && item.value.Body? ==>
              var whole := Picked(sel, item.value.header, StreamedPart(part) + item.value.chunk);
              && whole == PickedPart(sel, part) + Picked(sel, item.value.header, item.value.chunk)
              && PickedPart(sel, after) == if item.value.end then [] else whole
  {
    hide Complete, Present, Whole, U32Be, DecodeHeader;
    KindAt(part);
    KindAt(part + used);
    if |part| >= FRAME_HEADER_LEN {
      HeaderIsStable(part, used);
    }
  }

  lemma KindAt(s: bytes)
    ensures |s| >= FRAME_HEADER_LEN ==> DecodeHeader(s).kind == s[3]
  {
  }

  const EVERY_STREAM: FrameHeader -> bool := _ => true

  /** The DATA bytes of all streams, which is what flow control counts. */
  function DataCount(stream: bytes): nat {
    |DataIn(EVERY_STREAM, stream)|
  }

  lemma FedCredit(stream: bytes, used: bytes, item: Option<Item>, after: bytes)
    requires Fed(Cut(H2, stream).rest, used, item, after)
    ensures DataCount(stream + used) == DataCount(stream) + Credit(item)
  {
    hide DataIn, Fed, Cut;
    FedData(EVERY_STREAM, stream, used, item, after);
  }
}
