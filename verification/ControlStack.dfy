/** The layers of the control connection together: netmap documents inside HTTP/2 DATA
    frames inside encrypted records inside a TCP stream. */
module ControlStack {
  import opened Bytes
  import opened Framing
  import opened Noise
  import opened RecordStage
  import opened H2Frames
  import opened H2Writer
  import opened H2Body
  import H2Conn
  import Netmap

  /** A frame a peer sends. */
  datatype SentFrame = SentFrame(kind: byte, flags: byte, streamId: nat, payload: bytes)
  {
    predicate Legal() {
      streamId < 0x8000_0000 && |payload| < 0x100_0000
    }
  }

  function TextOf(f: SentFrame): bytes {
    FrameText(f.kind, f.flags, f.streamId, f.payload)
  }

  /** The part of a sent frame that is DATA of the given stream. */
  function PayloadOn(streamId: nat): SentFrame -> bytes {
    (f: SentFrame) => if f.kind == DATA && f.streamId == streamId then f.payload else []
  }

  ghost predicate AllLegal(frames: seq<SentFrame>) {
    forall i :: 0 <= i < |frames| ==> frames[i].Legal()
  }

  lemma SentFrameReads(f: SentFrame, streamId: nat)
    requires f.Legal()
    ensures Exact(H2, TextOf(f)) && |TextOf(f)| == FRAME_HEADER_LEN + |f.payload|
    ensures DecodeHeader(TextOf(f)) == FrameHeader(|f.payload|, f.kind, f.flags, f.streamId)
    ensures TextOf(f)[FRAME_HEADER_LEN..] == f.payload
    ensures PickedFrame(H2Conn.OnStream(streamId))(Present(TextOf(f))) == PayloadOn(streamId)(f)
  {
    hide HeaderText, DecodeHeader, Exact;
    FrameTextReads(f.kind, f.flags, f.streamId, f.payload);
    HeaderTextDecodes(|f.payload|, f.kind, f.flags, f.streamId, f.payload);
    FrameTextLength(f.kind, f.flags, f.streamId, f.payload);
  }

  function ReadOf(f: SentFrame): Frame {
    FrameRead(f.kind, f.flags, f.streamId, f.payload)
  }

  /** The reader undoes the writer: a stream of written frames, cut into any pieces, is
      read as exactly those frames. */
  lemma SentFramesAreRead(frames: seq<SentFrame>)
    requires AllLegal(frames)
    ensures Reading(Flatten(Map(TextOf, frames))) == Collected(Map(ReadOf, frames), [])
  {
    hide Exact, FrameText, Flatten, Cut, FrameRead;
    var texts := Map(TextOf, frames);
    forall i | 0 <= i < |texts| ensures Exact(H2, texts[i]) && Present(texts[i]) == ReadOf(frames[i]) {
      var f := frames[i];
      FrameTextReads(f.kind, f.flags, f.streamId, f.payload);
    }
    NothingIsNoFrame();
    CutInvertsWriter(H2, texts, []);
    assert Flatten(texts) + [] == Flatten(texts);
    assert Map(Present, texts) == Map(ReadOf, frames);
  }

  lemma NothingIsNoFrame()
    ensures !Whole(H2, []) && StreamedPart([]) == []
  {
  }

  /** An unfinished frame has delivered a first part of its own DATA. */
  lemma PartIsPrefix(f: SentFrame, streamId: nat, part: bytes)
    requires f.Legal() && part <= TextOf(f)
    ensures PickedPart(H2Conn.OnStream(streamId), part) <= PayloadOn(streamId)(f)
  {
    hide FrameText;
    SentFrameReads(f, streamId);
    if |part| >= FRAME_HEADER_LEN {
      HeaderIsStable(part, TextOf(f)[|part|..]);
      assert part + TextOf(f)[|part|..] == TextOf(f);
      assert part[FRAME_HEADER_LEN..] <= TextOf(f)[FRAME_HEADER_LEN..];
    }
  }

  /** However much of the HTTP/2 stream has been read, the DATA of one stream that it
      gave is a first part of the DATA sent on it, and all of it at the end. */
  lemma DataIsPrefixOfSent(frames: seq<SentFrame>, streamId: nat, seen: bytes, unseen: bytes)
    requires AllLegal(frames) && seen + unseen == Flatten(Map(TextOf, frames))
    ensures DataIn(H2Conn.OnStream(streamId), seen) <= Flatten(Map(PayloadOn(streamId), frames))
    ensures unseen == [] ==> DataIn(H2Conn.OnStream(streamId), seen) == Flatten(Map(PayloadOn(streamId), frames))
  {
    hide Present, Exact, TextOf, PickedPart, Flatten, Cut, PayloadOn, PickedFrame;
    var texts := Map(TextOf, frames);
    forall i | 0 <= i < |texts| ensures Exact(H2, texts[i]) {
      SentFrameReads(frames[i], streamId);
    }
    CutOfPrefix(H2, texts, seen, unseen);
    var found, rest := Cut(H2, seen).frames, Cut(H2, seen).rest;
    var k := |found|;
    FoundFramesGive(frames, k, streamId, found);
    FlattenConcat(Map(PayloadOn(streamId), frames[..k]), Map(PayloadOn(streamId), frames[k..]));
    MapSplit(PayloadOn(streamId), frames, k);
    assert Map(TextOf, frames[k..]) == texts[k..];
    RestGives(frames[k..], streamId, rest, unseen, seen);
  }

  lemma MapSplit<A, B>(f: A -> B, s: seq<A>, k: nat)
    requires k <= |s|
    ensures Map(f, s) == Map(f, s[..k]) + Map(f, s[k..])
  {
  }

  lemma FoundFramesGive(frames: seq<SentFrame>, k: nat, streamId: nat, found: seq<bytes>)
    requires AllLegal(frames) && k <= |frames| && found == Map(TextOf, frames)[..k]
    ensures Map(PickedFrame(H2Conn.OnStream(streamId)), Map(Present, found)) == Map(PayloadOn(streamId), frames[..k])
  {
    hide Present, TextOf, PayloadOn, PickedFrame;
    forall i | 0 <= i < k
      ensures PickedFrame(H2Conn.OnStream(streamId))(Map(Present, found)[i]) == PayloadOn(streamId)(frames[i])
    {
      SentFrameReads(frames[i], streamId);
    }
  }

  /** What the unfinished frame gave, when `frames` are the ones not found complete. */
  lemma RestGives(frames: seq<SentFrame>, streamId: nat, rest: bytes, unseen: bytes, seen: bytes)
    requires AllLegal(frames) && rest == Cut(H2, seen).rest
    requires rest + unseen == Flatten(Map(TextOf, frames))
    ensures PickedPart(H2Conn.OnStream(streamId), rest) <= Flatten(Map(PayloadOn(streamId), frames))
    ensures unseen == [] ==> frames == [] && rest == []
  {
    hide Present, TextOf, PickedPart, Cut, PayloadOn, Exact, Whole;
    CutCovers(H2, seen);
    if frames == [] {
      NoPart(streamId);
      assert Map(TextOf, frames) == [] && Map(PayloadOn(streamId), frames) == [];
      NothingFlat();
      assert |rest| + |unseen| == 0;
    } else {
      var first := TextOf(frames[0]);
      SentFrameReads(frames[0], streamId);
      MapSplit(TextOf, frames, 1);
      MapSplit(PayloadOn(streamId), frames, 1);
      assert Map(TextOf, frames[..1]) == [first];
      assert Map(PayloadOn(streamId), frames[..1]) == [PayloadOn(streamId)(frames[0])];
      FlattenCons(first, Map(TextOf, frames[1..]));
      FlattenCons(PayloadOn(streamId)(frames[0]), Map(PayloadOn(streamId), frames[1..]));
      if |rest| >= |first| {
        StartsWhole(first, rest, unseen, Flatten(Map(TextOf, frames[1..])));
        assert false;
      }
      assert rest == (rest + unseen)[..|rest|] == first[..|rest|];
      PartIsPrefix(frames[0], streamId, rest);
    }
  }

  lemma NoPart(streamId: nat)
    ensures PickedPart(H2Conn.OnStream(streamId), []) == []
  {
  }

  lemma StartsWhole(frame: bytes, s: bytes, more: bytes, tail: bytes)
    requires Exact(H2, frame) && |s| >= |frame| && s + more == frame + tail
    ensures Whole(H2, s)
  {
  }

  /** Netmap documents survive the nesting: whatever has arrived of the DATA they were
      sent in, the documents read are the first ones sent, and all of them at the end. */
  lemma DocumentsArePrefixOfSent(documents: seq<bytes>, data: bytes, later: bytes)
    requires forall i :: 0 <= i < |documents| ==> |documents[i]| < U32
    requires data + later == Flatten(Map(Netmap.DocumentText, documents))
    ensures Netmap.Reading(data).documents <= documents
    ensures later == [] ==> Netmap.Reading(data) == Netmap.Collected(documents, [])
  {
    hide Netmap.DocumentText, Exact, Flatten, Netmap.BodyOf;
    var texts := Map(Netmap.DocumentText, documents);
    forall i | 0 <= i < |texts|
      ensures Exact(Netmap.NETMAP, texts[i]) && Netmap.BodyOf(texts[i]) == documents[i]
    {
      Netmap.DocumentReads(documents[i]);
    }
    CutOfPrefix(Netmap.NETMAP, texts, data, later);
    var k := |Cut(Netmap.NETMAP, data).frames|;
    assert Netmap.Reading(data).documents == documents[..k];
    if later == [] {
      Netmap.NothingRead();
      CutInvertsWriter(Netmap.NETMAP, texts, []);
      assert data == Flatten(texts) + [];
      NoBody();
    }
  }

  lemma NoBody()
    ensures Netmap.BodyOf([]) == []
  {
  }

  // ---------------------------------------------------------------- sent frames by number

  /** What flow control counts: the payloads of all frames of kind 0. */
  function BodyBytes(frames: seq<SentFrame>): nat {
    if frames == [] then 0
    else (if frames[0].kind == 0 then |frames[0].payload| else 0) + BodyBytes(frames[1..])
  }

  function AnyBody(f: SentFrame): bytes {
    Picked(EVERY_STREAM, ReadOf(f).header, ReadOf(f).payload)
  }

  /** Of any frames sent, the credit to be returned is the number of payload bytes in frames
      of kind 0, on whatever stream. */
  lemma SentBytesAreCounted(frames: seq<SentFrame>)
    requires AllLegal(frames)
    ensures DataCount(Flatten(Map(TextOf, frames))) == BodyBytes(frames)
  {
    hide Cut, Reading, FrameRead, FrameText, Picked, BodyBytes;
    var text := Flatten(Map(TextOf, frames));
    SentFramesAreRead(frames);
    assert Map(PickedFrame(EVERY_STREAM), Map(ReadOf, frames)) == Map(AnyBody, frames);
    NothingLeft(text, Map(ReadOf, frames));
    assert Flatten(Map(AnyBody, frames)) + PickedPart(EVERY_STREAM, Cut(H2, text).rest) == DataIn(EVERY_STREAM, text);
    BodiesAreCounted(frames);
  }

  /** A stream of whole frames and no part of another delivers nothing more. */
  lemma NothingLeft(text: bytes, frames: seq<Frame>)
    requires Reading(text) == Collected(frames, [])
    ensures Reading(text).frames == frames && PickedPart(EVERY_STREAM, Cut(H2, text).rest) == []
  {
    hide Cut;
    assert StreamedPart(Cut(H2, text).rest) == [];
  }

  lemma {:induction false} BodiesAreCounted(frames: seq<SentFrame>)
    ensures |Flatten(Map(AnyBody, frames))| == BodyBytes(frames)
  {
    if frames != [] {
      BodiesAreCounted(frames[1..]);
      assert Map(AnyBody, frames) == [AnyBody(frames[0])] + Map(AnyBody, frames[1..]);
      FlattenCons(AnyBody(frames[0]), Map(AnyBody, frames[1..]));
    }
  }

  /** The end of a stream among the frames read, by number: a frame of any other kind than
      3, 4, 6, 7 and 8 with the lowest flag set, sent on that stream. */
  lemma EndIsSeen(frames: seq<SentFrame>, streamId: nat)
    requires AllLegal(frames)
    ensures H2Conn.EndsAmong(Reading(Flatten(Map(TextOf, frames))).frames, streamId)
       <==> exists i :: 0 <= i < |frames| && frames[i].kind !in {3, 4, 6, 7, 8}
                        && frames[i].flags % 2 == 1 && frames[i].streamId == streamId
  {
    hide Cut, Reading, FrameText;
    SentFramesAreRead(frames);
    var read := Map(ReadOf, frames);
    if H2Conn.EndsAmong(read, streamId) {
      var f :| f in read && H2Conn.Ends(f, streamId);
      var i :| 0 <= i < |read| && read[i] == f;
      assert frames[i].flags % 2 == 1;
    }
    forall i | 0 <= i < |frames| && frames[i].kind !in {3, 4, 6, 7, 8}
      && frames[i].flags % 2 == 1 && frames[i].streamId == streamId
      ensures H2Conn.EndsAmong(read, streamId)
    {
      assert read[i] in read && H2Conn.Ends(read[i], streamId);
    }
  }

  // ---------------------------------------------------------------- padding

  const PADDED: byte := 0x8

  predicate IsPadded(f: SentFrame) {
    f.kind == DATA && f.flags / PADDED % 2 == 1
  }

  /** Section 6.1 of RFC 9113: the first byte of a padded frame counts the padding at its end,
      and neither is data. */
  function DataOf(f: SentFrame): bytes {
    if IsPadded(f) && WellPadded(f) then f.payload[1..|f.payload| - f.payload[0]] else f.payload
  }

  predicate WellPadded(f: SentFrame) {
    IsPadded(f) ==> f.payload != [] && f.payload[0] < |f.payload|
  }

  /** The data that a sent frame carries on the given stream. */
  function DataOn(streamId: nat): SentFrame -> bytes {
    (f: SentFrame) => if f.kind == DATA && f.streamId == streamId then DataOf(f) else []
  }

  ghost predicate PaddedOn(streamId: nat, frames: seq<SentFrame>) {
    exists i :: 0 <= i < |frames| && frames[i].streamId == streamId && IsPadded(frames[i])
  }

  /** The reader hands on payloads. They add up to the data sent exactly when no frame of the
      stream is padded; with one that is, there are bytes too many. */
  lemma {:induction false} PayloadIsData(streamId: nat, frames: seq<SentFrame>)
    requires forall i :: 0 <= i < |frames| ==> WellPadded(frames[i])
    ensures var handed, data := Flatten(Map(PayloadOn(streamId), frames)), Flatten(Map(DataOn(streamId), frames));
            && (handed == data <==> !PaddedOn(streamId, frames))
            && (PaddedOn(streamId, frames) ==> |handed| > |data|)
  {
    if frames != [] {
      PayloadIsData(streamId, frames[1..]);
      OneFrame(streamId, frames[0]);
      MapSplit(PayloadOn(streamId), frames, 1);
      MapSplit(DataOn(streamId), frames, 1);
      FlattenCons(PayloadOn(streamId)(frames[0]), Map(PayloadOn(streamId), frames[1..]));
      FlattenCons(DataOn(streamId)(frames[0]), Map(DataOn(streamId), frames[1..]));
      forall i | 0 < i < |frames| ensures frames[1..][i - 1] == frames[i] {
      }
    }
  }

  lemma OneFrame(streamId: nat, f: SentFrame)
    requires WellPadded(f)
    ensures var handed, data := PayloadOn(streamId)(f), DataOn(streamId)(f);
            if f.streamId == streamId && IsPadded(f) then |handed| > |data| else handed == data
    ensures Map(PayloadOn(streamId), [f]) == [PayloadOn(streamId)(f)] && Map(DataOn(streamId), [f]) == [DataOn(streamId)(f)]
  {
  }

  /** The failing case: of a frame with one byte of data and one of padding, three bytes are
      handed on. */
  lemma PaddingIsHandedOn()
    ensures var f := SentFrame(DATA, PADDED, 1, [1, 7, 0]);
            && f.Legal() && DataOf(f) == [7]
            && PickedFrame(H2Conn.OnStream(1))(Present(TextOf(f))) == [1, 7, 0]
  {
    hide TextOf, Present, PickedFrame, Exact, DecodeHeader;
    SentFrameReads(SentFrame(DATA, PADDED, 1, [1, 7, 0]), 1);
  }

  // ---------------------------------------------------------------- all layers

  /** The whole stack. The peer put documents into DATA frames of one stream, cut and
      interleaved as it liked, the frames into records, and the records on the wire;
      any part of the wire has been received and any part of that consumed. The
      documents the consumer has are the first ones sent, unchanged and in order. */
  lemma NetmapSurvivesNesting(stage: Stage, start: nat, streamId: nat, documents: seq<bytes>,
                              frames: seq<SentFrame>, chunks: seq<bytes>, later: bytes)
    requires stage.Valid() && |chunks| < U64 && AllLegal(frames)
    requires forall i :: 0 <= i < |documents| ==> |documents[i]| < U32
    requires forall i :: 0 <= i < |chunks| ==> |chunks[i]| <= MAX_PLAINTEXT_SIZE
    requires Flatten(Map(PayloadOn(streamId), frames)) == Flatten(Map(Netmap.DocumentText, documents))
    requires start <= |Flatten(chunks)| && Flatten(chunks)[start..] == Flatten(Map(TextOf, frames))
    requires stage.received + later == Flatten(Records(stage.session.aead, stage.session.rx, 0, chunks))
    requires start <= stage.taken <= |stage.plain|
    ensures var got := Netmap.Reading(DataIn(H2Conn.OnStream(streamId), stage.plain[start..stage.taken]));
            && got.documents <= documents
            && (stage.taken == |Flatten(chunks)| ==> got == Netmap.Collected(documents, []))
  {
    hide Netmap.Reading, DataIn, Flatten, Records, Map, Netmap.DocumentText, TextOf, PayloadOn, Stage.Draining;
    EndToEnd(stage, chunks, later);
    stage.UnreadIsPlain();
    var all, seen := Flatten(chunks), stage.plain[start..stage.taken];
    var unseen := all[stage.taken..];
    assert stage.plain[..stage.taken] == all[..stage.taken];
    assert seen == all[start..stage.taken];
    assert seen + unseen == all[start..];
    DataIsPrefixOfSent(frames, streamId, seen, unseen);
    var data := DataIn(H2Conn.OnStream(streamId), seen);
    var sentData := Flatten(Map(PayloadOn(streamId), frames));
    assert data + sentData[|data|..] == sentData;
    DocumentsArePrefixOfSent(documents, data, sentData[|data|..]);
  }

  /** What the caller was handed is the DATA of its stream, if none came before. */
  lemma HandedIsData(streamId: nat, stream: bytes, grown: bytes, pieces: seq<bytes>, news: seq<Frame>)
    requires H2Conn.Collects(streamId, stream, grown, pieces, news)
    requires DataIn(H2Conn.OnStream(streamId), stream) == []
    ensures DataIn(H2Conn.OnStream(streamId), grown) == Flatten(pieces)
  {
    hide DataIn, Reading, Flatten;
  }

  /** The wire carries documents, in DATA frames of one stream, in records. */
  ghost predicate Carries(streamId: nat, start: nat, documents: seq<bytes>, frames: seq<SentFrame>, chunks: seq<bytes>) {
    && |chunks| < U64 && AllLegal(frames)
    && (forall i :: 0 <= i < |documents| ==> |documents[i]| < U32)
    && (forall i :: 0 <= i < |chunks| ==> |chunks[i]| <= MAX_PLAINTEXT_SIZE)
    && Flatten(Map(PayloadOn(streamId), frames)) == Flatten(Map(Netmap.DocumentText, documents))
    && start <= |Flatten(chunks)| && Flatten(chunks)[start..] == Flatten(Map(TextOf, frames))
  }

  /** A peer that sends legal records is not to blame for a failure. */
  lemma NotThePeer(conn: H2Conn.Conn, socket: Socket, r: Result<(), H2Conn.ConnError>, early: bool, news: seq<Frame>,
                   chunks: seq<bytes>, later: bytes)
    requires r.Err? ==> (r.error == H2Conn.FrameError && conn.stage.Valid()) || conn.Failed(r.error, early, news)
    requires conn.stage.session.aead.Correct() && |chunks| < U64
    requires forall i :: 0 <= i < |chunks| ==> |chunks[i]| <= MAX_PLAINTEXT_SIZE
    requires conn.stage.received + socket.incoming + later
          == Flatten(Records(conn.stage.session.aead, conn.stage.session.rx, 0, chunks))
    ensures r.Err? && r.error.Staging? ==> r.error.e == Io
    ensures r.Err? ==> conn.stage.Valid()
  {
    hide Stage.Draining, Broken, Flatten, Records, H2Conn.Closes;
    var stage := conn.stage;
    if r.Err? && r.error.Staging? && r.error.e != Io {
      assert stage.received + (socket.incoming + later) == stage.received + socket.incoming + later;
      HonestPeerIsNotBroken(stage.session.aead, stage.session.rx, chunks, stage.received, socket.incoming + later,
                            |stage.records|, r.error.e);
    }
  }

  /** The long poll, run: however it ends, the documents read from it are the first ones
      sent, and all of them once the wire is used up. The peer's records are never why it
      ends. */
  method StreamNetmap(conn: H2Conn.Conn, socket: Socket, reader: Netmap.MapFrames, authority: bytes, path: bytes,
                      body: bytes, ghost documents: seq<bytes>, ghost frames: seq<SentFrame>,
                      ghost chunks: seq<bytes>, ghost later: bytes)
    returns (r: Result<(), H2Conn.ConnError>, c: Netmap.Collected, ghost news: seq<Frame>)
    requires conn.Valid(socket) && conn.reader.pendingWindow == 0
    requires conn.nextStream + 2 < U32 && |body| < U64
    requires reader.Valid() && reader.part == []
    requires reader.lenBuf !in {conn.stage.pending, conn.stage.raw, conn.reader.headerBuf, conn.reader.control}
    requires DataIn(H2Conn.OnStream(conn.nextStream), conn.Stream()) == []
    requires Carries(conn.nextStream, conn.start, documents, frames, chunks)
    requires conn.stage.received + socket.incoming + later
          == Flatten(Records(conn.stage.session.aead, conn.stage.session.rx, 0, chunks))
    modifies conn, conn.stage, conn.stage.session, conn.stage.pending, conn.stage.raw,
             conn.reader, conn.reader.headerBuf, conn.reader.control, socket, reader, reader.lenBuf
    ensures c.documents <= documents
    ensures conn.stage.taken == |Flatten(chunks)| ==> c == Netmap.Collected(documents, [])
    ensures r.Ok? ==> H2Conn.EndsAmong(news, old(conn.nextStream))
    ensures r.Err? && r.error.Staging? ==> r.error.e == Io
    ensures r == Err(H2Conn.Closed) ==> H2Conn.Closes(news)
  {
    hide Stage.Draining, Flatten, Records, Map, TextOf, PayloadOn, DataIn, Netmap.Reading, Netmap.DocumentText,
         AllLegal, H2Conn.Conn.Following, H2Conn.Conn.Sending, H2Conn.Conn.Left, H2Conn.Collects, H2Conn.Closes,
         H2Conn.EndsAmong, Netmap.MapFrames.Valid, Broken, Cut, PostBlock, H2Conn.RequestRecords;
    ghost var streamId, start := conn.nextStream, conn.start;
    ghost var stream := conn.Stream();
    HasAead(conn.stage);
    var pieces;
    r, pieces, news := conn.PostStream(socket, authority, path, body);
    HandedIsData(streamId, stream, conn.Stream(), pieces, news);
    NotThePeer(conn, socket, r, !H2Conn.EndsAmong(news, streamId), news, chunks, later);
    NetmapSurvivesNesting(conn.stage, start, streamId, documents, frames, chunks, socket.incoming + later);
    c := Netmap.ReadAll(reader, pieces);
  }
}
