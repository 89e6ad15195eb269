/** The netmap stream: length-prefixed JSON documents that arrive inside a response
    body and are passed on in chunks. */
module Netmap {
  import opened Bytes
  import opened Framing

  const LEN_BYTES: nat := 4

  /** The prefix gives the body length with its least significant byte first. */
  function Announced(h: bytes): nat
    requires |h| >= LEN_BYTES
  {
    U32Be(h[3], h[2], h[1], h[0])
  }

  lemma AnnouncedIsLittleEndian(h: bytes)
    requires |h| >= 4
    ensures Announced(h) == FromLe(h[..4])
  {
    assert h[..4] == [h[0], h[1], h[2], h[3]];
    LittleEndianReads(h[3], h[2], h[1], h[0]);
  }

  const NETMAP: Format := Format(
    LEN_BYTES, (h: bytes) => if |h| < LEN_BYTES then 0 else Announced(h), _ => true)

  datatype MapFrame = MapFrame(totalLen: nat, chunk: bytes, end: bool)

  function BodyOf(raw: bytes): bytes {
    if |raw| < LEN_BYTES then [] else raw[LEN_BYTES..]
  }

  lemma MapFrameLen(s: bytes)
    requires |s| >= LEN_BYTES
    ensures FrameLen(NETMAP, s) == LEN_BYTES + Announced(s)
    ensures Whole(NETMAP, s) == (|s| >= LEN_BYTES + Announced(s))
    ensures Exact(NETMAP, s) == (|s| == LEN_BYTES + Announced(s))
  {
  }

  /** What one call of `Feed` does with the bytes `used`. */
  ghost predicate Fed(before: bytes, used: bytes, frame: Option<MapFrame>, after: bytes) {
    var whole := before + used;
    match frame
    case None =>
      after == whole && !Whole(NETMAP, whole) && BodyOf(whole) == BodyOf(before)
    case Some(MapFrame(total, chunk, end)) =>
      && |whole| >= LEN_BYTES && total == Announced(whole)
      && BodyOf(whole) == BodyOf(before) + chunk
      && |whole| <= LEN_BYTES + total && end == (|whole| == LEN_BYTES + total)
      && after == if end then [] else whole
  }

  class MapFrames {
    const lenBuf: array<byte>
    var lenHave: nat
    var remaining: nat
    var total: nat

    /** The bytes taken of the frame in progress. */
    ghost var part: bytes

    ghost predicate Valid()
      reads this, lenBuf
    {
      && lenBuf.Length == LEN_BYTES
      && (remaining == 0 ==> lenHave < LEN_BYTES && part == lenBuf[..lenHave])
      && (remaining > 0 ==>
            && lenHave == 0 && |part| >= LEN_BYTES
            && total == Announced(part) && |part| + remaining == LEN_BYTES + total)
    }

    constructor ()
      ensures Valid() && fresh(lenBuf) && part == []
    {
      lenBuf := new byte[LEN_BYTES];
      lenHave, remaining, total := 0, 0, 0;
      part := [];
    }

    /** Fills the length prefix. */
    method FeedLength(input: bytes) returns (used: nat, frame: Option<MapFrame>)
      requires Valid() && remaining == 0
      modifies this, lenBuf
      ensures Valid() && used <= |input| && (input != [] ==> used > 0)
      ensures frame.None? ==> part == old(part) + input[..used] && !Whole(NETMAP, part)
      ensures frame.None? ==> BodyOf(part) == BodyOf(old(part)) == []
      ensures frame.None? ==> if remaining == 0 then used == |input| else |part| == LEN_BYTES
      ensures frame.Some? || remaining == 0 ==> Fed(old(part), input[..used], frame, part)
    {
      var need := LEN_BYTES - lenHave;
      var take := Min(need, |input|);
      forall i | 0 <= i < take { lenBuf[lenHave + i] := input[i]; }
      lenHave := lenHave + take;
      part := part + input[..take];
      assert part == lenBuf[..lenHave];
      used, frame := take, None;
      if lenHave < LEN_BYTES {
        return;
      }
      MapFrameLen(part);
      lenHave := 0;
      total := U32Be(lenBuf[3], lenBuf[2], lenBuf[1], lenBuf[0]);
      remaining := total;
      if total == 0 {
        frame := Some(MapFrame(0, [], true));
        part := [];
      }
    }

    /** Passes on what there is of a body. */
    method FeedBody(input: bytes) returns (used: nat, frame: Option<MapFrame>)
      requires Valid() && remaining > 0
      modifies this
      ensures Valid() && used <= |input| && (input != [] ==> used > 0) && (frame.None? ==> input == [])
      ensures Fed(old(part), input[..used], frame, part)
    {
      MapFrameLen(part);
      if input == [] {
        assert part + [] == part;
        return 0, None;
      }
      used := Min(remaining, |input|);
      BodyGrows(part, input[..used]);
      remaining := remaining - used;
      part := if remaining == 0 then [] else part + input[..used];
      frame := Some(MapFrame(total, input[..used], remaining == 0));
    }

    /** Uses a prefix of the input, some of it unless it is empty, and emits what `Fed` says of
        the bytes held and used. */
    method Feed(input: bytes) returns (used: nat, frame: Option<MapFrame>)
      requires Valid()
      modifies this, lenBuf
      ensures Valid()
      ensures used <= |input| && (input != [] ==> used > 0) && (frame.None? ==> used == |input|)
      ensures Fed(old(part), input[..used], frame, part)
    {
      hide Valid, Announced, Whole, Min, Fed, BodyOf;
      used := 0;
      if remaining == 0 {
        used, frame := FeedLength(input);
        if frame.Some? || remaining == 0 {
          return;
        }
      }
      ghost var first := input[..used];
      assert part == old(part) + first && BodyOf(part) == BodyOf(old(part));
      var more;
      more, frame := FeedBody(input[used..]);
      TakeMore(input, used, more);
      FedLater(old(part), first, input[used..][..more], frame, part);
      used := used + more;
    }
  }

  /** A chunk seen from a point earlier in the same frame. */
  lemma FedLater(before: bytes, first: bytes, second: bytes, frame: Option<MapFrame>, after: bytes)
    requires Fed(before + first, second, frame, after) && BodyOf(before + first) == BodyOf(before)
    ensures Fed(before, first + second, frame, after)
  {
    hide BodyOf, Announced, Whole;
    assert before + first + second == before + (first + second);
  }

  lemma BodyGrows(part: bytes, more: bytes)
    requires |part| >= LEN_BYTES
    ensures BodyOf(part + more) == BodyOf(part) + more && Announced(part + more) == Announced(part)
  {
  }

  /** Documents put back together from chunks. */
  datatype Collected = Collected(documents: seq<bytes>, streamed: bytes)

  function Collect(c: Collected, frame: Option<MapFrame>): Collected {
    match frame
    case None => c
    case Some(MapFrame(_, chunk, end)) =>
      if end then Collected(c.documents + [c.streamed + chunk], [])
      else Collected(c.documents, c.streamed + chunk)
  }

  /** What a consumer holds once all of `stream` has been read. */
  function Reading(stream: bytes): Collected {
    var parsed := Cut(NETMAP, stream);
    Collected(Map(BodyOf, parsed.frames), BodyOf(parsed.rest))
  }

  lemma FedAdvances(part: bytes, used: bytes, frame: Option<MapFrame>, after: bytes)
    requires Fed(part, used, frame, after)
    ensures Advanced(NETMAP, part, used, frame.Some? && frame.value.end, after)
  {
  }

  /** Every chunk keeps the collection equal to the one-shot parse of all bytes used. */
  lemma FedKeepsReading(stream: bytes, used: bytes, frame: Option<MapFrame>, after: bytes)
    requires Fed(Cut(NETMAP, stream).rest, used, frame, after)
    ensures Reading(stream + used) == Collect(Reading(stream), frame)
    ensures Cut(NETMAP, stream + used).rest == after
  {
    hide Cut, Advanced;
    var part := Cut(NETMAP, stream).rest;
    FedAdvances(part, used, frame, after);
    AdvancedFollowsCut(NETMAP, stream, used, frame.Some? && frame.value.end, after);
    MapConcat(BodyOf, Cut(NETMAP, stream).frames, [part + used]);
  }

  lemma NothingRead()
    ensures NETMAP.head > 0 && Cut(NETMAP, []).rest == [] && Reading([]) == Collected([], [])
  {
  }

  /** The text of one netmap frame. */
  function DocumentText(document: bytes): bytes {
    Reverse(BeU32(|document|)) + document
  }

  /** The reader sees one frame for each document written, exactly when its length fits
      the 32-bit prefix. */
  lemma DocumentReads(document: bytes)
    ensures BodyOf(DocumentText(document)) == document
    ensures Exact(NETMAP, DocumentText(document)) <==> |document| < U32
  {
    var n := BeU32(|document|);
    ReverseOfFour(n);
    var t := DocumentText(document);
    assert t[0] == n[3] && t[1] == n[2] && t[2] == n[1] && t[3] == n[0];
    assert t[LEN_BYTES..] == document;
    MapFrameLen(t);
    if |document| < U32 {
      BeU32RoundTrip(|document|);
    }
  }

  lemma ReverseOfFour(s: bytes)
    requires |s| == 4
    ensures Reverse(s) == [s[3], s[2], s[1], s[0]]
  {
    assert s == [s[0], s[1], s[2], s[3]];
    assert Reverse(s[2..]) == [s[3], s[2]];
    assert s[1..][1..] == s[2..];
  }

  /** Feeds one DATA chunk until all of it is used. */
  method ReadChunk(reader: MapFrames, chunk: bytes, ghost seen: bytes, c0: Collected) returns (c: Collected)
    requires reader.Valid() && reader.part == Cut(NETMAP, seen).rest && c0 == Reading(seen)
    modifies reader, reader.lenBuf
    ensures reader.Valid() && reader.part == Cut(NETMAP, seen + chunk).rest
    ensures c == Reading(seen + chunk)
  {
    hide *;
    NothingRead();
    c := c0;
    var offset := 0;
    ghost var read := seen;
    while offset < |chunk|
      invariant offset <= |chunk| && reader.Valid()
      invariant reader.part == Cut(NETMAP, read).rest && c == Reading(read)
      invariant read == seen + chunk[..offset]
    {
      var used, frame := reader.Feed(chunk[offset..]);
      FedKeepsReading(read, chunk[offset..][..used], frame, reader.part);
      TakeMore(chunk, offset, used);
      read := read + chunk[offset..][..used];
      c := Collect(c, frame);
      offset := offset + used;
    }
    assert chunk[..offset] == chunk;
  }

  /** The documents found do not depend on how DATA chunks cut the length prefixes and
      bodies. */
  method ReadAll(reader: MapFrames, chunks: seq<bytes>) returns (c: Collected)
    requires reader.Valid() && reader.part == []
    modifies reader, reader.lenBuf
    ensures reader.Valid() && reader.part == Cut(NETMAP, Flatten(chunks)).rest
    ensures c == Reading(Flatten(chunks))
  {
    hide *;
    NothingRead();
    NothingFlat();
    c := Collected([], []);
    assert chunks[..0] == [];
    for i := 0 to |chunks|
      invariant reader.Valid() && reader.part == Cut(NETMAP, Flatten(chunks[..i])).rest
      invariant c == Reading(Flatten(chunks[..i]))
    {
      c := ReadChunk(reader, chunks[i], Flatten(chunks[..i]), c);
      FlattenSnoc(chunks[..i], chunks[i]);
      assert chunks[..i + 1] == chunks[..i] + [chunks[i]];
    }
    assert chunks[..|chunks|] == chunks;
  }
}
