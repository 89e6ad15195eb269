/** The incremental reader of DERP relay frames. */
module DerpFrames {
  import opened Bytes
  import opened Framing

  const HEADER_LEN: nat := 5
  const MAX_FRAME_LEN: nat := 64 * 1024
  const CONTROL_FRAME_MAX: nat := 512

  datatype FrameType =
    | ServerKey | ClientInfo | ServerInfo | SendPacket | RecvPacket | KeepAlive | NotePreferred
    | PeerGone | PeerPresent | ForwardPacket | WatchConns | ClosePeer | Ping | Pong | Health
    | Restarting | Unknown
  {
    /** Frames whose payload is collected and delivered whole; the others come in chunks. */
    predicate IsControl() {
      !(SendPacket? || RecvPacket? || ForwardPacket? || Unknown?)
    }

    function Code(): byte {
      match this
      case ServerKey => 0x01 case ClientInfo => 0x02 case ServerInfo => 0x03
      case SendPacket => 0x04 case RecvPacket => 0x05 case KeepAlive => 0x06
      case NotePreferred => 0x07 case PeerGone => 0x08 case PeerPresent => 0x09
      case ForwardPacket => 0x0a case WatchConns => 0x10 case ClosePeer => 0x11
      case Ping => 0x12 case Pong => 0x13 case Health => 0x14 case Restarting => 0x15
      case Unknown => 0xff
    }
  }

  function FromCode(v: byte): FrameType {
    match v
    case 0x01 => ServerKey case 0x02 => ClientInfo case 0x03 => ServerInfo
    case 0x04 => SendPacket case 0x05 => RecvPacket case 0x06 => KeepAlive
    case 0x07 => NotePreferred case 0x08 => PeerGone case 0x09 => PeerPresent
    case 0x0a => ForwardPacket case 0x10 => WatchConns case 0x11 => ClosePeer
    case 0x12 => Ping case 0x13 => Pong case 0x14 => Health case 0x15 => Restarting
    case _ => Unknown
  }

  datatype DerpError = FrameTooLarge | ShortBuffer

  datatype Item =
    | Control(kind: FrameType, payload: bytes)
    | Body(kind: FrameType, totalLen: nat, chunk: bytes, end: bool)

  /** A complete frame as its consumer sees it. */
  datatype Frame = Frame(kind: FrameType, payload: bytes)

  function KindOf(h: bytes): FrameType
    requires |h| >= HEADER_LEN
  {
    FromCode(h[0])
  }

  function TotalOf(h: bytes): nat
    requires |h| >= HEADER_LEN
  {
    U32Be(h[1], h[2], h[3], h[4])
  }

  const DERP: Format := Format(
    HEADER_LEN,
    (h: bytes) => if |h| < HEADER_LEN then 0 else TotalOf(h),
    (h: bytes) => |h| >= HEADER_LEN && TotalOf(h) <= MAX_FRAME_LEN)

  lemma DerpFrameLen(s: bytes)
    requires |s| >= HEADER_LEN
    ensures Stuck(DERP, s) == (TotalOf(s) > MAX_FRAME_LEN)
    ensures Whole(DERP, s) == (TotalOf(s) <= MAX_FRAME_LEN && |s| >= HEADER_LEN + TotalOf(s))
    ensures Exact(DERP, s) == (TotalOf(s) <= MAX_FRAME_LEN && |s| == HEADER_LEN + TotalOf(s))
  {
  }

  lemma HeaderIsStable(h: bytes, more: bytes)
    requires |h| >= HEADER_LEN
    ensures KindOf(h + more) == KindOf(h) && TotalOf(h + more) == TotalOf(h)
  {
  }

  /** Body bytes of a streamed frame that have been passed on. */
  function StreamedPart(part: bytes): bytes {
    if |part| >= HEADER_LEN && !KindOf(part).IsControl() then part[HEADER_LEN..] else []
  }

  /** The consumer's view of a raw frame. */
  function Present(raw: bytes): Frame {
    if |raw| < HEADER_LEN then Frame(Unknown, []) // not a frame
    else
      var body := raw[HEADER_LEN..];
      Frame(KindOf(raw), if KindOf(raw).IsControl() then Truncate(body, CONTROL_FRAME_MAX) else body)
  }

  /** What an item says about the bytes it was read from. */
  ghost predicate Emitted(before: bytes, whole: bytes, item: Item, after: bytes) {
    && |whole| >= HEADER_LEN && item.kind == KindOf(whole) && TotalOf(whole) <= MAX_FRAME_LEN
    && match item {
      case Control(kind, payload) =>
        && |whole| == HEADER_LEN + TotalOf(whole) && payload == Present(whole).payload
        && StreamedPart(before) == []
        && after == []
      case Body(kind, total, chunk, end) =>
        && !kind.IsControl() && total == TotalOf(whole)
        && StreamedPart(whole) == StreamedPart(before) + chunk
        && |whole| <= HEADER_LEN + total && end == (|whole| == HEADER_LEN + total)
        && after == if end then [] else whole
    }
  }

  /** What one successful call of `Feed` does with the bytes `used`. */
  ghost predicate Fed(before: bytes, used: bytes, item: Option<Item>, after: bytes) {
    match item
    case None =>
      after == before + used && !Whole(DERP, after) && StreamedPart(after) == StreamedPart(before)
    case Some(i) => Emitted(before, before + used, i, after)
  }

  predicate Finishes(item: Option<Item>) {
    item.Some? && (item.value.Control? || item.value.end)
  }

  lemma FedAdvances(part: bytes, used: bytes, item: Option<Item>, after: bytes)
    requires Fed(part, used, item, after)
    ensures Advanced(DERP, part, used, Finishes(item), after)
  {
  }

  lemma NothingEmitted(before: bytes, used: bytes, after: bytes)
    requires after == before + used && !Whole(DERP, after) && StreamedPart(after) == StreamedPart(before)
    ensures Fed(before, used, None, after)
  {
  }

  lemma EmittedLater(before: bytes, first: bytes, second: bytes, item: Item, after: bytes)
    requires Emitted(before + first, before + first + second, item, after)
    requires StreamedPart(before + first) == StreamedPart(before)
    ensures Fed(before, first + second, Some(item), after)
  {
    assert before + first + second == before + (first + second);
  }

  datatype State = Header | Buffering | Streaming | Draining

  class FrameReader {
    var state: State
    const header: array<byte>
    var headerHave: nat
    var kind: FrameType
    var total: nat
    var remaining: nat
    const control: array<byte>
    var controlLen: nat

    /** The bytes taken of the frame in progress. */
    ghost var part: bytes

    ghost predicate Valid()
      reads this, header, control
    {
      && header.Length == HEADER_LEN && control.Length == CONTROL_FRAME_MAX && header != control
      && (state == Header ==> headerHave < HEADER_LEN && part == header[..headerHave])
      && (state != Header ==>
            && headerHave == 0 && |part| >= HEADER_LEN
            && kind == KindOf(part) && total == TotalOf(part) <= MAX_FRAME_LEN
            && remaining > 0 && |part| + remaining == HEADER_LEN + total
            && kind.IsControl() == (state != Streaming))
      && (state == Buffering ==>
            controlLen < CONTROL_FRAME_MAX && control[..controlLen] == part[HEADER_LEN..])
      && (state == Draining ==>
            controlLen == CONTROL_FRAME_MAX && control[..] <= part[HEADER_LEN..])
    }

    constructor ()
      ensures Valid() && part == [] && fresh(header) && fresh(control)
    {
      state := Header;
      header := new byte[HEADER_LEN];
      headerHave := 0;
      kind := Unknown;
      total, remaining := 0, 0;
      control := new byte[CONTROL_FRAME_MAX];
      controlLen := 0;
      part := [];
    }

    lemma PartIsUnfinished()
      requires Valid()
      ensures !Whole(DERP, part) && !Stuck(DERP, part)
    {
    }

    /** State `Header`: fills the five header bytes. */
    method FeedHeader(input: bytes) returns (used: nat, r: Result<Option<Item>, DerpError>)
      requires Valid() && state == Header
      modifies this, header
      ensures used <= |input| && (input != [] ==> used > 0)
      ensures r.Err? ==> Stuck(DERP, old(part) + input[..used])
      ensures r.Ok? ==> Valid()
      ensures r == Ok(None) ==> part == old(part) + input[..used] && StreamedPart(part) == StreamedPart(old(part))
      ensures r == Ok(None) ==> if state == Header then used == |input| else used > 0
      ensures r.Ok? && r.value.Some? ==> Emitted(old(part), old(part) + input[..used], r.value.value, part)
    {
      var need := HEADER_LEN - headerHave;
      var take := Min(need, |input|);
      forall i | 0 <= i < take { header[headerHave + i] := input[i]; }
      headerHave := headerHave + take;
      part := part + input[..take];
      assert part == header[..headerHave];
      used := take;
      if headerHave < HEADER_LEN {
        return used, Ok(None);
      }
      r := StartFrame();
    }

    /** Parses a full header; refuses a length over the limit, and delivers an empty
        frame at once, whatever its type. */
    method StartFrame() returns (r: Result<Option<Item>, DerpError>)
      requires header.Length == HEADER_LEN && control.Length == CONTROL_FRAME_MAX && header != control
      requires state == Header && headerHave == HEADER_LEN && part == header[..]
      modifies this
      ensures r.Err? ==> Stuck(DERP, old(part))
      ensures r.Ok? ==> Valid()
      ensures r == Ok(None) ==> state != Header && part == old(part)
      ensures r.Ok? && r.value.Some? ==> state == Header && Emitted([], old(part), r.value.value, part)
    {
      DerpFrameLen(part);
      headerHave := 0;
      kind := FromCode(header[0]);
      total := U32Be(header[1], header[2], header[3], header[4]);
      if total > MAX_FRAME_LEN {
        return Err(FrameTooLarge);
      }
      remaining := total;
      controlLen := 0;
      if total == 0 {
        r := Ok(Some(Control(kind, control[..controlLen])));
        part := [];
        return;
      }
      state := if kind.IsControl() then Buffering else Streaming;
      r := Ok(None);
    }

    /** State `Buffering`: captures a control frame, up to the buffer's size. */
    method FeedBuffering(input: bytes) returns (used: nat, item: Option<Item>)
      requires Valid() && state == Buffering && input != []
      modifies this, control
      ensures Valid() && 0 < used <= |input|
      ensures item.None? ==> part == old(part) + input[..used] && StreamedPart(part) == StreamedPart(old(part))
      ensures item.None? ==> if state == Buffering then used == |input| else state == Draining
      ensures item.Some? ==> Emitted(old(part), old(part) + input[..used], item.value, part)
    {
      hide KindOf, TotalOf;
      var space := CONTROL_FRAME_MAX - controlLen;
      var take := Min(Min(remaining, |input|), space);
      ghost var before, body := control[..controlLen], part[HEADER_LEN..];
      forall i | 0 <= i < take { control[controlLen + i] := input[i]; }
      HeaderIsStable(part, input[..take]);
      controlLen := controlLen + take;
      remaining := remaining - take;
      part := part + input[..take];
      assert control[..controlLen] == before + input[..take];
      assert part[HEADER_LEN..] == body + input[..take];
      used, item := take, None;
      if remaining == 0 {
        state := Header;
        item := Some(Control(kind, control[..controlLen]));
        part := [];
        return;
      }
      if controlLen == CONTROL_FRAME_MAX {
        state := Draining;
      }
    }

    /** State `Draining`: discards what a control frame has beyond the buffer. */
    method FeedDraining(input: bytes) returns (used: nat, item: Option<Item>)
      requires Valid() && state == Draining
      modifies this
      ensures Valid() && used <= |input| && (input != [] ==> used > 0)
      ensures item.None? ==> state == Draining && used == |input| && part == old(part) + input[..used]
      ensures item.None? ==> StreamedPart(part) == StreamedPart(old(part))
      ensures item.Some? ==> Emitted(old(part), old(part) + input[..used], item.value, part)
    {
      used := Min(remaining, |input|);
      HeaderIsStable(part, input[..used]);
      remaining := remaining - used;
      part := part + input[..used];
      if remaining > 0 {
        return used, None;
      }
      state := Header;
      item := Some(Control(kind, control[..controlLen]));
      part := [];
    }

    /** State `Streaming`: passes body bytes straight through. */
    method FeedStreaming(input: bytes) returns (used: nat, item: Option<Item>)
      requires Valid() && state == Streaming && input != []
      modifies this
      ensures Valid() && 0 < used <= |input| && item.Some?
      ensures Emitted(old(part), old(part) + input[..used], item.value, part)
    {
      used := Min(remaining, |input|);
      HeaderIsStable(part, input[..used]);
      remaining := remaining - used;
      part := part + input[..used];
      var end := remaining == 0;
      item := Some(Body(kind, total, input[..used], end));
      if end {
        state := Header;
        part := [];
      }
    }

    /** One turn of the reader's loop; `again` asks for another on what is left. */
    method Step(input: bytes) returns (used: nat, r: Result<Option<Item>, DerpError>, again: bool)
      requires Valid()
      modifies this, header, control
      ensures used <= |input| && (input != [] ==> used > 0)
      ensures r.Err? ==> !again && Stuck(DERP, old(part) + input[..used])
      ensures r.Ok? ==> Valid()
      ensures r == Ok(None) ==> part == old(part) + input[..used] && StreamedPart(part) == StreamedPart(old(part))
      ensures r == Ok(None) ==> if again then used > 0 else used == |input|
      ensures r.Ok? && r.value.Some? ==>
                !again && Emitted(old(part), old(part) + input[..used], r.value.value, part)
    {
      hide Emitted, Whole, Stuck, Present, StreamedPart;
      again := false;
      if (state == Buffering || state == Streaming) && input == [] {
        assert part + [] == part;
        return 0, Ok(None), false;
      }
      var item: Option<Item>;
      match state {
        case Header =>
          used, r := FeedHeader(input);
          again := r == Ok(None) && state != Header;
          return;
        case Buffering =>
          used, item := FeedBuffering(input);
          again := item.None? && used < |input|;
        case Draining =>
          used, item := FeedDraining(input);
        case Streaming =>
          used, item := FeedStreaming(input);
      }
      r := Ok(item);
    }

    /** Uses a prefix of the input, some of it unless it is empty, and emits what `Fed` says
        of the bytes held and used; fails exactly on a frame over the limit. */
    method Feed(input: bytes) returns (used: nat, r: Result<Option<Item>, DerpError>)
      requires Valid()
      modifies this, header, control
      ensures used <= |input| && (input != [] ==> used > 0) && (r == Ok(None) ==> used == |input|)
      ensures r.Ok? ==> Valid() && Fed(old(part), input[..used], r.value, part)
      ensures r.Err? ==> Stuck(DERP, old(part) + input[..used])
    {
      hide Fed, Emitted, Valid, Whole, StreamedPart, Stuck;
      var again := true;
      used, r := 0, Ok(None);
      while again
        invariant used <= |input|
        invariant again ==> Valid() && r == Ok(None) && part == old(part) + input[..used]
        invariant again ==> StreamedPart(part) == StreamedPart(old(part))
        invariant !again && r.Ok? ==> Valid() && Fed(old(part), input[..used], r.value, part)
        invariant !again && r.Err? ==> Stuck(DERP, old(part) + input[..used])
        invariant !again ==> (input != [] ==> used > 0) && (r == Ok(None) ==> used == |input|)
        decreases again, |input| - used
      {
        ghost var from := used;
        var n: nat;
        n, r, again := Step(input[used..]);
        TakeMore(input, from, n);
        assert old(part) + input[..from] + input[from..][..n] == old(part) + input[..from + n];
        used := used + n;
        if r.Ok? && r.value.Some? {
          EmittedLater(old(part), input[..from], input[from..][..n], r.value.value, part);
        } else if r.Ok? && !again {
          PartIsUnfinished();
          NothingEmitted(old(part), input[..used], part);
        }
      }
    }
  }

  /** The text of a frame header, as `write_header` lays it out. */
  function HeaderText(kind: FrameType, len: nat): bytes {
    [kind.Code()] + BeU32(len)
  }

  lemma CodeReads(kind: FrameType)
    ensures FromCode(kind.Code()) == kind
  {
  }

  /** A written frame is one frame to the reader exactly when it is within the limit,
      and it is read back as it was written. */
  lemma WrittenFrameReads(kind: FrameType, payload: bytes)
    requires |payload| < U32
    ensures Exact(DERP, HeaderText(kind, |payload|) + payload) <==> |payload| <= MAX_FRAME_LEN
    ensures Present(HeaderText(kind, |payload|) + payload)
         == Frame(kind, if kind.IsControl() then Truncate(payload, CONTROL_FRAME_MAX) else payload)
  {
    hide BeU32, U32Be, FromCode, FrameType.Code, Whole;
    CodeReads(kind);
    var t := HeaderText(kind, |payload|) + payload;
    var n := BeU32(|payload|);
    BeU32RoundTrip(|payload|);
    assert t[1] == n[0] && t[2] == n[1] && t[3] == n[2] && t[4] == n[3];
    assert t[HEADER_LEN..] == payload;
    DerpFrameLen(t);
  }

  method WriteHeader(out: array<byte>, kind: FrameType, len: nat) returns (r: Result<nat, DerpError>)
    modifies out
    ensures r == if out.Length < HEADER_LEN then Err(ShortBuffer) else Ok(HEADER_LEN)
    ensures r.Ok? ==> out[..] == HeaderText(kind, len) + old(out[HEADER_LEN..])
    ensures r.Err? ==> out[..] == old(out[..])
  {
    if out.Length < HEADER_LEN {
      return Err(ShortBuffer);
    }
    var l := BeU32(len);
    out[0] := kind.Code();
    forall i | 0 <= i < 4 { out[1 + i] := l[i]; }
    r := Ok(HEADER_LEN);
    assert out[..HEADER_LEN] == HeaderText(kind, len);
    assert out[..] == out[..HEADER_LEN] + out[HEADER_LEN..];
  }
}
