/** HTTP/2 over the control session: one POST at a time, with flow-control credit. */
module H2Conn {
  import opened Bytes
  import opened Framing
  import opened Crypto
  import opened Noise
  import opened RecordStage
  import opened H2Frames
  import opened H2Writer
  import opened H2Body
  import opened FrameView
  import opened LeadingBlock

  /** How many control frames one round reacts to. */
  const ACKS: nat := 4

  /** Why an exchange failed, told apart more finely than the code does: there a failed
      write is an I/O error like a failed read, spent nonces are reported like an
      inauthentic record, and a close by the peer like its error record. */
  datatype ConnError = Staging(e: StageError) | FrameError | NoncesSpent | WriteFailed | Closed

  predicate SendFails(e: ConnError) {
    e == WriteFailed || e == NoncesSpent
  }

  predicate Ends(f: Frame, streamId: nat) {
    !IsControl(f.header.kind) && f.header.EndStream() && f.header.streamId == streamId
  }

  function ControlFrames(frames: seq<Frame>): seq<Frame> {
    if frames == [] then []
    else if IsControl(frames[0].header.kind) then [frames[0]] + ControlFrames(frames[1..])
    else ControlFrames(frames[1..])
  }

  lemma {:induction false} ControlFramesConcat(a: seq<Frame>, b: seq<Frame>)
    ensures ControlFrames(a + b) == ControlFrames(a) + ControlFrames(b)
  {
    hide IsControl;
    if a == [] {
      assert a + b == b;
    } else {
      ControlFramesConcat(a[1..], b);
      assert (a + b)[1..] == a[1..] + b && (a + b)[0] == a[0];
    }
  }

  lemma {:induction false} ControlFramesAreFrames(frames: seq<Frame>)
    ensures forall f :: f in ControlFrames(frames) ==> f in frames
  {
    if frames != [] {
      ControlFramesAreFrames(frames[1..]);
    }
  }

  /** The answer a control frame calls for: acknowledgements for SETTINGS and PING, and
      the end of the connection for GOAWAY and RST_STREAM. */
  datatype Reaction = Answer(text: bytes) | Silence | Close

  function ReactionTo(f: Frame): Reaction {
    if f.header.kind == SETTINGS && f.header.flags % 2 == 0 then Answer(FrameText(SETTINGS, ACK, 0, []))
    else if f.header.kind == PING && f.header.flags % 2 == 0 then Answer(PingAckText(f.payload))
    else if f.header.kind == GOAWAY || f.header.kind == RST_STREAM then Close
    else Silence
  }

  /** What each control frame calls for, by the numbers of sections 6.4 to 6.8 of RFC 9113, and
      how the peer reads the answer. */
  lemma ReactionsByNumber(f: Frame)
    ensures var k, acked := f.header.kind, f.header.flags % 2 == 1;
            && (ReactionTo(f).Close? <==> k == 3 || k == 7)
            && (ReactionTo(f).Answer? <==> (k == 4 || k == 6) && !acked)
            && (k == 4 && !acked ==> ViewOf(AnswerTo(f)) == Some(View(4, 1, 0, [])))
            && (k == 6 && !acked && |f.payload| == 8 ==> ViewOf(AnswerTo(f)) == Some(View(6, 1, 0, f.payload)))
  {
    hide ViewOf, FrameText, PingAckText;
    SettingsAckIsRead();
    PingAckIsRead(f.payload);
    assert |f.payload| == 8 ==> f.payload[..8] == f.payload;
  }

  /** One of the frames ends the connection. */
  ghost predicate Closes(frames: seq<Frame>) {
    exists f :: f in frames && ReactionTo(f).Close?
  }

  lemma KeptCloses(frames: seq<Frame>)
    ensures Closes(Truncate(ControlFrames(frames), ACKS)) ==> Closes(frames)
  {
    hide ReactionTo, ControlFrames;
    ControlFramesAreFrames(frames);
  }

  /** The answer to a control frame, nothing if it gets none. */
  function AnswerTo(f: Frame): bytes {
    if ReactionTo(f).Answer? then ReactionTo(f).text else []
  }

  /** The records that answer control frames, one after the other. */
  function Answers(controls: seq<Frame>): seq<bytes> {
    Flatten(Map((f: Frame) => Chunks(AnswerTo(f), MAX_PLAINTEXT_SIZE), controls))
  }

  lemma AnswersSnoc(controls: seq<Frame>, n: nat)
    requires n < |controls|
    ensures Answers(controls[..0]) == []
    ensures Answers(controls[..n + 1]) == Answers(controls[..n]) + Chunks(AnswerTo(controls[n]), MAX_PLAINTEXT_SIZE)
  {
    hide AnswerTo, Chunks;
    var each := (f: Frame) => Chunks(AnswerTo(f), MAX_PLAINTEXT_SIZE);
    assert controls[..n + 1] == controls[..n] + [controls[n]];
    assert Map(each, controls[..n + 1]) == Map(each, controls[..n]) + [each(controls[n])];
    FlattenSnoc(Map(each, controls[..n]), each(controls[n]));
  }

  lemma NoChunks()
    ensures Chunks<byte>([], MAX_PLAINTEXT_SIZE) == []
  {
  }

  lemma NoAnswers()
    ensures Answers([]) == []
  {
  }

  /** The records that return credit, none if none is owed. */
  function CreditRecords(owed: nat): seq<bytes> {
    if owed == 0 then [] else Chunks(WindowUpdateText(0, owed), MAX_PLAINTEXT_SIZE)
  }

  /** The answers fit the buffers they are written in, and one record each. */
  lemma AnswerIsShort(f: Frame, owed: nat)
    ensures |FrameText(SETTINGS, ACK, 0, [])| <= 64 && |PingAckText(f.payload)| <= 64
    ensures |WindowUpdateText(0, owed)| <= 32
  {
  }

  /** Answers grant no credit, and the records that return credit grant what is owed. */
  lemma AnswersGrantNothing(f: Frame)
    ensures GrantedIn(Chunks(FrameText(SETTINGS, ACK, 0, []), MAX_PLAINTEXT_SIZE)) == 0
    ensures GrantedIn(Chunks(PingAckText(f.payload), MAX_PLAINTEXT_SIZE)) == 0
  {
    hide GrantedIn;
    AnswerIsShort(f, 0);
    OneChunk(FrameText(SETTINGS, ACK, 0, []), MAX_PLAINTEXT_SIZE);
    OneChunk(PingAckText(f.payload), MAX_PLAINTEXT_SIZE);
    FrameGrantsNothing(SETTINGS, ACK, 0, []);
    FrameGrantsNothing(PING, ACK, 0, Truncate(f.payload, 8) + Zeros(8 - Min(|f.payload|, 8)));
  }

  lemma CreditIsGranted(owed: nat)
    requires owed < 0x8000_0000
    ensures GrantedIn(CreditRecords(owed)) == owed
    ensures owed > 0 ==> GrantedIn(Chunks(WindowUpdateText(0, owed), MAX_PLAINTEXT_SIZE)) == owed
  {
    hide WindowUpdateText;
    AnswerIsShort(Frame(FrameHeader(0, 0, 0, 0), []), owed);
    UpdateGrants(owed);
    FrameIsNotEmpty(owed);
    OneChunk(WindowUpdateText(0, owed), MAX_PLAINTEXT_SIZE);
  }

  lemma FrameIsNotEmpty(owed: nat)
    ensures WindowUpdateText(0, owed) != []
  {
  }

  lemma {:induction false} BodyGrantsNothing(streamId: nat, body: bytes, k: nat)
    requires k <= |BodyFrames(streamId, body)|
    ensures GrantedIn(BodyFrames(streamId, body)[..k]) == 0
  {
    hide FrameText, Granted;
    if k > 0 {
      BodyGrantsNothing(streamId, body, k - 1);
      var frames := BodyFrames(streamId, body);
      assert frames[..k] == frames[..k - 1] + [frames[k - 1]];
      GrantedConcat(frames[..k - 1], [frames[k - 1]]);
      FrameGrantsNothing(DATA, if k * BODY_CHUNK >= |body| then END_STREAM else 0, streamId, Chunks(body, BODY_CHUNK)[k - 1]);
    }
  }

  /** Nor do requests. */
  lemma RequestGrantsNothing(streamId: nat, authority: bytes, path: bytes, body: bytes)
    requires |body| < U64 && |PostBlock(authority, path, |body|)| <= BLOCK_MAX
    ensures GrantedIn(RequestRecords(streamId, authority, path, body)) == 0
  {
    hide FrameText, GrantedIn, PostBlock, BodyFrames;
    var block, frames := PostBlock(authority, path, |body|), BodyFrames(streamId, body);
    FrameTextLength(HEADERS, END_HEADERS, streamId, block);
    OneChunk(FrameText(HEADERS, END_HEADERS, streamId, block), MAX_PLAINTEXT_SIZE);
    FrameGrantsNothing(HEADERS, END_HEADERS, streamId, block);
    BodyGrantsNothing(streamId, body, |frames|);
    assert frames[..|frames|] == frames;
    GrantedConcat(HeaderRecords(streamId, authority, path, |body|), frames);
  }

  /** What a round found in the plaintext it fed to the reader; `chunks` are the pieces of
      DATA handed to the caller, one per call. */
  datatype Round = Round(chunks: seq<bytes>, controls: seq<Frame>, done: bool)

  function OnStream(streamId: nat): FrameHeader -> bool {
    (h: FrameHeader) => h.streamId == streamId
  }

  function Noted(r: Round, streamId: nat, item: Option<Item>): Round {
    match item
    case None => r
    case Some(Control(h, payload)) =>
      if |r.controls| < ACKS then r.(controls := r.controls + [Frame(h, payload)]) else r
    case Some(Body(h, chunk, end)) =>
      Round(if h.kind == DATA && h.streamId == streamId then r.chunks + [chunk] else r.chunks, r.controls,
            r.done || (end && h.EndStream() && h.streamId == streamId))
  }

  ghost predicate EndsAmong(frames: seq<Frame>, streamId: nat) {
    exists f :: f in frames && Ends(f, streamId)
  }

  lemma OneMoreFrame(news: seq<Frame>, frame: Frame, streamId: nat)
    ensures EndsAmong(news + [frame], streamId) <==> EndsAmong(news, streamId) || Ends(frame, streamId)
    ensures Truncate(ControlFrames(news + [frame]), ACKS)
         == if IsControl(frame.header.kind) && |Truncate(ControlFrames(news), ACKS)| < ACKS
            then Truncate(ControlFrames(news), ACKS) + [frame]
            else Truncate(ControlFrames(news), ACKS)
  {
    ControlFramesConcat(news, [frame]);
    assert ControlFrames([frame]) == if IsControl(frame.header.kind) then [frame] else [];
    assert forall f :: f in news + [frame] <==> f in news || f == frame;
  }

  /** A round that has seen `stream` grow into `grown`: the frames completed meanwhile
      decide what it noted. */
  ghost predicate Summarises(r: Round, streamId: nat, stream: bytes, grown: bytes, news: seq<Frame>) {
    && Collects(streamId, stream, grown, r.chunks, news)
    && r.controls == Truncate(ControlFrames(news), ACKS)
    && (r.done <==> EndsAmong(news, streamId))
  }

  /** Between two points of the HTTP/2 stream the frames `news` were completed, and
      `chunks` add up to the DATA of one stream that arrived. */
  ghost predicate Collects(streamId: nat, stream: bytes, grown: bytes, chunks: seq<bytes>, news: seq<Frame>) {
    && Reading(grown).frames == Reading(stream).frames + news
    && DataIn(OnStream(streamId), grown) == DataIn(OnStream(streamId), stream) + Flatten(chunks)
  }

  lemma NotedNothing(streamId: nat, stream: bytes)
    ensures Summarises(Round([], [], false), streamId, stream, stream, [])
    ensures Collects(streamId, stream, stream, [], []) && !EndsAmong([], streamId)
  {
    hide DataIn, Reading;
  }

  function NewsWith(news: seq<Frame>, c: Collected, item: Option<Item>): seq<Frame> {
    if Finishes(item) then news + [Finished(c, item.value)] else news
  }

  lemma NotedChunks(r: Round, streamId: nat, item: Option<Item>)
    ensures Flatten(Noted(r, streamId, item).chunks) == Flatten(r.chunks) + PickedItem(OnStream(streamId), item)
  {
    hide Flatten;
    if item.Some? && item.value.Body? {
      FlattenSnoc(r.chunks, item.value.chunk);
    }
  }

  lemma NotedFrames(r: Round, streamId: nat, news: seq<Frame>, c: Collected, item: Option<Item>)
    requires r.controls == Truncate(ControlFrames(news), ACKS) && (r.done <==> EndsAmong(news, streamId))
    requires item.Some? ==> IsControl(item.value.header.kind) == item.value.Control?
    ensures var news' := NewsWith(news, c, item);
            && Noted(r, streamId, item).controls == Truncate(ControlFrames(news'), ACKS)
            && (Noted(r, streamId, item).done <==> EndsAmong(news', streamId))
  {
    hide EndsAmong, ControlFrames, Truncate, IsControl, FrameHeader.EndStream;
    if Finishes(item) {
      OneMoreFrame(news, Finished(c, item.value), streamId);
    }
  }

  lemma NotedKeepsSummary(r: Round, streamId: nat, stream: bytes, grown: bytes, news: seq<Frame>,
                          used: bytes, item: Option<Item>, after: bytes)
    returns (news': seq<Frame>)
    requires Summarises(r, streamId, stream, grown, news)
    requires Fed(Cut(H2, grown).rest, used, item, after)
    ensures Summarises(Noted(r, streamId, item), streamId, stream, grown + used, news')
  {
    hide DataIn, Reading, Fed, Cut, Collect, EndsAmong, ControlFrames, Truncate, IsControl, Noted, Flatten,
         Finishes, Finished, PickedItem, OnStream;
    var c := Reading(grown);
    FedKeepsReading(grown, used, item, after);
    FedData(OnStream(streamId), grown, used, item, after);
    CollectAdds(c, item);
    ItemKind(Cut(H2, grown).rest, used, item, after);
    NotedChunks(r, streamId, item);
    NotedFrames(r, streamId, news, c, item);
    news' := NewsWith(news, c, item);
    assert Reading(grown + used).frames == Reading(stream).frames + news';
  }

  lemma ItemKind(part: bytes, used: bytes, item: Option<Item>, after: bytes)
    requires Fed(part, used, item, after)
    ensures item.Some? ==> IsControl(item.value.header.kind) == item.value.Control?
  {
  }

  // ------------------------------------------------------------ the connection

  class Conn {
    const stage: Stage
    const reader: FrameReader
    var nextStream: nat

    /** Where HTTP/2 starts in the plaintext, the credit returned so far, and every
        plaintext piece sent as a record. */
    ghost var start: nat
    ghost var credited: nat
    ghost var sent: seq<bytes>

    /** Stage and reader do not share buffers. */
    ghost predicate Apart() {
      && stage.pending != reader.headerBuf && stage.pending != reader.control
      && stage.raw != reader.headerBuf && stage.raw != reader.control
    }

    /** Every piece sent has its own record number, and nothing but their records went
        out. */
    ghost predicate Written(socket: Socket)
      reads `sent, stage.session`txNonce, socket`outgoing
    {
      && stage.session.Valid() && stage.session.txNonce == |sent|
      && (forall i :: 0 <= i < |sent| ==> |sent[i]| <= MAX_PLAINTEXT_SIZE)
      && socket.outgoing <= Flatten(Records(stage.session.aead, stage.session.tx, 0, sent))
    }

    /** And all of their records went out. */
    ghost predicate Sending(socket: Socket)
      reads `sent, stage.session`txNonce, socket`outgoing
    {
      Written(socket) && socket.outgoing == Flatten(Records(stage.session.aead, stage.session.tx, 0, sent))
    }

    /** What a step that sends leaves behind: records go missing only by a write that
        failed, and nonces are reported spent only when they are. */
    ghost predicate Left(socket: Socket, r: Result<(), ConnError>)
      reads `sent, stage.session`txNonce, socket`outgoing
    {
      && Written(socket)
      && (r != Err(WriteFailed) ==> Sending(socket))
      && (r == Err(NoncesSpent) ==> stage.session.txNonce == U64 - 1)
    }

    /** The reader has followed exactly `stream`, and its unreturned credit is what
        is missing from the total. */
    ghost predicate Following(stream: bytes)
      reads `credited, reader, reader.headerBuf, reader.control
    {
      && reader.Valid() && reader.part == Cut(H2, stream).rest
      && DataCount(stream) == credited + reader.pendingWindow
    }

    /** The HTTP/2 bytes fed to the reader. */
    ghost function Stream(): bytes
      reads `start, stage`taken, stage`plain
    {
      if start <= stage.taken <= |stage.plain| then stage.plain[start..stage.taken] else []
    }

    /** What holds whether or not the connection can go on: the reader has followed what
        was consumed, all of its DATA is credited or pending, and what was sent grants the
        peer no more than is credited. */
    ghost predicate Accounted()
      reads `start, `credited, `sent, stage`taken, stage`plain, reader, reader.headerBuf, reader.control
    {
      Apart() && start <= stage.taken <= |stage.plain| && Following(Stream()) && GrantedIn(sent) <= credited
    }

    ghost predicate Valid(socket: Socket)
      reads `start, `credited, `sent, stage, stage.session`txNonce, stage.session`rxNonce, socket`outgoing,
            stage.pending, stage.raw, reader, reader.headerBuf, reader.control
    {
      Accounted() && stage.Valid() && Sending(socket) && GrantedIn(sent) == credited
    }

    constructor (session: Session, socket: Socket)
      requires session.Valid() && session.txNonce == 0 && session.rxNonce == 0 && socket.outgoing == []
      ensures Valid(socket) && stage.session == session && stage.received == [] && nextStream == 1
      ensures start == 0 && credited == 0 && sent == [] && stage.taken == 0 && stage.rawLen == 0
      ensures reader.part == [] && reader.pendingWindow == 0
      ensures fresh(stage) && fresh(reader) && fresh(stage.pending) && fresh(stage.raw)
      ensures fresh(reader.headerBuf) && fresh(reader.control)
    {
      hide DataCount, Cut, Flatten, Stage.Draining, FrameReader.Valid, Records, AllExact, Sending, Following;
      stage := new Stage(session);
      reader := new FrameReader();
      nextStream := 1;
      start, credited, sent := 0, 0, [];
      new;
      NothingDone(socket);
    }

    lemma NothingDone(socket: Socket)
      requires stage.session.Valid() && stage.session.txNonce == 0 && socket.outgoing == [] && sent == []
      requires reader.Valid() && reader.part == [] && reader.pendingWindow == 0 && credited == 0
      ensures Sending(socket) && Following([])
    {
      hide DataCount, Cut, Flatten, FrameReader.Valid, Records;
      NothingRead();
      NothingCounted(stage.session.aead, stage.session.tx);
    }

    /** Sends `plaintext` as records, all of it unless a write fails or the record numbers
        run out. */
    method Send(socket: Socket, plaintext: bytes) returns (r: Result<(), ConnError>)
      requires Sending(socket)
      modifies `sent, stage.session`txNonce, socket`outgoing
      ensures Left(socket, r) && old(sent) <= sent <= old(sent) + Chunks(plaintext, MAX_PLAINTEXT_SIZE)
      ensures r.Ok? ==> sent == old(sent) + Chunks(plaintext, MAX_PLAINTEXT_SIZE)
      ensures r.Err? ==> r.error == WriteFailed || r.error == NoncesSpent
    {
      hide Record, Flatten, Chunks, Records;
      var frame := new byte[MAX_MESSAGE_SIZE];
      var parts := Chunks(plaintext, MAX_PLAINTEXT_SIZE);
      for i := 0 to |parts|
        invariant Sending(socket) && sent == old(sent) + parts[..i]
      {
        var n := stage.session.WriteRecord(parts[i], frame);
        if n.Err? {
          return Err(NoncesSpent);
        }
        var ok := socket.WriteAll(frame[..n.value]);
        RecordsSnoc(stage.session.aead, stage.session.tx, sent, parts[i]);
        sent := sent + [parts[i]];
        assert parts[..i + 1] == parts[..i] + [parts[i]];
        if !ok {
          return Err(WriteFailed);
        }
      }
      assert parts[..|parts|] == parts;
      r := Ok(());
    }

    /** Sends the preface and the client's settings. */
    method Greet(socket: Socket) returns (r: Result<(), ConnError>)
      requires Sending(socket)
      modifies `sent, stage.session`txNonce, socket`outgoing
      ensures Left(socket, r) && old(sent) <= sent <= old(sent) + [Greeting()]
      ensures r.Ok? ==> sent == old(sent) + [Greeting()]
      ensures r.Err? ==> SendFails(r.error)
      ensures GrantedIn(sent) == GrantedIn(old(sent))
    {
      hide Sending, Left, Chunks, SettingsText, Greeting, GrantedIn;
      GreetingIsShort();
      OthersGrantNothing(Greeting());
      var buf := new byte[128];
      var w := new Writer(buf);
      var wrote := w.Preface();
      wrote := w.Settings(INITIAL_WINDOW, MAX_FRAME);
      assert w.Text() == Greeting();
      OneChunk(Greeting(), MAX_PLAINTEXT_SIZE);
      r := Send(socket, buf[..w.pos]);
      GrantedBetween(old(sent), sent, [Greeting()]);
    }

    /** Why skipping the block fails: a broken record, or nothing is decided yet and either the
        socket ends or the next record has arrived and has no room. */
    ghost predicate SkipFailed(e: StageError)
      reads `start, stage, stage.session`rxNonce, stage.pending, stage.raw
    {
      || Broken(stage.session.aead, stage.session.rx, stage.received, |stage.records|, e)
      || (&& stage.Valid() && stage.taken == start == 0 && ParseEarlyPayload(stage.plain) == Incomplete
          && (e == Io || (e == TooLarge && Crowded(stage.received, |stage.records|, |stage.plain|))))
    }

    /** Skips the optional block in front of HTTP/2, reading until it can be decided. What has
        been read of it stays in the plaintext buffer, so it must be decided within that. */
    method SkipEarlyPayload(socket: Socket) returns (r: Result<(), ConnError>)
      requires Valid(socket) && stage.taken == start == 0 && reader.part == [] && reader.pendingWindow == 0
      requires credited == 0
      modifies `start, stage, stage.session`rxNonce, stage.pending, stage.raw, socket`incoming
      ensures stage.received + socket.incoming == old(stage.received + socket.incoming)
      ensures Accounted() && Sending(socket) && Stream() == []
      ensures r.Ok? ==> Valid(socket) && start == stage.taken
      ensures r.Ok? ==>
                var early := ParseEarlyPayload(stage.plain);
                && early != Incomplete && start == (if early.Found? then early.consumed else 0)
                && |stage.plain| + TAG_LEN <= MAX_MESSAGE_SIZE
      ensures r.Err? ==> r.error.Staging? && SkipFailed(r.error.e)
    {
      hide Cut, DataCount, Stage.Draining, Flatten, Broken, FrameReader.Valid, Records, ParseEarlyPayload,
           Following, Sending, Crowded, Stream;
      stage.UnreadIsPlain();
      NoStream();
      while true
        invariant Valid(socket) && stage.taken == start == 0 && reader.part == []
        invariant reader.pendingWindow == 0 && credited == 0 && Stream() == []
        invariant stage.received + socket.incoming == old(stage.received + socket.incoming)
        decreases MAX_MESSAGE_SIZE - (stage.pendingLen - stage.pendingPos)
      {
        stage.UnreadIsPlain();
        assert stage.Unread() == stage.plain;
        var buffered := stage.pending[stage.pendingPos..stage.pendingLen];
        EarlyPayloadIsStable(buffered, []);
        match ParseEarlyPayload(buffered) {
          case Absent =>
            return Ok(());
          case Found(consumed) =>
            SkipBlock(socket, consumed);
            return Ok(());
          case Incomplete =>
            r := Refill(socket);
            if r.Err? {
              return;
            }
            stage.UnreadIsPlain();
        }
      }
    }

    /** Takes in what was read with the handshake response, and skips the block. */
    method Settle(socket: Socket, leftover: bytes) returns (r: Result<(), ConnError>)
      requires Valid(socket) && stage.taken == start == 0 && reader.part == [] && reader.pendingWindow == 0
      requires credited == 0 && stage.received == [] && stage.rawLen == 0
      modifies `start, stage, stage.session`rxNonce, stage.pending, stage.raw, socket`incoming
      ensures Accounted() && Sending(socket) && Stream() == []
      ensures r.Ok? ==> Valid(socket) && start == stage.taken
      ensures r.Ok? ==>
                var early := ParseEarlyPayload(stage.plain);
                && early != Incomplete && start == (if early.Found? then early.consumed else 0)
                && |stage.plain| + TAG_LEN <= MAX_MESSAGE_SIZE
      ensures |leftover| <= RAW ==> stage.received + socket.incoming == leftover + old(socket.incoming)
      ensures |leftover| > RAW ==> r == Err(Staging(TooLarge))
      ensures r.Err? ==> r.error.Staging? && (|leftover| <= RAW ==> SkipFailed(r.error.e))
    {
      hide Cut, DataCount, Stage.Draining, Flatten, Broken, FrameReader.Valid, Records, ParseEarlyPayload,
           Following, Sending, Crowded, Stream;
      NoStream();
      var absorbed := stage.Absorb(leftover);
      NoStream();
      if absorbed.Err? {
        return Err(Staging(absorbed.error));
      }
      stage.UnreadIsPlain();
      r := SkipEarlyPayload(socket);
    }

    /** HTTP/2 starts after the first `n` bytes. */
    method SkipBlock(socket: Socket, n: nat)
      requires Valid(socket) && stage.taken == start == 0 && reader.part == []
      requires n <= stage.pendingLen - stage.pendingPos
      modifies `start, stage`pendingPos, stage`taken
      ensures Valid(socket) && start == stage.taken == n && Stream() == []
    {
      hide Stage.Draining, Stage.Unread, Following, Sending, Apart, Stream;
      stage.UnreadIsPlain();
      NoStream();
      var block := stage.Consume(n);
      start := n;
      stage.UnreadIsPlain();
      NoStream();
    }

    lemma NoStream()
      requires start == stage.taken
      ensures Stream() == []
    {
    }

    /** Feeds plaintext to the reader until all of it is used. */
    method FeedAll(streamId: nat, data: bytes, ghost stream: bytes) returns (r: Round, ghost news: seq<Frame>)
      requires Following(stream) && reader.pendingWindow + |data| < U32
      modifies reader, reader.headerBuf, reader.control
      ensures Following(stream + data)
      ensures Summarises(r, streamId, stream, stream + data, news)
      ensures reader.pendingWindow <= old(reader.pendingWindow) + |data|
    {
      hide Fed, Cut, DataCount, Summarises, FrameReader.Valid, Noted, Reading, Collect, DataIn, Credit, Finishes,
           PickedItem;
      NothingRead();
      NotedNothing(streamId, stream);
      r, news := Round([], [], false), [];
      var offset := 0;
      ghost var grown := stream;
      while offset < |data|
        invariant offset <= |data| && Following(grown) && grown == stream + data[..offset]
        invariant Summarises(r, streamId, stream, grown, news)
        invariant reader.pendingWindow <= old(reader.pendingWindow) + offset
      {
        var used, item := reader.Feed(data[offset..]);
        ghost var taken := data[offset..][..used];
        TakeMore(data, offset, used);
        assert grown + taken == stream + (data[..offset] + taken);
        FedKeepsReading(grown, taken, item, reader.part);
        FedCredit(grown, taken, item, reader.part);
        news := NotedKeepsSummary(r, streamId, stream, grown, news, taken, item, reader.part);
        r := Noted(r, streamId, item);
        grown := grown + taken;
        offset := offset + used;
      }
      assert data[..offset] == data;
    }

    /** Answers one control frame; the ones that close the connection get no answer. */
    method HandleControl(socket: Socket, f: Frame) returns (r: Result<(), ConnError>)
      requires Sending(socket)
      modifies `sent, stage.session`txNonce, socket`outgoing
      ensures Left(socket, r) && old(sent) <= sent
      ensures r == Err(Closed) <==> ReactionTo(f).Close?
      ensures r.Err? ==> r.error == Closed || SendFails(r.error)
      ensures ReactionTo(f).Answer? || sent == old(sent)
      ensures GrantedIn(sent) == GrantedIn(old(sent))
      ensures r.Ok? ==> sent == old(sent) + Chunks(AnswerTo(f), MAX_PLAINTEXT_SIZE)
    {
      hide Chunks, Sending, FrameText, PingAckText, FrameReader.Valid, WindowUpdateText, GrantedIn;
      NoChunks();
      AnswerIsShort(f, 0);
      AnswersGrantNothing(f);
      var buf := new byte[64];
      var w := new Writer(buf);
      if f.header.kind == SETTINGS && f.header.flags % 2 == 0 {
        var wrote := w.SettingsAck();
        assert w.Text() == FrameText(SETTINGS, ACK, 0, []);
        r := Send(socket, buf[..w.pos]);
        GrantedBetween(old(sent), sent, Chunks(w.Text(), MAX_PLAINTEXT_SIZE));
      } else if f.header.kind == PING && f.header.flags % 2 == 0 {
        var wrote := w.PingAck(f.payload);
        assert w.Text() == PingAckText(f.payload);
        r := Send(socket, buf[..w.pos]);
        GrantedBetween(old(sent), sent, Chunks(w.Text(), MAX_PLAINTEXT_SIZE));
      } else if f.header.kind == GOAWAY || f.header.kind == RST_STREAM {
        r := Err(Closed);
        SendingIsLeft(socket, r);
      } else {
        r := Ok(());
        SendingIsLeft(socket, r);
      }
    }

    lemma SendingIsLeft(socket: Socket, r: Result<(), ConnError>)
      requires Sending(socket) && r != Err(NoncesSpent)
      ensures Left(socket, r)
    {
    }

    lemma LeftIsSending(socket: Socket, r: Result<(), ConnError>)
      requires Left(socket, r) && r != Err(WriteFailed)
      ensures Sending(socket)
    {
    }

    /** Returns the credit for the DATA bytes read since the last time. */
    method ReturnCredit(socket: Socket, ghost stream: bytes) returns (r: Result<(), ConnError>)
      requires Apart() && Sending(socket) && Following(stream) && reader.pendingWindow < 0x8000_0000
      modifies `sent, `credited, stage.session`txNonce, socket`outgoing, reader`pendingWindow
      ensures Left(socket, r) && old(sent) <= sent && Following(stream)
      ensures credited == DataCount(stream) && reader.pendingWindow == 0
      ensures r.Ok? ==> sent == old(sent) + CreditRecords(old(reader.pendingWindow))
      ensures r.Err? ==> SendFails(r.error) && old(reader.pendingWindow) > 0
      ensures GrantedIn(sent) <= GrantedIn(old(sent)) + old(reader.pendingWindow)
      ensures r.Ok? ==> GrantedIn(sent) == GrantedIn(old(sent)) + old(reader.pendingWindow)
      ensures credited == old(credited) + old(reader.pendingWindow)
    {
      hide Chunks, DataCount, Cut, FrameReader.Valid, WindowUpdateText, Sending, Left, Apart, GrantedIn;
      var owed := reader.TakePendingWindow();
      credited := credited + owed;
      assert Following(stream);
      r := Ok(());
      SendingIsLeft(socket, r);
      if owed > 0 {
        r := SendCredit(socket, owed);
      }
    }

    method SendCredit(socket: Socket, owed: nat) returns (r: Result<(), ConnError>)
      requires Sending(socket) && 0 < owed < 0x8000_0000
      modifies `sent, stage.session`txNonce, socket`outgoing
      ensures Left(socket, r) && old(sent) <= sent
      ensures r.Ok? ==> sent == old(sent) + Chunks(WindowUpdateText(0, owed), MAX_PLAINTEXT_SIZE)
      ensures r.Err? ==> SendFails(r.error)
      ensures GrantedIn(sent) <= GrantedIn(old(sent)) + owed
      ensures r.Ok? ==> GrantedIn(sent) == GrantedIn(old(sent)) + owed
    {
      hide Chunks, Sending, Left, WindowUpdateText, GrantedIn, CreditRecords;
      CreditIsGranted(owed);
      AnswerIsShort(Frame(FrameHeader(0, 0, 0, 0), []), owed);
      var buf := new byte[32];
      var w := new Writer(buf);
      var wrote := w.WindowUpdate(0, owed);
      assert w.Text() == WindowUpdateText(0, owed);
      r := Send(socket, buf[..w.pos]);
      GrantedBetween(old(sent), sent, Chunks(w.Text(), MAX_PLAINTEXT_SIZE));
      GrantedConcat(old(sent), Chunks(w.Text(), MAX_PLAINTEXT_SIZE));
    }

    /** Reads until there is more unread plaintext than before. */
    method Refill(socket: Socket) returns (r: Result<(), ConnError>)
      requires Valid(socket)
      modifies stage, stage.session`rxNonce, stage.pending, stage.raw, socket`incoming
      ensures stage.received + socket.incoming == old(stage.received + socket.incoming)
      ensures stage.taken == old(stage.taken) && Sending(socket)
      ensures Accounted() && Stream() == old(Stream())
      ensures r.Ok? ==> Valid(socket)
      ensures r.Ok? ==> stage.pendingLen - stage.pendingPos > old(stage.pendingLen - stage.pendingPos)
      ensures r.Err? ==> r.error.Staging?
      ensures r == Err(Staging(Io)) ==> Valid(socket) && stage.plain == old(stage.plain)
      ensures r.Err? && r.error != Staging(Io)
              && !Broken(stage.session.aead, stage.session.rx, stage.received, |stage.records|, r.error.e) ==>
                && r.error.e == TooLarge && Valid(socket) && stage.plain == old(stage.plain)
                && old(stage.pendingPos < stage.pendingLen)
                && Crowded(stage.received, |stage.records|, |stage.plain| - stage.taken)
    {
      hide Cut, DataCount, Stage.Draining, Flatten, Broken, FrameReader.Valid, Records, Following, Sending, Crowded;
      stage.UnreadIsPlain();
      var pumped := stage.Pump(socket);
      assert Stream() == old(Stream());
      if pumped.Err? {
        return Err(Staging(pumped.error));
      }
      stage.UnreadIsPlain();
      r := Ok(());
    }

    /** Makes sure there is unread plaintext. */
    method AwaitPlaintext(socket: Socket) returns (r: Result<(), ConnError>)
      requires Valid(socket)
      modifies stage, stage.session`rxNonce, stage.pending, stage.raw, socket`incoming
      ensures stage.received + socket.incoming == old(stage.received + socket.incoming)
      ensures stage.taken == old(stage.taken) && Sending(socket)
      ensures Accounted() && Stream() == old(Stream())
      ensures r.Ok? ==> Valid(socket) && stage.pendingPos < stage.pendingLen
      ensures r.Err? ==> r.error.Staging?
      ensures r == Err(Staging(Io)) ==> Valid(socket)
      ensures r.Err? && r.error != Staging(Io) ==>
                Broken(stage.session.aead, stage.session.rx, stage.received, |stage.records|, r.error.e)
    {
      hide Cut, DataCount, Stage.Draining, Flatten, Broken, FrameReader.Valid, Records, Following, Sending;
      stage.UnreadIsPlain();
      r := Ok(());
      if stage.pendingPos == stage.pendingLen {
        r := Refill(socket);
      }
    }

    /** Feeds all unread plaintext to the reader. */
    method FeedUnread(streamId: nat, socket: Socket) returns (r: Round, ghost news: seq<Frame>)
      requires Valid(socket) && reader.pendingWindow == 0 && stage.pendingPos < stage.pendingLen
      modifies stage`pendingPos, stage`taken, reader, reader.headerBuf, reader.control
      ensures Valid(socket) && stage.taken > old(stage.taken) && reader.pendingWindow <= MAX_MESSAGE_SIZE
      ensures Summarises(r, streamId, old(Stream()), Stream(), news)
    {
      hide Cut, DataCount, Stage.Draining, Flatten, FrameReader.Valid, Summarises, Records, Following, Sending,
           GrantedIn;
      stage.UnreadIsPlain();
      ghost var stream := Stream();
      var avail := stage.pendingLen - stage.pendingPos;
      var scratch := stage.pending[stage.pendingPos..stage.pendingLen];
      r, news := FeedAll(streamId, scratch, stream);
      var data := stage.Consume(avail);
      stage.UnreadIsPlain();
      assert data == scratch;
      assert Stream() == stream + data;
    }

    /** Answers the control frames a round kept, up to one that closes the connection. */
    method HandleControls(socket: Socket, controls: seq<Frame>) returns (r: Result<(), ConnError>)
      requires Sending(socket)
      modifies `sent, stage.session`txNonce, socket`outgoing
      ensures Left(socket, r) && old(sent) <= sent
      ensures r.Ok? ==> !Closes(controls) && sent == old(sent) + Answers(controls)
      ensures r == Err(Closed) ==> Closes(controls)
      ensures r.Err? ==> r.error == Closed || SendFails(r.error)
      ensures GrantedIn(sent) == GrantedIn(old(sent))
    {
      hide Chunks, Sending, Left, ReactionTo, Answers, GrantedIn;
      NoAnswers();
      assert controls[..0] == [];
      for i := 0 to |controls|
        invariant Sending(socket) && old(sent) <= sent
        invariant sent == old(sent) + Answers(controls[..i]) && GrantedIn(sent) == GrantedIn(old(sent))
        invariant forall j :: 0 <= j < i ==> !ReactionTo(controls[j]).Close?
      {
        AnswersSnoc(controls, i);
        r := HandleControl(socket, controls[i]);
        if r.Err? {
          return;
        }
        LeftIsSending(socket, r);
      }
      assert controls[..|controls|] == controls;
      r := Ok(());
      SendingIsLeft(socket, r);
    }

    /** Answers what a round noted and returns its credit. */
    method React(socket: Socket, controls: seq<Frame>) returns (r: Result<(), ConnError>)
      requires Valid(socket) && reader.pendingWindow < 0x8000_0000
      modifies `sent, `credited, stage.session`txNonce, socket`outgoing, reader`pendingWindow
      ensures Left(socket, r) && old(sent) <= sent && Accounted() && stage.Valid()
      ensures r.Ok? ==> reader.pendingWindow == 0 && credited == DataCount(Stream()) == GrantedIn(sent)
      ensures r.Ok? ==> !Closes(controls)
      ensures r.Ok? ==> sent == old(sent) + Answers(controls) + CreditRecords(old(reader.pendingWindow))
      ensures r == Err(Closed) ==> Closes(controls)
      ensures r.Err? ==> r.error == Closed || SendFails(r.error)
    {
      hide Cut, DataCount, Stage.Draining, Sending, Left, FrameReader.Valid, Closes, Following, Answers, CreditRecords,
           GrantedIn;
      stage.UnreadIsPlain();
      ghost var stream := Stream();
      r := HandleControls(socket, controls);
      assert stage.Valid();
      if r.Ok? {
        LeftIsSending(socket, r);
        r := ReturnCredit(socket, stream);
      }
      assert Stream() == stream;
    }

    /** The credit pending is what was read since credit was last returned. */
    lemma Owed()
      requires Accounted()
      ensures DataCount(Stream()) == credited + reader.pendingWindow && GrantedIn(sent) <= DataCount(Stream())
    {
    }

    /** Waits for plaintext and feeds it to the reader. */
    method ReadRound(streamId: nat, socket: Socket)
      returns (r: Result<(), ConnError>, round: Round, ghost news: seq<Frame>)
      requires Valid(socket) && reader.pendingWindow == 0
      modifies stage, stage.session`rxNonce, stage.pending, stage.raw,
               reader, reader.headerBuf, reader.control, socket`incoming
      ensures stage.received + socket.incoming == old(stage.received + socket.incoming)
      ensures Accounted() && Summarises(round, streamId, old(Stream()), Stream(), news)
      ensures DataCount(Stream()) == old(DataCount(Stream())) + reader.pendingWindow
      ensures r.Ok? ==> Valid(socket) && stage.taken > old(stage.taken) && reader.pendingWindow <= MAX_MESSAGE_SIZE
      ensures r.Err? ==> r.error.Staging? && stage.taken == old(stage.taken) && !round.done && reader.pendingWindow == 0
      ensures r.Err? ==> Failed(r.error, true, news)
    {
      hide DataCount, Stage.Draining, Summarises, Accounted, Sending, Broken;
      news, round := [], Round([], [], false);
      NotedNothing(streamId, Stream());
      Owed();
      r := AwaitPlaintext(socket);
      if r.Ok? {
        round, news := FeedUnread(streamId, socket);
        Owed();
      }
    }

    /** One turn of the response loop: the control frames noted are answered in order, and
        then all DATA bytes of the turn are credited. However it ends, what the round noted
        sums up the plaintext consumed in it. */
    method TakeRound(streamId: nat, socket: Socket)
      returns (r: Result<(), ConnError>, round: Round, ghost news: seq<Frame>, ghost owed: nat)
      requires Valid(socket) && reader.pendingWindow == 0
      modifies `sent, `credited, stage, stage.session, stage.pending, stage.raw,
               reader, reader.headerBuf, reader.control, socket
      ensures stage.received + socket.incoming == old(stage.received + socket.incoming)
      ensures Left(socket, r) && old(sent) <= sent && Accounted()
      ensures Summarises(round, streamId, old(Stream()), Stream(), news)
      ensures r.Ok? ==> stage.Valid() && reader.pendingWindow == 0 && stage.taken > old(stage.taken)
      ensures DataCount(Stream()) == old(DataCount(Stream())) + owed && owed <= MAX_MESSAGE_SIZE
      ensures r.Ok? ==> GrantedIn(sent) == credited == DataCount(Stream()) && !Closes(round.controls)
      ensures r.Ok? ==> sent == old(sent) + Answers(round.controls) + CreditRecords(owed)
      ensures r.Err? ==> Failed(r.error, stage.taken == old(stage.taken) && !round.done, news)
    {
      hide Cut, DataCount, Stage.Draining, Summarises, Left, Closes, Following, Answers, CreditRecords, Sending,
           FrameReader.Valid, Broken;
      r, round, news := ReadRound(streamId, socket);
      owed := reader.pendingWindow;
      if r.Err? {
        SendingIsLeft(socket, r);
        return;
      }
      ghost var grown := Stream();
      KeptAreFirst(round, streamId, old(Stream()), grown, news);
      r := React(socket, round.controls);
      assert Stream() == grown;
    }

    /** Why a round fails: the peer's records, the socket, or a frame that closes. A failed
        read comes before anything is consumed. */
    ghost predicate Failed(e: ConnError, early: bool, news: seq<Frame>)
      reads stage, stage.session`rxNonce, stage.pending, stage.raw
    {
      match e
      case Staging(Io) => early && stage.Valid()
      case Staging(why) => early && Broken(stage.session.aead, stage.session.rx, stage.received, |stage.records|, why)
      case Closed => Closes(news) && stage.Valid()
      case _ => SendFails(e) && stage.Valid()
    }

    /** Splits a request body into DATA frames, each inside one record. */
    method SendBody(socket: Socket, streamId: nat, body: bytes) returns (r: Result<(), ConnError>)
      requires Sending(socket)
      modifies `sent, stage.session`txNonce, socket`outgoing
      ensures Left(socket, r) && old(sent) <= sent <= old(sent) + BodyFrames(streamId, body)
      ensures r.Ok? ==> sent == old(sent) + BodyFrames(streamId, body)
      ensures r.Err? ==> SendFails(r.error)
    {
      hide Chunks, Sending, Left, DataText, BodyFrames;
      var frame := new byte[MAX_PLAINTEXT_SIZE];
      var parts := Chunks(body, BODY_CHUNK);
      ghost var frames := BodyFrames(streamId, body);
      for i := 0 to |parts|
        invariant Sending(socket) && sent == old(sent) + frames[..i]
      {
        var last := (i + 1) * BODY_CHUNK >= |body|;
        DataTextLength(streamId, parts[i], last);
        var n := OneData(frame, streamId, parts[i], last);
        OneChunk(frames[i], MAX_PLAINTEXT_SIZE);
        r := Send(socket, frame[..n]);
        assert frames[..i + 1] == frames[..i] + [frames[i]];
        if r.Err? {
          return;
        }
        LeftIsSending(socket, r);
      }
      assert frames[..|parts|] == frames;
      r := Ok(());
      SendingIsLeft(socket, r);
    }

    /** Sends the request line and headers; a block that is too long is an error, and then
        nothing is sent. */
    method SendHeaders(socket: Socket, streamId: nat, authority: bytes, path: bytes, contentLength: nat)
      returns (r: Result<(), ConnError>)
      requires Sending(socket) && contentLength < U64
      modifies `sent, stage.session`txNonce, socket`outgoing
      ensures var head := HeaderRecords(streamId, authority, path, contentLength);
              && Left(socket, r) && old(sent) <= sent <= old(sent) + head
              && (r.Ok? ==> sent == old(sent) + head)
      ensures r == Err(FrameError) <==> |PostBlock(authority, path, contentLength)| > BLOCK_MAX
      ensures r == Err(FrameError) ==> sent == old(sent)
      ensures r.Err? ==> r.error == FrameError || SendFails(r.error)
    {
      hide Chunks, PostBlock, FrameText, Sending, Left;
      ghost var block := PostBlock(authority, path, contentLength);
      FrameTextLength(HEADERS, END_HEADERS, streamId, block);
      var head := new byte[320];
      var w := new Writer(head);
      var wrote := w.PostHeaders(streamId, authority, path, contentLength);
      if wrote.Err? {
        r := Err(FrameError);
        SendingIsLeft(socket, r);
        return;
      }
      assert w.Text() == FrameText(HEADERS, END_HEADERS, streamId, block);
      r := Send(socket, head[..w.pos]);
    }

    /** Sends a whole request. */
    method Request(socket: Socket, streamId: nat, authority: bytes, path: bytes, body: bytes)
      returns (r: Result<(), ConnError>)
      requires Sending(socket) && |body| < U64
      modifies `sent, stage.session`txNonce, socket`outgoing
      ensures var asked := old(sent) + RequestRecords(streamId, authority, path, body);
              Left(socket, r) && old(sent) <= sent <= asked && (r.Ok? ==> sent == asked)
      ensures r == Err(FrameError) <==> |PostBlock(authority, path, |body|)| > BLOCK_MAX
      ensures r == Err(FrameError) ==> sent == old(sent)
      ensures r.Err? ==> r.error == FrameError || SendFails(r.error)
      ensures GrantedIn(sent) == GrantedIn(old(sent))
    {
      hide Sending, Left, HeaderRecords, BodyFrames, PostBlock, GrantedIn;
      PrefixOfMore(sent, HeaderRecords(streamId, authority, path, |body|), BodyFrames(streamId, body));
      r := SendHeaders(socket, streamId, authority, path, |body|);
      if r.Ok? {
        LeftIsSending(socket, r);
        r := SendBody(socket, streamId, body);
      }
      if |PostBlock(authority, path, |body|)| <= BLOCK_MAX {
        RequestGrantsNothing(streamId, authority, path, body);
        GrantedBetween(old(sent), sent, RequestRecords(streamId, authority, path, body));
      }
    }

    /** One request, and the DATA of its response handed on piece by piece until the peer
        ends the stream or something fails. Either way the pieces add up to exactly the DATA
        of that stream consumed meanwhile, all DATA consumed is credited or pending, and the
        cause of a failure is known. */
    method PostStream(socket: Socket, authority: bytes, path: bytes, body: bytes)
      returns (r: Result<(), ConnError>, chunks: seq<bytes>, ghost news: seq<Frame>)
      requires Valid(socket) && reader.pendingWindow == 0
      requires nextStream + 2 < U32 && |body| < U64
      modifies `nextStream, `sent, `credited, stage, stage.session, stage.pending, stage.raw,
               reader, reader.headerBuf, reader.control, socket
      ensures nextStream == old(nextStream) + 2
      ensures stage.received + socket.incoming == old(stage.received + socket.incoming)
      ensures Accounted() && Left(socket, r) && old(sent) <= sent
      ensures Collects(old(nextStream), old(Stream()), Stream(), chunks, news)
      ensures var asked := old(sent) + RequestRecords(old(nextStream), authority, path, body);
              if r.Ok? || Stream() != old(Stream()) then asked <= sent else sent <= asked || asked <= sent
      ensures r.Ok? ==> stage.Valid() && reader.pendingWindow == 0 && EndsAmong(news, old(nextStream))
      ensures GrantedIn(sent) <= DataCount(Stream()) && (r.Ok? ==> GrantedIn(sent) == DataCount(Stream()))
      ensures r == Err(FrameError) <==> |PostBlock(authority, path, |body|)| > BLOCK_MAX
      ensures r == Err(FrameError) ==> stage.Valid() && sent == old(sent) && Stream() == old(Stream())
      ensures r.Err? && r.error != FrameError ==> Failed(r.error, !EndsAmong(news, old(nextStream)), news)
    {
      hide Cut, DataCount, Stage.Draining, FrameReader.Valid, Following, Summarises, Collects,
           EndsAmong, RequestRecords, PostBlock, Sending, Left, Closes, Broken, GrantedIn;
      stage.UnreadIsPlain();
      Owed();
      ghost var stream0 := Stream();
      var streamId := nextStream;
      nextStream := nextStream + 2;
      ghost var asked := sent + RequestRecords(streamId, authority, path, body);
      chunks, news := [], [];
      NotedNothing(streamId, stream0);
      r := Request(socket, streamId, authority, path, body);
      assert Stream() == stream0;
      Owed();
      if r.Err? {
        return;
      }
      LeftIsSending(socket, r);
      ghost var total := stage.received + socket.incoming;
      var done := false;
      while !done
        invariant Valid(socket) && reader.pendingWindow == 0 && asked <= sent && r.Ok?
        invariant nextStream == streamId + 2
        invariant stage.received + socket.incoming == total
        invariant Collects(streamId, stream0, Stream(), chunks, news)
        invariant done <==> EndsAmong(news, streamId)
        invariant GrantedIn(sent) == DataCount(Stream())
        decreases !done, |total| - stage.taken
      {
        stage.TakenFits();
        ghost var stream, taken, before := Stream(), stage.taken, news;
        var round;
        ghost var found;
        ghost var owed;
        r, round, found, owed := TakeRound(streamId, socket);
        CollectsMore(streamId, stream0, stream, Stream(), chunks, news, round, found);
        chunks, news := chunks + round.chunks, news + found;
        Owed();
        if r.Err? {
          LaterCloses(before, found);
          return;
        }
        LeftIsSending(socket, r);
        stage.TakenFits();
        done := round.done;
      }
      SendingIsLeft(socket, r);
    }

    /** Issues a POST and keeps as much of the response body as fits `out`. */
    method Post(socket: Socket, authority: bytes, path: bytes, body: bytes, out: array<byte>)
      returns (r: Result<nat, ConnError>, ghost all: bytes, ghost news: seq<Frame>)
      requires Valid(socket) && reader.pendingWindow == 0
      requires nextStream + 2 < U32 && |body| < U64
      requires out != stage.pending && out != stage.raw && out != reader.headerBuf && out != reader.control
      modifies `nextStream, `sent, `credited, stage, stage.session, stage.pending, stage.raw,
               reader, reader.headerBuf, reader.control, socket, out
      ensures stage.received + socket.incoming == old(stage.received + socket.incoming)
      ensures Accounted() && Collects(old(nextStream), old(Stream()), Stream(), [all], news)
      ensures r.Ok? ==> Valid(socket) && reader.pendingWindow == 0 && EndsAmong(news, old(nextStream))
      ensures r.Ok? ==> r.value == Min(out.Length, |all|)
      ensures out[..] == Filled(old(out[..]), all)
    {
      hide Cut, DataCount, Stage.Draining, FrameReader.Valid, Following, Collects, EndsAmong, RequestRecords,
           PostBlock, Sending, Left, Closes, Broken, Failed, GrantedIn;
      var streamed, chunks;
      streamed, chunks, news := PostStream(socket, authority, path, body);
      all := Flatten(chunks);
      AsOne(chunks, old(nextStream), old(Stream()), Stream(), news);
      var written := Fill(out, chunks);
      r := if streamed.Ok? then Ok(written) else Err(streamed.error);
      Owed();
      if streamed.Ok? {
        LeftIsSending(socket, streamed);
      }
    }
  }

  // ------------------------------------------------------------ starting

  const INITIAL_WINDOW: nat := 16 * 1024
  const MAX_FRAME: nat := 16 * 1024

  /** What the client says first. */
  function Greeting(): bytes {
    PREFACE + SettingsText(INITIAL_WINDOW, MAX_FRAME)
  }

  lemma GreetingIsShort()
    ensures Greeting() == PREFACE + SettingsText(INITIAL_WINDOW, MAX_FRAME)
    ensures |PREFACE| <= 128 && 3 < |Greeting()| <= 128 && Greeting()[3] == 32
  {
  }

  /** The connection a session starts with: the greeting goes out first, then the bytes read
      with the handshake response are taken in, and the leading block is skipped. */
  method Start(session: Session, socket: Socket, leftover: bytes) returns (r: Result<(), ConnError>, conn: Conn)
    requires session.Valid() && session.txNonce == 0 && session.rxNonce == 0 && socket.outgoing == []
    modifies session, socket
    ensures fresh(conn) && conn.stage.session == session && fresh(conn.stage) && fresh(conn.reader)
    ensures conn.nextStream == 1 && conn.Left(socket, r) && conn.sent <= [Greeting()]
    ensures r.Ok? ==>
              && conn.Valid(socket) && conn.sent == [Greeting()] && conn.Stream() == []
              && conn.reader.pendingWindow == 0 && conn.start == conn.stage.taken
              && var early := ParseEarlyPayload(conn.stage.plain);
              && early != Incomplete && conn.start == (if early.Found? then early.consumed else 0)
              && |conn.stage.plain| + TAG_LEN <= MAX_MESSAGE_SIZE
    ensures r.Ok? || (r.error.Staging? && |leftover| <= RAW) ==>
              conn.stage.received + socket.incoming == leftover + old(socket.incoming)
    ensures r.Err? ==> SendFails(r.error) || r.error.Staging?
    ensures r.Err? && r.error.Staging? ==> if |leftover| > RAW then r.error.e == TooLarge else conn.SkipFailed(r.error.e)
  {
    hide DataCount, Cut, Flatten, Stage.Draining, FrameReader.Valid, Records, Broken, Chunks, Conn.Following,
         Conn.Sending, Conn.Left, Conn.Stream, ParseEarlyPayload, SettingsText, Crowded;
    conn := new Conn(session, socket);
    r := conn.Greet(socket);
    if r.Err? {
      return;
    }
    conn.LeftIsSending(socket, r);
    r := conn.Settle(socket, leftover);
    conn.SendingIsLeft(socket, r);
  }

  /** On a wire of legal records, starting succeeds, the socket permitting, exactly when the
      decision about the block fits the plaintext buffer; HTTP/2 then starts behind the block. */
  method StartHonest(session: Session, socket: Socket, leftover: bytes, ghost chunks: seq<bytes>, ghost later: bytes)
    returns (r: Result<(), ConnError>, conn: Conn)
    requires session.Valid() && session.txNonce == 0 && session.rxNonce == 0 && socket.outgoing == []
    requires |chunks| < U64 && |leftover| <= RAW
    requires forall i :: 0 <= i < |chunks| ==> |chunks[i]| <= MAX_PLAINTEXT_SIZE
    requires leftover + socket.incoming + later == Flatten(Records(session.aead, session.rx, 0, chunks))
    modifies session, socket
    ensures fresh(conn) && conn.stage.session == session && (r.Ok? ==> conn.Valid(socket))
    ensures r.Ok? ==> SkipFits(chunks)
    ensures r.Ok? ==>
              var early := ParseEarlyPayload(Flatten(chunks));
              early != Incomplete && conn.start == (if early.Found? then early.consumed else 0)
    ensures r.Err? ==>
              || SendFails(r.error) || r.error == Staging(Io)
              || (r.error == Staging(TooLarge) && !SkipFits(chunks))
  {
    hide DataCount, Cut, Flatten, Stage.Draining, FrameReader.Valid, Records, Broken, Conn.Following,
         Conn.Sending, Conn.Left, Conn.Stream, ParseEarlyPayload, SkipFits;
    r, conn := Start(session, socket, leftover);
    if r.Ok? || r.error.Staging? {
      Honestly(conn, socket, chunks, later, if r.Err? then Some(r.error.e) else None);
    }
  }

  /** Without a block, on a wire of legal records, starting succeeds unless the socket fails
      or record numbers run out, and HTTP/2 starts at the first byte. */
  method StartWithoutBlock(session: Session, socket: Socket, leftover: bytes, ghost chunks: seq<bytes>,
                           ghost later: bytes, ghost n: nat)
    returns (r: Result<(), ConnError>, conn: Conn)
    requires session.Valid() && session.txNonce == 0 && session.rxNonce == 0 && socket.outgoing == []
    requires |chunks| < U64 && |leftover| <= RAW && StartsOtherwise(chunks, n)
    requires forall i :: 0 <= i < |chunks| ==> |chunks[i]| <= MAX_PLAINTEXT_SIZE
    requires leftover + socket.incoming + later == Flatten(Records(session.aead, session.rx, 0, chunks))
    modifies session, socket
    ensures fresh(conn) && conn.stage.session == session
    ensures if r.Ok? then conn.Valid(socket) && conn.start == 0 else SendFails(r.error) || r.error == Staging(Io)
  {
    hide Flatten, Records, ParseEarlyPayload, SkipFits, StartsOtherwise, Conn.Accounted, Conn.Sending, Stage.Draining;
    OtherwiseIsLegal(chunks, n);
    OtherStartIsDecided(chunks, n);
    r, conn := StartHonest(session, socket, leftover, chunks, later);
  }

  lemma OtherwiseIsLegal(chunks: seq<bytes>, n: nat)
    requires StartsOtherwise(chunks, n) && forall i :: 0 <= i < |chunks| ==> |chunks[i]| <= MAX_PLAINTEXT_SIZE
    ensures n < |chunks| && |chunks[n]| <= MAX_PLAINTEXT_SIZE
  {
  }

  /** What the outcome of skipping says about the records sent. */
  lemma Honestly(conn: Conn, socket: Socket, chunks: seq<bytes>, later: bytes, failure: Option<StageError>)
    requires conn.stage.session.aead.Correct() && |chunks| < U64
    requires forall i :: 0 <= i < |chunks| ==> |chunks[i]| <= MAX_PLAINTEXT_SIZE
    requires conn.stage.received + socket.incoming + later
          == Flatten(Records(conn.stage.session.aead, conn.stage.session.rx, 0, chunks))
    requires match failure
             case Some(e) => conn.SkipFailed(e)
             case None =>
               && conn.stage.Valid() && ParseEarlyPayload(conn.stage.plain) != Incomplete
               && |conn.stage.plain| + TAG_LEN <= MAX_MESSAGE_SIZE
    ensures match failure
            case Some(e) => e == Io || (e == TooLarge && !SkipFits(chunks))
            case None => SkipFits(chunks) && ParseEarlyPayload(Flatten(chunks)) == ParseEarlyPayload(conn.stage.plain)
  {
    hide Cut, Flatten, Stage.Draining, Records, Broken, ParseEarlyPayload, SkipFits;
    var stage, n := conn.stage, |conn.stage.records|;
    var all := socket.incoming + later;
    assert stage.received + all == stage.received + socket.incoming + later;
    if failure.Some? {
      HonestPeerIsNotBroken(stage.session.aead, stage.session.rx, chunks, stage.received, all, n, failure.value);
    }
    DrainedOfSent(stage, chunks, all);
    DrainedDecide(chunks, n);
    FlattenSplit(chunks, n, |chunks|);
    assert chunks[..|chunks|] == chunks;
    EarlyPayloadIsStable(stage.plain, Flatten(chunks[n..]));
  }

  // ------------------------------------------------------------ a bounded response

  /** A buffer that held `was` after as much of `all` as fits was put at its front. */
  function Filled(was: bytes, all: bytes): bytes {
    if |all| < |was| then all + was[|all|..] else all[..|was|]
  }

  /** Byte for byte: the new bytes from the front, the old ones behind them. */
  lemma FilledByteByByte(was: bytes, all: bytes, i: nat)
    requires i < |was|
    ensures |Filled(was, all)| == |was|
    ensures Filled(was, all)[i] == if i < |all| then all[i] else was[i]
  {
  }

  /** Copies chunks one behind the other into a buffer, cutting off what does not fit. */
  method Fill(out: array<byte>, chunks: seq<bytes>) returns (written: nat)
    modifies out
    ensures written == Min(out.Length, |Flatten(chunks)|)
    ensures out[..] == Filled(old(out[..]), Flatten(chunks))
  {
    hide Flatten, Filled;
    NothingFlat();
    assert chunks[..0] == [];
    written := 0;
    ghost var was := out[..];
    FilledFrom(was, [], []);
    for i := 0 to |chunks|
      invariant written == Min(out.Length, |Flatten(chunks[..i])|)
      invariant out[..] == Filled(was, Flatten(chunks[..i]))
    {
      var take := Min(out.Length - written, |chunks[i]|);
      FilledFrom(was, Flatten(chunks[..i]), chunks[i]);
      PutAt(out, written, chunks[i][..take]);
      FlattenSnoc(chunks[..i], chunks[i]);
      assert chunks[..i + 1] == chunks[..i] + [chunks[i]];
      written := written + take;
    }
    assert chunks[..|chunks|] == chunks;
  }

  method PutAt(out: array<byte>, at: nat, data: bytes)
    requires at + |data| <= out.Length
    modifies out
    ensures out[..] == old(out[..at]) + data + old(out[at + |data|..])
  {
    forall k | 0 <= k < |data| { out[at + k] := data[k]; }
  }

  /** One more chunk goes behind what is there, as far as there is room. */
  lemma FilledFrom(was: bytes, all: bytes, chunk: bytes)
    ensures Filled(was, []) == was && |Filled(was, all)| == |was|
    ensures var at := Min(|was|, |all|);
            var take := Min(|was| - at, |chunk|);
            var now := Filled(was, all);
            now[..at] + chunk[..take] + now[at + take..] == Filled(was, all + chunk)
  {
  }

  lemma AsOne(chunks: seq<bytes>, streamId: nat, stream: bytes, grown: bytes, news: seq<Frame>)
    requires Collects(streamId, stream, grown, chunks, news)
    ensures Collects(streamId, stream, grown, [Flatten(chunks)], news)
  {
    hide DataIn, Reading;
    assert Flatten([Flatten(chunks)]) == Flatten(chunks);
  }

  lemma PrefixOfMore<T>(a: seq<T>, b: seq<T>, c: seq<T>)
    ensures a + (b + c) == a + b + c
    ensures a + b <= a + (b + c)
  {
    assert a + (b + c) == a + b + c;
  }

  /** A close among the frames a round kept is among the frames it completed. */
  lemma KeptAreFirst(r: Round, streamId: nat, stream: bytes, grown: bytes, news: seq<Frame>)
    requires Summarises(r, streamId, stream, grown, news)
    ensures Closes(r.controls) ==> Closes(news)
  {
    hide Closes, Collects, EndsAmong;
    KeptCloses(news);
  }

  lemma LaterCloses(news: seq<Frame>, found: seq<Frame>)
    ensures Closes(found) ==> Closes(news + found)
  {
    hide ReactionTo;
    assert forall f :: f in found ==> f in news + found;
  }

  lemma CollectsMore(streamId: nat, s0: bytes, s1: bytes, s2: bytes, chunks: seq<bytes>, news: seq<Frame>,
                     r: Round, found: seq<Frame>)
    requires Collects(streamId, s0, s1, chunks, news) && !EndsAmong(news, streamId)
    requires Summarises(r, streamId, s1, s2, found)
    ensures Collects(streamId, s0, s2, chunks + r.chunks, news + found)
    ensures EndsAmong(news + found, streamId) <==> r.done
  {
    hide DataIn, Reading, ControlFrames, Truncate, Flatten;
    FlattenConcat(chunks, r.chunks);
    assert forall f :: f in news + found <==> f in news || f in found;
    assert Reading(s2).frames == Reading(s0).frames + (news + found);
  }

  /** The records of a request: its headers, then its body. */
  function HeaderRecords(streamId: nat, authority: bytes, path: bytes, contentLength: nat): seq<bytes> {
    Chunks(FrameText(HEADERS, END_HEADERS, streamId, PostBlock(authority, path, contentLength)), MAX_PLAINTEXT_SIZE)
  }

  function RequestRecords(streamId: nat, authority: bytes, path: bytes, body: bytes): seq<bytes> {
    HeaderRecords(streamId, authority, path, |body|) + BodyFrames(streamId, body)
  }

  /** How the peer reads a request: one HEADERS frame whose block decodes to the fields meant,
      then DATA frames that add up to the body, the last of which ends the stream. */
  lemma RequestIsRead(streamId: nat, authority: bytes, path: bytes, body: bytes)
    requires streamId < 0x8000_0000 && |body| < U64 && |PostBlock(authority, path, |body|)| <= BLOCK_MAX
    ensures var block, records := PostBlock(authority, path, |body|), RequestRecords(streamId, authority, path, body);
            var parts := Chunks(body, BODY_CHUNK);
            && |records| == 1 + |parts| && Flatten(parts) == body
            && ViewOf(records[0]) == Some(View(1, 4, streamId, block))
            && DecodeFields(block, 6) == Some(PostFields(authority, path, |body|))
            && forall i :: 0 <= i < |parts| ==>
                 ViewOf(records[i + 1]) == Some(View(0, if i == |parts| - 1 then 1 else 0, streamId, parts[i]))
  {
    hide ViewOf, FrameText, Chunks, PostBlock, PostFields, DecodeFields, BodyFrames, Flatten;
    var block := PostBlock(authority, path, |body|);
    FrameTextLength(HEADERS, END_HEADERS, streamId, block);
    OneChunk(FrameText(HEADERS, END_HEADERS, streamId, block), MAX_PLAINTEXT_SIZE);
    HeadersAreRead(streamId, block);
    PostBlockDecodes(authority, path, |body|);
    BodyFramesAreRead(streamId, body);
  }

  lemma BodyFramesAreRead(streamId: nat, body: bytes)
    requires streamId < 0x8000_0000
    ensures var parts, frames := Chunks(body, BODY_CHUNK), BodyFrames(streamId, body);
            && |frames| == |parts|
            && forall i :: 0 <= i < |parts| ==>
                 ViewOf(frames[i]) == Some(View(0, if i == |parts| - 1 then 1 else 0, streamId, parts[i]))
  {
    hide ViewOf, DataText, Chunks;
    var parts, frames := Chunks(body, BODY_CHUNK), BodyFrames(streamId, body);
    forall i | 0 <= i < |parts|
      ensures ViewOf(frames[i]) == Some(View(0, if i == |parts| - 1 then 1 else 0, streamId, parts[i]))
    {
      ChunksAreFull(body, BODY_CHUNK, i);
      BodyIsRead(streamId, parts[i], (i + 1) * BODY_CHUNK >= |body|);
    }
  }

  /** How the peer reads the greeting: 24 bytes that announce HTTP/2, and the settings. */
  lemma GreetingIsRead()
    ensures |Greeting()| >= 24 && Greeting()[..24] == Ascii("PRI * HTTP/2.0\r\n\r\nSM\r\n\r\n")
    ensures var v := ViewOf(Greeting()[24..]);
            && v.Some? && v.value.kind == 4 && v.value.flags == 0 && v.value.stream == 0
            && SettingsIn(v.value.payload) == [(1, 0), (2, 0), (4, 16384), (5, 16384)]
  {
    hide ViewOf, SettingsText, SettingsIn;
    SettingsAreRead(INITIAL_WINDOW, MAX_FRAME);
    assert Greeting()[24..] == SettingsText(INITIAL_WINDOW, MAX_FRAME);
    assert Greeting()[..24] == PREFACE;
  }

  lemma OneChunk<T>(s: seq<T>, n: nat)
    requires 0 < |s| <= n
    ensures Chunks(s, n) == [s]
  {
  }

  lemma DataTextLength(streamId: nat, payload: bytes, last: bool)
    ensures |DataText(streamId, payload, last)| == FRAME_HEADER_LEN + |payload|
  {
  }

  lemma NothingCounted(aead: Aead, key: bytes)
    ensures DataCount([]) == 0 && Flatten(Records(aead, key, 0, [])) == []
  {
  }

  lemma RecordsSnoc(aead: Aead, key: bytes, sent: seq<bytes>, piece: bytes)
    ensures Flatten(Records(aead, key, 0, sent + [piece]))
         == Flatten(Records(aead, key, 0, sent)) + Record(aead, key, |sent|, piece)
  {
    hide Record;
    var r := Record(aead, key, |sent|, piece);
    assert Records(aead, key, 0, sent + [piece]) == Records(aead, key, 0, sent) + [r];
    FlattenSnoc(Records(aead, key, 0, sent), r);
  }
}
