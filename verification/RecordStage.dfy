/** The receive half of the control connection: ciphertext staged in one fixed buffer,
    plaintext in another, both compacted in place. */
module RecordStage {
  import opened Bytes
  import opened Framing
  import opened Crypto
  import opened Noise

  const RAW: nat := 2 * MAX_MESSAGE_SIZE

  datatype StageError = Io | Noise | Server | TooLarge

  /** The socket: bytes in flight, which arrive in whatever pieces the network chooses.
      Only the contract of `Read` is used, so results hold for every choice. */
  class Socket {
    var incoming: bytes
    /** Everything written to it. */
    var outgoing: bytes

    constructor (incoming: bytes)
      ensures this.incoming == incoming && outgoing == []
    {
      this.incoming, outgoing := incoming, [];
    }

    /** Up to `room` bytes; nothing only at the end of the stream. `None` is an error. */
    method Read(room: nat) returns (data: Option<bytes>)
      requires room > 0
      modifies `incoming
      ensures data.None? ==> incoming == old(incoming)
      ensures data.Some? ==> data.value + incoming == old(incoming) && |data.value| <= room
      ensures data.Some? && data.value == [] ==> incoming == []
    {
      if * {
        return None;
      }
      if incoming == [] {
        return Some([]);
      }
      var n: nat :| 0 < n <= room && n <= |incoming|;
      data := Some(incoming[..n]);
      incoming := incoming[n..];
    }

    /** Writes all of `data`, or fails after any part of it. */
    method WriteAll(data: bytes) returns (ok: bool)
      modifies `outgoing
      ensures old(outgoing) <= outgoing <= old(outgoing) + data
      ensures ok ==> outgoing == old(outgoing) + data
    {
      ok := true;
      var n := |data|;
      if * {
        ok := false;
        n :| 0 <= n <= |data|;
      }
      outgoing := outgoing + data[..n];
    }
  }

  /** Ciphertext received, split into the records already drained and the rest. */
  class Stage {
    const session: Session
    const pending: array<byte>
    var pendingLen: nat
    var pendingPos: nat
    const raw: array<byte>
    var rawLen: nat

    /** Everything ever staged, the records drained from it, the plaintext they held,
        and how much of that has been consumed. */
    ghost var received: bytes
    ghost var records: seq<bytes>
    ghost var plain: bytes
    ghost var taken: nat

    ghost predicate Shape()
      reads `pendingLen, `pendingPos, `rawLen
    {
      && pending.Length == MAX_MESSAGE_SIZE && raw.Length == RAW && pending != raw
      && pendingPos <= pendingLen <= MAX_MESSAGE_SIZE && rawLen <= RAW
    }

    /** The state while records are being drained from position `at` on, the first `ahead` of them
        opened already. */
    ghost predicate Opened(at: nat, ahead: nat)
      reads `pendingLen, `pendingPos, `rawLen, `records, `plain, `received, `taken, session`rxNonce, pending, raw
    {
      && Shape() && at <= rawLen && session.Valid()
      && AllExact(NOISE, records) && session.rxNonce == |records| + ahead
      && OpenAll(session.aead, session.rx, records) == Some(plain)
      && taken <= |plain| && pending[pendingPos..pendingLen] == plain[taken..]
      && pendingLen - pendingPos + TAG_LEN <= MAX_MESSAGE_SIZE
      && received == Flatten(records) + raw[at..rawLen]
    }

    ghost predicate Draining(at: nat)
      reads `pendingLen, `pendingPos, `rawLen, `records, `plain, `received, `taken, session`rxNonce, pending, raw
    {
      Opened(at, 0)
    }

    ghost predicate Valid()
      reads `pendingLen, `pendingPos, `rawLen, `records, `plain, `received, `taken, session`rxNonce, pending, raw
    {
      Draining(0)
    }

    /** The unread part of the plaintext buffer. */
    ghost function Unread(): bytes
      reads `pendingLen, `pendingPos, `rawLen, pending
      requires Shape()
    {
      pending[pendingPos..pendingLen]
    }

    /** What is unread is the plaintext not yet consumed. */
    lemma UnreadIsPlain()
      requires Valid()
      ensures Shape() && taken <= |plain| && Unread() == plain[taken..]
      ensures |Unread()| == pendingLen - pendingPos && |Unread()| + TAG_LEN <= MAX_MESSAGE_SIZE
    {
    }

    /** No more plaintext has been consumed than ciphertext was received. */
    lemma TakenFits()
      requires Valid()
      ensures taken <= |received|
    {
      PlainFits(session.aead, session.rx, records);
    }

    constructor (session: Session)
      requires session.Valid() && session.rxNonce == 0
      ensures Valid() && this.session == session && fresh(pending) && fresh(raw)
      ensures received == [] && records == [] && plain == [] && taken == 0 && rawLen == 0
    {
      this.session := session;
      pending := new byte[MAX_MESSAGE_SIZE];
      raw := new byte[RAW];
      pendingLen, pendingPos, rawLen := 0, 0, 0;
      received, records, plain, taken := [], [], [], 0;
    }

    /** Moves unread plaintext to the front of its buffer. */
    method Reclaim()
      requires Valid()
      modifies `pendingLen, `pendingPos, pending
      ensures Valid() && pendingPos == 0 && Unread() == old(Unread())
    {
      hide OpenAll, Flatten, AllExact;
      if pendingPos > 0 {
        ghost var unread := pending[pendingPos..pendingLen];
        forall i | 0 <= i < pendingLen - pendingPos { pending[i] := pending[pendingPos + i]; }
        pendingLen := pendingLen - pendingPos;
        pendingPos := 0;
        assert pending[pendingPos..pendingLen] == unread;
      }
    }

    /** Decrypts a complete staged record into a buffer of its own. */
    method OpenStaged(at: nat, len: nat, ghost record: bytes)
      returns (r: Result<nat, StageError>, body: array<byte>)
      requires Shape() && session.Valid() && len <= MAX_CIPHERTEXT_SIZE
      requires at + HEADER_LEN + len <= rawLen && record == raw[at..at + HEADER_LEN + len]
      requires record[0] != MSG_TYPE_ERROR
      modifies session`rxNonce
      ensures fresh(body) && session.Valid()
      ensures match Opens(session.aead, session.rx, old(session.rxNonce), record)
              case Some(p) =>
                && r.Ok? && r.value + TAG_LEN == len && r.value <= body.Length && body[..r.value] == p
                && session.rxNonce == old(session.rxNonce) + 1
              case None => r == Err(StageError.Noise)
    {
      body := new byte[MAX_CIPHERTEXT_SIZE];
      forall i | 0 <= i < len { body[i] := raw[at + HEADER_LEN + i]; }
      assert body[..len] == record[HEADER_LEN..];
      var read := session.ReadRecord(body, len);
      r := if read.Ok? then Ok(read.value) else Err(StageError.Noise);
    }

    /** Drains the complete record at `at`, whose plaintext is known to fit. */
    method DrainOne(at: nat, len: nat, ghost rest: bytes) returns (r: Result<nat, StageError>)
      requires Draining(at) && rest == raw[at..rawLen] && Whole(NOISE, rest)
      requires |rest| >= HEADER_LEN && len == PayloadLen(rest) && pendingLen + len <= MAX_MESSAGE_SIZE
      requires rest[0] != MSG_TYPE_ERROR
      modifies `pendingLen, `records, `plain, session`rxNonce, pending
      ensures Shape() && session.Valid() && taken == old(taken) && received == old(received)
      ensures |rest| >= HEADER_LEN + len
      ensures var record := rest[..HEADER_LEN + len];
              match Opens(session.aead, session.rx, |old(records)|, record)
              case Some(p) =>
                && r == Ok(at + HEADER_LEN + len) && Draining(r.value)
                && records == old(records) + [record] && plain == old(plain) + p
              case None =>
                r == Err(StageError.Noise) && records == old(records) && plain == old(plain)
    {
      hide Flatten, AllExact, OpenAll, Exact, Whole, FrameLen, Opens;
      RecordLen(rest);
      ghost var record := rest[..HEADER_LEN + len];
      assert record == raw[at..at + HEADER_LEN + len];
      var opening, body := OpenStaged(at, len, record);
      if opening.Err? {
        return opening;
      }
      Keep(at, len, body, opening.value, rest);
      r := Ok(at + HEADER_LEN + len);
    }

    /** Moves past a record that has been opened, and keeps its plaintext. */
    method Keep(at: nat, len: nat, body: array<byte>, n: nat, ghost rest: bytes)
      requires Opened(at, 1) && rest == raw[at..rawLen] && Whole(NOISE, rest)
      requires |rest| >= HEADER_LEN + len && FrameLen(NOISE, rest) == HEADER_LEN + len
      requires n + TAG_LEN == len && pendingLen + len <= MAX_MESSAGE_SIZE && n <= body.Length
      requires body != pending && body != raw
      requires Opens(session.aead, session.rx, |records|, rest[..HEADER_LEN + len]) == Some(body[..n])
      modifies `pendingLen, `records, `plain, pending
      ensures Draining(at + HEADER_LEN + len)
      ensures records == old(records) + [rest[..HEADER_LEN + len]] && plain == old(plain) + body[..n]
    {
      hide Flatten, AllExact, OpenAll, Exact, Whole, FrameLen, Opens;
      ghost var record, clear := rest[..HEADER_LEN + len], body[..n];
      RecordDrained(session.aead, session.rx, records, plain, record, received, rest);
      AppendPlain(body, n);
      assert plain[taken..] + clear == (plain + clear)[taken..];
      records, plain := records + [record], plain + clear;
      assert raw[at + HEADER_LEN + len..rawLen] == rest[|record|..];
    }

    /** Adds a record's plaintext to what is unread. */
    method AppendPlain(body: array<byte>, n: nat)
      requires Shape() && n <= body.Length && pendingLen + n <= MAX_MESSAGE_SIZE
      requires body != pending && body != raw
      modifies `pendingLen, pending
      ensures Shape() && Unread() == old(Unread()) + body[..n] && pendingLen == old(pendingLen) + n
    {
      ghost var unread := Unread();
      forall i | 0 <= i < n { pending[pendingLen + i] := body[i]; }
      pendingLen := pendingLen + n;
      assert pending[pendingPos..pendingLen] == unread + body[..n];
    }

    /** Moves the ciphertext from `at` on to the front of its buffer. */
    method Compact(at: nat)
      requires Draining(at)
      modifies `rawLen, raw
      ensures Valid() && raw[..rawLen] == old(raw[at..rawLen])
    {
      hide OpenAll, Flatten, AllExact;
      ghost var staged := raw[at..rawLen];
      forall i | 0 <= i < rawLen - at { raw[i] := raw[at + i]; }
      rawLen := rawLen - at;
      assert raw[..rawLen] == raw[0..rawLen] == staged;
    }

    /** Nothing more can be drained. */
    ghost predicate Blocked()
      reads `pendingLen, `pendingPos, `rawLen, raw
      requires Shape()
    {
      NoRoomFor(raw[..rawLen], pendingLen)
    }

    /** Drains records until the next one is incomplete or has no room, or stops at one that is
        broken. */
    method DrainRecords() returns (r: Result<(), StageError>)
      requires Valid()
      modifies `pendingLen, `pendingPos, `rawLen, `records, `plain, session`rxNonce, pending, raw
      ensures Shape() && session.Valid() && received == old(received) && taken == old(taken)
      ensures old(records) <= records && old(plain) <= plain
      ensures r.Ok? ==> Valid() && pendingPos == 0 && Blocked()
      ensures r.Err? ==> r.error != Io && Broken(session.aead, session.rx, received, |records|, r.error)
    {
      hide Draining, Broken, NoRoomFor, Opens, Whole, Stuck;
      Reclaim();
      var at: nat := 0;
      InShape(at);
      while rawLen - at >= HEADER_LEN
        invariant Draining(at) && Shape() && session.Valid() && at <= rawLen
        invariant pendingPos == 0 && rawLen == old(rawLen)
        invariant received == old(received) && taken == old(taken)
        invariant old(records) <= records && old(plain) <= plain
      {
        ghost var rest := raw[at..rawLen];
        var len := raw[at + 1] as int * 256 + raw[at + 2];
        HeaderAt(at, rest);
        if len > MAX_CIPHERTEXT_SIZE {
          return Err(TooLarge);
        }
        if rawLen - at < HEADER_LEN + len {
          break;
        }
        if raw[at] == MSG_TYPE_ERROR {
          return Err(Server);
        }
        if pendingLen + len > MAX_MESSAGE_SIZE {
          break;
        }
        var next := DrainOne(at, len, rest);
        if next.Err? {
          return Err(next.error);
        }
        at := next.value;
        InShape(at);
      }
      ShortIsUnfinished(raw[at..rawLen], pendingLen);
      Compact(at);
      InShape(0);
      r := Ok(());
    }

    lemma InShape(at: nat)
      requires Draining(at)
      ensures Shape() && session.Valid() && at <= rawLen
    {
    }

    /** What the header of the record at `at` decides. */
    lemma HeaderAt(at: nat, rest: bytes)
      requires Draining(at) && rawLen - at >= HEADER_LEN && rest == raw[at..rawLen]
      ensures Shape() && at <= rawLen && PayloadLen(rest) == raw[at + 1] as int * 256 + raw[at + 2]
      ensures var len, k := PayloadLen(rest), |records|;
              && (len > MAX_CIPHERTEXT_SIZE ==> Broken(session.aead, session.rx, received, k, TooLarge))
              && (len <= MAX_CIPHERTEXT_SIZE && |rest| < HEADER_LEN + len ==> NoRoomFor(rest, pendingLen))
              && (len <= MAX_CIPHERTEXT_SIZE && |rest| >= HEADER_LEN + len ==>
                    && Whole(NOISE, rest)
                    && (rest[0] == MSG_TYPE_ERROR ==> Broken(session.aead, session.rx, received, k, Server))
                    && (rest[0] != MSG_TYPE_ERROR && pendingLen + len > MAX_MESSAGE_SIZE ==>
                          NoRoomFor(rest, pendingLen))
                    && (rest[0] != MSG_TYPE_ERROR
                        && Opens(session.aead, session.rx, k, rest[..HEADER_LEN + len]).None? ==>
                          Broken(session.aead, session.rx, received, k, StageError.Noise)))
    {
      hide OpenAll, AllExact, Flatten, Broken, Opens, Whole, Stuck, FrameLen;
      RecordLen(rest);
      NextIsBroken(session.aead, session.rx, received, records, rest);
    }

    /** Puts bytes behind the staged ciphertext. */
    method Append(data: bytes)
      requires Valid() && rawLen + |data| <= RAW
      modifies `rawLen, `received, raw
      ensures Valid() && received == old(received) + data
    {
      hide OpenAll, AllExact, Flatten;
      ghost var staged := raw[..rawLen];
      assert raw[0..rawLen] == staged;
      forall i | 0 <= i < |data| { raw[rawLen + i] := data[i]; }
      rawLen := rawLen + |data|;
      assert raw[0..rawLen] == staged + data;
      assert Flatten(records) + (staged + data) == Flatten(records) + staged + data;
      received := received + data;
    }

    /** Stages ciphertext that was read together with the handshake response. */
    method Absorb(data: bytes) returns (r: Result<(), StageError>)
      requires Valid()
      modifies `pendingLen, `pendingPos, `rawLen, `records, `plain, `received, session`rxNonce, pending, raw
      ensures Shape() && session.Valid() && taken == old(taken)
      ensures old(records) <= records && old(plain) <= plain
      ensures if old(rawLen) + |data| > RAW then r == Err(TooLarge) && received == old(received)
              else received == old(received) + data
                   && (r.Ok? ==> Valid() && pendingPos == 0 && Blocked())
                   && (r.Err? ==> Broken(session.aead, session.rx, received, |records|, r.error))
    {
      hide OpenAll, AllExact, Flatten, Broken;
      if rawLen + |data| > RAW {
        return Err(TooLarge);
      }
      Append(data);
      r := DrainRecords();
    }

    /** Hands on the first `n` unread bytes. */
    method Consume(n: nat) returns (data: bytes)
      requires Valid() && n <= pendingLen - pendingPos
      modifies `pendingPos, `taken
      ensures Valid() && taken == old(taken) + n
      ensures data == old(Unread())[..n] && Unread() == old(Unread())[n..]
    {
      hide OpenAll, AllExact, Flatten;
      ghost var unread := Unread();
      data := pending[pendingPos..pendingPos + n];
      assert data == unread[..n];
      pendingPos := pendingPos + n;
      assert Unread() == unread[n..];
      taken := taken + n;
      assert plain[taken..] == unread[n..];
    }

    /** Returns with more unread plaintext than before, or an error. Entered with nothing
        unread, it fails for want of room only if the peer announces an illegal record. */
    method Pump(socket: Socket) returns (r: Result<(), StageError>)
      requires Valid()
      modifies `pendingLen, `pendingPos, `rawLen, `records, `plain, `received, session`rxNonce, pending, raw,
               socket`incoming
      ensures Shape() && session.Valid() && taken == old(taken)
      ensures old(records) <= records && old(plain) <= plain
      ensures received + socket.incoming == old(received + socket.incoming)
      ensures r.Ok? ==> Valid() && pendingPos == 0 && pendingLen > old(pendingLen - pendingPos)
      ensures r == Err(Io) ==> Valid() && plain == old(plain)
      ensures r.Err? && r.error != Io && !Broken(session.aead, session.rx, received, |records|, r.error) ==>
                && r.error == TooLarge && Valid() && plain == old(plain) && old(pendingPos < pendingLen)
                && Crowded(received, |records|, |plain| - taken)
    {
      hide Draining, Broken, NoRoomFor;
      InShape(0);
      UnreadIsPlain();
      ghost var was := plain;
      var before := pendingLen - pendingPos;
      r := DrainRecords();
      if r.Err? || pendingLen - pendingPos > before {
        return;
      }
      while true
        invariant Valid() && Shape() && session.Valid()
        invariant pendingPos == 0 && pendingLen <= before && Blocked()
        invariant received + socket.incoming == old(received + socket.incoming)
        invariant taken == old(taken) && old(records) <= records && old(plain) <= plain
        decreases |socket.incoming|
      {
        if pendingLen == 0 {
          EmptyNeverFull();
        }
        SamePlain(was, before);
        if rawLen == raw.Length {
          FullIsCrowded();
          return Err(TooLarge);
        }
        ghost var got, flying := received, socket.incoming;
        var data := socket.Read(raw.Length - rawLen);
        if data.None? || data.value == [] {
          return Err(Io);
        }
        assert got + flying == got + data.value + socket.incoming;
        Append(data.value);
        InShape(0);
        r := DrainRecords();
        if r.Err? || pendingLen - pendingPos > before {
          return;
        }
      }
    }

    lemma SamePlain(was: bytes, unread: int)
      requires Valid() && was <= plain && taken <= |was| && |was| - taken == unread
      requires pendingLen - pendingPos <= unread
      ensures plain == was
    {
      assert pendingLen - pendingPos == |pending[pendingPos..pendingLen]|;
    }

    /** A full buffer starts with a record that has no room. */
    lemma FullIsCrowded()
      requires Valid() && pendingPos == 0 && Blocked() && rawLen == raw.Length
      ensures taken <= |plain| && Crowded(received, |records|, |plain| - taken)
    {
      hide OpenAll, AllExact, Exact;
      var staged := raw[0..rawLen];
      assert staged == raw[..rawLen];
      RecordLen(staged);
      CutUnique(NOISE, records, staged);
      CutHead(staged);
      assert pendingLen == |pending[pendingPos..pendingLen]|;
    }

    /** With no plaintext waiting, what stays staged is less than one record. */
    lemma EmptyNeverFull()
      requires Shape() && Blocked() && pendingLen == 0
      ensures rawLen < MAX_MESSAGE_SIZE
    {
    }
  }

  /** Why draining stopped with an error after `k` records: the next one announces too
      much, or is complete and reports an error, or is complete and does not open. */
  ghost predicate Broken(aead: Aead, key: bytes, received: bytes, k: nat, error: StageError) {
    var found := Cut(NOISE, received);
    match error
    case Io => false
    case TooLarge => Stuck(NOISE, found.rest) && k == |found.frames|
    case Server => k < |found.frames| && Refuses(found.frames[k])
    case Noise => k < |found.frames| && !Refuses(found.frames[k]) && Opens(aead, key, k, found.frames[k]).None?
  }

  /** The record after `k` others has arrived whole, and with `used` bytes of plaintext unread
      there is no room for its ciphertext. */
  ghost predicate Crowded(received: bytes, k: nat, used: nat) {
    var found := Cut(NOISE, received);
    k < |found.frames| && used + |found.frames[k]| - HEADER_LEN > MAX_MESSAGE_SIZE
  }

  /** A record by which the peer reports an error. */
  predicate Refuses(record: bytes) {
    record != [] && record[0] == MSG_TYPE_ERROR
  }

  lemma NextIsBroken(aead: Aead, key: bytes, received: bytes, records: seq<bytes>, staged: bytes)
    requires AllExact(NOISE, records) && received == Flatten(records) + staged
    ensures Stuck(NOISE, staged) ==> Broken(aead, key, received, |records|, TooLarge)
    ensures Whole(NOISE, staged) && staged[0] == MSG_TYPE_ERROR ==> Broken(aead, key, received, |records|, Server)
    ensures Whole(NOISE, staged) && staged[0] != MSG_TYPE_ERROR
            && Opens(aead, key, |records|, staged[..FrameLen(NOISE, staged)]).None? ==>
              Broken(aead, key, received, |records|, StageError.Noise)
  {
    hide Opens, AllExact, Exact, Cut, Whole, Stuck, FrameLen, Flatten;
    CutUnique(NOISE, records, staged);
    CutHead(staged);
  }

  lemma CutHead(s: bytes)
    ensures Stuck(NOISE, s) ==> Cut(NOISE, s) == Parsed([], s)
    ensures Whole(NOISE, s) ==>
              && |s| >= HEADER_LEN && 0 < FrameLen(NOISE, s) <= |s|
              && Cut(NOISE, s).frames != [] && Cut(NOISE, s).frames[0] == s[..FrameLen(NOISE, s)]
  {
    hide PayloadLen;
  }

  /** Nothing can be drained from `staged` into a buffer with `used` bytes in it: its first
      record is incomplete, or it is no error record and its plaintext may not fit. */
  ghost predicate NoRoomFor(staged: bytes, used: nat) {
    && !Stuck(NOISE, staged)
    && (Whole(NOISE, staged) ==>
          |staged| >= HEADER_LEN && staged[0] != MSG_TYPE_ERROR && used + PayloadLen(staged) > MAX_MESSAGE_SIZE)
  }

  lemma ShortIsUnfinished(s: bytes, used: nat)
    ensures |s| < HEADER_LEN ==> NoRoomFor(s, used)
  {
  }

  /** Moving one record from the staged ciphertext to the drained ones. */
  lemma RecordDrained(aead: Aead, key: bytes, records: seq<bytes>, plain: bytes, record: bytes,
                      received: bytes, staged: bytes)
    requires AllExact(NOISE, records) && OpenAll(aead, key, records) == Some(plain)
    requires received == Flatten(records) + staged && Whole(NOISE, staged)
    requires record == staged[..FrameLen(NOISE, staged)]
    requires Opens(aead, key, |records|, record).Some?
    ensures AllExact(NOISE, records + [record])
    ensures OpenAll(aead, key, records + [record])
         == Some(plain + Opens(aead, key, |records|, record).value)
    ensures received == Flatten(records + [record]) + staged[|record|..]
  {
    hide Opens, Exact;
    FirstIsExact(NOISE, staged);
    assert (records + [record])[..|records|] == records;
    FlattenSnoc(records, record);
    assert staged == record + staged[|record|..];
  }

  /** End to end: whatever has been consumed, what is unread, and the plaintext of the
      records still staged or in flight add up to exactly what the peer sent. */
  lemma EndToEnd(stage: Stage, chunks: seq<bytes>, later: bytes)
    requires stage.Valid() && |chunks| < U64
    requires forall i :: 0 <= i < |chunks| ==> |chunks[i]| <= MAX_PLAINTEXT_SIZE
    requires stage.received + later == Flatten(Records(stage.session.aead, stage.session.rx, 0, chunks))
    ensures stage.session.rxNonce == |stage.records| <= |chunks|
    ensures stage.plain[..stage.taken] + stage.Unread() + Flatten(chunks[|stage.records|..]) == Flatten(chunks)
    ensures stage.raw[..stage.rawLen] + later
         == Flatten(Records(stage.session.aead, stage.session.rx, |stage.records|, chunks[|stage.records|..]))
  {
    hide OpenAll, Record, Exact, Aead.Correct, Flatten;
    var aead, key := stage.session.aead, stage.session.rx;
    var staged := stage.raw[..stage.rawLen];
    assert staged == stage.raw[0..stage.rawLen];
    DrainedArePrefix(aead, key, chunks, stage.records, staged, later);
    var k := |stage.records|;
    OpenAllUndoes(aead, key, chunks[..k]);
    FlattenConcat(chunks[..k], chunks[k..]);
    assert chunks == chunks[..k] + chunks[k..];
    assert stage.plain == stage.plain[..stage.taken] + stage.Unread();
  }

  lemma RecordsSplit(aead: Aead, key: bytes, chunks: seq<bytes>, k: nat)
    requires k <= |chunks|
    ensures Records(aead, key, 0, chunks)
         == Records(aead, key, 0, chunks[..k]) + Records(aead, key, k, chunks[k..])
  {
  }

  lemma CancelPrefix(first: bytes, a: bytes, b: bytes, whole: bytes)
    requires first + a + b == first + whole
    ensures a + b == whole
  {
    assert (first + a + b)[|first|..] == a + b && (first + whole)[|first|..] == whole;
  }

  lemma DrainedArePrefix(aead: Aead, key: bytes, chunks: seq<bytes>, records: seq<bytes>, staged: bytes, later: bytes)
    requires aead.Correct() && |chunks| < U64 && AllExact(NOISE, records)
    requires forall i :: 0 <= i < |chunks| ==> |chunks[i]| <= MAX_PLAINTEXT_SIZE
    requires Flatten(records) + staged + later == Flatten(Records(aead, key, 0, chunks))
    ensures |records| <= |chunks| && records == Records(aead, key, 0, chunks[..|records|])
    ensures staged + later == Flatten(Records(aead, key, |records|, chunks[|records|..]))
  {
    hide OpenAll, Record, Exact, Aead.Correct, Flatten;
    var received, k := Flatten(records) + staged, |records|;
    ReceivedIsPrefixOfSent(aead, key, chunks, received, later);
    CutUnique(NOISE, records, staged);
    assert records == Cut(NOISE, received).frames[..k] == Records(aead, key, 0, chunks[..k]);
    RecordsSplit(aead, key, chunks, k);
    FlattenConcat(records, Records(aead, key, k, chunks[k..]));
    CancelPrefix(Flatten(records), staged, later, Flatten(Records(aead, key, k, chunks[k..])));
  }

  /** A peer that only sends well-formed records is never found to be broken. */
  lemma HonestPeerIsNotBroken(aead: Aead, key: bytes, chunks: seq<bytes>, received: bytes, later: bytes,
                              k: nat, error: StageError)
    requires aead.Correct() && |chunks| < U64
    requires forall i :: 0 <= i < |chunks| ==> |chunks[i]| <= MAX_PLAINTEXT_SIZE
    requires received + later == Flatten(Records(aead, key, 0, chunks))
    ensures !Broken(aead, key, received, k, error)
  {
    hide OpenAll, Record, Exact, Opens, Stuck;
    ReceivedIsPrefixOfSent(aead, key, chunks, received, later);
    if k < |Cut(NOISE, received).frames| {
      RecordIsExact(aead, key, k, chunks[k]);
      OpenedIsNoRefusal(aead, key, k, Cut(NOISE, received).frames[k]);
    }
  }

  /** On a wire of legal records: what has been drained, and the size of the record that would
      be next. */
  lemma DrainedOfSent(stage: Stage, chunks: seq<bytes>, later: bytes)
    requires stage.Valid() && |chunks| < U64
    requires forall i :: 0 <= i < |chunks| ==> |chunks[i]| <= MAX_PLAINTEXT_SIZE
    requires stage.received + later == Flatten(Records(stage.session.aead, stage.session.rx, 0, chunks))
    ensures var n := |stage.records|;
            && n <= |chunks| && stage.plain == Flatten(chunks[..n])
            && (n < |Cut(NOISE, stage.received).frames| ==>
                  n < |chunks| && |Cut(NOISE, stage.received).frames[n]| == HEADER_LEN + |chunks[n]| + TAG_LEN)
  {
    hide OpenAll, Record, Exact, Flatten, Stuck, Cut;
    var aead, key, n := stage.session.aead, stage.session.rx, |stage.records|;
    var staged := stage.raw[0..stage.rawLen];
    DrainedArePrefix(aead, key, chunks, stage.records, staged, later);
    OpenAllUndoes(aead, key, chunks[..n]);
    ReceivedIsPrefixOfSent(aead, key, chunks, stage.received, later);
    if n < |Cut(NOISE, stage.received).frames| {
      RecordLength(aead, key, n, chunks[n]);
    }
  }

  lemma RecordLength(aead: Aead, key: bytes, k: nat, plaintext: bytes)
    requires aead.Correct()
    ensures |Record(aead, key, k, plaintext)| == HEADER_LEN + |plaintext| + TAG_LEN
  {
  }

  lemma OpenedIsNoRefusal(aead: Aead, key: bytes, k: nat, record: bytes)
    ensures Opens(aead, key, k, record).Some? ==> !Refuses(record)
  {
  }

  /** No stall: on a wire of legal records, reading with nothing unread either brings more
      plaintext or ends because the socket does. */
  method PumpHonest(stage: Stage, socket: Socket, ghost chunks: seq<bytes>, ghost later: bytes)
    returns (r: Result<(), StageError>)
    requires stage.Valid() && stage.pendingPos == stage.pendingLen && |chunks| < U64
    requires forall i :: 0 <= i < |chunks| ==> |chunks[i]| <= MAX_PLAINTEXT_SIZE
    requires stage.received + socket.incoming + later == Flatten(Records(stage.session.aead, stage.session.rx, 0, chunks))
    modifies stage, stage.session`rxNonce, stage.pending, stage.raw, socket`incoming
    ensures stage.Valid() && stage.received + socket.incoming == old(stage.received + socket.incoming)
    ensures stage.taken == old(stage.taken) && old(stage.plain) <= stage.plain
    ensures r.Err? ==> r.error == Io
    ensures r.Ok? ==> stage.pendingPos < stage.pendingLen
  {
    hide Stage.Draining, OpenAll, Flatten, Broken, Records;
    HasAead(stage);
    r := stage.Pump(socket);
    if r.Err? && r.error != Io {
      assert stage.received + (socket.incoming + later) == stage.received + socket.incoming + later;
      HonestPeerIsNotBroken(stage.session.aead, stage.session.rx, chunks, stage.received, socket.incoming + later,
                            |stage.records|, r.error);
    }
  }

  lemma HasAead(stage: Stage)
    requires stage.Valid()
    ensures stage.session.aead.Correct()
  {
  }

  /** Plaintext never outgrows the ciphertext it came from. */
  lemma {:induction false} PlainFits(aead: Aead, key: bytes, records: seq<bytes>)
    requires aead.Correct() && OpenAll(aead, key, records).Some?
    ensures |OpenAll(aead, key, records).value| <= |Flatten(records)|
  {
    if records != [] {
      var k := |records| - 1;
      PlainFits(aead, key, records[..k]);
      FlattenSnoc(records[..k], records[k]);
      assert records == records[..k] + [records[k]];
    }
  }
}
