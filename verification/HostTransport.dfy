/** The host's Noise transport: the same records as the firmware's, in buffers that grow. */
module HostTransport {
  import opened Bytes
  import opened Framing
  import opened Crypto
  import opened Noise
  import opened RecordStage

  const COMPACT_AT: nat := 16 * 1024

  datatype HostError = Lost | TooLong | BadRecord | Refused | Unexpected | Truncated

  /** Noise records without the cap: what is already in memory is not measured again. */
  const LOOSE: Format := Format(
    HEADER_LEN, (h: bytes) => if |h| < HEADER_LEN then 0 else PayloadLen(h), (h: bytes) => true)

  lemma LooseLen(s: bytes)
    requires |s| >= HEADER_LEN
    ensures FrameLen(LOOSE, s) == HEADER_LEN + PayloadLen(s) && !Stuck(LOOSE, s)
    ensures Exact(LOOSE, s) <==> |s| == HEADER_LEN + PayloadLen(s)
    ensures Exact(NOISE, s) ==> Exact(LOOSE, s)
  {
  }

  lemma ExactIsLoose(records: seq<bytes>)
    requires AllExact(NOISE, records)
    ensures AllExact(LOOSE, records)
  {
  }

  /** Why the host turns a whole record down, if it does. */
  function Objection(aead: Aead, key: bytes, counter: nat, record: bytes): Option<HostError>
    requires |record| >= HEADER_LEN
  {
    if record[0] == MSG_TYPE_ERROR then Some(Refused)
    else if record[0] != MSG_TYPE_RECORD then Some(Unexpected)
    else if Opens(aead, key, counter, record).None? then Some(BadRecord)
    else None
  }

  /** By type: 3 is a refusal, only 4 is opened, and anything else is unexpected. */
  lemma ObjectionByType(aead: Aead, key: bytes, counter: nat, record: bytes)
    requires |record| >= HEADER_LEN
    ensures var o := Objection(aead, key, counter, record);
            && (o == Some(Refused) <==> record[0] == 3)
            && (o == Some(Unexpected) <==> record[0] != 3 && record[0] != 4)
            && (o == Some(BadRecord) <==> record[0] == 4 && Opens(aead, key, counter, record).None?)
            && (o == None <==> record[0] == 4 && Opens(aead, key, counter, record).Some?)
  {
  }

  /** Exactly `n` bytes, however they arrive, or none at all. */
  method ReadExact(stream: Socket, n: nat) returns (r: Option<bytes>)
    modifies stream`incoming
    ensures r.Some? ==> |r.value| == n && r.value + stream.incoming == old(stream.incoming)
  {
    var got: bytes := [];
    while |got| < n
      invariant |got| <= n && got + stream.incoming == old(stream.incoming)
    {
      var more := stream.Read(n - |got|);
      if more.None? || more.value == [] {
        return None;
      }
      got := got + more.value;
    }
    r := Some(got);
  }

  class NoiseTransport {
    const stream: Socket
    const session: Session
    var rx: bytes
    var rxPos: nat

    ghost var records: seq<bytes>
    ghost var plain: bytes
    ghost var taken: nat

    ghost predicate Valid()
      reads this, session`rxNonce
    {
      && session.Valid() && AllExact(LOOSE, records) && session.rxNonce == |records|
      && OpenAll(session.aead, session.rx, records) == Some(plain)
      && rxPos <= |rx| && taken <= |plain| && rx[rxPos..] == plain[taken..]
    }

    constructor (stream: Socket, session: Session)
      requires session.Valid() && session.rxNonce == 0
      ensures Valid() && this.stream == stream && this.session == session
      ensures records == [] && plain == [] && taken == 0
    {
      this.stream, this.session := stream, session;
      rx, rxPos := [], 0;
      records, plain, taken := [], [], 0;
    }

    /** The unread part of the buffer, which equals `plain[taken..]`. */
    function Buffered(): bytes
      reads this
      requires rxPos <= |rx|
    {
      rx[rxPos..]
    }

    /** Consumes plaintext; the buffer is emptied or compacted now and then. */
    method Consume(n: nat)
      requires Valid() && n <= |Buffered()|
      modifies `rx, `rxPos, `taken
      ensures Valid() && taken == old(taken) + n && Buffered() == old(Buffered())[n..]
    {
      hide AllExact, OpenAll;
      rxPos := rxPos + n;
      taken := taken + n;
      if rxPos == |rx| {
        rx, rxPos := [], 0;
      } else if rxPos > COMPACT_AT {
        rx, rxPos := rx[rxPos..], 0;
      }
    }

    /** Decrypts one whole record and appends its plaintext, or objects to it. */
    method Open(record: bytes) returns (r: Result<(), HostError>)
      requires Valid() && Exact(LOOSE, record)
      modifies `rx, `records, `plain, session`rxNonce
      ensures Valid()
      ensures var objection := Objection(session.aead, session.rx, |old(records)|, record);
              if objection.Some? then
                r == Err(objection.value) && records == old(records) && plain == old(plain) && rx == old(rx)
              else
                r == Ok(()) && records == old(records) + [record] && old(plain) <= plain
    {
      hide Exact, Session.Valid, OpenAll, AllExact;
      RecordSize(record);
      OneMoreExact(records, record);
      if record[0] == MSG_TYPE_ERROR {
        return Err(Refused);
      }
      if record[0] != MSG_TYPE_RECORD {
        return Err(Unexpected);
      }
      var len := |record| - HEADER_LEN;
      var body := new byte[len](i requires 0 <= i < len => record[HEADER_LEN + i]);
      assert body[..len] == record[HEADER_LEN..];
      var n := session.ReadRecord(body, len);
      if n.Err? {
        return Err(BadRecord);
      }
      var clear := body[..n.value];
      OpenOneMore(session.aead, session.rx, records, record);
      records := records + [record];
      plain := plain + clear;
      rx := rx + clear;
      assert plain[taken..] == old(plain)[taken..] + clear;
      assert rx[rxPos..] == old(rx)[rxPos..] + clear;
      r := Ok(());
    }

    /** One record off the stream, opened, or the reason why there is none. */
    method Pump() returns (r: Result<(), HostError>, ghost seen: bytes)
      requires Valid()
      modifies `rx, `records, `plain, session`rxNonce, stream`incoming
      ensures Valid() && taken == old(taken)
      ensures r.Ok? ==>
                && records == old(records) + [seen] && old(plain) <= plain
                && Exact(NOISE, seen) && Objection(session.aead, session.rx, |old(records)|, seen) == None
      ensures r.Err? ==> records == old(records) && plain == old(plain) && Buffered() == old(Buffered())
      ensures r != Err(Lost) ==> seen + stream.incoming == old(stream.incoming) && |seen| >= HEADER_LEN
      ensures r == Err(TooLong) ==> Stuck(NOISE, seen)
      ensures r.Err? && r.error != Lost && r.error != TooLong ==>
                Exact(NOISE, seen) && Objection(session.aead, session.rx, |old(records)|, seen) == Some(r.error)
    {
      hide Exact, Valid, Objection;
      seen := [];
      var header := ReadExact(stream, HEADER_LEN);
      if header.None? {
        return Err(Lost), seen;
      }
      seen := header.value;
      RecordLen(header.value);
      var len := PayloadLen(header.value);
      if len > MAX_CIPHERTEXT_SIZE {
        return Err(TooLong), seen;
      }
      var body := ReadExact(stream, len);
      if body.None? {
        return Err(Lost), seen;
      }
      var record := header.value + body.value;
      seen := record;
      WholeRecord(header.value, body.value);
      Sorts(session.aead, session.rx, |records|, record);
      r := Open(record);
    }

    /** Decrypts the records that came along with the handshake response: what it opens and
        how it ends, for any bytes. */
    method Absorb(coalesced: bytes) returns (r: Result<(), HostError>)
      requires Valid()
      modifies `rx, `records, `plain, session`rxNonce
      ensures Valid() && taken == old(taken) && old(plain) <= plain
      ensures var out := Absorbed(session.aead, session.rx, |old(records)|, coalesced);
              r == out.result && records == old(records) + out.records
    {
      hide Cut, Exact, Valid, Objection, CoalescedObjection, OpenedFrom, Absorbed, Continued, PayloadLen,
           FrameLen, Stuck;
      var left := coalesced;
      ghost var aead, key, counter, found := session.aead, session.rx, |records|, Cut(LOOSE, coalesced);
      ghost var k: nat := 0;
      AbsorbedFrom(aead, key, counter, coalesced, 0);
      assert found.frames[..0] == [];
      while |left| >= HEADER_LEN
        invariant Valid() && taken == old(taken) && old(plain) <= plain
        invariant k <= |found.frames| && records == old(records) + found.frames[..k]
        invariant Cut(LOOSE, left) == Parsed(found.frames[k..], found.rest)
        invariant Absorbed(aead, key, counter, coalesced) == Continued(aead, key, counter, found, k)
        decreases |left|
      {
        LooseLen(left);
        var n := HEADER_LEN + PayloadLen(left);
        if |left| < n {
          CutTooShort(left);
          NothingLeft(aead, key, counter, found, k);
          return Err(Truncated);
        }
        NextFrame(left, n, found, k);
        ContinuedOnce(aead, key, counter, found, k);
        if left[0] != MSG_TYPE_RECORD {
          OtherKind(aead, key, counter + k, left[..n]);
          return Err(Unexpected);
        }
        RecordKind(aead, key, counter + k, left[..n]);
        r := Open(left[..n]);
        if r.Err? {
          return;
        }
        k := k + 1;
        left := left[n..];
      }
      CutTooShort(left);
      NothingLeft(aead, key, counter, found, k);
      r := Ok(());
    }
  }

  // ---------------------------------------------------------------- what came with the handshake

  /** Why absorbing turns a whole record down: an error frame is no special case there. */
  function CoalescedObjection(aead: Aead, key: bytes, counter: nat, record: bytes): Option<HostError> {
    if |record| < HEADER_LEN || record[0] != MSG_TYPE_RECORD then Some(Unexpected)
    else Objection(aead, key, counter, record)
  }

  /** How many records open, one after the other, before the first objection. */
  function OpenedFrom(aead: Aead, key: bytes, counter: nat, frames: seq<bytes>): nat
    decreases |frames|
  {
    if frames == [] || CoalescedObjection(aead, key, counter, frames[0]).Some? then 0
    else 1 + OpenedFrom(aead, key, counter + 1, frames[1..])
  }

  /** How absorbing ends, and the records it opens on the way. */
  datatype Absorption = Absorption(result: Result<(), HostError>, records: seq<bytes>)

  /** The first objection ends it. Without one, a whole header at the end does. */
  function Continued(aead: Aead, key: bytes, counter: nat, found: Parsed, k: nat): Absorption
    requires k <= |found.frames|
  {
    var n := OpenedFrom(aead, key, counter + k, found.frames[k..]);
    OpenedInOrder(aead, key, counter + k, found.frames[k..]);
    var result :=
      if k + n < |found.frames| then Err(CoalescedObjection(aead, key, counter + k + n, found.frames[k + n]).value)
      else if |found.rest| >= HEADER_LEN then Err(Truncated)
      else Ok(());
    Absorption(result, found.frames[..k + n])
  }

  function Absorbed(aead: Aead, key: bytes, counter: nat, coalesced: bytes): Absorption {
    Continued(aead, key, counter, Cut(LOOSE, coalesced), 0)
  }

  /** Nothing before the end of the run is objected to, and something there is. */
  lemma {:induction false} OpenedInOrder(aead: Aead, key: bytes, counter: nat, frames: seq<bytes>)
    ensures var n := OpenedFrom(aead, key, counter, frames);
            && n <= |frames|
            && (forall k :: 0 <= k < n ==> CoalescedObjection(aead, key, counter + k, frames[k]) == None)
            && (n < |frames| ==> CoalescedObjection(aead, key, counter + n, frames[n]).Some?)
    decreases |frames|
  {
    hide CoalescedObjection;
    if frames != [] && CoalescedObjection(aead, key, counter, frames[0]).None? {
      OpenedInOrder(aead, key, counter + 1, frames[1..]);
      var n := OpenedFrom(aead, key, counter, frames);
      forall k | 0 <= k < n ensures CoalescedObjection(aead, key, counter + k, frames[k]) == None {
        assert k > 0 ==> frames[1..][k - 1] == frames[k];
      }
    }
  }

  lemma AbsorbedFrom(aead: Aead, key: bytes, counter: nat, coalesced: bytes, k: nat)
    requires k == 0
    ensures Absorbed(aead, key, counter, coalesced) == Continued(aead, key, counter, Cut(LOOSE, coalesced), k)
    ensures Cut(LOOSE, coalesced).frames[0..] == Cut(LOOSE, coalesced).frames
  {
  }

  /** The record that starts what is left is the next one found. */
  lemma NextFrame(left: bytes, n: nat, found: Parsed, k: nat)
    requires |left| >= HEADER_LEN && n == HEADER_LEN + PayloadLen(left) <= |left|
    requires k <= |found.frames| && Cut(LOOSE, left) == Parsed(found.frames[k..], found.rest)
    ensures Exact(LOOSE, left[..n]) && k < |found.frames| && found.frames[k] == left[..n]
    ensures Cut(LOOSE, left[n..]) == Parsed(found.frames[k + 1..], found.rest)
    ensures found.frames[..k + 1] == found.frames[..k] + [left[..n]]
  {
    hide Cut, Exact, PayloadLen;
    CutFirst(left, n);
    assert found.frames[k..][0] == left[..n] && found.frames[k..][1..] == found.frames[k + 1..];
  }

  lemma NothingLeft(aead: Aead, key: bytes, counter: nat, found: Parsed, k: nat)
    requires k <= |found.frames| && found.frames[k..] == []
    ensures Continued(aead, key, counter, found, k)
         == Absorption(if |found.rest| >= HEADER_LEN then Err(Truncated) else Ok(()), found.frames[..k])
  {
  }

  lemma ContinuedOnce(aead: Aead, key: bytes, counter: nat, found: Parsed, k: nat)
    requires k < |found.frames|
    ensures var objection := CoalescedObjection(aead, key, counter + k, found.frames[k]);
            Continued(aead, key, counter, found, k)
              == if objection.Some? then Absorption(Err(objection.value), found.frames[..k])
                 else Continued(aead, key, counter, found, k + 1)
  {
    hide CoalescedObjection;
    assert found.frames[k..][0] == found.frames[k] && found.frames[k..][1..] == found.frames[k + 1..];
  }

  lemma OtherKind(aead: Aead, key: bytes, counter: nat, record: bytes)
    requires |record| >= HEADER_LEN && record[0] != MSG_TYPE_RECORD
    ensures CoalescedObjection(aead, key, counter, record) == Some(Unexpected)
  {
  }

  lemma RecordKind(aead: Aead, key: bytes, counter: nat, record: bytes)
    requires |record| >= HEADER_LEN && record[0] == MSG_TYPE_RECORD
    ensures CoalescedObjection(aead, key, counter, record) == Objection(aead, key, counter, record)
  {
  }

  /** Every record opens where it stands. */
  ghost predicate AllOpen(aead: Aead, key: bytes, counter: nat, frames: seq<bytes>) {
    forall k :: 0 <= k < |frames| ==> CoalescedObjection(aead, key, counter + k, frames[k]) == None
  }

  /** When absorbing succeeds: all whole records open, and at most two bytes trail. */
  lemma AbsorbSucceeds(aead: Aead, key: bytes, counter: nat, coalesced: bytes)
    ensures var found, out := Cut(LOOSE, coalesced), Absorbed(aead, key, counter, coalesced);
            && (out.result.Ok? <==> AllOpen(aead, key, counter, found.frames) && |found.rest| < HEADER_LEN)
            && (out.result == Err(Truncated) <==>
                  AllOpen(aead, key, counter, found.frames) && |found.rest| >= HEADER_LEN)
            && (AllOpen(aead, key, counter, found.frames) ==> out.records == found.frames)
  {
    hide Cut, CoalescedObjection;
    var frames := Cut(LOOSE, coalesced).frames;
    assert frames[0..] == frames;
    OpenedInOrder(aead, key, counter, frames);
    var n := OpenedFrom(aead, key, counter, frames);
    if n < |frames| {
      Causes(aead, key, counter + n, frames[n]);
    }
  }

  lemma Causes(aead: Aead, key: bytes, counter: nat, record: bytes)
    ensures CoalescedObjection(aead, key, counter, record) in {None, Some(Unexpected), Some(BadRecord)}
  {
  }

  /** The bytes that came along are all decrypted or reported, except when every whole
      record opens and one or two bytes of a next one trail: those are lost unreported. */
  lemma AbsorbKeepsAll(aead: Aead, key: bytes, counter: nat, coalesced: bytes)
    ensures var found, out := Cut(LOOSE, coalesced), Absorbed(aead, key, counter, coalesced);
            && (out.result.Ok? && Flatten(out.records) != coalesced <==>
                  AllOpen(aead, key, counter, found.frames) && 0 < |found.rest| < HEADER_LEN)
            && (out.result.Ok? ==> Flatten(out.records) + found.rest == coalesced)
  {
    hide Cut, CoalescedObjection, Absorbed;
    AbsorbSucceeds(aead, key, counter, coalesced);
    CutCovers(LOOSE, coalesced);
  }

  /** The failing case, at any counter: the first byte of a record alone is accepted, and
      no record holds it. */
  method FirstByteIsDropped(transport: NoiseTransport) returns (r: Result<(), HostError>)
    requires transport.Valid()
    modifies transport, transport.session
    ensures r.Ok? && transport.Valid() && transport.records == old(transport.records)
  {
    CutTooShort([MSG_TYPE_RECORD]);
    NothingLeft(transport.session.aead, transport.session.rx, |transport.records|,
                Cut(LOOSE, [MSG_TYPE_RECORD]), 0);
    r := transport.Absorb([MSG_TYPE_RECORD]);
  }

  // ---------------------------------------------------------------- what counts as a record

  /** Firmware and host agree on a record unless it opens and is not of the record type:
      the firmware rules out error frames only. */
  lemma KindsThatDiffer(aead: Aead, key: bytes, counter: nat, record: bytes)
    requires |record| >= HEADER_LEN
    ensures (!Refuses(record) && Opens(aead, key, counter, record).Some? <==>
               Objection(aead, key, counter, record) == None)
            <==> record[0] == MSG_TYPE_RECORD || Opens(aead, key, counter, record).None?
  {
    OpenedIsNoRefusal(aead, key, counter, record);
  }

  /** The failing case: a legal record relabelled as type 5, which no key protects. */
  lemma RelabelledRecordDiffers(aead: Aead, key: bytes, counter: nat, plaintext: bytes)
    requires aead.Correct() && |plaintext| <= MAX_PLAINTEXT_SIZE && counter < U64 - 1
    ensures var record := Record(aead, key, counter, plaintext)[0 := 5];
            && Exact(NOISE, record) && !Refuses(record) && Opens(aead, key, counter, record) == Some(plaintext)
            && Objection(aead, key, counter, record) == Some(Unexpected)
  {
    RecordIsExact(aead, key, counter, plaintext);
    var legal := Record(aead, key, counter, plaintext);
    var record := legal[0 := 5];
    assert record[HEADER_LEN..] == legal[HEADER_LEN..];
    assert record[..HEADER_LEN][1..] == legal[..HEADER_LEN][1..];
  }

  lemma OneMoreExact(records: seq<bytes>, record: bytes)
    requires AllExact(LOOSE, records) && Exact(LOOSE, record)
    ensures AllExact(LOOSE, records + [record])
  {
  }

  lemma RecordSize(record: bytes)
    requires Exact(LOOSE, record)
    ensures |record| >= HEADER_LEN
  {
  }

  /** What an objection can be. */
  lemma Sorts(aead: Aead, key: bytes, counter: nat, record: bytes)
    requires |record| >= HEADER_LEN
    ensures var o := Objection(aead, key, counter, record);
            o.Some? ==> o.value == Refused || o.value == Unexpected || o.value == BadRecord
  {
  }

  lemma CutTooShort(s: bytes)
    requires |s| < HEADER_LEN || |s| < HEADER_LEN + PayloadLen(s)
    ensures Cut(LOOSE, s) == Parsed([], s)
  {
  }

  lemma CutFirst(s: bytes, n: nat)
    requires |s| >= HEADER_LEN && n == HEADER_LEN + PayloadLen(s) <= |s|
    ensures Exact(LOOSE, s[..n])
    ensures Cut(LOOSE, s) == Parsed([s[..n]] + Cut(LOOSE, s[n..]).frames, Cut(LOOSE, s[n..]).rest)
  {
  }

  lemma WholeRecord(header: bytes, body: bytes)
    requires |header| == HEADER_LEN && |body| == PayloadLen(header) <= MAX_CIPHERTEXT_SIZE
    ensures Exact(NOISE, header + body) && Exact(LOOSE, header + body)
  {
  }

  lemma OpenOneMore(aead: Aead, key: bytes, records: seq<bytes>, record: bytes)
    requires OpenAll(aead, key, records).Some? && Opens(aead, key, |records|, record).Some?
    ensures OpenAll(aead, key, records + [record])
         == Some(OpenAll(aead, key, records).value + Opens(aead, key, |records|, record).value)
  {
  }

  // ---------------------------------------------------------------- against the firmware

  lemma {:induction false} OpenAllOfPrefix(aead: Aead, key: bytes, records: seq<bytes>, k: nat)
    requires k <= |records| && OpenAll(aead, key, records).Some?
    ensures OpenAll(aead, key, records[..k]).Some?
    ensures OpenAll(aead, key, records[..k]).value <= OpenAll(aead, key, records).value
    decreases |records|
  {
    hide Opens;
    if k == |records| {
      assert records[..k] == records;
    } else {
      var n := |records| - 1;
      OpenAllOfPrefix(aead, key, records[..n], k);
      assert records[..n][..k] == records[..k];
    }
  }

  /** Two lists of records at the front of the same stream agree as far as both go. */
  lemma SameRecords(a: seq<bytes>, b: seq<bytes>, afterA: bytes, afterB: bytes)
    requires AllExact(LOOSE, a) && AllExact(LOOSE, b) && |a| <= |b|
    requires Flatten(a) + afterA == Flatten(b) + afterB
    ensures a == b[..|a|]
  {
    hide Exact, Cut, Flatten;
    CutUnique(LOOSE, a, afterA);
    CutUnique(LOOSE, b, afterB);
    var frames := Cut(LOOSE, Flatten(a) + afterA).frames;
    assert frames[..|a|] == a && frames[..|b|] == b;
  }

  /** The firmware, with its fixed buffers, and the host, with buffers that grow, decrypt
      the same plaintext from the same stream: whichever is behind is a prefix. */
  lemma HostMatchesFirmware(host: NoiseTransport, stage: Stage, wire: bytes, hostLater: bytes, stageLater: bytes)
    requires host.Valid() && stage.Valid()
    requires host.session.aead == stage.session.aead && host.session.rx == stage.session.rx
    requires Flatten(host.records) + hostLater == wire && stage.received + stageLater == wire
    ensures host.session.rxNonce <= stage.session.rxNonce ==> host.plain <= stage.plain
    ensures stage.session.rxNonce <= host.session.rxNonce ==> stage.plain <= host.plain
    ensures host.session.rxNonce == stage.session.rxNonce ==>
              host.plain[..host.taken] + host.Buffered() == stage.plain[..stage.taken] + stage.Unread()
  {
    hide OpenAll, Exact, Flatten, AllExact;
    var staged := stage.raw[0..stage.rawLen];
    ExactIsLoose(stage.records);
    assert Flatten(stage.records) + (staged + stageLater) == wire;
    var h, f := host.records, stage.records;
    if |h| <= |f| {
      SameRecords(h, f, hostLater, staged + stageLater);
      OpenAllOfPrefix(stage.session.aead, stage.session.rx, f, |h|);
    }
    if |f| <= |h| {
      SameRecords(f, h, staged + stageLater, hostLater);
      OpenAllOfPrefix(stage.session.aead, stage.session.rx, h, |f|);
    }
    stage.UnreadIsPlain();
    assert host.plain == host.plain[..host.taken] + host.Buffered();
    assert stage.plain == stage.plain[..stage.taken] + stage.Unread();
  }
}
