/** The record layer of an established control session: `type | length | ciphertext`. */
module Noise {
  import opened Bytes
  import opened Framing
  import opened Crypto

  const MSG_TYPE_ERROR: byte := 3
  const MSG_TYPE_RECORD: byte := 4
  const HEADER_LEN: nat := 3
  const MAX_MESSAGE_SIZE: nat := 4096
  const MAX_CIPHERTEXT_SIZE: nat := MAX_MESSAGE_SIZE - HEADER_LEN
  const MAX_PLAINTEXT_SIZE: nat := MAX_CIPHERTEXT_SIZE - TAG_LEN

  datatype NoiseError = BadLength | Decrypt | ShortBuffer | NonceExhausted

  /** Four zero bytes, then the counter, big-endian. */
  function RecordNonce(counter: nat): bytes {
    Zeros(4) + Be(counter, 8)
  }

  /** Distinct counters give distinct nonces. */
  lemma RecordNonceInjective(i: nat, j: nat)
    requires i < U64 && j < U64 && RecordNonce(i) == RecordNonce(j)
    ensures i == j
  {
    Pow256Values();
    assert RecordNonce(i)[4..] == Be(i, 8) && RecordNonce(j)[4..] == Be(j, 8);
    BeRoundTrip(i, 8);
    BeRoundTrip(j, 8);
  }

  function PayloadLen(h: bytes): nat
    requires |h| >= HEADER_LEN
  {
    h[1] as int * 256 + h[2]
  }

  const NOISE: Format := Format(
    HEADER_LEN,
    (h: bytes) => if |h| < HEADER_LEN then 0 else PayloadLen(h),
    (h: bytes) => |h| >= HEADER_LEN && PayloadLen(h) <= MAX_CIPHERTEXT_SIZE)

  lemma RecordLen(s: bytes)
    requires |s| >= HEADER_LEN
    ensures FrameLen(NOISE, s) == HEADER_LEN + PayloadLen(s)
    ensures Stuck(NOISE, s) == (PayloadLen(s) > MAX_CIPHERTEXT_SIZE)
    ensures Whole(NOISE, s) == (PayloadLen(s) <= MAX_CIPHERTEXT_SIZE && |s| >= HEADER_LEN + PayloadLen(s))
    ensures Exact(NOISE, s) == (PayloadLen(s) <= MAX_CIPHERTEXT_SIZE && |s| == HEADER_LEN + PayloadLen(s))
  {
  }

  /** The record that carries `plaintext` as number `counter` of a direction. */
  function Record(aead: Aead, key: bytes, counter: nat, plaintext: bytes): bytes {
    var n := |plaintext| + TAG_LEN;
    [MSG_TYPE_RECORD, n / 256 % 256, n % 256] + aead.seal(key, RecordNonce(counter), [], plaintext)
  }

  /** The records carrying `chunks`, numbered from `first`. */
  function Records(aead: Aead, key: bytes, first: nat, chunks: seq<bytes>): (r: seq<bytes>)
    ensures |r| == |chunks|
    ensures forall i :: 0 <= i < |chunks| ==> r[i] == Record(aead, key, first + i, chunks[i])
  {
    seq(|chunks|, i requires 0 <= i < |chunks| => Record(aead, key, first + i, chunks[i]))
  }

  lemma RecordIsExact(aead: Aead, key: bytes, counter: nat, plaintext: bytes)
    requires aead.Correct() && |plaintext| <= MAX_PLAINTEXT_SIZE && counter < U64 - 1
    ensures Exact(NOISE, Record(aead, key, counter, plaintext))
    ensures Opens(aead, key, counter, Record(aead, key, counter, plaintext)) == Some(plaintext)
  {
  }

  /** A record as its reader sees it: type 4, the length of what follows in two bytes, high
      byte first, and the sealed plaintext, its nonce four zeros and the counter. */
  lemma RecordIsRead(aead: Aead, key: bytes, counter: nat, plaintext: bytes)
    requires aead.Correct() && |plaintext| <= 4077 && counter < U64
    ensures var r := Record(aead, key, counter, plaintext);
            && r[0] == 4 && |r| == |plaintext| + 19 && FromBe(r[1..3]) == |plaintext| + 16
            && exists nonce: bytes ::
                 && |nonce| == 12 && nonce[..4] == [0, 0, 0, 0] && FromBe(nonce[4..]) == counter
                 && r[3..] == aead.seal(key, nonce, [], plaintext)
  {
    var r, n, nonce := Record(aead, key, counter, plaintext), |plaintext| + 16, RecordNonce(counter);
    Pow256Values();
    BeRoundTrip(counter, 8);
    BigEndianReads(n / 256 % 256, n % 256, 0, 0);
    assert r[1..3] == [n / 256 % 256, n % 256];
    assert nonce[4..] == Be(counter, 8) && nonce[..4] == [0, 0, 0, 0];
    assert r[3..] == aead.seal(key, nonce, [], plaintext);
  }

  /** Any bytes longer than a header and a tag are opened under the number they come in at,
      unless they start with 3; the length field and other types are not looked at. */
  lemma AnyRecordOpens(aead: Aead, key: bytes, counter: nat, record: bytes)
    requires counter < U64
    ensures |record| < 19 || record[0] == 3 || counter == U64 - 1 ==> Opens(aead, key, counter, record) == None
    ensures |record| >= 19 && record[0] != 3 && counter < U64 - 1 ==>
              exists nonce: bytes ::
                && |nonce| == 12 && nonce[..4] == [0, 0, 0, 0] && FromBe(nonce[4..]) == counter
                && Opens(aead, key, counter, record) == aead.open(key, nonce, [], record[3..])
  {
    var nonce := RecordNonce(counter);
    Pow256Values();
    BeRoundTrip(counter, 8);
    assert nonce[4..] == Be(counter, 8) && nonce[..4] == [0, 0, 0, 0];
    assert |record| >= 19 && record[0] != 3 && counter < U64 - 1 ==>
        Opens(aead, key, counter, record) == aead.open(key, nonce, [], record[3..]);
  }

  /** The plaintext of a record in position `counter`, if it is acceptable there. */
  function Opens(aead: Aead, key: bytes, counter: nat, record: bytes): Option<bytes> {
    if |record| < HEADER_LEN + TAG_LEN || record[0] == MSG_TYPE_ERROR || counter >= U64 - 1 then None
    else aead.open(key, RecordNonce(counter), [], record[HEADER_LEN..])
  }

  /** The plaintext of a whole run of records, from number 0. */
  function OpenAll(aead: Aead, key: bytes, records: seq<bytes>): Option<bytes> {
    if records == [] then Some([])
    else
      var k := |records| - 1;
      match (OpenAll(aead, key, records[..k]), Opens(aead, key, k, records[k]))
      case (Some(p), Some(q)) => Some(p + q)
      case _ => None
  }

  class Session {
    const aead: Aead
    const tx: bytes
    const rx: bytes
    var txNonce: u64
    var rxNonce: u64

    ghost predicate Valid() {
      aead.Correct()
    }

    constructor (aead: Aead, tx: bytes, rx: bytes)
      requires aead.Correct()
      ensures Valid() && this.aead == aead && this.tx == tx && this.rx == rx && txNonce == 0 && rxNonce == 0
    {
      this.aead, this.tx, this.rx := aead, tx, rx;
      txNonce, rxNonce := 0, 0;
    }

    /** The record of the next number goes into `out` and the number advances, or nothing does. */
    method WriteRecord(plaintext: bytes, out: array<byte>) returns (r: Result<nat, NoiseError>)
      requires Valid()
      modifies `txNonce, out
      ensures Valid()
      ensures r.Ok? <==> |plaintext| <= MAX_PLAINTEXT_SIZE
                         && out.Length >= HEADER_LEN + |plaintext| + TAG_LEN && old(txNonce) < U64 - 1
      ensures r.Ok? ==> r.value <= out.Length && txNonce == old(txNonce) + 1
      ensures r.Ok? ==> out[..r.value] == Record(aead, tx, old(txNonce), plaintext)
      ensures r.Err? ==> txNonce == old(txNonce) && out[..] == old(out[..])
    {
      if |plaintext| > MAX_PLAINTEXT_SIZE {
        return Err(BadLength);
      }
      var total := HEADER_LEN + |plaintext| + TAG_LEN;
      if out.Length < total {
        return Err(ShortBuffer);
      }
      if txNonce == U64 - 1 {
        return Err(NonceExhausted);
      }
      var n := |plaintext| + TAG_LEN;
      out[0], out[1], out[2] := MSG_TYPE_RECORD, n / 256 % 256, n % 256;
      forall i | 0 <= i < |plaintext| { out[HEADER_LEN + i] := plaintext[i]; }
      assert out[HEADER_LEN..HEADER_LEN + |plaintext|] == plaintext;
      var sealed := aead.seal(tx, RecordNonce(txNonce), [], out[HEADER_LEN..HEADER_LEN + |plaintext|]);
      forall i | 0 <= i < |sealed| { out[HEADER_LEN + i] := sealed[i]; }
      txNonce := txNonce + 1;
      r := Ok(total);
      assert out[..total] == Record(aead, tx, old(txNonce), plaintext);
    }

    /** Decrypts `body[..len]`, what follows a record's header, in place. */
    method ReadRecord(body: array<byte>, len: nat) returns (r: Result<nat, NoiseError>)
      requires Valid() && len <= body.Length
      modifies `rxNonce, body
      ensures Valid()
      ensures var clear := if len < TAG_LEN || old(rxNonce) == U64 - 1 then None
                            else aead.open(rx, RecordNonce(old(rxNonce)), [], old(body[..len]));
              if clear.Some? then
                && r.Ok? && r.value <= len && body[..r.value] == clear.value
                && rxNonce == old(rxNonce) + 1
              else r.Err? && rxNonce == old(rxNonce)
    {
      if len < TAG_LEN {
        return Err(BadLength);
      }
      if rxNonce == U64 - 1 {
        return Err(NonceExhausted);
      }
      var clear := aead.open(rx, RecordNonce(rxNonce), [], body[..len]);
      if clear.None? {
        return Err(Decrypt);
      }
      var plain := clear.value;
      forall i | 0 <= i < |plain| { body[i] := plain[i]; }
      rxNonce := rxNonce + 1;
      r := Ok(len - TAG_LEN);
      assert body[..r.value] == plain;
    }
  }

  // ------------------------------------------------------------ whole streams

  /** The records of a sending session, all clear in order, give back what was sealed. */
  lemma {:induction false} OpenAllUndoes(aead: Aead, key: bytes, chunks: seq<bytes>)
    requires aead.Correct() && |chunks| < U64
    requires forall i :: 0 <= i < |chunks| ==> |chunks[i]| <= MAX_PLAINTEXT_SIZE
    ensures OpenAll(aead, key, Records(aead, key, 0, chunks)) == Some(Flatten(chunks))
  {
    hide Record, Opens, Exact, Aead.Correct, Flatten;
    NothingFlat();
    var records := Records(aead, key, 0, chunks);
    if chunks == [] {
      assert records == [];
    } else {
      var k := |chunks| - 1;
      OpenAllUndoes(aead, key, chunks[..k]);
      assert records[..k] == Records(aead, key, 0, chunks[..k]);
      RecordIsExact(aead, key, k, chunks[k]);
      FlattenSnoc(chunks[..k], chunks[k]);
      assert chunks == chunks[..k] + [chunks[k]];
    }
  }

  /** Nothing lost, repeated or reordered: when what has been received so far, plus what
      is still in flight, is what the sender put on the wire, the records found are the
      first ones sent, they open to the first chunks, and the rest of the wire carries
      exactly the remaining chunks. */
  lemma ReceivedIsPrefixOfSent(aead: Aead, key: bytes, chunks: seq<bytes>, received: bytes, later: bytes)
    requires aead.Correct() && |chunks| < U64
    requires forall i :: 0 <= i < |chunks| ==> |chunks[i]| <= MAX_PLAINTEXT_SIZE
    requires received + later == Flatten(Records(aead, key, 0, chunks))
    ensures var found := Cut(NOISE, received);
            var k := |found.frames|;
            && k <= |chunks| && !Stuck(NOISE, found.rest)
            && found.frames == Records(aead, key, 0, chunks[..k])
            && found.rest + later == Flatten(Records(aead, key, k, chunks[k..]))
            && OpenAll(aead, key, found.frames) == Some(Flatten(chunks[..k]))
  {
    hide Record, OpenAll, Exact, Stuck;
    var records := Records(aead, key, 0, chunks);
    forall i | 0 <= i < |records| ensures Exact(NOISE, records[i]) {
      RecordIsExact(aead, key, i, chunks[i]);
    }
    CutOfPrefix(NOISE, records, received, later);
    var k := |Cut(NOISE, received).frames|;
    assert records[..k] == Records(aead, key, 0, chunks[..k]);
    assert records[k..] == Records(aead, key, k, chunks[k..]);
    OpenAllUndoes(aead, key, chunks[..k]);
  }
}
