/** The optional block in front of HTTP/2: where it ends, and when that can be decided within
    the plaintext buffer. */
module LeadingBlock {
  import opened Bytes
  import opened Crypto
  import opened Noise

  const EARLY_PAYLOAD_MAGIC: bytes := [0xff, 0xff, 0xff, 84, 83]
  const EARLY_HEADER: nat := 9

  datatype EarlyPayload = Absent | Incomplete | Found(consumed: nat)

  /** Whether a magic and a length announce a block to skip, and where that ends. */
  function ParseEarlyPayload(buf: bytes): EarlyPayload {
    var common := Min(|buf|, |EARLY_PAYLOAD_MAGIC|);
    if buf[..common] != EARLY_PAYLOAD_MAGIC[..common] then Absent
    else if |buf| < EARLY_HEADER then Incomplete
    else
      var end := EARLY_HEADER + U32Be(buf[5], buf[6], buf[7], buf[8]);
      if |buf| < end then Incomplete else Found(end)
  }

  /** Once made, the decision does not depend on bytes that come later, so neither does
      it depend on how the stream was cut up before it was made. */
  lemma EarlyPayloadIsStable(buf: bytes, more: bytes)
    ensures ParseEarlyPayload(buf) != Incomplete ==> ParseEarlyPayload(buf + more) == ParseEarlyPayload(buf)
    ensures ParseEarlyPayload(buf).Found? ==> ParseEarlyPayload(buf).consumed <= |buf|
  {
    var magic := EARLY_PAYLOAD_MAGIC;
    var c, d := Min(|buf|, 5), Min(|buf + more|, 5);
    assert (buf + more)[..d][..c] == buf[..c] && magic[..d][..c] == magic[..c];
    if |buf| >= 5 {
      assert (buf + more)[..d] == buf[..c];
    }
  }

  /** There is no block exactly when one of the first five bytes is not the one that a block
      has there: 0xff three times, `T` and `S`. */
  lemma AbsentMeansOtherBytes(buf: bytes)
    ensures ParseEarlyPayload(buf) == Absent <==>
              exists i :: 0 <= i < |buf| && i < 5 && buf[i] != [255, 255, 255, 84, 83][i]
  {
    var common := Min(|buf|, 5);
    if buf[..common] != EARLY_PAYLOAD_MAGIC[..common] {
      var i :| 0 <= i < common && buf[..common][i] != EARLY_PAYLOAD_MAGIC[..common][i];
      assert buf[i] != [255, 255, 255, 84, 83][i];
    } else {
      forall i | 0 <= i < |buf| && i < 5 ensures buf[i] == [255, 255, 255, 84, 83][i] {
        assert buf[..common][i] == EARLY_PAYLOAD_MAGIC[..common][i];
      }
    }
  }

  /** A block as a server sends it: its five bytes, a length, most significant byte first, and
      that many bytes. */
  function Block(payload: bytes): bytes {
    [255, 255, 255, 84, 83] + BeU32(|payload|) + payload
  }

  /** It is found, whatever follows. */
  lemma BlockIsFound(payload: bytes, more: bytes)
    requires |payload| < U32
    ensures ParseEarlyPayload(Block(payload) + more) == Found(9 + |payload|)
  {
    hide BeU32;
    BeU32RoundTrip(|payload|);
    var buf, n := Block(payload) + more, BeU32(|payload|);
    assert buf[..5] == EARLY_PAYLOAD_MAGIC;
    assert buf[5] == n[0] && buf[6] == n[1] && buf[7] == n[2] && buf[8] == n[3];
  }

  /** And while any of it is missing nothing is decided. */
  lemma PartOfBlockIsIncomplete(payload: bytes, k: nat)
    requires |payload| < U32 && k < 9 + |payload|
    ensures ParseEarlyPayload(Block(payload)[..k]) == Incomplete
  {
    hide ParseEarlyPayload;
    var part, rest := Block(payload)[..k], Block(payload)[k..];
    assert part + rest == Block(payload) == Block(payload) + [];
    BlockIsFound(payload, []);
    EarlyPayloadIsStable(part, rest);
  }

  /** Without a block: the first byte that arrives is another one. */
  ghost predicate StartsOtherwise(chunks: seq<bytes>, n: nat) {
    && n < |chunks| && (forall i :: 0 <= i < n ==> chunks[i] == []) && chunks[n] != [] && chunks[n][0] != 255
  }

  /** Then that is decided by the first record that is not empty. */
  lemma OtherStartIsDecided(chunks: seq<bytes>, n: nat)
    requires StartsOtherwise(chunks, n) && |chunks[n]| <= MAX_PLAINTEXT_SIZE
    ensures SkipFits(chunks) && ParseEarlyPayload(Flatten(chunks)) == Absent
  {
    hide ParseEarlyPayload, Flatten;
    EmptyFlat(chunks, n);
    assert chunks[..n + 1] == chunks[..n] + [chunks[n]];
    FlattenSnoc(chunks[..n], chunks[n]);
    AbsentMeansOtherBytes(chunks[n]);
    assert chunks[n][0] != [255, 255, 255, 84, 83][0];
    assert Flatten(chunks[..n + 1]) == chunks[n];
    assert DecidedBy(chunks, n + 1);
    FlattenSplit(chunks, n + 1, |chunks|);
    assert chunks[..|chunks|] == chunks;
    EarlyPayloadIsStable(chunks[n], Flatten(chunks[n + 1..]));
  }

  lemma {:induction false} EmptyFlat(chunks: seq<bytes>, n: nat)
    requires n <= |chunks| && forall i :: 0 <= i < n ==> chunks[i] == []
    ensures Flatten(chunks[..n]) == []
  {
    if n > 0 {
      EmptyFlat(chunks, n - 1);
      assert chunks[..n] == chunks[..n - 1] + [chunks[n - 1]];
      FlattenSnoc(chunks[..n - 1], chunks[n - 1]);
    }
  }

  /** The first `d` pieces of plaintext decide about the block, and fit the plaintext buffer
      together with the tag of the last of them. */
  predicate DecidedBy(chunks: seq<bytes>, d: nat) {
    && d <= |chunks| && |Flatten(chunks[..d])| + TAG_LEN <= MAX_MESSAGE_SIZE
    && ParseEarlyPayload(Flatten(chunks[..d])) != Incomplete
  }

  /** The decision about the block can be made within the plaintext buffer. */
  ghost predicate SkipFits(chunks: seq<bytes>) {
    exists d: nat :: DecidedBy(chunks, d)
  }

  lemma FlattenSplit(chunks: seq<bytes>, d: nat, n: nat)
    requires d <= n <= |chunks|
    ensures Flatten(chunks[..n]) == Flatten(chunks[..d]) + Flatten(chunks[d..n])
  {
    hide Flatten;
    assert chunks[..n] == chunks[..d] + chunks[d..n];
    FlattenConcat(chunks[..d], chunks[d..n]);
  }

  /** Nothing is decided after `n` pieces, and the next one has no room behind them. */
  predicate CrowdedAfter(chunks: seq<bytes>, n: nat) {
    && n < |chunks| && ParseEarlyPayload(Flatten(chunks[..n])) == Incomplete
    && |Flatten(chunks[..n])| + |chunks[n]| + TAG_LEN > MAX_MESSAGE_SIZE
  }

  /** With `n` pieces in the buffer: whether the decision is made, or cannot be made any more. */
  lemma DrainedDecide(chunks: seq<bytes>, n: nat)
    requires n <= |chunks|
    ensures DecidedBy(chunks, n) ==> SkipFits(chunks)
    ensures CrowdedAfter(chunks, n) ==> !SkipFits(chunks)
  {
    hide Flatten, ParseEarlyPayload;
    if CrowdedAfter(chunks, n) && SkipFits(chunks) {
      var d: nat :| DecidedBy(chunks, d);
      if d <= n {
        FlattenSplit(chunks, d, n);
        EarlyPayloadIsStable(Flatten(chunks[..d]), Flatten(chunks[d..n]));
      } else {
        FlattenSplit(chunks, n + 1, d);
        assert chunks[..n + 1] == chunks[..n] + [chunks[n]];
        FlattenSnoc(chunks[..n], chunks[n]);
      }
      assert false;
    }
  }

  /** A block that is decided within the first record is skipped. */
  lemma FirstRecordFits(first: bytes, more: seq<bytes>)
    requires |first| <= MAX_PLAINTEXT_SIZE && ParseEarlyPayload(first) != Incomplete
    ensures SkipFits([first] + more)
  {
    hide ParseEarlyPayload;
    assert ([first] + more)[..1] == [first] && Flatten([first]) == first;
    assert DecidedBy([first] + more, 1);
  }

  /** A block of more than 4080 bytes is not, however it is cut. */
  lemma LongBlockNeverFits(chunks: seq<bytes>)
    requires var early := ParseEarlyPayload(Flatten(chunks));
             early.Found? && early.consumed + TAG_LEN > MAX_MESSAGE_SIZE
    ensures !SkipFits(chunks)
  {
    hide Flatten, ParseEarlyPayload;
    if d: nat :| DecidedBy(chunks, d) {
      FlattenSplit(chunks, d, |chunks|);
      assert chunks[..|chunks|] == chunks;
      EarlyPayloadIsStable(Flatten(chunks[..d]), Flatten(chunks[d..]));
      assert false;
    }
  }

  /** A block of the given size, cut after `cut` bytes. */
  function CutBlock(size: nat, cut: nat): (parts: seq<bytes>)
    requires EARLY_HEADER <= cut <= size
    ensures |parts| == 2 && |parts[0]| == cut && |parts[1]| == size - cut
  {
    [EARLY_PAYLOAD_MAGIC + BeU32(size - EARLY_HEADER) + Zeros(cut - EARLY_HEADER), Zeros(size - cut)]
  }

  /** The failing case: cut in two where the second part does not fit behind the first, a
      block is not skipped, whatever follows. */
  lemma SplitBlockDoesNotFit(size: nat, cut: nat, padding: bytes, more: seq<bytes>)
    requires EARLY_HEADER <= cut < size < U32
    requires size + |padding| + TAG_LEN > MAX_MESSAGE_SIZE
    ensures var parts := CutBlock(size, cut);
            && ParseEarlyPayload(parts[0] + parts[1]) == Found(size)
            && !SkipFits([parts[0], parts[1] + padding] + more)
  {
    hide SkipFits;
    var parts := CutBlock(size, cut);
    var chunks := [parts[0], parts[1] + padding] + more;
    BeU32RoundTrip(size - EARLY_HEADER);
    assert chunks[..1] == [parts[0]] && Flatten([parts[0]]) == parts[0];
    assert parts[0][..5] == EARLY_PAYLOAD_MAGIC && (parts[0] + parts[1])[..5] == EARLY_PAYLOAD_MAGIC;
    assert parts[0][5..9] == BeU32(size - EARLY_HEADER) == (parts[0] + parts[1])[5..9];
    assert ParseEarlyPayload(parts[0]) == Incomplete && chunks[1] == parts[1] + padding;
    assert |chunks[1]| == size - cut + |padding|;
    assert Flatten(chunks[..1]) == parts[0];
    assert |parts[0]| + |chunks[1]| + TAG_LEN > MAX_MESSAGE_SIZE;
    assert ParseEarlyPayload(Flatten(chunks[..1])) == Incomplete;
    assert CrowdedAfter(chunks, 1);
    DrainedDecide(chunks, 1);
  }

  /** Two such blocks, one within the plaintext buffer by far, in legal records. */
  lemma ShortBlocksCanFail(more: seq<bytes>)
    ensures var parts := CutBlock(4090, 2045);
            && |parts[0]| <= MAX_PLAINTEXT_SIZE && |parts[1]| <= MAX_PLAINTEXT_SIZE
            && ParseEarlyPayload(parts[0] + parts[1]) == Found(4090) && !SkipFits(parts + more)
    ensures var parts := CutBlock(3000, 2900);
            && |parts[0]| <= MAX_PLAINTEXT_SIZE && |parts[1] + Zeros(1100)| <= MAX_PLAINTEXT_SIZE
            && ParseEarlyPayload(parts[0] + parts[1]) == Found(3000)
            && !SkipFits([parts[0], parts[1] + Zeros(1100)] + more)
  {
    hide CutBlock, SkipFits, ParseEarlyPayload;
    SplitBlockDoesNotFit(4090, 2045, [], more);
    SplitBlockDoesNotFit(3000, 2900, Zeros(1100), more);
    var parts := CutBlock(4090, 2045);
    assert parts[1] + [] == parts[1] && [parts[0], parts[1]] == parts;
  }
}
