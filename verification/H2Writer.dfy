/** The HTTP/2 writer: frames, and the fixed POST header block in HPACK. */
module H2Writer {
  import opened Bytes
  import opened Framing
  import opened H2Frames

  datatype WriteError = ShortBuffer

  const PREFACE: bytes := Ascii("PRI * HTTP/2.0\r\n\r\nSM\r\n\r\n")
  const BLOCK_MAX: nat := 256
  const END_STREAM: byte := 0x1
  const ACK: byte := 0x1
  const END_HEADERS: byte := 0x4

  // ---------------------------------------------------------------- frame text

  /** A frame header; the length field keeps only its low 24 bits. */
  function HeaderText(length: nat, kind: byte, flags: byte, streamId: nat): (t: bytes)
    ensures |t| == FRAME_HEADER_LEN
  {
    BeU32(length)[1..] + [kind, flags] + BeU32(streamId)
  }

  function FrameText(kind: byte, flags: byte, streamId: nat, payload: bytes): bytes {
    HeaderText(|payload|, kind, flags, streamId) + payload
  }

  function SettingText(id: byte, value: nat): bytes {
    [0, id] + BeU32(value)
  }

  /** Header table size 0, no push, our window, our largest frame. */
  function SettingsPayload(initialWindow: nat, maxFrame: nat): bytes {
    SettingText(1, 0) + SettingText(2, 0) + SettingText(4, initialWindow) + SettingText(5, maxFrame)
  }

  function SettingsText(initialWindow: nat, maxFrame: nat): bytes {
    FrameText(SETTINGS, 0, 0, SettingsPayload(initialWindow, maxFrame))
  }

  /** Eight bytes of PING payload, zero-filled when fewer were received. */
  function PingAckText(payload: bytes): bytes {
    FrameText(PING, ACK, 0, Truncate(payload, 8) + Zeros(8 - Min(|payload|, 8)))
  }

  function WindowUpdateText(streamId: nat, increment: nat): bytes {
    FrameText(WINDOW_UPDATE, 0, streamId, BeU32(increment % 0x8000_0000))
  }

  function DataText(streamId: nat, payload: bytes, endStream: bool): bytes {
    FrameText(DATA, if endStream then END_STREAM else 0, streamId, payload)
  }

  /** The reader's header decoding undoes the writer's encoding. */
  lemma HeaderTextDecodes(length: nat, kind: byte, flags: byte, streamId: nat, more: bytes)
    requires length < U32 && streamId < U32
    ensures DecodeHeader(HeaderText(length, kind, flags, streamId) + more)
         == FrameHeader(length % 0x100_0000, kind, flags, streamId % 0x8000_0000)
  {
    hide BeU32, U32Be;
    var l, s := BeU32(length), BeU32(streamId);
    var t := HeaderText(length, kind, flags, streamId) + more;
    BeU32RoundTrip(length);
    BeU32RoundTrip(streamId);
    assert t[0] == l[1] && t[1] == l[2] && t[2] == l[3];
    assert t[5] == s[0] && t[6] == s[1] && t[7] == s[2] && t[8] == s[3];
  }

  /** What the reader's consumer sees of a frame with these fields. */
  function FrameRead(kind: byte, flags: byte, streamId: nat, payload: bytes): Frame {
    Frame(FrameHeader(|payload|, kind, flags, streamId),
          if IsControl(kind) then Truncate(payload, CONTROL_FRAME_MAX) else payload)
  }

  /** A written frame is one frame to the reader, with the fields it was written
      from, exactly when its payload fits the 24-bit length field. */
  lemma FrameTextReads(kind: byte, flags: byte, streamId: nat, payload: bytes)
    requires streamId < 0x8000_0000 && |payload| < U32
    ensures Exact(H2, FrameText(kind, flags, streamId, payload)) <==> |payload| < 0x100_0000
    ensures |payload| < 0x100_0000 ==>
              Present(FrameText(kind, flags, streamId, payload)) == FrameRead(kind, flags, streamId, payload)
  {
    hide BeU32, U32Be, HeaderText, DecodeHeader, Exact, FrameLen;
    var t := FrameText(kind, flags, streamId, payload);
    HeaderTextDecodes(|payload|, kind, flags, streamId, payload);
    FrameLenIsHeaderPlusBody(t);
    assert t[FRAME_HEADER_LEN..] == payload;
  }

  // ---------------------------------------------------------------- HPACK text

  /** 2 to the power of a prefix width. */
  function Span(prefixBits: nat): (n: nat)
    requires 1 <= prefixBits <= 8
    ensures 2 <= n <= 256
  {
    if prefixBits == 1 then 2 else if prefixBits == 2 then 4 else if prefixBits == 3 then 8
    else if prefixBits == 4 then 16 else if prefixBits == 5 then 32 else if prefixBits == 6 then 64
    else if prefixBits == 7 then 128 else 256
  }

  /** The bits above the prefix, with the prefix itself clear. */
  predicate FlagsFit(flags: byte, prefixBits: nat) {
    1 <= prefixBits <= 8 && flags % Span(prefixBits) == 0
  }

  lemma MultipleIsFarFromZero(m: int, d: int)
    requires m >= 0
    ensures d >= 1 ==> m * d >= m
    ensures d <= 0 ==> m * d <= 0
    ensures d <= -1 ==> m * d <= -m
  {
  }

  lemma RemainderIs(x: nat, m: nat, q: nat, r: nat)
    requires r < m && x == m * q + r
    ensures x % m == r
  {
    var d := q - x / m;
    assert m * d == m * q - m * (x / m) == x % m - r;
    MultipleIsFarFromZero(m, d);
  }

  /** Below the flags there is room for any value the prefix can hold, and it reads
      back. */
  lemma FlagsLeaveRoom(flags: byte, prefixBits: nat, v: nat)
    requires FlagsFit(flags, prefixBits) && v < Span(prefixBits)
    ensures flags + v < 256 && (flags + v) % Span(prefixBits) == v
  {
    var m := Span(prefixBits);
    SpanDivides(prefixBits);
    var q, n := flags / m, 256 / m;
    assert flags == m * q;
    MultipleIsFarFromZero(m, n - q);
    assert m * (n - q) == 256 - flags;
    RemainderIs(flags + v, m, q, v);
  }

  lemma SpanDivides(prefixBits: nat)
    requires 1 <= prefixBits <= 8
    ensures Span(prefixBits) * (256 / Span(prefixBits)) == 256
  {
  }

  function IntTail(rest: nat): bytes {
    if rest < 128 then [rest] else [rest % 128 + 128] + IntTail(rest / 128)
  }

  /** Section 5.1 of RFC 7541. */
  function IntText(value: nat, prefixBits: nat, flags: byte): bytes
    requires FlagsFit(flags, prefixBits)
  {
    var max := Span(prefixBits) - 1;
    FlagsLeaveRoom(flags, prefixBits, Min(value, max));
    if value < max then [flags + value] else [flags + max] + IntTail(value - max)
  }

  /** The examples of section C.1 of RFC 7541: 10 and 1337 behind three flags, 42 alone. */
  lemma IntegerExamples()
    ensures IntText(10, 5, 0) == [0x0a] && IntText(1337, 5, 0) == [0x1f, 0x9a, 0x0a] && IntText(42, 8, 0) == [0x2a]
  {
    assert Span(5) == 32 && Span(8) == 256;
    assert IntTail(1306) == [154] + IntTail(10);
  }

  function StringText(value: bytes): bytes {
    IntText(|value|, 7, 0) + value
  }

  function LiteralText(nameIndex: nat, value: bytes): bytes {
    IntText(nameIndex, 4, 0x10) + StringText(value)
  }

  function LiteralNamedText(name: bytes, value: bytes): bytes {
    [0x10] + StringText(name) + StringText(value)
  }

  function PostBlock(authority: bytes, path: bytes, contentLength: nat): bytes {
    [0x83] + [0x86] + LiteralText(4, path) + LiteralText(1, authority)
    + LiteralNamedText(Ascii("content-type"), Ascii("application/json"))
    + LiteralNamedText(Ascii("content-length"), Decimal(contentLength))
  }

  // ---------------------------------------------------------------- the writer

  type Written = Result<(), WriteError>

  class Writer {
    const buf: array<byte>
    var pos: nat

    ghost predicate Valid()
      reads this
    {
      pos <= buf.Length
    }

    ghost function Text(): bytes
      reads this, buf
      requires Valid()
    {
      buf[..pos]
    }

    constructor (buf: array<byte>)
      ensures Valid() && this.buf == buf && pos == 0
    {
      this.buf := buf;
      pos := 0;
    }

    method Put(text: bytes) returns (r: Written)
      requires Valid()
      modifies this, buf
      ensures Valid() && Wrote(old(Text()), Text(), text, r.Ok?, buf.Length)
    {
      if pos + |text| > buf.Length {
        return Err(ShortBuffer);
      }
      forall i | 0 <= i < |text| { buf[pos + i] := text[i]; }
      pos := pos + |text|;
      r := Ok(());
      assert Text() == old(Text()) + text;
    }

    /** Two texts one after the other, stopping at the first that does not fit. */
    method PutBoth(t1: bytes, t2: bytes) returns (r: Written)
      requires Valid()
      modifies this, buf
      ensures Valid() && Wrote(old(Text()), Text(), t1 + t2, r.Ok?, buf.Length)
    {
      r := Put(t1);
      ghost var ok1, mid := r.Ok?, Text();
      if r.Ok? {
        r := Put(t2);
      }
      WroteThen(old(Text()), mid, Text(), t1, t2, ok1, r.Ok?, buf.Length);
    }

    method FrameHeaderOut(length: nat, kind: byte, flags: byte, streamId: nat) returns (r: Written)
      requires Valid()
      modifies this, buf
      ensures Valid()
      ensures Wrote(old(Text()), Text(), HeaderText(length, kind, flags, streamId), r.Ok?, buf.Length)
    {
      var l := BeU32(length);
      assert [l[1], l[2], l[3], kind, flags] == l[1..] + [kind, flags];
      r := PutBoth([l[1], l[2], l[3], kind, flags], BeU32(streamId));
    }

    /** A header, then its payload. */
    method FrameOut(kind: byte, flags: byte, streamId: nat, payload: bytes) returns (r: Written)
      requires Valid()
      modifies this, buf
      ensures Valid()
      ensures Wrote(old(Text()), Text(), FrameText(kind, flags, streamId, payload), r.Ok?, buf.Length)
    {
      r := FrameHeaderOut(|payload|, kind, flags, streamId);
      ghost var ok1, mid := r.Ok?, Text();
      if r.Ok? {
        r := Put(payload);
      }
      WroteThen(old(Text()), mid, Text(), HeaderText(|payload|, kind, flags, streamId), payload, ok1, r.Ok?, buf.Length);
    }

    method Preface() returns (r: Written)
      requires Valid()
      modifies this, buf
      ensures Valid() && Wrote(old(Text()), Text(), PREFACE, r.Ok?, buf.Length)
    {
      r := Put(PREFACE);
    }

    method Settings(initialWindow: nat, maxFrame: nat) returns (r: Written)
      requires Valid()
      modifies this, buf
      ensures Valid()
      ensures Wrote(old(Text()), Text(), SettingsText(initialWindow, maxFrame), r.Ok?, buf.Length)
    {
      r := FrameOut(SETTINGS, 0, 0, SettingsPayload(initialWindow, maxFrame));
    }

    method SettingsAck() returns (r: Written)
      requires Valid()
      modifies this, buf
      ensures Valid() && Wrote(old(Text()), Text(), FrameText(SETTINGS, ACK, 0, []), r.Ok?, buf.Length)
    {
      r := FrameOut(SETTINGS, ACK, 0, []);
    }

    method PingAck(payload: bytes) returns (r: Written)
      requires Valid()
      modifies this, buf
      ensures Valid() && Wrote(old(Text()), Text(), PingAckText(payload), r.Ok?, buf.Length)
    {
      r := FrameOut(PING, ACK, 0, Truncate(payload, 8) + Zeros(8 - Min(|payload|, 8)));
    }

    method WindowUpdate(streamId: nat, increment: nat) returns (r: Written)
      requires Valid()
      modifies this, buf
      ensures Valid() && Wrote(old(Text()), Text(), WindowUpdateText(streamId, increment), r.Ok?, buf.Length)
    {
      r := FrameOut(WINDOW_UPDATE, 0, streamId, BeU32(increment % 0x8000_0000));
    }

    method Data(streamId: nat, payload: bytes, endStream: bool) returns (r: Written)
      requires Valid()
      modifies this, buf
      ensures Valid() && Wrote(old(Text()), Text(), DataText(streamId, payload, endStream), r.Ok?, buf.Length)
    {
      r := FrameOut(DATA, if endStream then END_STREAM else 0, streamId, payload);
    }

    /** `IntText`, byte by byte: what does not fit the prefix follows in groups of seven bits. */
    method EncodeInteger(value: nat, prefixBits: nat, flags: byte) returns (r: Written)
      requires Valid() && FlagsFit(flags, prefixBits)
      modifies this, buf
      ensures Valid() && Wrote(old(Text()), Text(), IntText(value, prefixBits, flags), r.Ok?, buf.Length)
    {
      hide Span, IntTail, Wrote;
      var max := Span(prefixBits) - 1;
      FlagsLeaveRoom(flags, prefixBits, Min(value, max));
      if value < max {
        r := Put([flags + value]);
        return;
      }
      r := Put([flags + max]);
      ghost var ok1, mid := r.Ok?, Text();
      if r.Ok? {
        r := EncodeTail(value - max);
      }
      WroteThen(old(Text()), mid, Text(), [flags + max], IntTail(value - max), ok1, r.Ok?, buf.Length);
    }

    /** A string literal, not Huffman-coded. */
    method StringOut(value: bytes) returns (r: Written)
      requires Valid()
      modifies this, buf
      ensures Valid() && Wrote(old(Text()), Text(), StringText(value), r.Ok?, buf.Length)
    {
      r := EncodeInteger(|value|, 7, 0);
      ghost var ok1, mid := r.Ok?, Text();
      if r.Ok? {
        r := Put(value);
      }
      WroteThen(old(Text()), mid, Text(), IntText(|value|, 7, 0), value, ok1, r.Ok?, buf.Length);
    }

    /** A header whose name is in the static table. */
    method Literal(nameIndex: nat, value: bytes) returns (r: Written)
      requires Valid()
      modifies this, buf
      ensures Valid() && Wrote(old(Text()), Text(), LiteralText(nameIndex, value), r.Ok?, buf.Length)
    {
      r := EncodeInteger(nameIndex, 4, 0x10);
      ghost var ok1, mid := r.Ok?, Text();
      if r.Ok? {
        r := StringOut(value);
      }
      WroteThen(old(Text()), mid, Text(), IntText(nameIndex, 4, 0x10), StringText(value), ok1, r.Ok?, buf.Length);
    }

    /** A header with its name spelled out. */
    method LiteralNamed(name: bytes, value: bytes) returns (r: Written)
      requires Valid()
      modifies this, buf
      ensures Valid() && Wrote(old(Text()), Text(), LiteralNamedText(name, value), r.Ok?, buf.Length)
    {
      hide StringText, Wrote;
      r := Put([0x10]);
      ghost var ok1, mid := r.Ok?, Text();
      if r.Ok? {
        r := StringOut(name);
      }
      WroteThen(old(Text()), mid, Text(), [0x10], StringText(name), ok1, r.Ok?, buf.Length);
      ok1, mid := r.Ok?, Text();
      if r.Ok? {
        r := StringOut(value);
      }
      WroteThen(old(Text()), mid, Text(), [0x10] + StringText(name), StringText(value), ok1, r.Ok?, buf.Length);
    }

    /** The header block of a POST, one field at a time until one does not fit. */
    method Block(authority: bytes, path: bytes, contentLength: nat) returns (r: Written)
      requires Valid() && contentLength < U64
      modifies this, buf
      ensures Valid() && Wrote(old(Text()), Text(), PostBlock(authority, path, contentLength), r.Ok?, buf.Length)
    {
      hide LiteralText, LiteralNamedText, Decimal, Ascii, Wrote;
      ghost var text := [0x83] + [0x86];
      r := PutBoth([0x83], [0x86]);
      ghost var ok1, mid := r.Ok?, Text();
      if r.Ok? {
        r := Literal(4, path);
      }
      WroteThen(old(Text()), mid, Text(), text, LiteralText(4, path), ok1, r.Ok?, buf.Length);
      text, ok1, mid := text + LiteralText(4, path), r.Ok?, Text();
      if r.Ok? {
        r := Literal(1, authority);
      }
      WroteThen(old(Text()), mid, Text(), text, LiteralText(1, authority), ok1, r.Ok?, buf.Length);
      text, ok1, mid := text + LiteralText(1, authority), r.Ok?, Text();
      ghost var field := LiteralNamedText(Ascii("content-type"), Ascii("application/json"));
      if r.Ok? {
        r := LiteralNamed(Ascii("content-type"), Ascii("application/json"));
      }
      WroteThen(old(Text()), mid, Text(), text, field, ok1, r.Ok?, buf.Length);
      text, ok1, mid := text + field, r.Ok?, Text();
      field := LiteralNamedText(Ascii("content-length"), Decimal(contentLength));
      if r.Ok? {
        var lenBuf := new byte[20];
        var digits := WriteUsize(contentLength, lenBuf);
        r := LiteralNamed(Ascii("content-length"), digits);
      }
      WroteThen(old(Text()), mid, Text(), text, field, ok1, r.Ok?, buf.Length);
    }

    /** A POST request's HEADERS frame. The block is built apart, in 256 bytes,
        because its length goes into the frame header. */
    method PostHeaders(streamId: nat, authority: bytes, path: bytes, contentLength: nat) returns (r: Written)
      requires Valid() && contentLength < U64
      modifies this, buf
      ensures Valid()
      ensures var block := PostBlock(authority, path, contentLength);
              if |block| <= BLOCK_MAX then
                Wrote(old(Text()), Text(), FrameText(HEADERS, END_HEADERS, streamId, block), r.Ok?, buf.Length)
              else
                r.Err? && Text() == old(Text())
    {
      hide PostBlock, FrameText;
      var block := new byte[BLOCK_MAX];
      var b := new Writer(block);
      r := b.Block(authority, path, contentLength);
      if r.Err? {
        return;
      }
      assert b.Text() == PostBlock(authority, path, contentLength);
      r := FrameOut(HEADERS, END_HEADERS, streamId, block[..b.pos]);
    }

    /** The continuation bytes of an HPACK integer. */
    method EncodeTail(value: nat) returns (r: Written)
      requires Valid()
      modifies this, buf
      ensures Valid() && Wrote(old(Text()), Text(), IntTail(value), r.Ok?, buf.Length)
    {
      hide IntTail;
      var rest := value;
      ghost var done: bytes := [];
      ghost var start := Text();
      while rest >= 128
        invariant Valid() && Text() == start + done && done + IntTail(rest) == IntTail(value)
        invariant |Text()| <= buf.Length
      {
        IntTailStep(rest);
        ghost var mid := Text();
        var digit, next := rest % 128 + 128, rest / 128;
        r := Put([digit]);
        if r.Err? {
          WroteThen(mid, Text(), Text(), [digit], IntTail(next), false, false, buf.Length);
          WroteThen(start, mid, Text(), done, IntTail(rest), true, false, buf.Length);
          return;
        }
        assert done + IntTail(rest) == done + [digit] + IntTail(next);
        done := done + [digit];
        rest := next;
      }
      IntTailStep(rest);
      ghost var mid := Text();
      r := Put([rest]);
      WroteThen(start, mid, Text(), done, IntTail(rest), true, r.Ok?, buf.Length);
    }
  }

  lemma IntTailStep(rest: nat)
    ensures IntTail(rest) == if rest < 128 then [rest] else [rest % 128 + 128] + IntTail(rest / 128)
  {
  }

  // ---------------------------------------------------------------- decimals

  lemma U64FitsInTwentyDigits(n: nat)
    requires n < U64
    ensures |Decimal(n)| <= 20
  {
    assert Pow10(10) == 10000000000 by {
      assert Pow10(5) == 100000;
    }
    assert Pow10(20) == 100000000000000000000 by {
      assert Pow10(15) == 1000000000000000;
    }
    DecimalLength(n, 20);
  }

  /** Renders a number into a 20-byte buffer from the right, then moves the digits to
      the front. */
  method WriteUsize(value: nat, buf: array<byte>) returns (digits: bytes)
    requires value < U64 && buf.Length == 20
    modifies buf
    ensures digits == Decimal(value) && |digits| <= 20 && digits == buf[..|digits|]
  {
    U64FitsInTwentyDigits(value);
    var v := value;
    if v == 0 {
      buf[0] := 48;
      assert buf[..1] == [48] == Decimal(value);
      return buf[..1];
    }
    var i := 20;
    while v > 0
      invariant 0 <= i <= 20 && v >= 0
      invariant v > 0 ==> |Decimal(v)| <= i && Decimal(value) == Decimal(v) + buf[i..]
      invariant v == 0 ==> Decimal(value) == buf[i..]
      decreases v
    {
      ghost var tail := buf[i..];
      i := i - 1;
      buf[i] := 48 + v % 10;
      assert buf[i..] == [48 + v % 10] + tail;
      v := v / 10;
    }
    ghost var all := buf[i..];
    forall j | 0 <= j < 20 - i { buf[j] := buf[i + j]; }
    digits := buf[..20 - i];
    assert digits == all;
  }

  // ---------------------------------------------------------------- HPACK decoding

  datatype Field = Field(name: bytes, value: bytes)

  /** A decoder's result: what was read and what is left. */
  datatype Read<+T> = Read(value: T, rest: bytes)

  /** The integer decoder of section 5.1 of RFC 7541, accumulating seven bits a byte. */
  function DecodeTail(s: bytes, weight: nat, sum: nat): Option<Read<nat>> {
    if s == [] then None
    else if s[0] < 128 then Some(Read(sum + s[0] * weight, s[1..]))
    else DecodeTail(s[1..], weight * 128, sum + (s[0] - 128) * weight)
  }

  function DecodeInt(s: bytes, prefixBits: nat): Option<Read<nat>>
    requires 1 <= prefixBits <= 8
  {
    if s == [] then None
    else
      var low := s[0] % Span(prefixBits);
      if low < Span(prefixBits) - 1 then Some(Read(low, s[1..])) else DecodeTail(s[1..], 1, low)
  }

  /** Section 5.2: length-prefixed octets; Huffman-coded strings are not decoded. */
  function DecodeString(s: bytes): Option<Read<bytes>> {
    if s == [] || s[0] >= 128 then None
    else
      match DecodeInt(s, 7)
      case None => None
      case Some(Read(n, rest)) => if |rest| < n then None else Some(Read(rest[..n], rest[n..]))
  }

  /** The entries of the static table (appendix A) that a request line uses. */
  function StaticEntry(index: nat): Option<Field> {
    if index == 1 then Some(Field(Ascii(":authority"), []))
    else if index == 2 then Some(Field(Ascii(":method"), Ascii("GET")))
    else if index == 3 then Some(Field(Ascii(":method"), Ascii("POST")))
    else if index == 4 then Some(Field(Ascii(":path"), Ascii("/")))
    else if index == 5 then Some(Field(Ascii(":path"), Ascii("/index.html")))
    else if index == 6 then Some(Field(Ascii(":scheme"), Ascii("http")))
    else if index == 7 then Some(Field(Ascii(":scheme"), Ascii("https")))
    else None
  }

  function DecodeLiteral(s: bytes, prefixBits: nat): Option<Read<Field>>
    requires 1 <= prefixBits <= 8
  {
    match DecodeInt(s, prefixBits)
    case None => None
    case Some(Read(index, rest)) =>
      var name := if index == 0 then DecodeString(rest)
                  else match StaticEntry(index)
                    case None => None
                    case Some(field) => Some(Read(field.name, rest));
      match name
      case None => None
      case Some(Read(n, r)) =>
        match DecodeString(r)
        case None => None
        case Some(Read(v, r')) => Some(Read(Field(n, v), r'))
  }

  /** Section 6, without a dynamic table: an indexed field, or a literal. */
  function DecodeField(s: bytes): Option<Read<Field>> {
    if s == [] then None
    else if s[0] >= 128 then
      match DecodeInt(s, 7)
      case None => None
      case Some(Read(index, rest)) =>
        match StaticEntry(index)
        case None => None
        case Some(field) => Some(Read(field, rest))
    else if s[0] >= 64 then DecodeLiteral(s, 6)
    else if s[0] >= 32 then None
    else DecodeLiteral(s, 4)
  }

  /** A header block of exactly `n` fields. */
  function DecodeFields(s: bytes, n: nat): Option<seq<Field>>
    decreases n
  {
    if n == 0 then if s == [] then Some([]) else None
    else
      match DecodeField(s)
      case None => None
      case Some(Read(field, rest)) =>
        match DecodeFields(rest, n - 1)
        case None => None
        case Some(fields) => Some([field] + fields)
  }

  lemma WeighDigits(low: nat, high: nat, weight: nat)
    ensures (low + high * 128) * weight == low * weight + high * (weight * 128)
  {
  }

  lemma {:induction false} DecodeTailUndoes(value: nat, weight: nat, sum: nat, more: bytes)
    ensures DecodeTail(IntTail(value) + more, weight, sum) == Some(Read(sum + value * weight, more))
  {
    var t := IntTail(value);
    assert (t + more)[1..] == t[1..] + more;
    if value >= 128 {
      var digit := value % 128;
      DecodeTailUndoes(value / 128, weight * 128, sum + digit * weight, more);
      assert t[1..] == IntTail(value / 128);
      WeighDigits(digit, value / 128, weight);
    }
  }

  /** The RFC decoder recovers every integer from every prefix width, and leaves what
      follows untouched. */
  lemma DecodeIntUndoes(value: nat, prefixBits: nat, flags: byte, more: bytes)
    requires FlagsFit(flags, prefixBits)
    ensures DecodeInt(IntText(value, prefixBits, flags) + more, prefixBits) == Some(Read(value, more))
  {
    hide Span, DecodeTail, IntTail;
    var max := Span(prefixBits) - 1;
    FlagsLeaveRoom(flags, prefixBits, Min(value, max));
    if value < max {
      assert ([flags + value] + more)[1..] == more;
    } else {
      var tail := IntTail(value - max);
      assert [flags + max] + tail + more == [flags + max] + (tail + more);
      assert ([flags + max] + (tail + more))[1..] == tail + more;
      DecodeTailUndoes(value - max, 1, max, more);
    }
  }

  lemma DecodeStringUndoes(value: bytes, more: bytes)
    ensures DecodeString(StringText(value) + more) == Some(Read(value, more))
  {
    hide DecodeInt, IntTail;
    var s := StringText(value) + more;
    assert s == IntText(|value|, 7, 0) + (value + more);
    DecodeIntUndoes(|value|, 7, 0, value + more);
    FlagsLeaveRoom(0, 7, Min(|value|, 127));
    assert (value + more)[..|value|] == value && (value + more)[|value|..] == more;
  }

  lemma DecodeLiteralUndoes(nameIndex: nat, value: bytes, more: bytes)
    requires 0 < nameIndex < 15 && StaticEntry(nameIndex).Some?
    ensures DecodeField(LiteralText(nameIndex, value) + more)
         == Some(Read(Field(StaticEntry(nameIndex).value.name, value), more))
  {
    hide DecodeInt, DecodeString, StaticEntry, StringText;
    var s := LiteralText(nameIndex, value) + more;
    assert s == IntText(nameIndex, 4, 0x10) + (StringText(value) + more);
    DecodeIntUndoes(nameIndex, 4, 0x10, StringText(value) + more);
    DecodeStringUndoes(value, more);
  }

  lemma DecodeLiteralNamedUndoes(name: bytes, value: bytes, more: bytes)
    ensures DecodeField(LiteralNamedText(name, value) + more) == Some(Read(Field(name, value), more))
  {
    hide DecodeInt, DecodeString, StringText;
    var s := LiteralNamedText(name, value) + more;
    var rest := StringText(name) + (StringText(value) + more);
    assert s == [0x10] + rest && IntText(0, 4, 0x10) == [0x10];
    DecodeIntUndoes(0, 4, 0x10, rest);
    DecodeStringUndoes(name, StringText(value) + more);
    DecodeStringUndoes(value, more);
  }

  lemma DecodeIndexedUndoes(index: nat, more: bytes)
    requires index < 127 && StaticEntry(index).Some?
    ensures DecodeField([128 + index] + more) == Some(Read(StaticEntry(index).value, more))
  {
  }

  lemma DecodeFieldsStep(text: bytes, field: Field, more: bytes, n: nat, fields: seq<Field>)
    requires DecodeField(text + more) == Some(Read(field, more))
    requires DecodeFields(more, n) == Some(fields)
    ensures DecodeFields(text + more, n + 1) == Some([field] + fields)
  {
    hide DecodeField;
  }

  /** The header fields of a POST. */
  function PostFields(authority: bytes, path: bytes, contentLength: nat): seq<Field> {
    [Field(Ascii(":method"), Ascii("POST")),
     Field(Ascii(":scheme"), Ascii("http")),
     Field(Ascii(":path"), path),
     Field(Ascii(":authority"), authority),
     Field(Ascii("content-type"), Ascii("application/json")),
     Field(Ascii("content-length"), Decimal(contentLength))]
  }

  /** A decoder of RFC 7541 reads the POST block as exactly the six intended fields. */
  lemma PostBlockDecodes(authority: bytes, path: bytes, contentLength: nat)
    ensures DecodeFields(PostBlock(authority, path, contentLength), 6)
         == Some(PostFields(authority, path, contentLength))
  {
    hide DecodeField, LiteralText, LiteralNamedText, Ascii, Decimal, DecodeFields;
    var fields := PostFields(authority, path, contentLength);
    var t2, t3 := LiteralText(4, path), LiteralText(1, authority);
    var t4 := LiteralNamedText(fields[4].name, fields[4].value);
    var t5 := LiteralNamedText(fields[5].name, fields[5].value);
    NoFields();
    DecodeLiteralNamedUndoes(fields[5].name, fields[5].value, []);
    DecodeFieldsStep(t5, fields[5], [], 0, []);
    var s5 := t5 + [];
    assert [fields[5]] + [] == fields[5..];
    DecodeLiteralNamedUndoes(fields[4].name, fields[4].value, s5);
    DecodeFieldsStep(t4, fields[4], s5, 1, fields[5..]);
    var s4 := t4 + s5;
    assert [fields[4]] + fields[5..] == fields[4..];
    DecodeLiteralUndoes(1, authority, s4);
    DecodeFieldsStep(t3, fields[3], s4, 2, fields[4..]);
    var s3 := t3 + s4;
    assert [fields[3]] + fields[4..] == fields[3..];
    DecodeLiteralUndoes(4, path, s3);
    DecodeFieldsStep(t2, fields[2], s3, 3, fields[3..]);
    var s2 := t2 + s3;
    assert [fields[2]] + fields[3..] == fields[2..];
    DecodeIndexedUndoes(6, s2);
    DecodeFieldsStep([0x86], fields[1], s2, 4, fields[2..]);
    var s1 := [0x86] + s2;
    assert [fields[1]] + fields[2..] == fields[1..];
    DecodeIndexedUndoes(3, s1);
    DecodeFieldsStep([0x83], fields[0], s1, 5, fields[1..]);
    assert [fields[0]] + fields[1..] == fields;
    assert PostBlock(authority, path, contentLength) == [0x83] + s1;
  }

  lemma NoFields()
    ensures DecodeFields([], 0) == Some([])
  {
  }
}
