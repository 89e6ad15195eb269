/** What a peer reads, after RFC 9113 and from its numbers alone: the frames the client
    writes, the credit they grant, and how the client's own reader compares. */
module FrameView {
  import opened Bytes
  import opened Framing
  import opened H2Frames
  import opened H2Writer

  datatype View = View(kind: int, flags: int, stream: int, payload: bytes)

  function Number(b: bytes): nat
    requires |b| == 4
  {
    b[0] as int * 0x100_0000 + b[1] as int * 0x1_0000 + b[2] as int * 0x100 + b[3]
  }

  /** One frame and nothing more, after section 4.1: 24 bits of length, type, flags, a
      reserved bit and 31 bits of stream. */
  function ViewOf(s: bytes): Option<View> {
    if |s| < 9 || |s| != 9 + (s[0] as int * 0x1_0000 + s[1] as int * 0x100 + s[2]) then None
    else Some(View(s[3], s[4], Number([s[5] % 128, s[6], s[7], s[8]]), s[9..]))
  }

  /** Writer and reader mean by a frame what the section does. */
  lemma FrameIsViewed(kind: byte, flags: byte, streamId: nat, payload: bytes)
    requires streamId < 0x8000_0000 && |payload| < 0x100_0000
    ensures ViewOf(FrameText(kind, flags, streamId, payload)) == Some(View(kind, flags, streamId, payload))
  {
    hide BeU32, FrameText, Number;
    FrameBytes(kind, flags, streamId, payload);
    LengthAndStream(|payload|, streamId);
    var t, l, n := FrameText(kind, flags, streamId, payload), BeU32(|payload|), BeU32(streamId);
    assert |t| == 9 + (t[0] as int * 0x1_0000 + t[1] as int * 0x100 + t[2]);
    assert [t[5] % 128, t[6], t[7], t[8]] == [n[0] % 128, n[1], n[2], n[3]];
  }

  lemma FrameBytes(kind: byte, flags: byte, streamId: nat, payload: bytes)
    requires streamId < 0x8000_0000
    ensures var l, n, t := BeU32(|payload|), BeU32(streamId), FrameText(kind, flags, streamId, payload);
            && |t| == 9 + |payload| && t[0] == l[1] && t[1] == l[2] && t[2] == l[3] && t[3] == kind && t[4] == flags
            && t[5] == n[0] && t[6] == n[1] && t[7] == n[2] && t[8] == n[3] && t[9..] == payload
  {
    hide BeU32;
  }

  lemma LengthAndStream(length: nat, streamId: nat)
    requires streamId < 0x8000_0000 && length < 0x100_0000
    ensures var l, n := BeU32(length), BeU32(streamId);
            && l[1] as int * 0x1_0000 + l[2] as int * 0x100 + l[3] == length
            && Number([n[0] % 128, n[1], n[2], n[3]]) == streamId
  {
    hide BeU32;
    BeU32RoundTrip(length);
    BeU32RoundTrip(streamId);
  }

  lemma ReaderAgrees(s: bytes)
    requires ViewOf(s).Some?
    ensures var v := ViewOf(s).value;
            Exact(H2, s) && DecodeHeader(s) == FrameHeader(|v.payload|, v.kind, v.flags, v.stream)
  {
    FrameLenIsHeaderPlusBody(s);
  }

  /** The kinds kept whole for the connection, by number; bodies are all others. */
  lemma ControlKinds(kind: byte)
    ensures IsControl(kind) <==> kind == 3 || kind == 4 || kind == 6 || kind == 7 || kind == 8
  {
  }

  // ------------------------------------------------------------ what the client writes

  /** Section 6.5: sixteen bits of identifier and 32 bits of value each. */
  function SettingsIn(payload: bytes): seq<(int, nat)> {
    if |payload| < 6 then []
    else [(payload[0] as int * 0x100 + payload[1], Number(payload[2..6]))] + SettingsIn(payload[6..])
  }

  lemma SettingIsRead(id: byte, value: nat, more: bytes)
    requires value < U32
    ensures SettingsIn(SettingText(id, value) + more) == [(id as int, value)] + SettingsIn(more)
  {
    hide BeU32;
    BeU32RoundTrip(value);
    var s := SettingText(id, value) + more;
    assert s[2..6] == BeU32(value) && s[6..] == more;
  }

  /** A SETTINGS frame without ACK on stream 0: header table size 0, no push, the window
      and the frame size. */
  lemma SettingsAreRead(initialWindow: nat, maxFrame: nat)
    requires initialWindow < U32 && maxFrame < U32
    ensures var v := ViewOf(SettingsText(initialWindow, maxFrame));
            && v.Some? && v.value.kind == 4 && v.value.flags == 0 && v.value.stream == 0
            && SettingsIn(v.value.payload) == [(1, 0), (2, 0), (4, initialWindow), (5, maxFrame)]
  {
    hide SettingText, ViewOf, FrameText, SettingsIn;
    var a, b, c, d := SettingText(1, 0), SettingText(2, 0), SettingText(4, initialWindow), SettingText(5, maxFrame);
    SettingLength(0);
    SettingLength(initialWindow);
    SettingLength(maxFrame);
    FrameIsViewed(SETTINGS, 0, 0, SettingsPayload(initialWindow, maxFrame));
    SettingIsRead(1, 0, b + (c + (d + [])));
    SettingIsRead(2, 0, c + (d + []));
    SettingIsRead(4, initialWindow, d + []);
    SettingIsRead(5, maxFrame, []);
    NoSettings();
    assert SettingsPayload(initialWindow, maxFrame) == a + (b + (c + (d + [])));
  }

  lemma SettingLength(value: nat)
    ensures forall id :: |SettingText(id, value)| == 6
  {
  }

  lemma NoSettings()
    ensures SettingsIn([]) == []
  {
  }

  /** An acknowledgement of SETTINGS: type 4, flag 1, stream 0, nothing in it. */
  lemma SettingsAckIsRead()
    ensures ViewOf(FrameText(SETTINGS, ACK, 0, [])) == Some(View(4, 1, 0, []))
  {
    FrameIsViewed(SETTINGS, ACK, 0, []);
  }

  /** An answer to a PING (section 6.7): type 6, flag 1, stream 0, and its eight bytes. */
  lemma PingAckIsRead(payload: bytes)
    ensures var v := ViewOf(PingAckText(payload));
            && v.Some? && v.value.kind == 6 && v.value.flags == 1 && v.value.stream == 0 && |v.value.payload| == 8
            && (|payload| >= 8 ==> v.value.payload == payload[..8])
            && (|payload| < 8 ==> payload <= v.value.payload)
            && (forall i :: |payload| <= i < 8 ==> v.value.payload[i] == 0)
  {
    hide ViewOf, FrameText;
    FrameIsViewed(PING, ACK, 0, Truncate(payload, 8) + Zeros(8 - Min(|payload|, 8)));
  }

  /** The header block of a request (section 6.2): type 1, END_HEADERS and no other flag. */
  lemma HeadersAreRead(streamId: nat, block: bytes)
    requires streamId < 0x8000_0000 && |block| < 0x100_0000
    ensures ViewOf(FrameText(HEADERS, END_HEADERS, streamId, block)) == Some(View(1, 4, streamId, block))
  {
    FrameIsViewed(HEADERS, END_HEADERS, streamId, block);
  }

  /** A piece of a request body (section 6.1): type 0, and flag 1 on the last alone. */
  lemma BodyIsRead(streamId: nat, payload: bytes, last: bool)
    requires streamId < 0x8000_0000 && |payload| < 0x100_0000
    ensures ViewOf(DataText(streamId, payload, last)) == Some(View(0, if last then 1 else 0, streamId, payload))
  {
    FrameIsViewed(DATA, if last then END_STREAM else 0, streamId, payload);
  }

  // ------------------------------------------------------------ credit

  /** What a record grants the whole connection, after section 6.9: a WINDOW_UPDATE of stream
      0 grants the 31 bits of its payload. */
  function Granted(piece: bytes): nat {
    match ViewOf(piece)
    case Some(View(8, _, 0, payload)) =>
      if |payload| == 4 then Number(payload) % 0x8000_0000 else 0
    case _ => 0
  }

  function GrantedIn(pieces: seq<bytes>): nat {
    if pieces == [] then 0 else GrantedIn(pieces[..|pieces| - 1]) + Granted(pieces[|pieces| - 1])
  }

  lemma {:induction false} GrantedConcat(a: seq<bytes>, b: seq<bytes>)
    ensures GrantedIn(a + b) == GrantedIn(a) + GrantedIn(b)
  {
    hide Granted;
    if b == [] {
      assert a + b == a;
    } else {
      var n := |b| - 1;
      GrantedConcat(a, b[..n]);
      assert (a + b)[..|a| + n] == a + b[..n] && (a + b)[|a| + n] == b[n];
    }
  }

  /** Sending some of `more` grants at most what all of it does. */
  lemma GrantedBetween(before: seq<bytes>, after: seq<bytes>, more: seq<bytes>)
    requires before <= after <= before + more
    ensures GrantedIn(before) <= GrantedIn(after) <= GrantedIn(before) + GrantedIn(more)
  {
    hide GrantedIn;
    var k := |after| - |before|;
    assert after == before + more[..k] && more == more[..k] + more[k..];
    GrantedConcat(before, more[..k]);
    GrantedConcat(more[..k], more[k..]);
  }

  /** A WINDOW_UPDATE carries its increment, on its stream. */
  lemma WindowUpdateIsRead(streamId: nat, increment: nat)
    requires streamId < 0x8000_0000
    ensures var v := ViewOf(WindowUpdateText(streamId, increment));
            && v.Some? && v.value.kind == 8 && v.value.stream == streamId && |v.value.payload| == 4
            && Number(v.value.payload) == FromBe(v.value.payload) == increment % 0x8000_0000
    ensures streamId == 0 ==> Granted(WindowUpdateText(streamId, increment)) == increment % 0x8000_0000
  {
    hide ViewOf, FrameText, BeU32;
    var n := increment % 0x8000_0000;
    FrameIsViewed(WINDOW_UPDATE, 0, streamId, BeU32(n));
    BeU32RoundTrip(n);
    NumberIsFromBe(BeU32(n));
  }

  lemma NumberIsFromBe(b: bytes)
    requires |b| == 4
    ensures Number(b) == FromBe(b)
  {
    assert b[..3][..2] == b[..2] && b[..2][..1] == b[..1] && b[..1][..0] == [];
    assert FromBe(b[..1]) == b[0] as int && FromBe(b[..2]) == b[0] as int * 0x100 + b[1];
    assert FromBe(b[..3]) == b[0] as int * 0x1_0000 + b[1] as int * 0x100 + b[2];
  }

  /** Only frames of type 8 grant anything. */
  lemma OthersGrantNothing(s: bytes)
    requires |s| > 3 && s[3] != 8
    ensures GrantedIn([s]) == 0
  {
    assert GrantedIn([s][..0]) == 0;
  }

  lemma FrameGrantsNothing(kind: byte, flags: byte, streamId: nat, payload: bytes)
    requires kind != 8
    ensures GrantedIn([FrameText(kind, flags, streamId, payload)]) == 0
  {
    OthersGrantNothing(FrameText(kind, flags, streamId, payload));
  }

  lemma UpdateGrants(increment: nat)
    requires increment < 0x8000_0000
    ensures GrantedIn([WindowUpdateText(0, increment)]) == increment
  {
    hide Granted;
    WindowUpdateIsRead(0, increment);
    assert GrantedIn([WindowUpdateText(0, increment)][..0]) == 0;
  }
}
