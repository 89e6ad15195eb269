/** The HTTP/1.1 upgrade that carries the first handshake message: base64, and finding
    where the response's headers end. */
module Upgrade {
  import opened Bytes

  datatype UpgradeError = Incomplete | NotSwitching | BadStatus | ShortBuffer

  const CR: byte := 13
  const LF: byte := 10
  const PAD: byte := 61

  // ---------------------------------------------------------------- base64

  /** The alphabet of section 4 of RFC 4648. */
  function Digit(v: nat): byte
    requires v < 64
  {
    if v < 26 then 65 + v
    else if v < 52 then 71 + v
    else if v < 62 then v - 4
    else if v == 62 then 43
    else 47
  }

  function DigitValue(b: byte): (v: Option<nat>)
    ensures v.Some? ==> v.value < 64
  {
    if 65 <= b <= 90 then Some(b - 65)
    else if 97 <= b <= 122 then Some(b - 71)
    else if 48 <= b <= 57 then Some(b + 4)
    else if b == 43 then Some(62)
    else if b == 47 then Some(63)
    else None
  }

  /** Up to three bytes as four digits, the missing ones padded. */
  function Group(chunk: bytes): (t: bytes)
    requires 0 < |chunk| <= 3
    ensures |t| == 4
  {
    var b1 := if |chunk| > 1 then chunk[1] else 0;
    var b2 := if |chunk| > 2 then chunk[2] else 0;
    var n := chunk[0] as int * 0x1_0000 + b1 as int * 0x100 + b2;
    [Digit(n / 0x4_0000), Digit(n / 0x1000 % 64),
     if |chunk| > 1 then Digit(n / 64 % 64) else PAD,
     if |chunk| > 2 then Digit(n % 64) else PAD]
  }

  function Encode(s: bytes): (t: bytes)
    ensures |t| == (|s| + 2) / 3 * 4
  {
    if s == [] then [] else if |s| <= 3 then Group(s) else Group(s[..3]) + Encode(s[3..])
  }

  /** Four digits back to bytes; padding only where section 4 of RFC 4648 puts it. */
  function Ungroup(t: bytes): Option<bytes>
    requires |t| == 4
  {
    match (DigitValue(t[0]), DigitValue(t[1]))
    case (Some(a), Some(b)) =>
      if t[2] == PAD && t[3] == PAD then
        if b % 16 == 0 then Some([a * 4 + b / 16]) else None
      else
        (match DigitValue(t[2])
         case None => None
         case Some(c) =>
           if t[3] == PAD then
             if c % 4 == 0 then Some([a * 4 + b / 16, b % 16 * 16 + c / 4]) else None
           else
             match DigitValue(t[3])
             case None => None
             case Some(d) => Some([a as int * 4 + b / 16, b % 16 * 16 + c / 4, c % 4 * 64 + d]))
    case _ => None
  }

  function Decode(t: bytes): Option<bytes> {
    if t == [] then Some([])
    else if |t| < 4 then None
    else
      match Ungroup(t[..4])
      case None => None
      case Some(chunk) =>
        if |t| > 4 && |chunk| < 3 then None
        else
          match Decode(t[4..])
          case None => None
          case Some(rest) => Some(chunk + rest)
  }

  lemma DigitReads(v: nat)
    requires v < 64
    ensures DigitValue(Digit(v)) == Some(v) && Digit(v) != PAD
  {
  }

  /** The six-bit pieces of three bytes. */
  lemma Sextets(b0: byte, b1: byte, b2: byte)
    ensures var n := b0 as int * 0x1_0000 + b1 as int * 0x100 + b2;
            && n / 0x4_0000 == b0 / 4 && n / 0x1000 % 64 == b0 % 4 * 16 + b1 / 16
            && n / 64 % 64 == b1 % 16 * 4 + b2 / 64 && n % 64 == b2 % 64
  {
    var n := b0 as int * 0x1_0000 + b1 as int * 0x100 + b2;
    var p, q, r, s := b0 / 4, b0 % 4 * 16 + b1 / 16, b1 % 16 * 4 + b2 / 64, b2 % 64;
    assert n == ((p * 64 + q) * 64 + r) * 64 + s;
    FourDigits(p, q, r, s);
  }

  lemma FourDigits(p: nat, q: nat, r: nat, s: nat)
    requires p < 64 && q < 64 && r < 64 && s < 64
    ensures var n := ((p * 64 + q) * 64 + r) * 64 + s;
            && n % 64 == s && n / 64 == (p * 64 + q) * 64 + r && n / 64 % 64 == r
            && n / 0x1000 == p * 64 + q && n / 0x1000 % 64 == q && n / 0x4_0000 == p
  {
  }

  lemma Rejoined(b0: byte, b1: byte, b2: byte)
    ensures var a, b, c, d := b0 / 4, b0 % 4 * 16 + b1 / 16, b1 % 16 * 4 + b2 / 64, b2 % 64;
            && a as int * 4 + b / 16 == b0 && b % 16 * 16 + c / 4 == b1 && c % 4 * 64 + d == b2
            && (b1 == 0 ==> b % 16 == 0) && (b2 == 0 ==> c % 4 == 0)
  {
  }

  /** Digits are read back, and the right amount of padding with them. */
  lemma DigitsUngroup(a: nat, b: nat, c: nat, d: nat)
    requires a < 64 && b < 64 && c < 64 && d < 64
    ensures Ungroup([Digit(a), Digit(b), Digit(c), Digit(d)])
         == Some([a * 4 + b / 16, b % 16 * 16 + c / 4, c % 4 * 64 + d])
    ensures c % 4 == 0 ==> Ungroup([Digit(a), Digit(b), Digit(c), PAD]) == Some([a * 4 + b / 16, b % 16 * 16 + c / 4])
    ensures b % 16 == 0 ==> Ungroup([Digit(a), Digit(b), PAD, PAD]) == Some([a * 4 + b / 16])
  {
    hide Digit, DigitValue;
    DigitReads(a);
    DigitReads(b);
    DigitReads(c);
    DigitReads(d);
  }

  lemma GroupDecodes(chunk: bytes)
    requires 0 < |chunk| <= 3
    ensures Ungroup(Group(chunk)) == Some(chunk)
  {
    hide Digit, Ungroup, Group;
    GroupText(chunk);
    var b0, b1, b2 := chunk[0], if |chunk| > 1 then chunk[1] else 0, if |chunk| > 2 then chunk[2] else 0;
    Rejoined(b0, b1, b2);
    DigitsUngroup(b0 / 4, b0 % 4 * 16 + b1 / 16, b1 % 16 * 4 + b2 / 64, b2 % 64);
  }

  /** A group, digit by digit. */
  lemma GroupText(chunk: bytes)
    requires 0 < |chunk| <= 3
    ensures var b0, b1 := chunk[0], if |chunk| > 1 then chunk[1] else 0;
            var b2 := if |chunk| > 2 then chunk[2] else 0;
            && chunk == (if |chunk| == 1 then [b0] else if |chunk| == 2 then [b0, b1] else [b0, b1, b2])
            && Group(chunk) == [Digit(b0 / 4), Digit(b0 % 4 * 16 + b1 / 16),
                                if |chunk| > 1 then Digit(b1 % 16 * 4 + b2 / 64) else PAD,
                                if |chunk| > 2 then Digit(b2 % 64) else PAD]
  {
    hide Digit;
    Sextets(chunk[0], if |chunk| > 1 then chunk[1] else 0, if |chunk| > 2 then chunk[2] else 0);
  }

  lemma {:induction false} DecodeUndoesEncode(s: bytes)
    ensures Decode(Encode(s)) == Some(s)
  {
    hide Group, Ungroup;
    if s == [] {
    } else if |s| <= 3 {
      GroupDecodes(s);
      assert Encode(s)[..4] == Group(s) && Encode(s)[4..] == [];
      assert s + [] == s;
    } else {
      GroupDecodes(s[..3]);
      DecodeUndoesEncode(s[3..]);
      assert Encode(s)[..4] == Group(s[..3]) && Encode(s)[4..] == Encode(s[3..]);
      assert s[..3] + s[3..] == s;
    }
  }

  method Base64Encode(input: bytes, out: array<byte>) returns (r: Result<nat, UpgradeError>)
    modifies out
    ensures var text := Encode(input);
            if out.Length < |text| then r == Err(ShortBuffer) && out[..] == old(out[..])
            else r == Ok(|text|) && out[..|text|] == text && out[|text|..] == old(out[|text|..])
  {
    hide Group, Encode;
    var needed := (|input| + 2) / 3 * 4;
    if out.Length < needed {
      return Err(ShortBuffer);
    }
    var i: nat, o: nat := 0, 0;
    ghost var text := Encode(input);
    assert input[0..] == input && out[..0] == [];
    while i < |input|
      invariant i <= |input| && o + |Encode(input[i..])| == needed
      invariant out[..o] + Encode(input[i..]) == text
      invariant out[needed..] == old(out[needed..])
    {
      var group := Group(input[i..Min(i + 3, |input|)]);
      EncodeStep(input, i);
      PutGroup(group, out, o);
      i, o := Min(i + 3, |input|), o + 4;
    }
    EncodeEnds(input[i..]);
    r := Ok(needed);
  }

  method PutGroup(group: bytes, out: array<byte>, at: nat)
    requires |group| == 4 && at + 4 <= out.Length
    modifies out
    ensures out[..at + 4] == old(out[..at]) + group && out[at + 4..] == old(out[at + 4..])
  {
    out[at], out[at + 1], out[at + 2], out[at + 3] := group[0], group[1], group[2], group[3];
  }

  lemma EncodeStep(input: bytes, i: nat)
    requires i < |input|
    ensures var end := Min(i + 3, |input|);
            Encode(input[i..]) == Group(input[i..end]) + Encode(input[end..])
  {
  }

  lemma EncodeEnds(s: bytes)
    requires s == []
    ensures Encode(s) == []
  {
  }

  // ---------------------------------------------------------------- the response

  ghost predicate BlankAt(s: bytes, i: nat) {
    i + 4 <= |s| && s[i] == CR && s[i + 1] == LF && s[i + 2] == CR && s[i + 3] == LF
  }

  /** The headers of `s` take `end` bytes: they stop at its first blank line. */
  ghost predicate HeadersEnd(s: bytes, end: nat) {
    end >= 4 && BlankAt(s, end - 4) && forall i: nat :: i < end - 4 ==> !BlankAt(s, i)
  }

  method FindHeadersEnd(buf: bytes) returns (end: Option<nat>)
    ensures end.Some? ==> HeadersEnd(buf, end.value)
    ensures end.None? ==> forall i: nat :: !BlankAt(buf, i)
  {
    var i: nat := 0;
    while i + 4 <= |buf|
      invariant forall k: nat :: k < i ==> !BlankAt(buf, k)
    {
      if buf[i] == CR && buf[i + 1] == LF && buf[i + 2] == CR && buf[i + 3] == LF {
        return Some(i + 4);
      }
      i := i + 1;
    }
    end := None;
  }

  /** The first position of a byte, or the length. */
  function IndexOf(s: bytes, b: byte): (n: nat)
    ensures n <= |s| && (n < |s| ==> s[n] == b)
    ensures forall i :: 0 <= i < n ==> s[i] != b
  {
    if s == [] then 0 else if s[0] == b then 0 else 1 + IndexOf(s[1..], b)
  }

  /** What a status line says: exactly the code 101 after its first space. */
  function Status(line: bytes): Option<UpgradeError> {
    var code := IndexOf(line, 32) + 1;
    if code > |line| || |line| < code + 3 then Some(BadStatus)
    else if line[code..code + 3] != [49, 48, 49] then Some(NotSwitching)
    else None
  }

  /** `Incomplete` until there is a blank line; after that the status decides. */
  method ParseResponse(buf: bytes) returns (r: Result<nat, UpgradeError>)
    ensures r == Err(Incomplete) <==> forall i: nat :: !BlankAt(buf, i)
    ensures r.Ok? ==> HeadersEnd(buf, r.value)
    ensures r != Err(Incomplete) ==>
              var refusal := Status(buf[..IndexOf(buf, CR)]);
              r.Ok? == refusal.None? && (r.Err? ==> refusal == Some(r.error))
  {
    hide Status;
    var end := FindHeadersEnd(buf);
    if end.None? {
      return Err(Incomplete);
    }
    NeverIncomplete(buf[..IndexOf(buf, CR)]);
    assert BlankAt(buf, end.value - 4);
    var refusal := Status(buf[..IndexOf(buf, CR)]);
    r := if refusal.Some? then Err(refusal.value) else Ok(end.value);
  }

  lemma NeverIncomplete(line: bytes)
    ensures Status(line) != Some(Incomplete)
  {
  }

  /** Once the headers are complete, what is read after them changes nothing: neither where
      they end nor what the status line says. */
  lemma MoreChangesNothing(buf: bytes, more: bytes, end: nat)
    requires HeadersEnd(buf, end)
    ensures HeadersEnd(buf + more, end)
    ensures (buf + more)[..IndexOf(buf + more, CR)] == buf[..IndexOf(buf, CR)]
    ensures (buf + more)[end..] == buf[end..] + more
  {
    var all := buf + more;
    forall i: nat | i < end - 4 ensures !BlankAt(all, i) {
      assert !BlankAt(buf, i);
    }
    var a, b := IndexOf(buf, CR), IndexOf(all, CR);
    assert buf[end - 4] == CR;
    assert a <= end - 4 && all[a] == CR;
    assert b <= a && buf[b] == CR;
  }

  lemma HeadersEndOnce(s: bytes, a: nat, b: nat)
    requires HeadersEnd(s, a) && HeadersEnd(s, b)
    ensures a == b
  {
  }

  /** A response as a server writes it: a version, a space, a code and a reason on the first
      line, then headers up to a blank line. It is taken exactly when the code is 101, and
      refused as no status at all when the line has no space or fewer than three bytes
      after it. */
  method ParseStatusLine(version: bytes, code: bytes, reason: bytes, headers: bytes, more: bytes)
    returns (r: Result<nat, UpgradeError>)
    requires 13 !in version && 32 !in version && 13 !in code && 13 !in reason && |code| == 3
    requires headers != [] && headers[0] == 13 && HeadersEnd(headers, |headers|)
    ensures r == if code == Ascii("101") then Ok(|version| + 4 + |reason| + |headers|) else Err(NotSwitching)
  {
    hide Status, HeadersEnd, BlankAt;
    var line := version + [32] + code + reason;
    var buf := line + headers + more;
    r := ParseResponse(buf);
    BlankBehind(line, headers, more);
    FirstIs(line, headers + more, 13);
    assert line + (headers + more) == buf;
    StatusIs(version, code, reason);
    if r.Ok? {
      HeadersEndOnce(buf, r.value, |line| + |headers|);
    }
  }

  method ParseNoStatus(line: bytes, headers: bytes, more: bytes) returns (r: Result<nat, UpgradeError>)
    requires 13 !in line && forall i :: 0 <= i < |line| - 3 ==> line[i] != 32
    requires headers != [] && headers[0] == 13 && HeadersEnd(headers, |headers|)
    ensures r == Err(BadStatus)
  {
    hide HeadersEnd, BlankAt;
    var buf := line + headers + more;
    r := ParseResponse(buf);
    BlankBehind(line, headers, more);
    FirstIs(line, headers + more, 13);
    assert line + (headers + more) == buf;
    assert Status(line) == Some(BadStatus);
  }

  lemma FirstIs(line: bytes, rest: bytes, b: byte)
    requires b !in line && rest != [] && rest[0] == b
    ensures IndexOf(line + rest, b) == |line| && (line + rest)[..|line|] == line
  {
    var s := line + rest;
    assert s[|line|] == b;
    assert forall i :: 0 <= i < |line| ==> s[i] == line[i];
  }

  /** The headers of a response start with the end of its first line. */
  lemma BlankBehind(line: bytes, headers: bytes, more: bytes)
    requires 13 !in line && HeadersEnd(headers, |headers|)
    ensures HeadersEnd(line + headers + more, |line| + |headers|)
  {
    var s := line + headers + more;
    var at := |line| + |headers| - 4;
    assert forall i :: 0 <= i < |headers| ==> s[|line| + i] == headers[i];
    forall i: nat | i < at ensures !BlankAt(s, i) {
      if i < |line| {
        assert s[i] == line[i];
      } else {
        assert !BlankAt(headers, i - |line|);
      }
    }
  }

  lemma StatusIs(version: bytes, code: bytes, reason: bytes)
    requires 32 !in version && |code| == 3
    ensures Status(version + [32] + code + reason) == if code == Ascii("101") then None else Some(NotSwitching)
  {
    var line := version + [32] + code + reason;
    assert line == version + ([32] + code + reason);
    FirstIs(version, [32] + code + reason, 32);
    assert line[|version| + 1..][..3] == code;
    assert line[|version| + 1..|version| + 4] == code;
    assert Ascii("101") == [49, 48, 49];
  }

  /** Two of the examples in section 10 of RFC 4648. */
  lemma FooIsEncoded()
    ensures Encode(Ascii("foo")) == Ascii("Zm9v") && Encode(Ascii("f")) == Ascii("Zg==")
  {
    hide Digit, Group;
    GroupText([102, 111, 111]);
    GroupText([102]);
    DigitsOfFoo();
    assert Ascii("foo") == [102, 111, 111] && Ascii("f") == [102];
    assert Ascii("Zm9v") == [90, 109, 57, 118] && Ascii("Zg==") == [90, 103, 61, 61];
  }

  lemma DigitsOfFoo()
    ensures Digit(25) == 90 && Digit(38) == 109 && Digit(61) == 57 && Digit(47) == 118 && Digit(32) == 103
  {
  }
}
