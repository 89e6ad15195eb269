/** TSMP, Tailscale's in-tunnel protocol: recognising a ping and building its pong. */
module Tsmp {
  import opened Bytes
  import opened Transport

  const IP_PROTO_TSMP: byte := 99
  const TYPE_PING: byte := 112
  const TYPE_PONG: byte := 111
  const IPV4_HEADER_LEN: nat := 20
  const PONG_LEN: nat := 31
  const CHECKSUM_AT: nat := 10
  const WORD: nat := 0x1_0000

  // ---------------------------------------------------------------- the checksum

  /** All pairs of bytes as big-endian numbers, added up; an odd byte at the end counts high. */
  function WordSum(s: bytes): nat {
    if s == [] then 0
    else if |s| == 1 then s[0] * 256
    else s[0] * 256 + s[1] + WordSum(s[2..])
  }

  /** End-around carry until sixteen bits are left. */
  function Folded(n: nat): (r: nat)
    ensures r < WORD
  {
    if n < WORD then n else Folded(n % WORD + n / WORD)
  }

  function Checksum(s: bytes): (r: nat)
    ensures r < WORD
  {
    WORD - 1 - Folded(WordSum(s))
  }

  lemma {:induction false} WordSumBound(s: bytes)
    ensures WordSum(s) <= (|s| + 1) / 2 * (WORD - 1)
  {
    if |s| > 1 {
      WordSumBound(s[2..]);
      assert (|s| + 1) / 2 == (|s[2..]| + 1) / 2 + 1;
    }
  }

  lemma {:induction false} WordSumConcat(a: bytes, b: bytes)
    requires |a| % 2 == 0
    ensures WordSum(a + b) == WordSum(a) + WordSum(b)
  {
    if a == [] {
      assert a + b == b;
    } else {
      WordSumConcat(a[2..], b);
      assert (a + b)[2..] == a[2..] + b;
    }
  }

  /** `n` and `m` leave the same remainder in ones' complement arithmetic. */
  ghost predicate SameSum(n: nat, m: nat) {
    (n - m) % (WORD - 1) == 0
  }

  /** Folding keeps the remainder, and only nothing folds to nothing. */
  lemma {:induction false} FoldingKeepsSum(n: nat)
    ensures SameSum(n, Folded(n)) && (Folded(n) == 0 <==> n == 0)
  {
    hide SameSum;
    FoldOnce(n);
    if n >= WORD {
      FoldingKeepsSum(n % WORD + n / WORD);
      SameSumOnwards(n, n % WORD + n / WORD, Folded(n));
    }
  }

  lemma FoldOnce(n: nat)
    ensures SameSum(n, n) && SameSum(n, n % WORD + n / WORD)
    ensures n >= WORD ==> 0 < n % WORD + n / WORD < n && Folded(n) == Folded(n % WORD + n / WORD)
    ensures n < WORD ==> Folded(n) == n
  {
    var m := n % WORD + n / WORD;
    assert n - m == n / WORD * (WORD - 1);
  }

  lemma SameSumOnwards(a: nat, b: nat, c: nat)
    requires SameSum(a, b) && SameSum(b, c)
    ensures SameSum(a, c)
  {
    var p, q := (a - b) / (WORD - 1), (b - c) / (WORD - 1);
    assert a - c == (p + q) * (WORD - 1);
  }

  /** A checksum put where a zero word was makes the whole sum to zero (section 1 of RFC 1071). */
  lemma ChecksumVerifies(before: bytes, after: bytes)
    requires |before| % 2 == 0
    ensures Checksum(before + Be(Checksum(before + [0, 0] + after), 2) + after) == 0
  {
    hide Folded, WordSum;
    var blank := before + [0, 0] + after;
    var c := Checksum(blank);
    var field := Be(c, 2);
    ThreeSums(before, [0, 0], after);
    ThreeSums(before, field, after);
    TwoBytes(c);
    FoldingKeepsSum(WordSum(blank));
    var total := WordSum(blank) + c;
    FoldingKeepsSum(total);
    FullSum(WordSum(blank), Folded(WordSum(blank)), Folded(total));
  }

  lemma ThreeSums(a: bytes, w: bytes, b: bytes)
    requires |a| % 2 == 0 && |w| == 2
    ensures WordSum(a + w + b) == WordSum(a) + w[0] as int * 256 + w[1] + WordSum(b)
  {
    WordSumConcat(a + w, b);
    WordSumConcat(a, w);
    assert w[2..] == [];
  }

  lemma TwoBytes(c: nat)
    requires c < WORD
    ensures Be(c, 2)[0] as int * 256 + Be(c, 2)[1] == c
  {
  }

  lemma FullSum(n: nat, f: nat, g: nat)
    requires f < WORD && g < WORD && SameSum(n, f)
    requires SameSum(n + (WORD - 1 - f), g) && (g == 0 <==> n + (WORD - 1 - f) == 0)
    requires f == 0 <==> n == 0
    ensures g == WORD - 1
  {
  }

  /** What the checksum of whole words is, told from the number that their bytes spell: it
      completes that number to a multiple of 65535, and is 65535 only for zero. */
  lemma ChecksumCompletes(s: bytes)
    requires |s| % 2 == 0
    ensures (FromBe(s) + Checksum(s)) % 65535 == 0 && (Checksum(s) == 65535 <==> FromBe(s) == 0)
  {
    hide SameSum, Folded, WordSum, FromBe;
    SpellsSameSum(s);
    FoldingKeepsSum(WordSum(s));
    SameSumOnwards(FromBe(s), WordSum(s), Folded(WordSum(s)));
    Completes(FromBe(s), Folded(WordSum(s)));
  }

  lemma Completes(n: nat, f: nat)
    requires SameSum(n, f)
    ensures (n + 65535 - f) % 65535 == 0
  {
    var q := (n - f) / 65535;
    assert n + 65535 - f == 65535 * (q + 1);
  }

  lemma {:induction false} SpellsSameSum(s: bytes)
    requires |s| % 2 == 0
    ensures SameSum(FromBe(s), WordSum(s)) && (WordSum(s) == 0 <==> FromBe(s) == 0)
    decreases |s|
  {
    hide SameSum, WordSum, FromBe;
    if s == [] {
      NothingSpelled();
    } else {
      var head, word := s[..|s| - 2], s[|s| - 2..];
      assert s == head + word && word == [word[0], word[1]];
      SpellsSameSum(head);
      WordSumConcat(head, word);
      TwoWord(word);
      FromBeConcat(head, word);
      Pow256Values();
      BigEndianReads(word[0], word[1], 0, 0);
      ShiftedSum(FromBe(head), WordSum(head), word[0] as int * 256 + word[1]);
    }
  }

  lemma NothingSpelled()
    ensures SameSum(FromBe([]), WordSum([])) && WordSum([]) == FromBe([]) == 0
  {
  }

  lemma ShiftedSum(a: nat, b: nat, w: nat)
    requires SameSum(a, b)
    ensures SameSum(a * 65536 + w, b + w)
  {
    var q := (a - b) / (WORD - 1);
    assert (a * 65536 + w) - (b + w) == (a + q) * (WORD - 1);
  }

  /** As many words as a 32-bit accumulator is sure to hold. */
  const SUMMABLE: nat := 0x2_0002

  method ComputeChecksum(header: bytes) returns (sum: nat)
    requires |header| <= SUMMABLE
    ensures sum == Checksum(header)
  {
    hide Folded, WordSum;
    sum := 0;
    var i: nat := 0;
    assert header[..0] == [];
    ShortSums(header);
    while i + 1 < |header|
      invariant i <= |header| && i % 2 == 0
      invariant sum == WordSum(header[..i])
    {
      assert header[..i + 2] == header[..i] + header[i..i + 2];
      WordSumConcat(header[..i], header[i..i + 2]);
      TwoWord(header[i..i + 2]);
      sum := sum + (header[i] as int * 256 + header[i + 1]);
      i := i + 2;
    }
    assert header == header[..i] + header[i..];
    WordSumConcat(header[..i], header[i..]);
    if i < |header| {
      sum := sum + header[i] as int * 256;
    }
    WordSumBound(header);
    assert sum == WordSum(header) < U32;
    while sum >= WORD
      invariant sum >= 0 && Folded(sum) == Folded(WordSum(header))
    {
      FoldOnce(sum);
      sum := sum % WORD + sum / WORD;
    }
    FoldOnce(sum);
    sum := WORD - 1 - sum;
  }

  lemma ShortSums(s: bytes)
    ensures WordSum([]) == 0
    ensures s != [] ==> WordSum(s[|s| - 1..]) == s[|s| - 1] as int * 256
  {
  }

  lemma TwoWord(w: bytes)
    requires |w| == 2
    ensures WordSum(w) == w[0] as int * 256 + w[1]
  {
  }

  // ---------------------------------------------------------------- ping and pong

  type address = a: bytes | |a| == 4 witness Zeros(4)

  datatype Ping = Ping(data: bytes, src: address, dst: address)

  /** The header length an IPv4 packet states. */
  function StatedHeader(packet: bytes): nat
    requires packet != []
  {
    packet[0] % 16 * 4
  }

  function PingOf(packet: bytes): (p: Option<Ping>)
    ensures p.Some? ==> |p.value.data| == 8
  {
    if |packet| < IPV4_HEADER_LEN || packet[0] / 16 != 4 then None
    else
      var ihl := StatedHeader(packet);
      if ihl < IPV4_HEADER_LEN || |packet| < ihl + 9 then None
      else if packet[9] != IP_PROTO_TSMP || packet[ihl] != TYPE_PING then None
      else Some(Ping(packet[ihl + 1..ihl + 9], packet[12..16], packet[16..20]))
  }

  /** A ping as a peer writes it, with any header options and anything after its data. */
  lemma PingIsParsed(fixed: bytes, src: address, dst: address, options: bytes, data: bytes, more: bytes)
    requires |fixed| == 12 && fixed[9] == IP_PROTO_TSMP && |data| == 8
    requires |options| % 4 == 0 && |options| <= 40 && fixed[0] as int == 64 + 5 + |options| / 4
    ensures PingOf(fixed + src + dst + options + [TYPE_PING] + data + more) == Some(Ping(data, src, dst))
  {
    var head := fixed + src + dst;
    var packet := head + options + [TYPE_PING] + data + more;
    var ihl := IPV4_HEADER_LEN + |options|;
    assert packet[0] == fixed[0] && packet[9] == fixed[9];
    assert packet[0] as int / 16 == 4 && StatedHeader(packet) == ihl;
    assert packet[ihl] == TYPE_PING && packet[ihl + 1..ihl + 9] == data;
    assert packet[12..16] == src && packet[16..20] == dst;
  }

  /** Nothing else is taken for a ping: what is has this shape. */
  lemma PingIsShaped(packet: bytes) returns (fixed: bytes, options: bytes, more: bytes)
    requires PingOf(packet).Some?
    ensures |fixed| == 12 && fixed[9] == 99 && |options| % 4 == 0 && |options| <= 40
    ensures fixed[0] as int == 69 + |options| / 4
    ensures var p := PingOf(packet).value;
            |p.data| == 8 && packet == fixed + p.src + p.dst + options + [112] + p.data + more
  {
    var p, ihl := PingOf(packet).value, StatedHeader(packet);
    fixed, options, more := packet[..12], packet[20..ihl], packet[ihl + 9..];
    assert packet[..20] == fixed + p.src + p.dst;
    assert packet[..ihl] == packet[..20] + options;
    assert packet[..ihl + 1] == packet[..ihl] + [112];
    assert packet[..ihl + 9] == packet[..ihl + 1] + p.data;
    assert packet == packet[..ihl + 9] + more;
  }

  /** The padding a tunnel adds does not hide a ping. */
  lemma PaddingKeepsPing(packet: bytes)
    requires PingOf(packet).Some?
    ensures PingOf(Padded(packet)) == PingOf(packet)
  {
    var p, ihl := Padded(packet), StatedHeader(packet);
    assert p[0] == packet[0] && p[9] == packet[9] && p[ihl] == packet[ihl];
    assert p[ihl + 1..ihl + 9] == packet[ihl + 1..ihl + 9];
    assert p[12..16] == packet[12..16] && p[16..20] == packet[16..20];
  }

  /** The pong's header, its checksum field still zero. */
  function BlankHeader(ping: Ping): (h: bytes)
    ensures |h| == IPV4_HEADER_LEN
  {
    [0x45, 0, 0, PONG_LEN, 0, 0, 0, 0, 64, IP_PROTO_TSMP] + [0, 0] + (ping.dst + ping.src)
  }

  function Pong(ping: Ping): (p: bytes)
    requires |ping.data| == 8
    ensures |p| == PONG_LEN
  {
    var header := BlankHeader(ping);
    header[..CHECKSUM_AT] + Be(Checksum(header), 2) + header[CHECKSUM_AT + 2..]
    + [TYPE_PONG] + ping.data + [0, 0]
  }

  /** An IPv4 packet without options, by section 3.1 of RFC 791. */
  datatype Ipv4 = Ipv4(ttl: byte, protocol: byte, src: address, dst: address, payload: bytes)

  function DecodeIpv4(s: bytes): Option<Ipv4> {
    if |s| < IPV4_HEADER_LEN || s[0] != 0x45 || Checksum(s[..IPV4_HEADER_LEN]) != 0 then None
    else
      var total := s[2] as int * 256 + s[3];
      if !(IPV4_HEADER_LEN <= total <= |s|) then None
      else Some(Ipv4(s[8], s[9], s[12..16], s[16..20], s[IPV4_HEADER_LEN..total]))
  }

  /** Every pong is a valid IPv4 packet from the pinged address back to the pinger that
      echoes the ping's data, whatever padding follows it. */
  lemma PongDecodes(ping: Ping, more: bytes)
    requires |ping.data| == 8
    ensures DecodeIpv4(Pong(ping) + more)
         == Some(Ipv4(64, IP_PROTO_TSMP, ping.dst, ping.src, [TYPE_PONG] + ping.data + [0, 0]))
  {
    hide Checksum, Be;
    var header := BlankHeader(ping);
    var before, after := header[..CHECKSUM_AT], header[CHECKSUM_AT + 2..];
    assert header == before + [0, 0] + after;
    ChecksumVerifies(before, after);
    var s := Pong(ping) + more;
    var sum := Be(Checksum(header), 2);
    assert s[..IPV4_HEADER_LEN] == before + sum + after;
    assert after == ping.dst + ping.src;
    assert s[12..16] == ping.dst && s[16..20] == ping.src;
    assert s[IPV4_HEADER_LEN..PONG_LEN] == [TYPE_PONG] + ping.data + [0, 0];
  }

  /** Builds the pong in `out`; nothing is written when it does not fit. */
  method WritePong(ping: Ping, out: array<byte>) returns (r: Option<nat>)
    requires |ping.data| == 8
    modifies out
    ensures if out.Length < PONG_LEN then r == None && out[..] == old(out[..])
            else r == Some(PONG_LEN) && out[..] == Pong(ping) + old(out[PONG_LEN..])
  {
    hide Checksum, Be;
    if out.Length < PONG_LEN {
      return None;
    }
    WriteHeader(ping, out);
    ghost var header, rest := BlankHeader(ping), out[PONG_LEN..];
    assert out[..IPV4_HEADER_LEN] == header;
    var sum := ComputeChecksum(out[..IPV4_HEADER_LEN]);
    WriteChecksum(sum, out, header);
    WritePayload(ping.data, out);
    r := Some(PONG_LEN);
    assert out[..] == out[..IPV4_HEADER_LEN] + out[IPV4_HEADER_LEN..PONG_LEN] + out[PONG_LEN..];
    assert Pong(ping) == out[..IPV4_HEADER_LEN] + out[IPV4_HEADER_LEN..PONG_LEN];
  }

  method WriteChecksum(sum: nat, out: array<byte>, ghost header: bytes)
    requires out.Length >= PONG_LEN && out[..IPV4_HEADER_LEN] == header
    modifies out
    ensures out[..IPV4_HEADER_LEN] == header[..CHECKSUM_AT] + Be(sum, 2) + header[CHECKSUM_AT + 2..]
    ensures out[PONG_LEN..] == old(out[PONG_LEN..])
  {
    hide Be;
    var field := Be(sum, 2);
    out[CHECKSUM_AT], out[CHECKSUM_AT + 1] := field[0], field[1];
    assert out[..CHECKSUM_AT] == header[..CHECKSUM_AT] && out[CHECKSUM_AT..CHECKSUM_AT + 2] == field;
    assert out[CHECKSUM_AT + 2..IPV4_HEADER_LEN] == header[CHECKSUM_AT + 2..];
    assert out[..IPV4_HEADER_LEN]
        == out[..CHECKSUM_AT] + out[CHECKSUM_AT..CHECKSUM_AT + 2] + out[CHECKSUM_AT + 2..IPV4_HEADER_LEN];
  }

  /** The payload after the header; the peer API port stays zero. */
  method WritePayload(data: bytes, out: array<byte>)
    requires out.Length >= PONG_LEN && |data| == 8
    modifies out
    ensures out[IPV4_HEADER_LEN..PONG_LEN] == [TYPE_PONG] + data + [0, 0]
    ensures out[..IPV4_HEADER_LEN] == old(out[..IPV4_HEADER_LEN]) && out[PONG_LEN..] == old(out[PONG_LEN..])
  {
    out[IPV4_HEADER_LEN] := TYPE_PONG;
    forall i | 0 <= i < 8 { out[IPV4_HEADER_LEN + 1 + i] := data[i]; }
    out[PONG_LEN - 2], out[PONG_LEN - 1] := 0, 0;
  }

  method WriteHeader(ping: Ping, out: array<byte>)
    requires out.Length >= PONG_LEN
    modifies out
    ensures out[..PONG_LEN] == BlankHeader(ping) + Zeros(PONG_LEN - IPV4_HEADER_LEN)
    ensures out[PONG_LEN..] == old(out[PONG_LEN..])
  {
    forall i | 0 <= i < PONG_LEN { out[i] := 0; }
    out[0] := 0x45;
    out[3] := PONG_LEN;
    out[8] := 64;
    out[9] := IP_PROTO_TSMP;
    forall i | 0 <= i < 4 { out[12 + i] := ping.dst[i]; }
    forall i | 0 <= i < 4 { out[16 + i] := ping.src[i]; }
    assert out[..PONG_LEN] == BlankHeader(ping) + Zeros(PONG_LEN - IPV4_HEADER_LEN);
  }
}
