/** TAI64N handshake timestamps, and that comparing them as bytes compares them as times. */
module Tai64n {
  import opened Bytes
  import opened HandshakeSpec

  /** The label of the Unix epoch in TAI64: 2^62 and ten seconds. */
  const EPOCH: nat := 0x4000_0000_0000_000A

  function FromUnix(seconds: nat, nanos: nat): (t: timestamp)
    requires EPOCH + seconds < U64 && nanos < U32
  {
    Be(EPOCH + seconds, 8) + Be(nanos, 4)
  }

  /** The fields of a timestamp, as they are read back. */
  lemma TimestampIsRead(seconds: nat, nanos: nat)
    requires EPOCH + seconds < U64 && nanos < U32
    ensures var t := FromUnix(seconds, nanos);
            |t| == 12 && FromBe(t[..8]) == 4611686018427387914 + seconds && FromBe(t[8..]) == nanos
  {
    Pow256Values();
    var t := FromUnix(seconds, nanos);
    assert t[..8] == Be(EPOCH + seconds, 8) && t[8..] == Be(nanos, 4);
    BeRoundTrip(EPOCH + seconds, 8);
    BeRoundTrip(nanos, 4);
  }

  /** The order Rust gives byte arrays: lexicographic. */
  predicate Less(a: bytes, b: bytes) {
    if a == [] || b == [] then b != []
    else a[0] < b[0] || (a[0] == b[0] && Less(a[1..], b[1..]))
  }

  predicate IsNewerThan(t: timestamp, previous: timestamp) {
    Less(previous, t)
  }

  lemma {:induction false} FromBeFirst(s: bytes)
    requires s != []
    ensures FromBe(s) == s[0] * Pow256(|s| - 1) + FromBe(s[1..])
  {
    if |s| == 1 {
      assert s[..0] == [];
    } else {
      var n := |s| - 1;
      FromBeFirst(s[..n]);
      assert s[..n][1..] == s[1..][..n - 1];
      assert s[0] * Pow256(n) == s[0] * Pow256(n - 1) * 256;
    }
  }

  /** A leading digit decides, and equal ones leave it to the rest. */
  lemma LeadingDigit(x: nat, y: nat, p: nat, r: nat, s: nat)
    requires r < p && s < p
    ensures x * p + r < y * p + s <==> x < y || (x == y && r < s)
  {
    if x < y {
      assert (x + 1) * p <= y * p;
    } else if y < x {
      assert (y + 1) * p <= x * p;
    }
  }

  lemma {:induction false} OrderIsNumeric(a: bytes, b: bytes)
    requires |a| == |b|
    ensures Less(a, b) <==> FromBe(a) < FromBe(b)
  {
    hide FromBe, Pow256;
    if a == [] {
      assert b == [];
    } else {
      OrderIsNumeric(a[1..], b[1..]);
      FromBeFirst(a);
      FromBeFirst(b);
      FromBeBound(a[1..]);
      FromBeBound(b[1..]);
      LeadingDigit(a[0], b[0], Pow256(|a| - 1), FromBe(a[1..]), FromBe(b[1..]));
    }
  }

  /** Timestamps are newer exactly when they are later in time. */
  lemma NewerIsLater(s: nat, n: nat, s': nat, n': nat)
    requires EPOCH + s < U64 && n < U32 && EPOCH + s' < U64 && n' < U32
    ensures IsNewerThan(FromUnix(s, n), FromUnix(s', n')) <==> s > s' || (s == s' && n > n')
  {
    hide Less, Be, FromBe, Pow256;
    var t, t' := FromUnix(s, n), FromUnix(s', n');
    OrderIsNumeric(t', t);
    FromBeConcat(Be(EPOCH + s, 8), Be(n, 4));
    FromBeConcat(Be(EPOCH + s', 8), Be(n', 4));
    Pow256Values();
    BeRoundTrip(EPOCH + s, 8);
    BeRoundTrip(EPOCH + s', 8);
    BeRoundTrip(n, 4);
    BeRoundTrip(n', 4);
    LeadingDigit(EPOCH + s', EPOCH + s, U32, n', n);
  }
}
