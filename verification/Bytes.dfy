/** Bytes, fixed-width integers in both byte orders, and the few sequence
    operations every layer of the client shares. */
module Bytes {

  type byte = x: int | 0 <= x < 256
  type bytes = seq<byte>

  const U32: nat := 0x1_0000_0000
  const U64: nat := 0x1_0000_0000_0000_0000

  type u32 = x: int | 0 <= x < U32
  type u64 = x: int | 0 <= x < U64

  datatype Option<+T> = None | Some(value: T)
  datatype Result<+T, +E> = Ok(value: T) | Err(error: E) {
    predicate IsFailure() {
      Err?
    }

    /** What a step that fails makes of the whole operation. */
    function PropagateFailure<U>(): Result<U, E>
      requires Err?
    {
      Err(error)
    }
  }

  function Min(a: int, b: int): int {
    if a < b then a else b
  }

  function Max(a: int, b: int): int {
    if a < b then b else a
  }

  // ---------------------------------------------------------------- sequences

  function Flatten<T>(parts: seq<seq<T>>): seq<T> {
    if parts == [] then [] else parts[0] + Flatten(parts[1..])
  }

  lemma {:induction false} FlattenConcat<T>(a: seq<seq<T>>, b: seq<seq<T>>)
    ensures Flatten(a + b) == Flatten(a) + Flatten(b)
  {
    if a == [] {
      assert a + b == b;
    } else {
      FlattenConcat(a[1..], b);
      FlattenCons(a[0], a[1..] + b);
      assert a + b == [a[0]] + (a[1..] + b);
      assert a[0] + (Flatten(a[1..]) + Flatten(b)) == a[0] + Flatten(a[1..]) + Flatten(b);
    }
  }

  lemma FlattenCons<T>(first: seq<T>, rest: seq<seq<T>>)
    ensures Flatten([first] + rest) == first + Flatten(rest)
  {
  }

  lemma NothingFlat()
    ensures Flatten<byte>([]) == []
  {
  }

  lemma FlattenSnoc<T>(a: seq<seq<T>>, last: seq<T>)
    ensures Flatten(a + [last]) == Flatten(a) + last
  {
    FlattenConcat(a, [last]);
    assert Flatten([last]) == last + Flatten([last][1..]);
  }

  lemma TakeMore<T>(s: seq<T>, i: nat, n: nat)
    requires i + n <= |s|
    ensures s[..i] + s[i..][..n] == s[..i + n]
    ensures s[i..][n..] == s[i + n..]
  {
  }

  function Map<A, B>(f: A -> B, s: seq<A>): (r: seq<B>)
    ensures |r| == |s|
    ensures forall i :: 0 <= i < |s| ==> r[i] == f(s[i])
  {
    seq(|s|, i requires 0 <= i < |s| => f(s[i]))
  }

  lemma MapConcat<A, B>(f: A -> B, a: seq<A>, b: seq<A>)
    ensures Map(f, a + b) == Map(f, a) + Map(f, b)
  {
  }

  /** The first `n` elements, or all of them when there are fewer. */
  function Truncate<T>(s: seq<T>, n: nat): (r: seq<T>)
    ensures r <= s && |r| == Min(|s|, n)
  {
    if |s| <= n then s else s[..n]
  }

  /** Rust's `slice::chunks`: pieces of `n`, the last one possibly shorter. */
  function Chunks<T>(s: seq<T>, n: nat): (parts: seq<seq<T>>)
    requires n > 0
    ensures Flatten(parts) == s
    ensures forall i :: 0 <= i < |parts| ==> 0 < |parts[i]| <= n
    ensures s == [] <==> parts == []
  {
    if s == [] then []
    else if |s| <= n then [s]
    else
      assert s == s[..n] + s[n..];
      [s[..n]] + Chunks(s[n..], n)
  }

  function Zeros(n: nat): (r: bytes)
    ensures |r| == n
  {
    seq(n, _ => 0)
  }

  /** The bytes of an ASCII literal. */
  function Ascii(s: string): (b: bytes)
    ensures |b| == |s|
  {
    seq(|s|, i requires 0 <= i < |s| => if s[i] as int < 128 then s[i] as int else 63)
  }

  // ---------------------------------------------------------------- writing

  /** What one write does to the text written so far: all of `text` when it fits in
      `capacity`, and otherwise an error with only a part of it. */
  ghost predicate Wrote(before: bytes, after: bytes, text: bytes, ok: bool, capacity: nat) {
    && (ok <==> |before| + |text| <= capacity)
    && (ok ==> after == before + text)
    && before <= after <= before + text
  }

  /** One write after another, the second attempted only when the first succeeded. */
  lemma WroteThen(before: bytes, mid: bytes, after: bytes, t1: bytes, t2: bytes,
                  ok1: bool, ok: bool, capacity: nat)
    requires Wrote(before, mid, t1, ok1, capacity)
    requires if ok1 then Wrote(mid, after, t2, ok, capacity) else after == mid && !ok
    ensures Wrote(before, after, t1 + t2, ok, capacity)
  {
  }

  // ---------------------------------------------------------------- integers

  function Pow256(w: nat): (r: nat)
    ensures r > 0
  {
    if w == 0 then 1 else 256 * Pow256(w - 1)
  }

  lemma Pow256Values()
    ensures Pow256(1) == 256
    ensures Pow256(2) == 0x1_0000
    ensures Pow256(3) == 0x100_0000
    ensures Pow256(4) == U32
    ensures Pow256(8) == U64
  {
  }

  /** The low `w` bytes of `n`, most significant first (`to_be_bytes`). */
  function Be(n: nat, w: nat): (s: bytes)
    ensures |s| == w
  {
    if w == 0 then [] else Be(n / 256, w - 1) + [n % 256]
  }

  /** `from_be_bytes`. */
  function FromBe(s: bytes): nat {
    if s == [] then 0 else FromBe(s[..|s| - 1]) * 256 + s[|s| - 1]
  }

  function Reverse<T>(s: seq<T>): (r: seq<T>)
    ensures |r| == |s|
  {
    if s == [] then [] else Reverse(s[1..]) + [s[0]]
  }

  /** `to_le_bytes`. */
  function Le(n: nat, w: nat): (s: bytes)
    ensures |s| == w
  {
    if w == 0 then [] else [n % 256] + Le(n / 256, w - 1)
  }

  /** `from_le_bytes`. */
  function FromLe(s: bytes): nat {
    if s == [] then 0 else s[0] + 256 * FromLe(s[1..])
  }

  /** `u32::from_be_bytes` on four bytes, and its inverse. */
  function U32Be(a: byte, b: byte, c: byte, d: byte): (n: nat)
    ensures n < U32
  {
    ((a * 256 + b) * 256 + c) * 256 + d
  }

  function BeU32(n: nat): (s: bytes)
    ensures |s| == 4
  {
    var c := n / 256;
    var b := c / 256;
    var a := b / 256;
    [a % 256, b % 256, c % 256, n % 256]
  }

  lemma BeU32RoundTrip(n: nat)
    requires n < U32
    ensures var s := BeU32(n);
            U32Be(s[0], s[1], s[2], s[3]) == n && U32Be(0, s[1], s[2], s[3]) == n % 0x100_0000
  {
    var c := n / 256;
    var b := c / 256;
    var a := b / 256;
    assert n == 0x100_0000 * a + 0x1_0000 * (b % 256) + 256 * (c % 256) + n % 256;
  }

  lemma {:induction false} BeRoundTrip(n: nat, w: nat)
    requires n < Pow256(w)
    ensures FromBe(Be(n, w)) == n
  {
    if w > 0 {
      BeRoundTrip(n / 256, w - 1);
      var s := Be(n, w);
      assert s[..|s| - 1] == Be(n / 256, w - 1);
    }
  }

  lemma {:induction false} FromBeBound(s: bytes)
    ensures FromBe(s) < Pow256(|s|)
  {
    if s != [] {
      FromBeBound(s[..|s| - 1]);
    }
  }

  lemma {:induction false} LeRoundTrip(n: nat, w: nat)
    requires n < Pow256(w)
    ensures FromLe(Le(n, w)) == n
  {
    if w > 0 {
      LeRoundTrip(n / 256, w - 1);
      assert Le(n, w)[1..] == Le(n / 256, w - 1);
    }
  }

  lemma {:induction false} FromLeBound(s: bytes)
    ensures FromLe(s) < Pow256(|s|)
  {
    if s != [] {
      FromLeBound(s[1..]);
    }
  }

  /** Both byte orders at the widths in use. */
  lemma ByteOrder(a: byte, b: byte, c: byte, d: byte)
    ensures FromBe([a, b, c, d]) == FromLe([d, c, b, a]) == U32Be(a, b, c, d)
         == 16777216 * a as int + 65536 * b as int + 256 * c as int + d
    ensures FromBe([a, b]) == FromLe([b, a]) == 256 * a as int + b
    ensures var n := U32Be(a, b, c, d);
            BeU32(n) == Be(n, 4) == [a, b, c, d] && Le(n, 4) == [d, c, b, a]
  {
    hide Be, Le, BeU32, U32Be;
    BigEndianReads(a, b, c, d);
    LittleEndianReads(a, b, c, d);
    BigEndianOf([a, b, c, d]);
    LittleEndianOf([d, c, b, a]);
    BeU32Of(a, b, c, d);
  }

  lemma BigEndianReads(a: byte, b: byte, c: byte, d: byte)
    ensures FromBe([a, b]) == 256 * a as int + b
    ensures FromBe([a, b, c, d]) == U32Be(a, b, c, d)
  {
    hide FromBe;
    NothingIsZero();
    OneMoreByte([], a);
    OneMoreByte([a], b);
    OneMoreByte([a, b], c);
    OneMoreByte([a, b, c], d);
    assert [] + [a] == [a] && [a] + [b] == [a, b] && [a, b] + [c] == [a, b, c] && [a, b, c] + [d] == [a, b, c, d];
  }

  lemma LittleEndianReads(a: byte, b: byte, c: byte, d: byte)
    ensures FromLe([b, a]) == 256 * a as int + b
    ensures FromLe([d, c, b, a]) == U32Be(a, b, c, d)
  {
    hide FromLe;
    NothingIsZero();
    OneByteBefore(a, []);
    OneByteBefore(b, [a]);
    OneByteBefore(c, [b, a]);
    OneByteBefore(d, [c, b, a]);
    assert [a] + [] == [a] && [b] + [a] == [b, a] && [c] + [b, a] == [c, b, a] && [d] + [c, b, a] == [d, c, b, a];
  }

  lemma NothingIsZero()
    ensures FromBe([]) == 0 && FromLe([]) == 0
  {
  }

  lemma OneMoreByte(s: bytes, b: byte)
    ensures FromBe(s + [b]) == FromBe(s) * 256 + b
  {
    assert (s + [b])[..|s|] == s;
  }

  lemma OneByteBefore(b: byte, s: bytes)
    ensures FromLe([b] + s) == b + 256 * FromLe(s)
  {
    assert ([b] + s)[1..] == s;
  }

  lemma BeU32Of(a: byte, b: byte, c: byte, d: byte)
    ensures BeU32(U32Be(a, b, c, d)) == [a, b, c, d]
    ensures U32Be(a, b, c, d) == 16777216 * a as int + 65536 * b as int + 256 * c as int + d
  {
    var n := U32Be(a, b, c, d);
    assert n / 256 == (a * 256 + b) * 256 + c && n % 256 == d;
    assert n / 256 / 256 == a * 256 + b && n / 256 / 256 / 256 == a;
  }

  /** Writing a number that was read gives the bytes back, in either order. */
  lemma {:induction false} BigEndianOf(s: bytes)
    ensures Be(FromBe(s), |s|) == s
  {
    if s != [] {
      var k := |s| - 1;
      BigEndianOf(s[..k]);
      assert FromBe(s) / 256 == FromBe(s[..k]) && FromBe(s) % 256 == s[k];
      assert s == s[..k] + [s[k]];
    }
  }

  lemma {:induction false} LittleEndianOf(s: bytes)
    ensures Le(FromLe(s), |s|) == s
  {
    if s != [] {
      LittleEndianOf(s[1..]);
      assert FromLe(s) / 256 == FromLe(s[1..]) && FromLe(s) % 256 == s[0];
      assert s == [s[0]] + s[1..];
    }
  }

  /** Eight bytes are two words, the high one first in one order and last in the other. */
  lemma LongByteOrder(hi: bytes, lo: bytes)
    requires |hi| == |lo| == 4
    ensures FromBe(hi + lo) == FromBe(hi) * 4294967296 + FromBe(lo)
    ensures FromLe(lo + hi) == FromLe(hi) * 4294967296 + FromLe(lo)
  {
    Pow256Values();
    FromBeConcat(hi, lo);
    FromLeConcat(lo, hi);
  }

  lemma {:induction false} FromBeConcat(a: bytes, b: bytes)
    ensures FromBe(a + b) == FromBe(a) * Pow256(|b|) + FromBe(b)
    decreases |b|
  {
    if b == [] {
      assert a + b == a;
    } else {
      var k := |b| - 1;
      FromBeConcat(a, b[..k]);
      assert (a + b)[..|a + b| - 1] == a + b[..k];
      assert FromBe(a) * (256 * Pow256(k)) == (FromBe(a) * Pow256(k)) * 256;
    }
  }

  lemma {:induction false} FromLeConcat(a: bytes, b: bytes)
    ensures FromLe(a + b) == FromLe(a) + Pow256(|a|) * FromLe(b)
  {
    if a == [] {
      assert a + b == b;
    } else {
      FromLeConcat(a[1..], b);
      assert (a + b)[1..] == a[1..] + b;
      assert 256 * (Pow256(|a| - 1) * FromLe(b)) == (256 * Pow256(|a| - 1)) * FromLe(b);
    }
  }

  // ---------------------------------------------------------------- decimals

  /** A number in decimal ASCII, with no leading zero. */
  function Decimal(n: nat): (s: bytes)
    ensures |s| > 0 && IsDigits(s)
  {
    if n < 10 then [48 + n] else Decimal(n / 10) + [48 + n % 10]
  }

  predicate IsDigits(s: bytes) {
    forall i :: 0 <= i < |s| ==> 48 <= s[i] <= 57
  }

  function FromDecimal(s: bytes): (n: nat)
    requires IsDigits(s)
  {
    if s == [] then 0 else FromDecimal(s[..|s| - 1]) * 10 + s[|s| - 1] - 48
  }

  lemma {:induction false} DecimalRoundTrip(n: nat)
    ensures FromDecimal(Decimal(n)) == n
  {
    var s := Decimal(n);
    if n < 10 {
      assert s[..0] == [];
    } else {
      DecimalRoundTrip(n / 10);
      assert s[..|s| - 1] == Decimal(n / 10);
    }
  }

  function Pow10(k: nat): (n: nat)
    ensures n > 0
  {
    if k == 0 then 1 else 10 * Pow10(k - 1)
  }

  lemma {:induction false} DecimalLength(n: nat, k: nat)
    requires k > 0 && n < Pow10(k)
    ensures |Decimal(n)| <= k
  {
    if n >= 10 {
      assert k > 1 by {
        assert Pow10(1) == 10 * Pow10(0);
      }
      DecimalLength(n / 10, k - 1);
    }
  }

  /** Each place of a decimal, counted from the right, holds its digit; only zero starts
      with a zero. */
  lemma {:induction false} DecimalPlaces(n: nat, k: nat)
    requires k < |Decimal(n)|
    ensures Decimal(n)[|Decimal(n)| - 1 - k] == 48 + n / Pow10(k) % 10
    ensures Decimal(n)[0] == 48 <==> n == 0
  {
    if n >= 10 && k == 0 {
      DecimalPlaces(n / 10, 0);
      assert Pow10(0) == 1;
    } else if n >= 10 {
      DecimalPlaces(n / 10, k - 1);
      TenTimes(n, Pow10(k - 1));
    }
  }

  lemma TenTimes(n: nat, p: nat)
    requires p > 0
    ensures n / 10 / p == n / (10 * p)
  {
    var q := n / 10 / p;
    var r, t := n / 10 % p, n % 10;
    assert n == 10 * (q * p + r) + t;
    assert n == q * (10 * p) + (10 * r + t);
    QuotientIs(n, 10 * p, q, 10 * r + t);
  }

  lemma QuotientIs(n: nat, m: nat, q: nat, r: nat)
    requires m > 0 && r < m && n == q * m + r
    ensures n / m == q
  {
    var d := n / m - q;
    assert d * m == r - n % m by {
      assert n == m * (n / m) + n % m;
      assert d * m == (n / m) * m - q * m;
    }
    if d > 0 {
      AtLeastOnce(d, m);
    }
  }

  lemma AtLeastOnce(d: nat, m: nat)
    requires d > 0
    ensures d * m >= m
  {
  }
}
