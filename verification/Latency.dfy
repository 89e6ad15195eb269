/** The relay latency a host reports: milliseconds written as seconds. */
module Latency {
  import opened Bytes

  const DOT: byte := 46

  /** Fixed-point decimal text with three places, in thousandths. */
  function Thousandths(text: bytes): Option<nat> {
    if |text| < 5 || text[|text| - 4] != DOT then None
    else
      var whole, places := text[..|text| - 4], text[|text| - 3..];
      if IsDigits(whole) && IsDigits(places) then Some(FromDecimal(whole) * 1000 + FromDecimal(places)) else None
  }

  /** Milliseconds as seconds, with three places and one digit before the point. */
  function Text(ms: nat): (text: bytes)
    ensures |text| == 5
  {
    [48 + ms / 1000 % 10, DOT, 48 + ms % 1000 / 100, 48 + ms % 1000 / 10 % 10, 48 + ms % 1000 % 10]
  }

  /** What a reader of the text gets back is the latency exactly when that is under ten
      seconds. */
  lemma TextReads(ms: nat)
    ensures Thousandths(Text(ms)) == Some(ms % 10_000)
    ensures Thousandths(Text(ms)) == Some(ms) <==> ms < 10_000
  {
    hide FromDecimal;
    var text := Text(ms);
    assert text[..1] == [text[0]] && text[2..] == [text[2], text[3], text[4]];
    OneDigit(text[0]);
    ThreeDigits(text[2], text[3], text[4]);
    Places(ms);
  }

  /** Renders milliseconds as seconds. */
  method WriteSeconds(ms: u32, out: array<byte>) returns (text: bytes)
    requires out.Length == 12
    modifies out
    ensures text == out[..5] == Text(ms)
  {
    var whole, frac := ms / 1000, ms % 1000;
    out[0] := 48 + whole % 10;
    out[1] := DOT;
    out[2] := 48 + frac / 100;
    out[3] := 48 + frac / 10 % 10;
    out[4] := 48 + frac % 10;
    text := out[..5];
  }

  lemma OneDigit(a: byte)
    requires 48 <= a <= 57
    ensures FromDecimal([a]) == a - 48
  {
  }

  lemma ThreeDigits(a: byte, b: byte, c: byte)
    requires 48 <= a <= 57 && 48 <= b <= 57 && 48 <= c <= 57
    ensures FromDecimal([a, b, c]) == (a as int - 48) * 100 + (b as int - 48) * 10 + c - 48
  {
    assert [a, b, c][..2] == [a, b] && [a, b][..1] == [a];
    OneDigit(a);
    assert FromDecimal([a, b]) == FromDecimal([a]) * 10 + b - 48;
  }

  lemma Places(ms: nat)
    ensures ms / 1000 % 10 * 1000 + ms % 1000 == ms % 10_000
    ensures ms % 1000 / 100 * 100 + ms % 1000 / 10 % 10 * 10 + ms % 1000 % 10 == ms % 1000
  {
    var s, r := ms / 1000, ms % 1000;
    LastFour(s / 10, 1000 * (s % 10) + r);
    var t := r / 10;
    LastTwo(t / 10, 10 * (t % 10) + r % 10);
  }

  lemma LastFour(q: nat, r: nat)
    requires r < 10_000
    ensures (10_000 * q + r) % 10_000 == r
  {
  }

  lemma LastTwo(q: nat, r: nat)
    requires r < 100
    ensures (100 * q + r) / 100 == q
  {
  }

  /** Twelve and a half seconds are reported as two and a half. */
  lemma LongLatencyIsMisreported()
    ensures Text(12_500) == Ascii("2.500") && Thousandths(Text(12_500)) == Some(2_500)
  {
    TextReads(12_500);
    assert Ascii("2.500") == [50, 46, 53, 48, 48];
  }
}
