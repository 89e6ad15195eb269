/** WireGuard's replay filter: a 2048-bit ring bitmap that agrees exactly with the set of
    counters accepted so far. */
module Replay {
  import opened Bytes

  const WINDOW_BITS: nat := 2048
  const WINDOW_WORDS: nat := 32

  /** `Accept` turns down this counter and all above it. */
  const REJECT_AFTER_MESSAGES: nat := U64 - 1 - 8192 - 1

  /** What the filter is for: a counter is good once, below the limit, and only while it
      is less than a window behind the highest one accepted. */
  ghost predicate Acceptable(seen: set<nat>, counter: nat) {
    && counter < REJECT_AFTER_MESSAGES
    && counter !in seen
    && forall h :: h in seen ==> counter + WINDOW_BITS > h
  }

  lemma AcceptableByNumber(seen: set<nat>, counter: nat)
    ensures Acceptable(seen, counter) <==>
              counter < 18446744073709543422 && counter !in seen && forall h :: h in seen ==> h <= counter + 2047
  {
  }

  function Slot(counter: nat): (r: nat)
    ensures r < WINDOW_BITS
  {
    counter % WINDOW_BITS
  }

  lemma SlotsDiffer(a: nat, b: nat)
    requires a < b < a + WINDOW_BITS
    ensures Slot(a) != Slot(b)
  {
  }

  function Bit(b: nat): bv64
    requires b < 64
  {
    (1 as bv64) << b
  }

  function And(word: bv64, mask: bv64): bv64 {
    word & mask
  }

  function Added(word: bv64, mask: bv64): bv64 {
    word | mask
  }

  function Removed(word: bv64, mask: bv64): bv64 {
    word & !mask
  }

  predicate Test(word: bv64, b: nat)
    requires b < 64
  {
    And(word, Bit(b)) != 0
  }

  function WithBit(word: bv64, b: nat): bv64
    requires b < 64
  {
    Added(word, Bit(b))
  }

  function WithoutBit(word: bv64, b: nat): bv64
    requires b < 64
  {
    Removed(word, Bit(b))
  }

  function Shifted(b: bv6): bv64 {
    (1 as bv64) << b
  }

  lemma ShiftAmount(b: nat)
    requires b < 64
    ensures (b as bv6) as nat == b && Bit(b) == Shifted(b as bv6)
  {
  }

  lemma SingleBits(a: bv6, b: bv6)
    ensures Shifted(a) != 0
    ensures a != b ==> And(Shifted(a), Shifted(b)) == 0
  {
  }

  lemma BitsDiffer(a: nat, b: nat)
    requires a < 64 && b < 64
    ensures Bit(a) != 0 && (a != b ==> And(Bit(a), Bit(b)) == 0)
  {
    hide Bit, Shifted, And;
    ShiftAmount(a);
    ShiftAmount(b);
    SingleBits(a as bv6, b as bv6);
  }

  lemma SameMask(word: bv64, x: bv64)
    requires x != 0
    ensures And(Added(word, x), x) != 0 && And(Removed(word, x), x) == 0
  {
  }

  lemma AddedElsewhere(word: bv64, x: bv64, y: bv64)
    requires And(x, y) == 0
    ensures And(Added(word, x), y) == And(word, y)
  {
  }

  lemma RemovedElsewhere(word: bv64, x: bv64, y: bv64)
    requires And(x, y) == 0
    ensures And(Removed(word, x), y) == And(word, y)
  {
  }

  lemma SetAndClear(word: bv64, a: nat, b: nat)
    requires a < 64 && b < 64
    ensures Test(WithBit(word, a), b) <==> a == b || Test(word, b)
    ensures Test(WithoutBit(word, a), b) <==> a != b && Test(word, b)
  {
    hide Bit, And, Added, Removed;
    BitsDiffer(a, b);
    if a == b {
      SameMask(word, Bit(a));
    } else {
      AddedElsewhere(word, Bit(a), Bit(b));
      RemovedElsewhere(word, Bit(a), Bit(b));
    }
  }

  lemma NoBits(b: nat)
    requires b < 64
    ensures !Test(0, b)
  {
  }

  class ReplayWindow {
    var highest: nat
    const bits: array<bv64>
    var started: bool

    /** Every counter accepted so far. */
    ghost var seen: set<nat>

    /** The bit that stands for a slot. */
    ghost predicate BitAt(slot: nat)
      reads bits
      requires bits.Length == WINDOW_WORDS && slot < WINDOW_BITS
    {
      Test(bits[slot / 64], slot % 64)
    }

    ghost predicate Valid()
      reads this, bits
    {
      && bits.Length == WINDOW_WORDS
      && (!started ==> seen == {} && forall s :: 0 <= s < WINDOW_BITS ==> !BitAt(s))
      && (started ==>
            && highest in seen && highest < REJECT_AFTER_MESSAGES
            && (forall c :: c in seen ==> c <= highest)
            && (forall c: nat :: c <= highest < c + WINDOW_BITS ==> (BitAt(Slot(c)) <==> c in seen)))
    }

    constructor ()
      ensures Valid() && seen == {} && fresh(bits)
    {
      highest, started, seen := 0, false, {};
      bits := new bv64[WINDOW_WORDS](_ => 0);
      new;
      forall s | 0 <= s < WINDOW_BITS ensures !BitAt(s) {
        NoBits(s % 64);
      }
    }

    method Get(counter: nat) returns (r: bool)
      requires bits.Length == WINDOW_WORDS
      ensures r == BitAt(Slot(counter))
    {
      var bit := counter % WINDOW_BITS;
      r := Test(bits[bit / 64], bit % 64);
    }

    method Set(counter: nat)
      requires bits.Length == WINDOW_WORDS
      modifies bits
      ensures forall s :: 0 <= s < WINDOW_BITS ==> (BitAt(s) <==> s == Slot(counter) || old(BitAt(s)))
    {
      hide Test, WithBit, WithoutBit;
      var bit := counter % WINDOW_BITS;
      var w, b := bit / 64, bit % 64;
      ghost var word := bits[w];
      bits[w] := WithBit(bits[w], b);
      forall s | 0 <= s < WINDOW_BITS
        ensures BitAt(s) <==> s == Slot(counter) || old(BitAt(s))
      {
        SetAndClear(word, b, s % 64);
      }
    }

    method Clear(counter: nat)
      requires bits.Length == WINDOW_WORDS
      modifies bits
      ensures forall s :: 0 <= s < WINDOW_BITS ==> (BitAt(s) <==> s != Slot(counter) && old(BitAt(s)))
    {
      hide Test, WithBit, WithoutBit;
      var bit := counter % WINDOW_BITS;
      var w, b := bit / 64, bit % 64;
      ghost var word := bits[w];
      bits[w] := WithoutBit(bits[w], b);
      forall s | 0 <= s < WINDOW_BITS
        ensures BitAt(s) <==> s != Slot(counter) && old(BitAt(s))
      {
        SetAndClear(word, b, s % 64);
      }
    }

    /** Every counter from the old highest to `shift` above it reads as not seen, and the other
        bits stay. */
    method ShiftLeft(shift: nat)
      requires bits.Length == WINDOW_WORDS
      modifies bits
      ensures forall s :: 0 <= s < WINDOW_BITS ==>
                (BitAt(s) <==> old(BitAt(s)) && forall c :: highest < c <= highest + shift ==> s != Slot(c))
    {
      hide Slot, Test;
      for i := 0 to shift
        invariant forall s :: 0 <= s < WINDOW_BITS ==>
                    (BitAt(s) <==> old(BitAt(s)) && forall c :: highest < c <= highest + i ==> s != Slot(c))
      {
        Clear(highest + i + 1);
      }
    }

    /** Forgets every bit. */
    method ClearAll()
      requires bits.Length == WINDOW_WORDS
      modifies bits
      ensures forall s :: 0 <= s < WINDOW_BITS ==> !BitAt(s)
    {
      forall i | 0 <= i < WINDOW_WORDS { bits[i] := 0; }
      forall s | 0 <= s < WINDOW_BITS ensures !BitAt(s) {
        NoBits(s % 64);
      }
    }

    /** Moves the window up to a new highest counter. */
    method Advance(counter: nat)
      requires Valid() && started && highest < counter < REJECT_AFTER_MESSAGES
      modifies `highest, `seen, bits
      ensures Valid() && seen == old(seen) + {counter}
    {
      hide Slot, BitAt;
      var shift := counter - highest;
      if shift >= WINDOW_BITS {
        ClearAll();
      } else {
        ShiftLeft(shift);
      }
      ghost var before := highest;
      forall c: nat | c < counter < c + WINDOW_BITS
        ensures BitAt(Slot(c)) <==> c in seen
        ensures Slot(c) != Slot(counter)
      {
        SlotsDiffer(c, counter);
        forall d | before < d <= counter && c <= before ensures Slot(d) != Slot(c) {
          SlotsDiffer(c, d);
        }
      }
      highest := counter;
      Set(counter);
      seen := seen + {counter};
    }

    /** Adds `counter` to the set of counters seen exactly when it is acceptable. */
    method Accept(counter: nat) returns (ok: bool)
      requires Valid()
      modifies this, bits
      ensures Valid()
      ensures ok <==> Acceptable(old(seen), counter)
      ensures seen == if ok then old(seen) + {counter} else old(seen)
      ensures !ok ==> highest == old(highest) && started == old(started) && bits[..] == old(bits[..])
    {
      hide Slot, BitAt;
      if counter >= REJECT_AFTER_MESSAGES {
        return false;
      }
      if !started {
        started := true;
        highest := counter;
        Set(counter);
        seen := {counter};
        OnlyOne(counter);
        return true;
      }
      if counter > highest {
        Advance(counter);
        return true;
      }
      var behind := highest - counter;
      if behind >= WINDOW_BITS {
        return false;
      }
      var replay := Get(counter);
      if replay {
        return false;
      }
      Set(counter);
      forall c: nat | c <= highest < c + WINDOW_BITS && c != counter ensures Slot(c) != Slot(counter) {
        SlotsDiffer(Min(c, counter), Max(c, counter));
      }
      seen := seen + {counter};
      ok := true;
    }
  }

  /** Within one window a slot belongs to a single counter. */
  lemma OnlyOne(counter: nat)
    ensures forall c: nat :: c <= counter < c + WINDOW_BITS && c != counter ==> Slot(c) != Slot(counter)
  {
  }
}
