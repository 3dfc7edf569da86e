/** The log-linear slot layout of src/stats/buckets.hpp.

    Nothing below is limited to the 3,808 slots a histogram allocates: the layout lemmas hold for
    every natural number, with the shifts of the source defined one bit at a time. */
module Buckets {

  const SUB_BUCKET_BITS: nat := 7
  const SUB_BUCKETS: nat := 128
  const MAX_VALUE: nat := 60_000_000_000

  function Shl(x: nat, k: nat): nat {
    if k == 0 then x else 2 * Shl(x, k - 1)
  }

  function Shr(x: nat, k: nat): nat {
    if k == 0 then x else Shr(x / 2, k - 1)
  }

  /** Position of the highest set bit, `63 - countl_zero(v)` in the source. */
  function Msb(v: nat): nat
    requires v >= 1
  {
    if v == 1 then 0 else 1 + Msb(v / 2)
  }

  function IndexOf(v: nat): nat {
    if v < SUB_BUCKETS then v
    else
      Octave(v);
      var shift := Msb(v) - SUB_BUCKET_BITS;
      (shift + 1) * SUB_BUCKETS + (Shr(v, shift) - SUB_BUCKETS)
  }

  /** Slots a histogram holds; CountIsDerived shows it is what the layout gives. */
  const COUNT: nat := 3808

  /** Exponent and mantissa of a slot outside the linear part. */
  function Decode(index: nat): (nat, nat)
    requires index >= SUB_BUCKETS
  {
    (index / SUB_BUCKETS - 1 + SUB_BUCKET_BITS, index % SUB_BUCKETS + SUB_BUCKETS)
  }

  function SlotLow(index: nat): nat {
    if index < SUB_BUCKETS then index
    else
      var (exponent, mantissa) := Decode(index);
      Shl(mantissa, exponent - SUB_BUCKET_BITS)
  }

  function SlotHigh(index: nat): nat {
    if index < SUB_BUCKETS then index
    else
      var (exponent, mantissa) := Decode(index);
      ShlGrows(mantissa, exponent - SUB_BUCKET_BITS);
      Shl(mantissa + 1, exponent - SUB_BUCKET_BITS) - 1
  }

  // ----- Shifts -----

  lemma {:induction false} ShlGrows(x: nat, k: nat)
    ensures Shl(x, k) < Shl(x + 1, k)
  {
    if k > 0 {
      ShlGrows(x, k - 1);
    }
  }

  lemma {:induction false} ShlOrdered(x: nat, y: nat, k: nat)
    requires x <= y
    ensures Shl(x, k) <= Shl(y, k)
  {
    if k > 0 {
      ShlOrdered(x, y, k - 1);
    }
  }

  lemma {:induction false} ShlDoubles(x: nat, k: nat)
    ensures Shl(2 * x, k) == Shl(x, k + 1)
  {
    if k > 0 {
      ShlDoubles(x, k - 1);
    }
  }

  /** One more in the mantissa is one more unit of the octave. */
  lemma {:induction false} ShlUnit(x: nat, k: nat)
    ensures Shl(x + 1, k) == Shl(x, k) + Shl(1, k)
    ensures SUB_BUCKETS * Shl(1, k) == Shl(SUB_BUCKETS, k)
  {
    if k > 0 {
      ShlUnit(x, k - 1);
    }
  }

  /** Shifting down and up again rounds down to a multiple of the unit. */
  lemma {:induction false} ShrThenShl(v: nat, k: nat)
    ensures Shl(Shr(v, k), k) <= v < Shl(Shr(v, k) + 1, k)
  {
    if k > 0 {
      ShrThenShl(v / 2, k - 1);
    }
  }

  lemma {:induction false} MsbIs(v: nat, k: nat)
    requires Shl(1, k) <= v < Shl(2, k)
    ensures v >= 1 && Msb(v) == k
  {
    if k > 0 {
      MsbIs(v / 2, k - 1);
    }
  }

  lemma ShlFour(x: nat, k: nat)
    requires k >= 4
    ensures Shl(x, k) == 16 * Shl(x, k - 4)
  {
    assert Shl(x, k - 1) == 2 * Shl(x, k - 2);
    assert Shl(x, k - 3) == 2 * Shl(x, k - 4);
  }

  /** Above the linear part, a value shifted down to its octave keeps eight significant bits. */
  lemma {:induction false} Octave(v: nat)
    requires v >= SUB_BUCKETS
    ensures Msb(v) >= SUB_BUCKET_BITS
    ensures SUB_BUCKETS <= Shr(v, Msb(v) - SUB_BUCKET_BITS) < 2 * SUB_BUCKETS
  {
    if v < 2 * SUB_BUCKETS {
      ShlFour(1, 7);
      ShlFour(2, 7);
      MsbIs(v, 7);
    } else {
      Octave(v / 2);
    }
  }

  // ----- Slots -----

  /** The slot of a value above the linear part, written through the value's own octave. */
  lemma SlotShape(v: nat)
    requires v >= SUB_BUCKETS && Msb(v) >= SUB_BUCKET_BITS
    ensures var shift := Msb(v) - SUB_BUCKET_BITS;
            && SlotLow(IndexOf(v)) == Shl(Shr(v, shift), shift)
            && SlotHigh(IndexOf(v)) == Shl(Shr(v, shift) + 1, shift) - 1
  {
    Octave(v);
    var octave, mantissa := Msb(v) - SUB_BUCKET_BITS + 1, Shr(v, Msb(v) - SUB_BUCKET_BITS) - SUB_BUCKETS;
    var index := octave * SUB_BUCKETS + mantissa;
    assert IndexOf(v) == index && index / SUB_BUCKETS == octave && index % SUB_BUCKETS == mantissa;
  }

  /** Every value lies inside the slot it is counted in. */
  lemma ValueInSlot(v: nat)
    ensures SlotLow(IndexOf(v)) <= v <= SlotHigh(IndexOf(v))
  {
    if v >= SUB_BUCKETS {
      Octave(v);
      SlotShape(v);
      ShrThenShl(v, Msb(v) - SUB_BUCKET_BITS);
    }
  }

  /** Slots neither overlap nor leave a gap: one ends where the next begins. */
  lemma SlotsAdjoin(index: nat)
    ensures SlotHigh(index) + 1 == SlotLow(index + 1)
  {
    if index >= SUB_BUCKETS && index % SUB_BUCKETS == SUB_BUCKETS - 1 {
      ShlDoubles(SUB_BUCKETS, index / SUB_BUCKETS - 1);
      assert (index + 1) % SUB_BUCKETS == 0;
    }
  }

  lemma SlotNotEmpty(index: nat)
    ensures SlotLow(index) <= SlotHigh(index)
  {
    if index >= SUB_BUCKETS {
      ShlGrows(index % SUB_BUCKETS + SUB_BUCKETS, index / SUB_BUCKETS - 1);
    }
  }

  lemma {:induction false} SlotsOrdered(i: nat, j: nat)
    requires i < j
    ensures SlotHigh(i) < SlotLow(j)
    decreases j
  {
    SlotsAdjoin(j - 1);
    if i < j - 1 {
      SlotsOrdered(i, j - 1);
      SlotNotEmpty(j - 1);
    }
  }

  /** The layout theorem: the slots partition the natural numbers, and IndexOf is the partition's
      own classification. */
  lemma SlotsPartition(v: nat, index: nat)
    ensures IndexOf(v) == index <==> SlotLow(index) <= v <= SlotHigh(index)
  {
    ValueInSlot(v);
    var own := IndexOf(v);
    if own < index {
      SlotsOrdered(own, index);
    } else if index < own {
      SlotsOrdered(index, own);
    }
  }

  /** Both edges of a slot map back to it. */
  lemma EdgesReturnToTheirSlot(index: nat)
    ensures IndexOf(SlotLow(index)) == index == IndexOf(SlotHigh(index))
  {
    SlotNotEmpty(index);
    SlotsPartition(SlotLow(index), index);
    SlotsPartition(SlotHigh(index), index);
  }

  lemma IndexMonotone(v: nat, w: nat)
    requires v <= w
    ensures IndexOf(v) <= IndexOf(w)
  {
    var i, j := IndexOf(v), IndexOf(w);
    ValueInSlot(v);
    ValueInSlot(w);
    if j < i {
      SlotsOrdered(j, i);
    }
  }

  /** Counting up by one nanosecond never skips a slot. */
  lemma IndexSkipsNoSlot(v: nat)
    ensures IndexOf(v) <= IndexOf(v + 1) <= IndexOf(v) + 1
  {
    var i := IndexOf(v);
    IndexMonotone(v, v + 1);
    ValueInSlot(v);
    SlotsAdjoin(i);
    EdgesReturnToTheirSlot(i + 1);
    IndexMonotone(v + 1, SlotLow(i + 1));
  }

  lemma HighEdgeMonotone(i: nat, j: nat)
    requires i <= j
    ensures SlotHigh(i) <= SlotHigh(j)
  {
    if i < j {
      SlotsOrdered(i, j);
      SlotNotEmpty(j);
    }
  }

  /** Reporting the high edge over-reports by at most one part in 128 and never under-reports. */
  lemma HighEdgeError(v: nat)
    ensures v <= SlotHigh(IndexOf(v))
    ensures SUB_BUCKETS * (SlotHigh(IndexOf(v)) - v) <= v
  {
    hide Shl, Shr;
    ValueInSlot(v);
    if v >= SUB_BUCKETS {
      Octave(v);
      SlotShape(v);
      var shift := Msb(v) - SUB_BUCKET_BITS;
      ShlUnit(Shr(v, shift), shift);
      ShlOrdered(SUB_BUCKETS, Shr(v, shift), shift);
    }
  }

  /** The slot count is the layout's own index of 60 s, plus one; and the last slot's high edge
      lies above 60 s. */
  lemma CountIsDerived()
    ensures IndexOf(MAX_VALUE) + 1 == COUNT
    ensures SlotLow(COUNT - 1) == 59_861_106_688 && SlotHigh(COUNT - 1) == 60_129_542_143
  {
    assert Decode(3807) == (35, 223);
    ShlFour(223, 28); ShlFour(223, 24); ShlFour(223, 20); ShlFour(223, 16);
    ShlFour(223, 12); ShlFour(223, 8); ShlFour(223, 4);
    ShlUnit(223, 28);
    ShlFour(1, 28); ShlFour(1, 24); ShlFour(1, 20); ShlFour(1, 16); ShlFour(1, 12); ShlFour(1, 8); ShlFour(1, 4);
    SlotsPartition(MAX_VALUE, 3807);
  }
}
