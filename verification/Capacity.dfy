/** How many buckets a hash map wants for a given number of entries. */
module Capacity {

  /** The value of the lowest bit that is set. */
  function LowBit(x: nat): (r: nat)
    requires x > 0
    ensures 0 < r <= x
  {
    if x % 2 == 1 then 1 else 2 * LowBit(x / 2)
  }

  function CapacityOf(x: nat): nat {
    if x == 0 then 0 else x + LowBit(x)
  }

  predicate IsPowerOf2(x: nat)
    requires x > 0
  {
    x == 1 || (x % 2 == 0 && IsPowerOf2(x / 2))
  }

  /** The documented capacity: all bits up to the highest one filled in, plus one. */
  function NextPowerOf2(x: nat): (r: nat)
    requires x > 0
    ensures x < r <= 2 * x && IsPowerOf2(r)
  {
    if x == 1 then 2 else 2 * NextPowerOf2(x / 2)
  }

  predicate AllOnes(x: nat) {
    x == 1 || (x > 1 && x % 2 == 1 && AllOnes(x / 2))
  }

  /** The bits that are set form one block. */
  predicate OneBlock(x: nat)
    requires x > 0
  {
    if x % 2 == 0 then OneBlock(x / 2) else AllOnes(x)
  }

  lemma {:induction false} OnesThenPower(x: nat)
    requires x > 0
    ensures x + 1 == NextPowerOf2(x) <==> AllOnes(x)
  {
    if x > 1 && x % 2 == 1 {
      OnesThenPower(x / 2);
    }
  }

  /** The bucket count is the documented power of two exactly when the bits of `x` form one block. */
  lemma {:induction false} CapacityIsPowerIffOneBlock(x: nat)
    requires x > 0
    ensures CapacityOf(x) == NextPowerOf2(x) <==> OneBlock(x)
    ensures x < CapacityOf(x) <= NextPowerOf2(x)
  {
    if x % 2 == 0 {
      CapacityIsPowerIffOneBlock(x / 2);
    } else {
      OnesThenPower(x);
    }
  }

  // ----- the bit loop

  /** Bitwise and. */
  function And(x: nat, y: nat): nat {
    if x == 0 || y == 0 then 0 else (if x % 2 == 1 && y % 2 == 1 then 1 else 0) + 2 * And(x / 2, y / 2)
  }

  /** Bitwise or. */
  function Or(x: nat, y: nat): nat {
    if x == 0 then y
    else if y == 0 then x
    else (if x % 2 == 1 || y % 2 == 1 then 1 else 0) + 2 * Or(x / 2, y / 2)
  }

  /** The `k` lowest bits. */
  function Mask(k: nat): nat {
    if k == 0 then 0 else 2 * Mask(k - 1) + 1
  }

  lemma {:induction false} MaskFindsLowBit(x: nat, k: nat)
    requires x > 0
    ensures And(x, Mask(k)) == 0 <==> LowBit(x) > Mask(k)
    decreases k
  {
    if k > 0 && x % 2 == 0 {
      MaskFindsLowBit(x / 2, k - 1);
      assert Mask(k) / 2 == Mask(k - 1);
    }
  }

  lemma {:induction false} MaskFillsUp(x: nat, k: nat)
    requires x > 0 && k > 0 && And(x, Mask(k - 1)) == 0 && And(x, Mask(k)) != 0
    ensures Or(x, Mask(k)) + 1 == x + LowBit(x)
    decreases k
  {
    assert Mask(k) / 2 == Mask(k - 1);
    if k > 1 {
      assert Mask(k - 1) / 2 == Mask(k - 2);
      assert x % 2 == 0;
      MaskFillsUp(x / 2, k - 1);
    } else {
      assert Mask(1) == 1 && Or(x / 2, 0) == x / 2;
    }
  }

  /** Masks 1, 3, 7, ... until one has a bit in common with `x`. */
  method FindCapacity(x: nat) returns (capacity: nat)
    ensures capacity == CapacityOf(x)
  {
    if x == 0 {
      return 0;
    }
    var iter: nat := 1;
    ghost var k: nat := 1;
    while And(x, iter) == 0
      invariant k > 0 && iter == Mask(k) && And(x, Mask(k - 1)) == 0
      decreases x - iter
    {
      MaskFindsLowBit(x, k);
      iter := 2 * iter + 1;
      k := k + 1;
    }
    MaskFillsUp(x, k);
    capacity := Or(x, iter) + 1;
  }

  /** The number of buckets for `size` entries: the load is rounded up first. */
  function Wanted(size: nat, maxLoad: real): (n: nat)
    requires maxLoad >= 0.0
    ensures exists x: nat :: x as real - 1.0 < size as real * maxLoad <= x as real && n == CapacityOf(x)
  {
    CapacityOf(Ceil(size as real * maxLoad))
  }

  function Ceil(x: real): (n: nat)
    requires x >= 0.0
    ensures n as real >= x && (n as real) < x + 1.0
  {
    if x.Floor as real < x then x.Floor + 1 else x.Floor
  }

  /** Rounding up leaves no choice, so that is exactly how many buckets are wanted. */
  lemma WantedExactly(size: nat, maxLoad: real, x: nat)
    requires maxLoad >= 0.0 && x as real - 1.0 < size as real * maxLoad <= x as real
    ensures Wanted(size, maxLoad) == CapacityOf(x)
  {
    assert Ceil(size as real * maxLoad) == x;
  }

  /** No buckets are wanted exactly for an empty map, unless the load factor is zero. */
  lemma NoBucketsIffEmpty(size: nat, maxLoad: real)
    requires maxLoad >= 0.0
    ensures Wanted(size, maxLoad) == 0 <==> size == 0 || maxLoad == 0.0
  {
    var load := size as real * maxLoad;
    if size > 0 && maxLoad > 0.0 {
      assert load > 0.0;
    } else {
      assert load == 0.0;
    }
  }
}
