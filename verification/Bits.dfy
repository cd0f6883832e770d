/** Numbers as bits: a mask is the set of its bit positions. */
module Bits {

  type Byte = b: int | 0 <= b < 256

  function Pow2(n: nat): (p: nat)
    ensures p > 0
  {
    if n == 0 then 1 else 2 * Pow2(n - 1)
  }

  function Bit(x: nat, i: nat): (b: nat)
    ensures b <= 1
  {
    if i == 0 then x % 2 else Bit(x / 2, i - 1)
  }

  /** The bits of val that are in the mask, from low up to high, moved together. */
  function Pack(mask: set<nat>, val: nat, low: nat, high: nat): nat
    requires low <= high
    decreases high - low
  {
    if low == high then 0
    else if low in mask then Bit(val, low) + 2 * Pack(mask, val, low + 1, high)
    else Pack(mask, val, low + 1, high)
  }

  function Count(mask: set<nat>, low: nat, high: nat): nat
    requires low <= high
    decreases high - low
  {
    if low == high then 0 else Count(mask, low + 1, high) + if low in mask then 1 else 0
  }

  /** The k lowest bits of the mask. */
  function Lowest(mask: set<nat>, low: nat, high: nat, k: nat): set<nat>
    requires low <= high
    decreases high - low
  {
    if low == high || k == 0 then {}
    else if low in mask then {low} + Lowest(mask, low + 1, high, k - 1)
    else Lowest(mask, low + 1, high, k)
  }

  // ----- powers

  lemma {:induction false} Pow2Adds(a: nat, b: nat)
    ensures Pow2(a + b) == Pow2(a) * Pow2(b)
  {
    if a > 0 {
      Pow2Adds(a - 1, b);
      Associates(2, Pow2(a - 1), Pow2(b));
    }
  }

  lemma Associates(x: int, y: int, z: int)
    ensures x * (y * z) == x * y * z
  {
  }

  lemma {:induction false} Pow2Grows(a: nat, b: nat)
    requires a < b
    ensures Pow2(a) < Pow2(b)
  {
    if a < b - 1 {
      Pow2Grows(a, b - 1);
    }
  }

  lemma SmallPowers()
    ensures Pow2(1) == 2 && Pow2(2) == 4 && Pow2(3) == 8 && Pow2(4) == 16 && Pow2(7) == 128
  {
    assert Pow2(3) == 8;
    Pow2Adds(3, 4);
  }

  lemma Pow2Of32()
    ensures Pow2(4) == 16 && Pow2(8) == 256 && Pow2(16) == 0x1_0000 && Pow2(32) == 0x1_0000_0000
  {
    assert Pow2(4) == 16;
    Pow2Adds(4, 4);
    Pow2Adds(8, 8);
    Pow2Adds(16, 16);
  }

  /** Quotient and remainder are unique. */
  lemma QuotientIsUnique(q: nat, r: nat, q': nat, r': nat, d: nat)
    requires r < d && r' < d && q * d + r == q' * d + r'
    ensures q == q' && r == r'
  {
    if q < q' {
      Grows(d, q + 1, q');
      assert false;
    } else if q' < q {
      Grows(d, q' + 1, q);
      assert false;
    }
  }

  lemma QuotientAndRemainder(x: nat, d: nat)
    requires d > 0
    ensures x == x / d * d + x % d && x % d < d
  {
  }

  function Quotient(x: nat, d: nat): (q: nat)
    requires d > 0
    ensures q == x / d
  {
    QuotientAndRemainder(x, d);
    x / d
  }

  lemma SmallNumber(x: nat, d: nat)
    requires x < d
    ensures x / d == 0 && x % d == x
  {
  }

  lemma AtLeast(n: nat, x: nat)
    requires n > 0
    ensures x * n >= x
  {
    Grows(x, 1, n);
  }

  lemma Grows(d: nat, x: nat, y: nat)
    requires x <= y
    ensures x * d <= y * d
  {
  }

  // ----- bits

  lemma {:induction false} BitsDetermine(a: nat, b: nat, n: nat)
    requires a < Pow2(n) && b < Pow2(n)
    requires forall i: nat :: i < n ==> Bit(a, i) == Bit(b, i)
    ensures a == b
  {
    if n > 0 {
      forall i: nat | i < n - 1
        ensures Bit(a / 2, i) == Bit(b / 2, i)
      {
        assert Bit(a, i + 1) == Bit(b, i + 1);
      }
      BitsDetermine(a / 2, b / 2, n - 1);
      assert Bit(a, 0) == Bit(b, 0);
    }
  }

  lemma {:induction false} BitOfPower(i: nat, j: nat)
    ensures Bit(Pow2(i), j) == if i == j then 1 else 0
  {
    if i == 0 {
      BitOfOne(j);
    } else if j > 0 {
      BitOfPower(i - 1, j - 1);
    }
  }

  lemma {:induction false} BitOfZero(j: nat)
    ensures Bit(0, j) == 0
  {
    if j > 0 {
      BitOfZero(j - 1);
    }
  }

  lemma BitOfOne(j: nat)
    ensures Bit(1, j) == if j == 0 then 1 else 0
  {
    if j > 0 {
      BitOfZero(j - 1);
    }
  }

  // ----- packed bits

  ghost predicate AgreeOn(mask: set<nat>, a: nat, b: nat, low: nat, high: nat)
  {
    forall i: nat :: low <= i < high && i in mask ==> Bit(a, i) == Bit(b, i)
  }

  /** Packing keeps exactly the masked bits. */
  lemma {:induction false} PackDetermines(mask: set<nat>, a: nat, b: nat, low: nat, high: nat)
    requires low <= high
    ensures Pack(mask, a, low, high) == Pack(mask, b, low, high) <==> AgreeOn(mask, a, b, low, high)
    decreases high - low
  {
    if low < high {
      PackDetermines(mask, a, b, low + 1, high);
      if low in mask {
        assert AgreeOn(mask, a, b, low, high) <==> Bit(a, low) == Bit(b, low) && AgreeOn(mask, a, b, low + 1, high);
      } else {
        assert AgreeOn(mask, a, b, low, high) <==> AgreeOn(mask, a, b, low + 1, high);
      }
    }
  }

  /** A mask bit is packed to the place that the number of mask bits below it gives. */
  lemma {:induction false} PackedBit(mask: set<nat>, val: nat, low: nat, high: nat, i: nat)
    requires low <= i < high && i in mask
    ensures Bit(Pack(mask, val, low, high), Count(mask, low, i)) == Bit(val, i)
    decreases high - low
  {
    if low < i {
      PackedBit(mask, val, low + 1, high, i);
      if low in mask {
        BitAbove(Bit(val, low), Pack(mask, val, low + 1, high), Count(mask, low + 1, i));
      }
    } else {
      BitBelow(Bit(val, low), Pack(mask, val, low + 1, high));
    }
  }

  lemma BitAbove(b: nat, p: nat, k: nat)
    requires b <= 1
    ensures Bit(b + 2 * p, k + 1) == Bit(p, k)
  {
    assert (b + 2 * p) / 2 == p;
  }

  lemma BitBelow(b: nat, p: nat)
    requires b <= 1
    ensures Bit(b + 2 * p, 0) == b
  {
  }

  lemma {:induction false} PackFits(mask: set<nat>, val: nat, low: nat, high: nat)
    requires low <= high
    ensures Pack(mask, val, low, high) < Pow2(Count(mask, low, high))
    decreases high - low
  {
    if low < high {
      PackFits(mask, val, low + 1, high);
    }
  }

  /** Positions without mask bits at either end do not matter. */
  lemma {:induction false} PackWithin(mask: set<nat>, val: nat, low: nat, high: nat, start: nat, end: nat)
    requires start <= low <= high <= end
    requires forall i :: i in mask && start <= i < end ==> low <= i < high
    ensures Pack(mask, val, start, end) == Pack(mask, val, low, high)
    decreases end - start
  {
    if start < low {
      PackWithin(mask, val, low, high, start + 1, end);
    } else if low < high {
      PackWithin(mask, val, low + 1, high, start + 1, end);
    } else if start < end {
      PackWithin(mask, val, end, end, start + 1, end);
    }
  }

  lemma {:induction false} LowestAreInMask(mask: set<nat>, low: nat, high: nat, k: nat)
    requires low <= high
    ensures forall i :: i in Lowest(mask, low, high, k) ==> i in mask && low <= i < high
    decreases high - low
  {
    if low < high && k > 0 {
      LowestAreInMask(mask, low + 1, high, if low in mask then k - 1 else k);
    }
  }

  lemma RemainderOfDouble(b: nat, p: nat, m: nat)
    requires b <= 1 && m > 0
    ensures (b + 2 * p) % (2 * m) == b + 2 * (p % m)
  {
    var q, r := p / m, p % m;
    Doubled(q, r, p, m);
    PartsOf(b + 2 * p, q, b + 2 * r, 2 * m);
  }

  lemma Doubled(q: nat, r: nat, p: nat, m: nat)
    requires p == q * m + r
    ensures 2 * p == q * (2 * m) + 2 * r
  {
  }

  lemma PartsOf(x: nat, q: nat, r: nat, d: nat)
    requires r < d && x == q * d + r
    ensures x / d == q && x % d == r
  {
    QuotientIsUnique(x / d, x % d, q, r, d);
  }

  lemma {:induction false} PackOfNothing(mask: set<nat>, val: nat, low: nat, high: nat)
    requires low <= high && forall i :: low <= i < high ==> i !in mask || Bit(val, i) == 0
    ensures Pack(mask, val, low, high) == 0
    decreases high - low
  {
    if low < high {
      PackOfNothing(mask, val, low + 1, high);
    }
  }

  /** The remainder of packed bits is made of the lowest mask bits. */
  lemma {:induction false} LowestAreRemainder(mask: set<nat>, val: nat, low: nat, high: nat, k: nat)
    requires low <= high
    ensures Pack(mask, val, low, high) % Pow2(k) == Pack(Lowest(mask, low, high, k), val, low, high)
    decreases high - low
  {
    if low == high {
      SmallNumber(0, Pow2(k));
    } else if k == 0 {
      PackOfNothing({}, val, low, high);
      DividedByOne(Pack(mask, val, low, high));
    } else {
      LowestAreRemainder(mask, val, low + 1, high, if low in mask then k - 1 else k);
      LowestStep(mask, val, low, high, k);
    }
  }

  lemma DividedByOne(x: nat)
    ensures x % 1 == 0
  {
  }

  lemma LowestStep(mask: set<nat>, val: nat, low: nat, high: nat, k: nat)
    requires low < high && k > 0
    requires var m := if low in mask then k - 1 else k;
             Pack(mask, val, low + 1, high) % Pow2(m) == Pack(Lowest(mask, low + 1, high, m), val, low + 1, high)
    ensures Pack(mask, val, low, high) % Pow2(k) == Pack(Lowest(mask, low, high, k), val, low, high)
  {
    var m := if low in mask then k - 1 else k;
    var above := Lowest(mask, low + 1, high, m);
    var lowest := Lowest(mask, low, high, k);
    assert lowest == if low in mask then {low} + above else above;
    assert Pow2(k) == 2 * Pow2(k - 1);
    LowestAreInMask(mask, low + 1, high, m);
    SameAbove(lowest, above, val, low + 1, high);
    var rest := Pack(mask, val, low + 1, high);
    assert Pack(mask, val, low, high) == if low in mask then Bit(val, low) + 2 * rest else rest;
    assert Pack(lowest, val, low, high) == if low in mask then Bit(val, low) + 2 * Pack(above, val, low + 1, high)
           else Pack(above, val, low + 1, high);
    hide Pack, Lowest, Pow2, Bit;
    if low in mask {
      RemainderOfDouble(Bit(val, low), rest, Pow2(k - 1));
    }
  }

  lemma {:induction false} SameAbove(mask: set<nat>, mask': set<nat>, val: nat, low: nat, high: nat)
    requires low <= high && forall i :: low <= i < high ==> (i in mask <==> i in mask')
    ensures Pack(mask, val, low, high) == Pack(mask', val, low, high)
    decreases high - low
  {
    if low < high {
      SameAbove(mask, mask', val, low + 1, high);
    }
  }

  /** The mask bit that is packed to position r. */
  lemma {:induction false} BitOfRank(mask: set<nat>, low: nat, high: nat, r: nat) returns (i: nat)
    requires low <= high && r < Count(mask, low, high)
    ensures low <= i < high && i in mask && Pack(mask, Pow2(i), low, high) == Pow2(r)
    decreases high - low
  {
    if low in mask && r == 0 {
      i := low;
      forall j: nat | low < j < high
        ensures Bit(Pow2(low), j) == 0
      {
        BitOfPower(low, j);
      }
      BitOfPower(low, low);
      PackOfNothing(mask, Pow2(low), low + 1, high);
    } else {
      i := BitOfRank(mask, low + 1, high, if low in mask then r - 1 else r);
      BitOfPower(i, low);
    }
  }

  // ----- logarithms

  function Log2(v: nat): nat
  {
    if v < 2 then 0 else 1 + Log2(v / 2)
  }

  lemma {:induction false} Log2IsFloor(v: nat)
    requires v > 0
    ensures Pow2(Log2(v)) <= v < 2 * Pow2(Log2(v))
  {
    if v >= 2 {
      Log2IsFloor(v / 2);
    }
  }

  lemma {:induction false} Log2OfPower(n: nat)
    ensures Log2(Pow2(n)) == n
  {
    if n > 0 {
      Log2OfPower(n - 1);
    }
  }

  lemma {:induction false} Log2Shifted(v: nat, n: nat)
    requires v >= Pow2(n)
    ensures Log2(v) == n + Log2(v / Pow2(n))
  {
    if n > 0 {
      Log2Shifted(v / 2, n - 1);
      DivideTwice(v, 2, Pow2(n - 1));
    }
  }

  lemma DivideTwice(v: nat, d: nat, e: nat)
    requires d > 0 && e > 0
    ensures d * e > 0 && v / d / e == v / (d * e)
  {
    var p, s := v / d, v % d;
    var q, r := p / e, p % e;
    QuotientAndRemainder(v, d);
    QuotientAndRemainder(p, e);
    Distribute(q, e, r, d);
    Below(r, e, d, s);
    PartsOf(v, q, r * d + s, d * e);
  }

  lemma Distribute(q: nat, e: nat, r: nat, d: nat)
    ensures (q * e + r) * d == q * (d * e) + r * d
  {
    assert q * e * d == q * (e * d);
    assert e * d == d * e;
  }

  lemma Below(r: nat, e: nat, d: nat, s: nat)
    requires r < e && s < d
    ensures r * d + s < d * e && d * e > 0
  {
    Grows(d, r + 1, e);
  }
}
