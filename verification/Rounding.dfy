/** Rounding of binary32 mantissas to a coarser step, byte by byte (the format of section 3.4 of
    IEEE 754-2008: 23 mantissa bits below the exponent and the sign).  Bytes are numbers; masking
    with low bits is the remainder of a power of two, shifting a quotient or a multiple. */
module Rounding {
  import opened Bits
  import opened Blocks

  const MANTISSA_END: nat := 0x80_0000

  predicate IsRange(r: nat)
  {
    r == 2 || r == 4 || r == 6 || r == 8 || r == 10 || r == 12 || r == 14 || r == 16 || r == 18 || r == 20
  }

  /** The distance between two mantissas that are kept: 2^r. */
  function Step(r: nat): (p: nat)
    ensures p > 0
  {
    Pow2(r)
  }

  function Half(r: nat): nat
  {
    Step(r) / 2
  }

  /** The bits of a byte below the one that d stands for. */
  function LowBits(b: Byte, d: nat): (t: Byte)
    requires d > 0
    ensures t <= b && t < d
  {
    SmallRemainder(b, d);
    b % d
  }

  lemma SmallRemainder(b: nat, d: nat)
    requires d > 0
    ensures b % d <= b && b % d < d
  {
    QuotientAndRemainder(b, d);
  }

  /** The mantissa bits of an element's first three bytes. */
  function Mantissa(b0: Byte, b1: Byte, b2: Byte): nat
  {
    b0 + 0x100 * b1 + 0x1_0000 * LowBits(b2, 0x80)
  }

  /** The largest multiple of the step that is not above m. */
  function Cleared(m: nat, r: nat): nat
  {
    Base(BlockNo(m, Step(r)), Step(r))
  }

  /** The mantissa rounded half up to a multiple of the step, in 23 bits. */
  function Rounded(m: nat, r: nat): nat
  {
    Cleared(m + Half(r), r) % MANTISSA_END
  }

  function Distance(x: nat, y: nat): nat
  {
    if x < y then y - x else x - y
  }

  ghost predicate IsMultiple(m: nat, r: nat)
  {
    exists k: nat :: m == Base(k, Step(r))
  }

  // ----- what rounding means

  lemma LargePowers()
    ensures Pow2(20) == 0x10_0000 && Pow2(23) == MANTISSA_END
  {
    Pow2Of32();
    SmallPowers();
    Pow2Adds(16, 4);
    Pow2Adds(16, 7);
  }

  lemma EndIsMultiple(r: nat)
    requires r <= 23
    ensures Base(Pow2(23 - r), Pow2(r)) == MANTISSA_END
  {
    hide Pow2, Base;
    LargePowers();
    Pow2Adds(23 - r, r);
    BaseIsProduct(Pow2(23 - r), Pow2(r));
  }

  lemma HalvesAdd(r: nat)
    requires 0 < r <= 20
    ensures Step(r) == Half(r) + Half(r) && Half(r) > 0 && Step(r) <= 0x10_0000
  {
    assert Pow2(r) == 2 * Pow2(r - 1);
    hide Pow2;
    LargePowers();
    if r < 20 {
      Pow2Grows(r, 20);
    }
  }

  lemma StepSizes(r: nat)
    requires IsRange(r)
    ensures 2 <= r <= 20
    ensures Step(r) == Half(r) + Half(r) && Half(r) > 0 && Step(r) <= 0x10_0000
    ensures Base(Pow2(23 - r), Step(r)) == MANTISSA_END
  {
    hide Pow2, Base, Half;
    HalvesAdd(r);
    EndIsMultiple(r);
  }

  /** Rounding up stays in the 23 bits or ends exactly at their end. */
  lemma RoundedCases(m: nat, r: nat) returns (k: nat)
    requires IsRange(r) && m < MANTISSA_END
    ensures Cleared(m + Half(r), r) == Base(k, Step(r)) <= m + Half(r) < Base(k, Step(r)) + Step(r)
    ensures m + Half(r) < MANTISSA_END ==> Rounded(m, r) == Base(k, Step(r)) < MANTISSA_END
    ensures m + Half(r) >= MANTISSA_END ==> Rounded(m, r) == 0
  {
    hide Base, BlockNo, Step, Half;
    StepSizes(r);
    var p, n := Step(r), Pow2(23 - r);
    k := BlockNo(m + Half(r), p);
    if k < n {
      BlocksAreApart(p, k, n);
    } else if n < k {
      BlocksAreApart(p, n, k);
    }
  }

  lemma RoundedIsMultiple(m: nat, r: nat)
    requires IsRange(r) && m < MANTISSA_END
    ensures IsMultiple(Rounded(m, r), r) && Rounded(m, r) < MANTISSA_END
  {
    hide Base, BlockNo, Step, Half, Rounded, Cleared;
    var k := RoundedCases(m, r);
    NextBlock(Step(r), 0);
  }

  /** The error is at most half a step exactly when rounding up does not leave the 23 bits; if it
      does, the mantissa becomes 0 and nothing is carried into the exponent. */
  lemma ErrorIsHalfAStep(m: nat, r: nat)
    requires IsRange(r) && m < MANTISSA_END
    ensures Distance(m, Rounded(m, r)) <= Half(r) <==> m + Half(r) < MANTISSA_END
    ensures m + Half(r) >= MANTISSA_END ==> Rounded(m, r) == 0
  {
    hide Base, BlockNo, Step, Half, Rounded, Cleared;
    StepSizes(r);
    var k := RoundedCases(m, r);
  }

  /** No multiple of the step is nearer, and of two equally near ones the upper is taken. */
  lemma RoundedIsNearest(m: nat, r: nat, other: nat)
    requires IsRange(r) && m + Half(r) < MANTISSA_END && IsMultiple(other, r)
    ensures Distance(m, Rounded(m, r)) <= Distance(m, other)
    ensures Distance(m, Rounded(m, r)) == Distance(m, other) ==> other <= Rounded(m, r)
  {
    hide Base, BlockNo, Step, Half, Rounded, Cleared;
    StepSizes(r);
    var k := RoundedCases(m, r);
    var j: nat :| other == Base(j, Step(r));
    if j < k {
      BlocksAreApart(Step(r), j, k);
    } else if k < j {
      BlocksAreApart(Step(r), k, j);
    }
  }

  lemma RoundingTwiceIsOnce(m: nat, r: nat)
    requires IsRange(r) && m < MANTISSA_END
    ensures Rounded(Rounded(m, r), r) == Rounded(m, r)
  {
    hide Base, BlockNo, Step, Half;
    StepSizes(r);
    var k := RoundedCases(m, r);
    NextBlock(Step(r), 0);
    if m + Half(r) < MANTISSA_END {
      AtPlace(Step(r), k, Half(r));
    } else {
      AtPlace(Step(r), 0, Half(r));
    }
  }

  // ----- the ten branches

  function Stepped(m: nat, r: nat): nat
  {
    (m + Step(r)) % MANTISSA_END
  }

  /** What clearing takes away is at least half a step. */
  predicate IsAtLeastHalf(m: nat, r: nat)
  {
    OffsetIn(m, Step(r)) >= Half(r)
  }

  /** A mantissa made of a multiple of the step and less than a step. */
  lemma ClearedIs(m: nat, r: nat, p: nat, q: nat, t: nat)
    requires p == Pow2(r) && m == q * p + t && t < p
    ensures Cleared(m, r) == q * p && (IsAtLeastHalf(m, r) <==> t >= p / 2)
  {
    hide BlockNo, OffsetIn;
    AtPlace(p, q, t);
    BaseIsProduct(q, p);
  }

  lemma StepValues()
    ensures Pow2(2) == 4 && Pow2(4) == 0x10 && Pow2(6) == 0x40 && Pow2(8) == 0x100 && Pow2(10) == 0x400
    ensures Pow2(12) == 0x1000 && Pow2(14) == 0x4000 && Pow2(16) == 0x1_0000 && Pow2(18) == 0x4_0000
            && Pow2(20) == 0x10_0000
  {
    Pow2Of32();
    assert Pow2(2) == 2 * Pow2(1);
    Pow2Adds(4, 2);
    Pow2Adds(8, 2);
    Pow2Adds(8, 4);
    Pow2Adds(8, 6);
    Pow2Adds(16, 2);
    Pow2Adds(16, 4);
  }

  /** Clears the low bits of the first three bytes of an element; says whether what is cleared is
      at least half a step. */
  method ClearLowBits(b0: Byte, b1: Byte, b2: Byte, r: nat) returns (c0: Byte, c1: Byte, c2: Byte, compensate: bool)
    requires IsRange(r)
    ensures Mantissa(c0, c1, c2) == Cleared(Mantissa(b0, b1, b2), r) && c2 / 0x80 == b2 / 0x80
    ensures compensate <==> IsAtLeastHalf(Mantissa(b0, b1, b2), r)
  {
    hide Cleared, IsAtLeastHalf, Pow2, Mantissa, LowBits;
    StepValues();
    c0, c1, c2 := b0, b1, b2;
    if r == 2 {
      compensate := LowBits(b0, 4) >= 2;
      c0 := b0 - LowBits(b0, 4);
      FirstByte(b0, b1, b2, r, 4, 0x40);
    } else if r == 4 {
      compensate := LowBits(b0, 0x10) >= 8;
      c0 := b0 - LowBits(b0, 0x10);
      FirstByte(b0, b1, b2, r, 0x10, 0x10);
    } else if r == 6 {
      compensate := LowBits(b0, 0x40) / 0x10 >= 2;
      c0 := b0 - LowBits(b0, 0x40);
      FirstByte(b0, b1, b2, r, 0x40, 4);
    } else if r == 8 {
      compensate := LowBits(b0, 0x100) / 0x10 >= 8;
      c0 := b0 - LowBits(b0, 0x100);
      FirstByte(b0, b1, b2, r, 0x100, 1);
    } else if r == 10 {
      compensate := LowBits(b1, 4) >= 2;
      c0, c1 := 0, b1 - LowBits(b1, 4);
      SecondByte(b0, b1, b2, r, 2);
    } else if r == 12 {
      compensate := LowBits(b1, 0x10) >= 8;
      c0, c1 := 0, b1 - LowBits(b1, 0x10);
      SecondByte(b0, b1, b2, r, 8);
    } else if r == 14 {
      compensate := LowBits(b1, 0x40) / 0x10 >= 2;
      c0, c1 := 0, b1 - LowBits(b1, 0x40);
      SecondByte(b0, b1, b2, r, 0x20);
    } else if r == 16 {
      compensate := LowBits(b1, 0x100) / 0x10 >= 8;
      c0, c1 := 0, b1 - LowBits(b1, 0x100);
      SecondByte(b0, b1, b2, r, 0x80);
    } else if r == 18 {
      compensate := LowBits(b2, 4) >= 2;
      c0, c1, c2 := 0, 0, b2 - LowBits(b2, 4);
      ThirdByte(b0, b1, b2, r, 2, 0x20);
    } else {
      compensate := LowBits(b2, 0x10) >= 8;
      c0, c1, c2 := 0, 0, b2 - LowBits(b2, 0x10);
      ThirdByte(b0, b1, b2, r, 8, 8);
    }
  }

  /** A number made of a lower part that holds whole steps of d and an upper part. */
  lemma LowerPart(q: nat, t: nat, d: nat, e: nat, upper: nat, r: nat)
    requires d == Pow2(r) && t < d
    ensures Cleared(q * d + t + d * e * upper, r) == q * d + d * e * upper
    ensures IsAtLeastHalf(q * d + t + d * e * upper, r) <==> t >= d / 2
  {
    hide Cleared, IsAtLeastHalf, Pow2;
    Associates(d, e, upper);
    Sum(q, e * upper, d);
    ClearedIs(q * d + t + d * e * upper, r, d, q + e * upper, t);
  }

  lemma Sum(x: nat, y: nat, d: nat)
    ensures (x + y) * d == x * d + d * y
  {
  }

  /** The step is d, so it ends inside the first byte or with it. */
  lemma FirstByte(b0: Byte, b1: Byte, b2: Byte, r: nat, d: nat, e: nat)
    requires d * e == 0x100 && d == Pow2(r)
    ensures Mantissa(b0 - LowBits(b0, d), b1, b2) == Cleared(Mantissa(b0, b1, b2), r)
    ensures IsAtLeastHalf(Mantissa(b0, b1, b2), r) <==> LowBits(b0, d) >= d / 2
  {
    hide Cleared, IsAtLeastHalf, Pow2;
    QuotientAndRemainder(b0, d);
    LowerPart(Quotient(b0, d), LowBits(b0, d), d, e, b1 + 0x100 * LowBits(b2, 0x80), r);
  }

  /** The same with 'scale' times the lower part, below which lies one more number. */
  lemma ScaledPart(below: nat, q: nat, t: nat, h: nat, scale: nat, top: nat, upper: nat, r: nat)
    requires scale * (2 * h) == Pow2(r) && scale % 2 == 0 && below < scale && t < 2 * h && top % Pow2(r) == 0
    ensures Cleared(below + scale * (q * (2 * h) + t) + top * upper, r) == scale * (q * (2 * h)) + top * upper
    ensures IsAtLeastHalf(below + scale * (q * (2 * h) + t) + top * upper, r) <==> t >= h
  {
    hide Cleared, IsAtLeastHalf, Pow2;
    var d, e := 2 * h, Quotient(top, Pow2(r));
    QuotientAndRemainder(top, Pow2(r));
    Swapped(q, scale, d);
    Sum(q * d, t, scale);
    Grows(scale, t + 1, d);
    HalfOfScaled(below, t, h, scale);
    LowerPart(q, below + scale * t, scale * d, e, upper, r);
  }

  lemma HalfOfScaled(below: nat, t: nat, h: nat, scale: nat)
    requires below < scale
    ensures scale * (2 * h) == 2 * (scale * h)
    ensures below + scale * t >= scale * h <==> t >= h
  {
    if t >= h {
      Grows(scale, h, t);
    } else {
      Grows(scale, t + 1, h);
    }
  }

  /** The step is d times 256. */
  lemma SecondByte(b0: Byte, b1: Byte, b2: Byte, r: nat, h: nat)
    requires h > 0 && 0x100 * (2 * h) == Pow2(r) && 0x1_0000 % Pow2(r) == 0
    ensures Mantissa(0, b1 - LowBits(b1, 2 * h), b2) == Cleared(Mantissa(b0, b1, b2), r)
    ensures IsAtLeastHalf(Mantissa(b0, b1, b2), r) <==> LowBits(b1, 2 * h) >= h
  {
    hide Cleared, IsAtLeastHalf, Pow2;
    QuotientAndRemainder(b1, 2 * h);
    ScaledPart(b0, Quotient(b1, 2 * h), LowBits(b1, 2 * h), h, 0x100, 0x1_0000, LowBits(b2, 0x80), r);
  }

  lemma Swapped(q: nat, x: nat, d: nat)
    ensures q * (x * d) == x * (q * d)
  {
    Associates(q, x, d);
    Associates(x, q, d);
  }

  /** The step is d times 65536. */
  lemma ThirdByte(b0: Byte, b1: Byte, b2: Byte, r: nat, h: nat, e: nat)
    requires h > 0 && 2 * h * e == 0x80 && 0x1_0000 * (2 * h) == Pow2(r)
    ensures Mantissa(0, 0, b2 - LowBits(b2, 2 * h)) == Cleared(Mantissa(b0, b1, b2), r)
    ensures (b2 - LowBits(b2, 2 * h)) / 0x80 == b2 / 0x80
    ensures IsAtLeastHalf(Mantissa(b0, b1, b2), r) <==> LowBits(b2, 2 * h) >= h
  {
    hide Cleared, IsAtLeastHalf, Pow2;
    MaskedTwice(b2, 2 * h, e);
    var m2: Byte := LowBits(b2, 0x80);
    QuotientAndRemainder(m2, 2 * h);
    SmallNumber(0, Pow2(r));
    ScaledPart(b0 + 0x100 * b1, Quotient(m2, 2 * h), LowBits(b2, 2 * h), h, 0x1_0000, 0, 0, r);
  }

  /** Masking with 128 keeps the remainder of a smaller power of two. */
  lemma MaskedTwice(b: Byte, d: nat, e: nat)
    requires d * e == 0x80 && d > 0
    ensures LowBits(LowBits(b, 0x80), d) == LowBits(b, d)
    ensures LowBits(b, d) <= LowBits(b, 0x80) && LowBits(b - LowBits(b, d), 0x80) == LowBits(b, 0x80) - LowBits(b, d)
    ensures (b - LowBits(b, d)) / 0x80 == b / 0x80
  {
    var h: nat, m: nat := b / 0x80, b % 0x80;
    var q: nat, t: nat := Quotient(m, d), m % d;
    QuotientAndRemainder(m, d);
    Associates(h, e, d);
    assert h * 0x80 == h * e * d by {
      assert e * d == 0x80;
    }
    Sum(h * e, q, d);
    PartsOf(b, h * e + q, t, d);
    PartsOf(b - t, h, m - t, 0x80);
  }

  /** Adds one step to the mantissa held in three bytes; the top bit of the third is the lowest
      exponent bit and stays. */
  method AddStep(b0: Byte, b1: Byte, b2: Byte, r: nat) returns (c0: Byte, c1: Byte, c2: Byte)
    requires IsRange(r)
    ensures Mantissa(c0, c1, c2) == Stepped(Mantissa(b0, b1, b2), r) && c2 / 0x80 == b2 / 0x80
  {
    hide Step, LowBits, IsRange;
    var tmp := b0 + 0x100 * b1 + 0x1_0000 * LowBits(b2, 0x80);
    tmp := tmp + Step(r);
    Repacked(tmp);
    TopBitKept(b2, tmp / 0x1_0000 % 0x80);
    c0 := tmp % 0x100;
    c1 := tmp / 0x100 % 0x100;
    c2 := 0x80 * (b2 / 0x80);
    c2 := c2 + tmp / 0x1_0000 % 0x80;
  }

  lemma TopBitKept(b2: Byte, low: nat)
    requires low < 0x80
    ensures 0x80 * (b2 / 0x80) < 0x100 && 0x80 * (b2 / 0x80) + low < 0x100
    ensures LowBits(0x80 * (b2 / 0x80) + low, 0x80) == low && (0x80 * (b2 / 0x80) + low) / 0x80 == b2 / 0x80
  {
    PartsOf((b2 / 0x80) * 0x80 + low, b2 / 0x80, low, 0x80);
  }

  lemma Repacked(tmp: nat)
    ensures tmp % 0x100 + 0x100 * (tmp / 0x100 % 0x100) + 0x1_0000 * (tmp / 0x1_0000 % 0x80) == tmp % MANTISSA_END
  {
    DivideTwice(tmp, 0x100, 0x100);
    Unpacked(tmp, tmp % 0x100, tmp / 0x100, tmp / 0x100 % 0x100, tmp / 0x1_0000, tmp / 0x1_0000 % 0x80,
             tmp / 0x1_0000 / 0x80);
  }

  lemma Unpacked(tmp: nat, x0: nat, a: nat, x1: nat, b: nat, x2: nat, c: nat)
    requires tmp == a * 0x100 + x0 && a == b * 0x100 + x1 && b == c * 0x80 + x2 && x0 < 0x100 && x1 < 0x100 && x2 < 0x80
    ensures tmp % MANTISSA_END == x0 + 0x100 * x1 + 0x1_0000 * x2
  {
    PartsOf(tmp, c, x0 + 0x100 * x1 + 0x1_0000 * x2, MANTISSA_END);
  }

  lemma ClearedAndAdded(m: nat, r: nat)
    requires IsRange(r) && m < MANTISSA_END
    ensures Rounded(m, r) == if IsAtLeastHalf(m, r) then Stepped(Cleared(m, r), r) else Cleared(m, r)
  {
    hide Cleared, Step, Half, IsAtLeastHalf, IsRange;
    HalfAddedThenCleared(m, r);
    if !IsAtLeastHalf(m, r) {
      SmallNumber(Cleared(m, r), MANTISSA_END);
    }
  }

  lemma HalfAddedThenCleared(m: nat, r: nat)
    requires IsRange(r)
    ensures Cleared(m + Half(r), r) == if IsAtLeastHalf(m, r) then Cleared(m, r) + Step(r) else Cleared(m, r)
    ensures Cleared(m, r) <= m
  {
    hide Base, BlockNo, OffsetIn, Step, Half;
    StepSizes(r);
    var p := Step(r);
    var q, t := BlockNo(m, p), OffsetIn(m, p);
    NextBlock(p, q);
    if t >= Half(r) {
      AtPlace(p, q + 1, t - Half(r));
    } else {
      AtPlace(p, q, t + Half(r));
    }
  }

  method RoundElement(b0: Byte, b1: Byte, b2: Byte, r: nat) returns (c0: Byte, c1: Byte, c2: Byte)
    requires IsRange(r)
    ensures Mantissa(c0, c1, c2) == Rounded(Mantissa(b0, b1, b2), r) && c2 / 0x80 == b2 / 0x80
  {
    hide Rounded, Half, Cleared, Stepped, IsAtLeastHalf, IsRange;
    var compensate;
    c0, c1, c2, compensate := ClearLowBits(b0, b1, b2, r);
    if compensate {
      c0, c1, c2 := AddStep(c0, c1, c2, r);
    }
    ClearedAndAdded(Mantissa(b0, b1, b2), r);
  }

  // ----- a whole block

  /** An element whose mantissa is rounded, with its sign and exponent as before; for other ranges
      than the ten nothing happens. */
  ghost predicate ElementRounded(before: seq<Byte>, after: seq<Byte>, i: nat, r: nat)
    requires i + 4 <= |before| == |after|
  {
    && after[i + 3] == before[i + 3] && after[i + 2] / 0x80 == before[i + 2] / 0x80
    && if IsRange(r)
       then Mantissa(after[i], after[i + 1], after[i + 2])
            == Rounded(Mantissa(before[i], before[i + 1], before[i + 2]), r)
       else after[i] == before[i] && after[i + 1] == before[i + 1] && after[i + 2] == before[i + 2]
  }

  predicate StartsElement(i: nat, interval: nat)
  {
    if interval == 4 then i % 4 == 0 else i % 8 == 0
  }

  predicate IsMantissaByte(k: nat, interval: nat)
  {
    if interval == 4 then k % 4 < 3 else k % 8 < 3
  }

  /** The elements before end are rounded and nothing else has changed. */
  ghost predicate RoundedUpTo(before: seq<Byte>, after: seq<Byte>, end: nat, interval: nat, r: nat)
  {
    && |before| == |after|
    && (forall i: nat :: i < end && StartsElement(i, interval) && i + 4 <= |before| ==>
          ElementRounded(before, after, i, r))
    && (forall k :: 0 <= k < |before| && (k >= end || !IsMantissaByte(k, interval)) ==> after[k] == before[k])
  }

  lemma ElementKept(before: seq<Byte>, now: seq<Byte>, after: seq<Byte>, j: nat, r: nat)
    requires j + 4 <= |before| == |now| == |after| && ElementRounded(before, now, j, r)
    requires forall k :: j <= k < j + 4 ==> after[k] == now[k]
    ensures ElementRounded(before, after, j, r)
  {
  }

  lemma ElementStarted(before: seq<Byte>, now: seq<Byte>, after: seq<Byte>, j: nat, r: nat)
    requires j + 4 <= |before| == |now| == |after| && ElementRounded(now, after, j, r)
    requires forall k :: j <= k < j + 4 ==> before[k] == now[k]
    ensures ElementRounded(before, after, j, r)
  {
  }

  lemma ElementsAreApart(j: nat, i: nat, interval: nat)
    requires (interval == 4 || interval == 8) && StartsElement(j, interval) && StartsElement(i, interval)
             && j < i + interval
    ensures j == i || j + 4 <= i
  {
    if interval == 4 {
      Spaced(i / 4, j / 4, 4);
    } else {
      Spaced(i / 8, j / 8, 8);
    }
  }

  lemma Spaced(x: nat, y: nat, d: nat)
    requires y * d < x * d + d
    ensures y * d == x * d || y * d + d <= x * d
  {
    if x < y {
      Grows(d, x + 1, y);
    } else if y < x {
      Grows(d, y + 1, x);
    }
  }

  lemma MantissaBytes(i: nat, k: nat, interval: nat)
    requires (interval == 4 || interval == 8) && StartsElement(i, interval) && i <= k < i + 3
    ensures IsMantissaByte(k, interval)
  {
  }

  lemma NextRounded(before: seq<Byte>, now: seq<Byte>, after: seq<Byte>, i: nat, interval: nat, r: nat)
    requires (interval == 4 || interval == 8) && StartsElement(i, interval) && RoundedUpTo(before, now, i, interval, r)
    requires i + interval <= |now| == |after| && forall k :: 0 <= k < |now| && !(i <= k < i + 3) ==> after[k] == now[k]
    requires ElementRounded(now, after, i, r)
    ensures RoundedUpTo(before, after, i + interval, interval, r)
  {
    hide ElementRounded, StartsElement, IsMantissaByte;
    forall j: nat | j < i + interval && StartsElement(j, interval) && j + 4 <= |before|
      ensures ElementRounded(before, after, j, r)
    {
      ElementsAreApart(j, i, interval);
      if j < i {
        ElementKept(before, now, after, j, r);
      } else {
        ElementStarted(before, now, after, j, r);
      }
    }
    forall k | 0 <= k < |before| && (k >= i + interval || !IsMantissaByte(k, interval))
      ensures after[k] == before[k]
    {
      if i <= k < i + 3 {
        MantissaBytes(i, k, interval);
      }
    }
  }

  lemma FirstElement(interval: nat)
    ensures StartsElement(0, interval)
  {
  }

  lemma RoomForElement(i: nat, length: nat, interval: nat)
    requires (interval == 4 || interval == 8) && StartsElement(i, interval) && StartsElement(length, interval)
             && i < length
    ensures i + interval <= length && StartsElement(i + interval, interval)
  {
    ElementsAreApart(i, length, interval);
    if interval == 8 {
      Spaced(length / 8, i / 8, 8);
    }
  }

  lemma NothingRounded(data: seq<Byte>, interval: nat, r: nat)
    ensures RoundedUpTo(data, data, 0, interval, r)
  {
  }

  lemma OneElement(now: seq<Byte>, after: seq<Byte>, i: nat, r: nat)
    requires i + 4 <= |now| == |after| && after[i + 3] == now[i + 3]
    requires if IsRange(r) then Mantissa(after[i], after[i + 1], after[i + 2])
             == Rounded(Mantissa(now[i], now[i + 1], now[i + 2]), r)
                                && after[i + 2] / 0x80 == now[i + 2] / 0x80
             else after[i] == now[i] && after[i + 1] == now[i + 1] && after[i + 2] == now[i + 2]
    ensures ElementRounded(now, after, i, r)
  {
  }

  /** interval is 4 or 8; of an 8-byte element only the first word is treated.  A range that is not
      one of the ten changes nothing. */
  method RoundData(data: array<Byte>, interval: nat, approxRange: nat)
    requires (interval == 4 || interval == 8) && StartsElement(data.Length, interval)
    modifies data
    ensures RoundedUpTo(old(data[..]), data[..], data.Length, interval, approxRange)
  {
    hide RoundedUpTo, ElementRounded, Mantissa, Rounded, IsRange, StartsElement;
    var i := 0;
    FirstElement(interval);
    NothingRounded(data[..], interval, approxRange);
    while i < data.Length
      invariant i <= data.Length && StartsElement(i, interval)
      invariant RoundedUpTo(old(data[..]), data[..], i, interval, approxRange)
    {
      ghost var now := data[..];
      RoomForElement(i, data.Length, interval);
      var c0, c1, c2 := data[i], data[i + 1], data[i + 2];
      if IsRange(approxRange) {
        c0, c1, c2 := RoundElement(c0, c1, c2, approxRange);
      }
      data[i], data[i + 1], data[i + 2] := c0, c1, c2;
      OneElement(now, data[..], i, approxRange);
      NextRounded(old(data[..]), now, data[..], i, interval, approxRange);
      i := i + interval;
    }
  }

  /** The largest mantissa is rounded to 0, far from itself. */
  lemma CarryIsLost()
    ensures Rounded(0x7f_ffff, 2) == 0 && Distance(0x7f_ffff, Rounded(0x7f_ffff, 2)) > Half(2)
  {
    hide Rounded;
    StepSizes(2);
    ErrorIsHalfAStep(0x7f_ffff, 2);
  }
}
