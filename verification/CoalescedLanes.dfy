/** The accesses of lanes that read or write consecutive elements. */
module CoalescedLanes {
  import opened Bits
  import opened Coalescer
  import opened WarpInst
  import opened CoalescingTheorems

  /** Thirty-two lanes, each with the next element of the given size, from an aligned start. */
  ghost predicate AreConsecutive(reqs: seq<Request>, start: nat, dataSize: nat)
    requires IsDataSize(dataSize)
  {
    && |reqs| == 32 && start % SegmentSize(dataSize) == 0 && start + 32 * dataSize <= ADDRESS_LIMIT
    && forall i :: 0 <= i < 32 ==> reqs[i].addr == start + i * dataSize
  }

  function StepsFrom(start: nat, segment: nat, n: nat): (s: set<nat>)
    ensures |s| <= n
  {
    if n == 0 then {} else StepsFrom(start, segment, n - 1) + {start + segment * (n - 1)}
  }

  lemma {:induction false} StepsAreDistinct(start: nat, segment: nat, n: nat)
    requires segment > 0
    ensures |StepsFrom(start, segment, n)| == n
    ensures forall b :: b in StepsFrom(start, segment, n) ==> b < start + segment * n
  {
    if n > 0 {
      StepsAreDistinct(start, segment, n - 1);
      assert segment * (n - 1) + segment == segment * n;
    }
  }

  /** A segment holds 32 elements, or 128 bytes where these would be more. */
  lemma SegmentHoldsElements(dataSize: nat)
    requires IsDataSize(dataSize)
    ensures SegmentSize(dataSize) == if 32 * dataSize <= 128 then 32 * dataSize else 128
  {
  }

  lemma Distributes(s: nat, q: nat, d: nat)
    ensures s * d + q * d == (s + q) * d && d * q == q * d
  {
  }

  lemma RemainderOfOffset(start: nat, d: nat, x: nat)
    requires d > 0 && start % d == 0
    ensures (start + x) % d == x % d && x - x % d == d * (x / d)
  {
    QuotientAndRemainder(x, d);
    QuotientAndRemainder(start, d);
    Distributes(start / d, x / d, d);
    PartsOf(start + x, start / d + x / d, x % d, d);
  }

  lemma SegmentOfOffset(start: nat, segment: nat, x: nat)
    requires IsSegmentSize(segment) && start % segment == 0 && start + x < ADDRESS_LIMIT
    ensures BlockAddress(start + x, segment) == start + segment * (x / segment)
  {
    RemainderOfOffset(start, segment, x);
    var block := start + x - x % segment;
    SmallNumber(block, ADDRESS_LIMIT);
    assert BlockAddress(start + x, segment) == block % ADDRESS_LIMIT;
  }

  /** How many segments 32 elements fill. */
  function SegmentsFor(dataSize: nat): nat
    requires IsDataSize(dataSize)
  {
    if dataSize <= 4 then 1 else dataSize / 4
  }

  lemma {:induction false} StepIsIn(start: nat, segment: nat, n: nat, k: nat)
    requires k < n
    ensures start + segment * k in StepsFrom(start, segment, n)
  {
    if k < n - 1 {
      StepIsIn(start, segment, n - 1, k);
    }
  }

  lemma {:induction false} StepOf(start: nat, segment: nat, n: nat, b: nat) returns (k: nat)
    requires b in StepsFrom(start, segment, n)
    ensures k < n && b == start + segment * k
  {
    k := n - 1;
    if b != start + segment * (n - 1) {
      k := StepOf(start, segment, n - 1, b);
    }
  }

  lemma PlaceOfLane(dataSize: nat, i: nat)
    requires IsDataSize(dataSize) && i < 32
    ensures i * dataSize / SegmentSize(dataSize) < SegmentsFor(dataSize)
  {
    if dataSize == 8 {
      assert i * 8 / 128 < 2;
    } else if dataSize == 16 {
      assert i * 16 / 128 < 4;
    } else if dataSize == 1 {
      assert i * 1 / 32 == 0;
    } else if dataSize == 2 {
      assert i * 2 / 64 == 0;
    } else {
      assert i * 4 / 128 == 0;
    }
  }

  lemma LaneAtStep(dataSize: nat, k: nat) returns (i: nat)
    requires IsDataSize(dataSize) && k < SegmentsFor(dataSize)
    ensures i < 32 && i * dataSize / SegmentSize(dataSize) == k
  {
    i := if dataSize == 8 then 16 * k else if dataSize == 16 then 8 * k else 0;
    if dataSize == 8 {
      assert 16 * k * 8 / 128 == k;
    } else if dataSize == 16 {
      assert 8 * k * 16 / 128 == k;
    }
  }

  lemma SegmentOfLane(reqs: seq<Request>, start: nat, dataSize: nat, i: nat)
    requires IsDataSize(dataSize) && AreConsecutive(reqs, start, dataSize) && i < 32
    ensures var segment := SegmentSize(dataSize);
            BlockAddress(reqs[i].addr, segment) == start + segment * (i * dataSize / segment)
  {
    hide BlockAddress, SegmentSize;
    OffsetInRange(start, dataSize, i);
    SizeOfSegment(dataSize);
    SegmentOfOffset(start, SegmentSize(dataSize), i * dataSize);
  }

  lemma SizeOfSegment(dataSize: nat)
    ensures IsSegmentSize(SegmentSize(dataSize))
  {
  }

  /** Consecutive elements of up to four bytes touch one segment, of eight bytes two and of sixteen
      four, and with that the lanes send just so many accesses. */
  lemma ConsecutiveLanesShare(reqs: seq<Request>, start: nat, dataSize: nat)
    requires IsDataSize(dataSize) && AreConsecutive(reqs, start, dataSize)
    ensures var segment := SegmentSize(dataSize);
            && SegmentsTouched(reqs, segment) == StepsFrom(start, segment, SegmentsFor(dataSize))
            && |PlainSends(PlainMap(reqs, dataSize, segment))| == SegmentsFor(dataSize)
  {
    hide BlockAddress, SegmentSize, StepsFrom, PlainSends, SegmentsFor, Joined, InBlock;
    SizeOfSegment(dataSize);
    var segment, n := SegmentSize(dataSize), SegmentsFor(dataSize);
    var touched, steps := SegmentsTouched(reqs, segment), StepsFrom(start, segment, n);
    forall b: nat | b in touched
      ensures b in steps
    {
      var i: nat :| i < 32 && b == BlockAddress(reqs[i].addr, segment);
      SegmentOfLane(reqs, start, dataSize, i);
      PlaceOfLane(dataSize, i);
      StepIsIn(start, segment, n, i * dataSize / segment);
    }
    forall b: nat | b in steps
      ensures b in touched
    {
      var k := StepOf(start, segment, n, b);
      var i := LaneAtStep(dataSize, k);
      SegmentOfLane(reqs, start, dataSize, i);
      assert b == BlockAddress(reqs[i].addr, segment);
    }
    StepsAreDistinct(start, segment, n);
    OneSendForEachSegment(PlainMap(reqs, dataSize, segment));
    assert PlainMap(reqs, dataSize, segment).Keys == touched;
  }

  lemma OffsetInRange(start: nat, dataSize: nat, i: nat)
    requires IsDataSize(dataSize) && i < 32 && start + 32 * dataSize <= ADDRESS_LIMIT
    ensures start + i * dataSize < ADDRESS_LIMIT
  {
  }
}
