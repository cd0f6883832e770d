/** Memory coalescing of one warp instruction: plain accesses, atomics, and the shrinking of each
    transaction.  Positions are byte offsets inside a 128-byte line; a chunk is 32 bytes of it. */
module Coalescer {

  const ADDRESS_LIMIT: nat := 0x1_0000_0000

  datatype Request = Request(thread: nat, addr: nat)

  datatype Transaction = Transaction(chunks: set<nat>, bytes: set<nat>, active: set<nat>)

  datatype Access = Access(addr: nat, size: nat, isWrite: bool, active: set<nat>, bytes: set<nat>)

  const EMPTY_TRANSACTION := Transaction({}, {}, {})

  predicate IsDataSize(n: nat)
  {
    n == 1 || n == 2 || n == 4 || n == 8 || n == 16
  }

  predicate IsSegmentSize(n: nat)
  {
    n == 32 || n == 64 || n == 128
  }

  function SegmentSize(dataSize: nat): nat
  {
    if dataSize == 1 then 32 else if dataSize == 2 then 64 else 128
  }

  /** The segment an address falls in, kept in a 32-bit word. */
  function BlockAddress(addr: nat, segment: nat): nat
    requires IsSegmentSize(segment)
  {
    (addr - addr % segment) % ADDRESS_LIMIT
  }

  function Position(addr: nat): nat
  {
    addr % 128
  }

  function ByteRange(start: nat, size: nat): (s: set<nat>)
    ensures forall x :: x in s <==> start <= x < start + size
  {
    if size == 0 then {} else ByteRange(start, size - 1) + {start + size - 1}
  }

  // ----- shrinking a transaction

  ghost predicate HoldsChunks(addr: nat, size: nat, line: nat, chunks: set<nat>)
  {
    forall c :: c in chunks ==> addr <= line + 32 * c && line + 32 * c + 32 <= addr + size
  }

  ghost predicate IsBlockHolding(addr: nat, size: nat, line: nat, chunks: set<nat>)
  {
    IsSegmentSize(size) && addr % size == 0 && HoldsChunks(addr, size, line, chunks)
  }

  /** The smallest aligned block of 32, 64 or 128 bytes that holds all the chunks of the line. */
  ghost predicate IsSmallestBlock(addr: nat, size: nat, line: nat, chunks: set<nat>)
  {
    && IsBlockHolding(addr, size, line, chunks)
    && forall a, s :: IsBlockHolding(a, s, line, chunks) ==> size < s || (size == s && addr == a)
  }

  predicate ChunksInSegment(chunks: set<nat>, addr: nat, segment: nat)
    requires IsSegmentSize(segment)
  {
    && addr % segment == 0
    && forall c :: c in chunks ==> addr % 128 <= 32 * c && 32 * c + 32 <= addr % 128 + segment
  }

  lemma AlignedChunk(a: nat, line: nat, c: nat)
    requires a % 32 == 0 && line % 128 == 0
    ensures a <= line + 32 * c && line + 32 * c + 32 <= a + 32 <==> a == line + 32 * c
  {
  }

  lemma Multiple(x: nat, d: nat) returns (k: nat)
    requires d > 0 && x % d == 0
    ensures x == d * k
  {
    k := x / d;
  }

  lemma AlignedPair(k: nat, m: nat, c: nat)
    ensures 64 * m <= 128 * k + 32 * c && 128 * k + 32 * c + 32 <= 64 * m + 64 <==> m == 2 * k + c / 2
  {
  }

  lemma AlignedLine(k: nat, m: nat, c: nat)
    requires c < 4
    ensures 128 * m <= 128 * k + 32 * c && 128 * k + 32 * c + 32 <= 128 * m + 128 <==> m == k
  {
  }

  /** How far into its line the aligned block of a given size begins that holds a chunk. */
  function BlockOffset(size: nat, c: nat): nat
  {
    if size == 32 then 32 * c else if size == 64 then 64 * (c / 2) else 0
  }

  /** The one aligned block of a given size that holds a chunk. */
  lemma AlignedBlockOfChunk(a: nat, s: nat, line: nat, c: nat)
    requires IsSegmentSize(s) && a % s == 0 && line % 128 == 0 && c < 4
    ensures a <= line + 32 * c && line + 32 * c + 32 <= a + s <==> a == line + BlockOffset(s, c)
  {
    if s == 32 {
      AlignedChunk(a, line, c);
    } else if s == 64 {
      var k := Multiple(line, 128);
      var m := Multiple(a, 64);
      AlignedPair(k, m, c);
    } else {
      var k := Multiple(line, 128);
      var m := Multiple(a, 128);
      AlignedLine(k, m, c);
    }
  }

  /** The chunks lie in both halves of a block of this size. */
  predicate InBothHalves(size: nat, c: nat, d: nat)
  {
    if size == 32 then c == d else if size == 64 then c % 2 == 0 && d == c + 1 else c <= 1 && d >= 2
  }

  /** A block is the smallest when it is a chunk or both its halves are used. */
  lemma SmallestWhenHalvesUsed(addr: nat, size: nat, line: nat, chunks: set<nat>, c: nat, d: nat)
    requires IsBlockHolding(addr, size, line, chunks) && line % 128 == 0
    requires c in chunks && d in chunks && c < 4 && d < 4 && InBothHalves(size, c, d)
    ensures IsSmallestBlock(addr, size, line, chunks)
  {
    forall a: nat, s: nat | IsBlockHolding(a, s, line, chunks)
      ensures size < s || (size == s && addr == a)
    {
      AlignedBlockOfChunk(a, s, line, c);
      AlignedBlockOfChunk(a, s, line, d);
      AlignedBlockOfChunk(addr, size, line, c);
    }
  }

  lemma LineOf(blockAddr: nat, segment: nat)
    requires IsSegmentSize(segment) && blockAddr % segment == 0
    ensures (blockAddr - blockAddr % 128) % 128 == 0
    ensures segment == 128 ==> blockAddr % 128 == 0
    ensures segment == 64 ==> blockAddr % 128 == 0 || blockAddr % 128 == 64
    ensures segment == 32 ==>
              blockAddr % 128 == 0 || blockAddr % 128 == 32 || blockAddr % 128 == 64 || blockAddr % 128 == 96
  {
    var k, r := blockAddr / 128, blockAddr % 128;
    var m := Multiple(blockAddr, segment);
    OffsetInLine(k, r, segment, m);
    assert 128 * k % 128 == 0;
  }

  lemma OffsetInLine(k: nat, r: nat, segment: nat, m: nat)
    requires IsSegmentSize(segment) && 128 * k + r == segment * m && r < 128
    ensures segment == 128 ==> r == 0
    ensures segment == 64 ==> r == 0 || r == 64
    ensures segment == 32 ==> r == 0 || r == 32 || r == 64 || r == 96
  {
    if segment == 64 {
      assert r == 64 * (m - 2 * k);
    } else if segment == 32 {
      assert r == 32 * (m - 4 * k);
    } else {
      assert r == 128 * (m - k);
    }
  }

  /** A block at a multiple of its size inside a line that holds every chunk used. */
  lemma BlockInLine(line: nat, off: nat, size: nat, chunks: set<nat>)
    requires line % 128 == 0 && off < 128 && (size == 32 || size == 64 || size == 128)
    requires off == 0 || off == 64 || (size == 32 && (off == 32 || off == 96))
    requires forall c :: c in chunks ==> off <= 32 * c && 32 * c + 32 <= off + size
    requires size == 128 ==> off == 0
    ensures IsBlockHolding(line + off, size, line, chunks)
  {
    hide HoldsChunks;
    AlignedInLine(line / 128, off, size);
    HoldsFromOffset(line, off, size, chunks);
  }

  lemma AlignedInLine(k: nat, off: nat, size: nat)
    requires size == 32 || size == 64 || size == 128
    requires off == 0 || (off == 64 && size < 128) || (size == 32 && (off == 32 || off == 96))
    ensures (128 * k + off) % size == 0
  {
    if size == 64 {
      MultipleOf(2 * k + if off == 0 then 0 else 1, 64);
    } else if size == 32 {
      MultipleOf(4 * k + if off == 0 then 0 else if off == 32 then 1 else if off == 64 then 2 else 3, 32);
    } else {
      MultipleOf(k, 128);
    }
  }

  lemma MultipleOf(m: nat, d: nat)
    requires d == 32 || d == 64 || d == 128
    ensures d * m % d == 0
  {
    if d == 32 {
      assert 32 * m % 32 == 0;
    } else if d == 64 {
      assert 64 * m % 64 == 0;
    } else {
      assert 128 * m % 128 == 0;
    }
  }

  lemma HoldsFromOffset(line: nat, off: nat, size: nat, chunks: set<nat>)
    requires forall c :: c in chunks ==> off <= 32 * c && 32 * c + 32 <= off + size
    ensures HoldsChunks(line + off, size, line, chunks)
  {
  }

  method Reduce(chunks: set<nat>, blockAddr: nat, segment: nat) returns (addr: nat, size: nat)
    requires IsSegmentSize(segment) && chunks != {} && ChunksInSegment(chunks, blockAddr, segment)
    ensures IsSmallestBlock(addr, size, blockAddr - blockAddr % 128, chunks)
  {
    hide IsSmallestBlock, IsBlockHolding;
    addr, size := blockAddr, segment;
    var lowHalf, highHalf := false, false;
    LineOf(blockAddr, segment);
    ghost var line, off := blockAddr - blockAddr % 128, blockAddr % 128;
    ghost var some :| some in chunks;
    ghost var c, d := some, some;
    if segment == 128 {
      var lowerUsed, upperUsed := 0 in chunks || 1 in chunks, 2 in chunks || 3 in chunks;
      if lowerUsed && !upperUsed {
        size, lowHalf, highHalf := 64, 0 in chunks, 1 in chunks;
        c, d := 0, 1;
      } else if !lowerUsed && upperUsed {
        addr, size, lowHalf, highHalf := addr + 64, 64, 2 in chunks, 3 in chunks;
        c, d, off := 2, 3, 64;
      } else {
        c, d := if 0 in chunks then 0 else 1, if 2 in chunks then 2 else 3;
      }
    } else if segment == 64 {
      if addr % 128 == 0 {
        lowHalf, highHalf := 0 in chunks, 1 in chunks;
        c, d := 0, 1;
      } else {
        lowHalf, highHalf := 2 in chunks, 3 in chunks;
        c, d := 2, 3;
      }
    }
    if size == 64 {
      if lowHalf && !highHalf {
        size, d := 32, c;
      } else if !lowHalf && highHalf {
        addr, size, c, off := addr + 32, 32, d, off + 32;
      }
    }
    assert addr == line + off;
    BlockInLine(line, off, size, chunks);
    SmallestWhenHalvesUsed(addr, size, line, chunks, c, d);
  }

  // ----- which requests end up together

  ghost predicate Hits(r: Request, segment: nat, b: nat, pos: nat)
    requires IsSegmentSize(segment)
  {
    BlockAddress(r.addr, segment) == b && Position(r.addr) == pos
  }

  /** How many of the requests go to one position of one segment. */
  ghost function Count(reqs: seq<Request>, segment: nat, b: nat, pos: nat): nat
    requires IsSegmentSize(segment)
  {
    if reqs == [] then 0
    else Count(reqs[..|reqs| - 1], segment, b, pos) + if Hits(reqs[|reqs| - 1], segment, b, pos) then 1 else 0
  }

  /** How many earlier requests go where request i goes. */
  ghost function Slot(reqs: seq<Request>, segment: nat, i: nat): nat
    requires IsSegmentSize(segment) && i < |reqs|
  {
    Count(reqs[..i], segment, BlockAddress(reqs[i].addr, segment), Position(reqs[i].addr))
  }

  /** The largest number of requests that go to one position of the segment. */
  ghost function Depth(reqs: seq<Request>, segment: nat, b: nat): nat
    requires IsSegmentSize(segment)
  {
    if reqs == [] then 0
    else
      var n := |reqs| - 1;
      var before := Depth(reqs[..n], segment, b);
      if BlockAddress(reqs[n].addr, segment) == b && before <= Slot(reqs, segment, n) then Slot(reqs, segment, n) + 1
        else before
  }

  ghost function InBlock(reqs: seq<Request>, segment: nat, b: nat): set<nat>
    requires IsSegmentSize(segment)
  {
    set i: nat | i < |reqs| && BlockAddress(reqs[i].addr, segment) == b
  }

  ghost function InSlot(reqs: seq<Request>, segment: nat, b: nat, k: nat): set<nat>
    requires IsSegmentSize(segment)
  {
    set i: nat | i < |reqs| && BlockAddress(reqs[i].addr, segment) == b && Slot(reqs, segment, i) == k
  }

  /** The transaction made of some of the requests. */
  ghost function Joined(reqs: seq<Request>, dataSize: nat, members: set<nat>): Transaction
  {
    Transaction(set i | i in members && i < |reqs| :: Position(reqs[i].addr) / 32,
                set i, x | i in members && i < |reqs| && x in ByteRange(Position(reqs[i].addr), dataSize) :: x,
                set i | i in members && i < |reqs| :: reqs[i].thread)
  }

  ghost predicate Aligned(reqs: seq<Request>, dataSize: nat)
    requires IsDataSize(dataSize)
  {
    forall i :: 0 <= i < |reqs| ==> reqs[i].addr % dataSize == 0
  }

  lemma PositionOfFourByteAccess(addr: nat)
    requires addr % 4 == 0
    ensures Position(addr) % 4 == 0 && Position(addr) + 4 <= 128 && Position(addr) % 32 + 4 <= 32
  {
    var p := Position(addr);
    var q := addr / 4 - 32 * (addr / 128);
    assert p == 4 * q && 0 <= q < 32;
    assert p % 32 == 4 * (q - 8 * (p / 32));
  }

  lemma PositionOfOneByteAccess(addr: nat)
    ensures Position(addr) + 1 <= 128 && Position(addr) % 1 == 0 && Position(addr) % 32 + 1 <= 32
  {
  }

  lemma PositionOfTwoByteAccess(addr: nat)
    requires addr % 2 == 0
    ensures Position(addr) % 2 == 0 && Position(addr) + 2 <= 128 && Position(addr) % 32 + 2 <= 32
  {
    var p := Position(addr);
    var q := addr / 2 - 64 * (addr / 128);
    assert p == 2 * q && 0 <= q < 64;
    assert p % 32 == 2 * (q - 16 * (p / 32));
  }

  lemma PositionOfEightByteAccess(addr: nat)
    requires addr % 8 == 0
    ensures Position(addr) % 8 == 0 && Position(addr) + 8 <= 128 && Position(addr) % 32 + 8 <= 32
  {
    var p := Position(addr);
    var q := addr / 8 - 16 * (addr / 128);
    assert p == 8 * q && 0 <= q < 16;
    assert p % 32 == 8 * (q - 4 * (p / 32));
  }

  lemma PositionOfSixteenByteAccess(addr: nat)
    requires addr % 16 == 0
    ensures Position(addr) % 16 == 0 && Position(addr) + 16 <= 128 && Position(addr) % 32 + 16 <= 32
  {
    var p := Position(addr);
    var q := addr / 16 - 8 * (addr / 128);
    assert p == 16 * q && 0 <= q < 8;
    assert p % 32 == 16 * (q - 2 * (p / 32));
  }

  /** A naturally aligned access stays inside its line and inside one chunk of it. */
  lemma AlignedPositions(addr: nat, dataSize: nat)
    requires IsDataSize(dataSize) && addr % dataSize == 0
    ensures Position(addr) % dataSize == 0 && Position(addr) + dataSize <= 128
    ensures Position(addr) % 32 + dataSize <= 32
  {
    hide Position;
    if dataSize == 16 {
      PositionOfSixteenByteAccess(addr);
    } else if dataSize == 8 {
      PositionOfEightByteAccess(addr);
    } else if dataSize == 4 {
      PositionOfFourByteAccess(addr);
    } else if dataSize == 2 {
      PositionOfTwoByteAccess(addr);
    } else {
      PositionOfOneByteAccess(addr);
    }
  }

  /** Aligned accesses of one size overlap only when they start at the same byte. */
  lemma AlignedRangesDisjoint(a: nat, b: nat, dataSize: nat)
    requires IsDataSize(dataSize) && a % dataSize == 0 && b % dataSize == 0 && a != b
    ensures ByteRange(a, dataSize) !! ByteRange(b, dataSize)
  {
    var i, j := a / dataSize, b / dataSize;
    assert a == dataSize * i && b == dataSize * j && i != j;
  }

  // ----- counting

  lemma {:induction false} SlotBelowCount(reqs: seq<Request>, segment: nat, b: nat, pos: nat, i: nat)
    requires IsSegmentSize(segment) && i < |reqs| && Hits(reqs[i], segment, b, pos)
    ensures Slot(reqs, segment, i) < Count(reqs, segment, b, pos)
  {
    var n := |reqs| - 1;
    if i < n {
      assert reqs[..n][..i] == reqs[..i];
      SlotBelowCount(reqs[..n], segment, b, pos, i);
    }
  }

  lemma {:induction false} EverySlotTaken(reqs: seq<Request>, segment: nat, b: nat, pos: nat, k: nat) returns (i: nat)
    requires IsSegmentSize(segment) && k < Count(reqs, segment, b, pos)
    ensures i < |reqs| && Hits(reqs[i], segment, b, pos) && Slot(reqs, segment, i) == k
  {
    var n := |reqs| - 1;
    if k < Count(reqs[..n], segment, b, pos) {
      i := EverySlotTaken(reqs[..n], segment, b, pos, k);
      assert reqs[..n][..i] == reqs[..i];
    } else {
      i := n;
    }
  }

  /** Depth is an upper bound of every position's count, and some position reaches it. */
  lemma {:induction false} DepthIsLargestCount(reqs: seq<Request>, segment: nat, b: nat, pos: nat)
    requires IsSegmentSize(segment)
    ensures Count(reqs, segment, b, pos) <= Depth(reqs, segment, b)
    ensures Depth(reqs, segment, b) > 0 ==> exists p :: Count(reqs, segment, b, p) == Depth(reqs, segment, b)
    ensures b !in SegmentsTouched(reqs, segment) ==> Depth(reqs, segment, b) == 0
  {
    if reqs != [] {
      var n := |reqs| - 1;
      DepthIsLargestCount(reqs[..n], segment, b, pos);
      assert forall c :: c in SegmentsTouched(reqs[..n], segment) ==> c in SegmentsTouched(reqs, segment);
      if BlockAddress(reqs[n].addr, segment) == b {
        assert b in SegmentsTouched(reqs, segment);
        var p := Position(reqs[n].addr);
        DepthIsLargestCount(reqs[..n], segment, b, p);
        if Depth(reqs[..n], segment, b) <= Slot(reqs, segment, n) {
          assert Count(reqs, segment, b, p) == Depth(reqs, segment, b);
        } else if Depth(reqs, segment, b) > 0 {
          var q :| Count(reqs[..n], segment, b, q) == Depth(reqs[..n], segment, b);
          assert q != p;
          assert Count(reqs, segment, b, q) == Depth(reqs, segment, b);
        }
      } else if Depth(reqs, segment, b) > 0 {
        var q :| Count(reqs[..n], segment, b, q) == Depth(reqs[..n], segment, b);
        assert Count(reqs, segment, b, q) == Depth(reqs, segment, b);
      }
    }
  }

  ghost function SegmentsTouched(reqs: seq<Request>, segment: nat): set<nat>
    requires IsSegmentSize(segment)
  {
    set i: nat | i < |reqs| :: BlockAddress(reqs[i].addr, segment)
  }

  // ----- what atomic coalescing promises

  /** Requests that share a transaction touch different bytes. */
  lemma SlotsAreConflictFree(reqs: seq<Request>, dataSize: nat, b: nat, k: nat, i: nat, j: nat)
    requires IsDataSize(dataSize) && Aligned(reqs, dataSize) && i != j
    requires i in InSlot(reqs, SegmentSize(dataSize), b, k) && j in InSlot(reqs, SegmentSize(dataSize), b, k)
    ensures ByteRange(Position(reqs[i].addr), dataSize) !! ByteRange(Position(reqs[j].addr), dataSize)
  {
    var segment := SegmentSize(dataSize);
    AlignedPositions(reqs[i].addr, dataSize);
    AlignedPositions(reqs[j].addr, dataSize);
    if Position(reqs[i].addr) == Position(reqs[j].addr) {
      var first, last := if i < j then i else j, if i < j then j else i;
      assert reqs[..last][..first] == reqs[..first];
      SlotBelowCount(reqs[..last], segment, b, Position(reqs[i].addr), first);
      assert false;
    }
    AlignedRangesDisjoint(Position(reqs[i].addr), Position(reqs[j].addr), dataSize);
  }

  /** Each request belongs to exactly one slot of its segment, one of the first Depth slots. */
  lemma EachRequestHasOneSlot(reqs: seq<Request>, segment: nat, i: nat)
    requires IsSegmentSize(segment) && i < |reqs|
    ensures var b := BlockAddress(reqs[i].addr, segment);
            && Slot(reqs, segment, i) < Depth(reqs, segment, b)
            && forall c, k :: i in InSlot(reqs, segment, c, k) <==> c == b && k == Slot(reqs, segment, i)
  {
    var b := BlockAddress(reqs[i].addr, segment);
    SlotBelowCount(reqs, segment, b, Position(reqs[i].addr), i);
    DepthIsLargestCount(reqs, segment, b, Position(reqs[i].addr));
  }

  /** A way to spread the requests of a segment over m transactions without conflicts. */
  ghost predicate IsConflictFreeSpread(reqs: seq<Request>, segment: nat, b: nat, spread: seq<nat>, m: nat)
    requires IsSegmentSize(segment)
  {
    && |spread| == |reqs|
    && (forall i :: 0 <= i < |reqs| && BlockAddress(reqs[i].addr, segment) == b ==> spread[i] < m)
    && forall i, j :: 0 <= i < j < |reqs| && Hits(reqs[i], segment, b, Position(reqs[j].addr))
                                         && Hits(reqs[j], segment, b, Position(reqs[j].addr)) ==>
         spread[i] != spread[j]
  }

  /** The transactions that the requests to one position are spread over. */
  ghost function Used(reqs: seq<Request>, segment: nat, b: nat, pos: nat, spread: seq<nat>): set<nat>
    requires IsSegmentSize(segment) && |spread| == |reqs|
  {
    if reqs == [] then {}
    else
      var n := |reqs| - 1;
      Used(reqs[..n], segment, b, pos, spread[..n]) + if Hits(reqs[n], segment, b, pos) then {spread[n]} else {}
  }

  lemma {:induction false} UsedBySomeRequest(reqs: seq<Request>, segment: nat, b: nat, pos: nat, spread: seq<nat>,
                                             x: nat) returns (i: nat)
    requires IsSegmentSize(segment) && |spread| == |reqs| && x in Used(reqs, segment, b, pos, spread)
    ensures i < |reqs| && Hits(reqs[i], segment, b, pos) && spread[i] == x
  {
    var n := |reqs| - 1;
    if x in Used(reqs[..n], segment, b, pos, spread[..n]) {
      i := UsedBySomeRequest(reqs[..n], segment, b, pos, spread[..n], x);
    } else {
      i := n;
    }
  }

  lemma {:induction false} CountIsUsed(reqs: seq<Request>, segment: nat, b: nat, pos: nat, spread: seq<nat>, m: nat)
    requires IsSegmentSize(segment) && IsConflictFreeSpread(reqs, segment, b, spread, m)
    ensures |Used(reqs, segment, b, pos, spread)| == Count(reqs, segment, b, pos)
    ensures forall x :: x in Used(reqs, segment, b, pos, spread) ==> x < m
  {
    if reqs != [] {
      var n := |reqs| - 1;
      CountIsUsed(reqs[..n], segment, b, pos, spread[..n], m);
      if Hits(reqs[n], segment, b, pos) && spread[n] in Used(reqs[..n], segment, b, pos, spread[..n]) {
        var i := UsedBySomeRequest(reqs[..n], segment, b, pos, spread[..n], spread[n]);
        assert false;
      }
    }
  }

  lemma {:induction false} SmallNumbers(s: set<nat>, m: nat)
    requires forall x :: x in s ==> x < m
    ensures |s| <= m
    decreases m
  {
    if m == 0 {
      assert s == {};
    } else {
      SmallNumbers(s - {m - 1}, m - 1);
      assert |s| <= |s - {m - 1}| + 1;
    }
  }

  /** No conflict-free way needs fewer transactions than first-fit takes. */
  lemma FirstFitIsOptimal(reqs: seq<Request>, segment: nat, b: nat, spread: seq<nat>, m: nat)
    requires IsSegmentSize(segment) && IsConflictFreeSpread(reqs, segment, b, spread, m)
    ensures Depth(reqs, segment, b) <= m
  {
    DepthIsLargestCount(reqs, segment, b, 0);
    if Depth(reqs, segment, b) > 0 {
      var pos :| Count(reqs, segment, b, pos) == Depth(reqs, segment, b);
      CountIsUsed(reqs, segment, b, pos, spread, m);
      SmallNumbers(Used(reqs, segment, b, pos, spread), m);
    }
  }

  // ----- adding one request

  lemma SlotsStay(reqs: seq<Request>, r: Request, segment: nat)
    requires IsSegmentSize(segment)
    ensures forall i :: 0 <= i < |reqs| ==> Slot(reqs + [r], segment, i) == Slot(reqs, segment, i)
    ensures Slot(reqs + [r], segment, |reqs|) == Count(reqs, segment, BlockAddress(r.addr, segment), Position(r.addr))
  {
    forall i | 0 <= i < |reqs|
      ensures Slot(reqs + [r], segment, i) == Slot(reqs, segment, i)
    {
      assert (reqs + [r])[..i] == reqs[..i];
    }
    assert (reqs + [r])[..|reqs|] == reqs;
  }

  lemma SlotWithNewRequest(reqs: seq<Request>, r: Request, segment: nat, b: nat, k: nat)
    requires IsSegmentSize(segment)
    ensures var mine := BlockAddress(r.addr, segment) == b && k == Count(reqs, segment, b, Position(r.addr));
            InSlot(reqs + [r], segment, b, k) == if mine then InSlot(reqs, segment, b, k) + {|reqs|}
              else InSlot(reqs, segment, b, k)
  {
    var all := reqs + [r];
    SlotsStay(reqs, r, segment);
    forall i: nat | i < |reqs|
      ensures i in InSlot(all, segment, b, k) <==> i in InSlot(reqs, segment, b, k)
    {
      assert all[i] == reqs[i];
    }
    assert all[|reqs|] == r;
  }

  lemma BlockWithNewRequest(reqs: seq<Request>, r: Request, segment: nat, b: nat)
    requires IsSegmentSize(segment)
    ensures InBlock(reqs + [r], segment, b)
         == if BlockAddress(r.addr, segment) == b then InBlock(reqs, segment, b) + {|reqs|}
           else InBlock(reqs, segment, b)
  {
    var all := reqs + [r];
    forall i: nat | i < |reqs|
      ensures i in InBlock(all, segment, b) <==> i in InBlock(reqs, segment, b)
    {
      assert all[i] == reqs[i];
    }
    assert all[|reqs|] == r;
  }

  lemma BlocksWithNewRequest(reqs: seq<Request>, r: Request, segment: nat)
    requires IsSegmentSize(segment)
    ensures SegmentsTouched(reqs + [r], segment) == SegmentsTouched(reqs, segment) + {BlockAddress(r.addr, segment)}
  {
    var all := reqs + [r];
    assert all[|reqs|] == r;
    forall c | c in SegmentsTouched(reqs, segment)
      ensures c in SegmentsTouched(all, segment)
    {
      var i: nat :| i < |reqs| && BlockAddress(reqs[i].addr, segment) == c;
      assert all[i] == reqs[i];
    }
    forall c | c in SegmentsTouched(all, segment)
      ensures c in SegmentsTouched(reqs, segment) + {BlockAddress(r.addr, segment)}
    {
      var i: nat :| i < |all| && BlockAddress(all[i].addr, segment) == c;
      assert i < |reqs| ==> reqs[i] == all[i];
    }
  }

  lemma DepthWithNewRequest(reqs: seq<Request>, r: Request, segment: nat, b: nat)
    requires IsSegmentSize(segment)
    ensures var twins := Count(reqs, segment, b, Position(r.addr));
            Depth(reqs + [r], segment, b) == (if BlockAddress(r.addr, segment) == b && Depth(reqs, segment, b) <= twins
                                              then twins + 1 else Depth(reqs, segment, b))
  {
    SlotsStay(reqs, r, segment);
    assert (reqs + [r])[..|reqs|] == reqs;
  }

  ghost function WithRequest(t: Transaction, r: Request, dataSize: nat): Transaction
  {
    Transaction(t.chunks + {Position(r.addr) / 32}, t.bytes + ByteRange(Position(r.addr), dataSize),
                t.active + {r.thread})
  }

  lemma JoinedIgnoresNewRequests(reqs: seq<Request>, r: Request, dataSize: nat, members: set<nat>)
    requires forall i :: i in members ==> i < |reqs|
    ensures Joined(reqs + [r], dataSize, members) == Joined(reqs, dataSize, members)
  {
    var all := reqs + [r];
    assert forall i :: i in members ==> all[i] == reqs[i];
    assert Joined(all, dataSize, members).bytes == Joined(reqs, dataSize, members).bytes;
    assert Joined(all, dataSize, members).chunks == Joined(reqs, dataSize, members).chunks;
    assert Joined(all, dataSize, members).active == Joined(reqs, dataSize, members).active;
  }

  lemma JoinedWithNewRequest(reqs: seq<Request>, r: Request, dataSize: nat, members: set<nat>)
    requires forall i :: i in members ==> i < |reqs|
    ensures Joined(reqs + [r], dataSize, members + {|reqs|})
            == WithRequest(Joined(reqs, dataSize, members), r, dataSize)
  {
    var all, now := reqs + [r], Joined(reqs + [r], dataSize, members + {|reqs|});
    var want := WithRequest(Joined(reqs, dataSize, members), r, dataSize);
    assert all[|reqs|] == r && |reqs| in members + {|reqs|};
    assert forall i :: i in members ==> all[i] == reqs[i] && i in members + {|reqs|};
    assert now.chunks == want.chunks;
    assert now.bytes == want.bytes;
    assert now.active == want.active;
  }

  ghost predicate IsSlotList(list: seq<Transaction>, reqs: seq<Request>, dataSize: nat, b: nat)
    requires IsDataSize(dataSize)
  {
    var segment := SegmentSize(dataSize);
    && |list| == Depth(reqs, segment, b)
    && forall k :: 0 <= k < |list| ==> list[k] == Joined(reqs, dataSize, InSlot(reqs, segment, b, k))
  }

  method TestBytes(bytes: set<nat>, start: nat, size: nat) returns (hit: bool)
    ensures hit <==> !(bytes !! ByteRange(start, size))
  {
    for i := start to start + size
      invariant forall x :: start <= x < i ==> x !in bytes
    {
      if i in bytes {
        assert i in ByteRange(start, size);
        return true;
      }
    }
    return false;
  }

  /** Slots below the number of twins hold a twin, which touches the same bytes; the next slot
      holds none, and there aligned accesses cannot overlap. */
  lemma SlotConflicts(reqs: seq<Request>, r: Request, dataSize: nat, k: nat)
    requires IsDataSize(dataSize) && Aligned(reqs, dataSize) && r.addr % dataSize == 0
    ensures var segment := SegmentSize(dataSize); var b := BlockAddress(r.addr, segment);
            var twins := Count(reqs, segment, b, Position(r.addr));
            var bytes := Joined(reqs, dataSize, InSlot(reqs, segment, b, k)).bytes;
            && (k < twins ==> !(bytes !! ByteRange(Position(r.addr), dataSize)))
            && (k == twins ==> bytes !! ByteRange(Position(r.addr), dataSize))
  {
    var segment := SegmentSize(dataSize);
    var b, pos := BlockAddress(r.addr, segment), Position(r.addr);
    var members := InSlot(reqs, segment, b, k);
    if k < Count(reqs, segment, b, pos) {
      var i := EverySlotTaken(reqs, segment, b, pos, k);
      assert pos in ByteRange(Position(reqs[i].addr), dataSize) && i in members;
      assert pos in Joined(reqs, dataSize, members).bytes && pos in ByteRange(pos, dataSize);
    } else if k == Count(reqs, segment, b, pos) {
      forall i | i in members
        ensures ByteRange(Position(reqs[i].addr), dataSize) !! ByteRange(pos, dataSize)
      {
        if Position(reqs[i].addr) == pos {
          SlotBelowCount(reqs, segment, b, pos, i);
          assert false;
        }
        AlignedPositions(reqs[i].addr, dataSize);
        AlignedPositions(r.addr, dataSize);
        AlignedRangesDisjoint(Position(reqs[i].addr), pos, dataSize);
      }
    }
  }

  /** First-fit: the first transaction of the segment that the access does not conflict with, or
      the end of the list. */
  method FirstFree(list: seq<Transaction>, r: Request, dataSize: nat, ghost reqs: seq<Request>) returns (it: nat)
    requires IsDataSize(dataSize) && Aligned(reqs, dataSize) && r.addr % dataSize == 0
    requires IsSlotList(list, reqs, dataSize, BlockAddress(r.addr, SegmentSize(dataSize)))
    ensures it == Count(reqs, SegmentSize(dataSize), BlockAddress(r.addr, SegmentSize(dataSize)), Position(r.addr))
    ensures it <= |list|
  {
    var segment := SegmentSize(dataSize);
    ghost var b := BlockAddress(r.addr, segment);
    ghost var twins := Count(reqs, segment, b, Position(r.addr));
    DepthIsLargestCount(reqs, segment, b, Position(r.addr));
    it := 0;
    while it < |list|
      invariant it <= twins <= |list|
    {
      SlotConflicts(reqs, r, dataSize, it);
      var hit := TestBytes(list[it].bytes, Position(r.addr), dataSize);
      if !hit {
        return;
      }
      it := it + 1;
    }
  }

  method PlaceAtomic(list: seq<Transaction>, r: Request, dataSize: nat, ghost reqs: seq<Request>)
    returns (after: seq<Transaction>)
    requires IsDataSize(dataSize) && Aligned(reqs, dataSize) && r.addr % dataSize == 0
    requires IsSlotList(list, reqs, dataSize, BlockAddress(r.addr, SegmentSize(dataSize)))
    ensures IsSlotList(after, reqs + [r], dataSize, BlockAddress(r.addr, SegmentSize(dataSize)))
  {
    var it := FirstFree(list, r, dataSize, reqs);
    var info := AddRequest(if it == |list| then EMPTY_TRANSACTION else list[it], r, dataSize);
    after := if it == |list| then list + [info] else list[it := info];
    SlotListAfter(list, r, dataSize, reqs, after, it);
  }

  lemma SlotListAfter(list: seq<Transaction>, r: Request, dataSize: nat, reqs: seq<Request>, after: seq<Transaction>,
                      it: nat)
    requires IsDataSize(dataSize) && it <= |list|
    requires IsSlotList(list, reqs, dataSize, BlockAddress(r.addr, SegmentSize(dataSize)))
    requires it == Count(reqs, SegmentSize(dataSize), BlockAddress(r.addr, SegmentSize(dataSize)), Position(r.addr))
    requires var info := WithRequest(if it == |list| then EMPTY_TRANSACTION else list[it], r, dataSize);
             after == if it == |list| then list + [info] else list[it := info]
    ensures IsSlotList(after, reqs + [r], dataSize, BlockAddress(r.addr, SegmentSize(dataSize)))
  {
    var segment := SegmentSize(dataSize);
    var b := BlockAddress(r.addr, segment);
    DepthWithNewRequest(reqs, r, segment, b);
    assert |after| == Depth(reqs + [r], segment, b);
    forall k | 0 <= k < |after|
      ensures after[k] == Joined(reqs + [r], dataSize, InSlot(reqs + [r], segment, b, k))
    {
      SlotTransactionAfter(reqs, r, dataSize, k);
      if k == |list| {
        NothingAboveDepth(reqs, segment, b, k);
        assert Joined(reqs, dataSize, {}) == EMPTY_TRANSACTION;
      }
    }
  }

  lemma NothingAboveDepth(reqs: seq<Request>, segment: nat, b: nat, k: nat)
    requires IsSegmentSize(segment) && Depth(reqs, segment, b) <= k
    ensures InSlot(reqs, segment, b, k) == {}
  {
    forall i | i in InSlot(reqs, segment, b, k)
      ensures false
    {
      EachRequestHasOneSlot(reqs, segment, i);
    }
  }

  method AddRequest(info: Transaction, r: Request, dataSize: nat) returns (after: Transaction)
    ensures after == WithRequest(info, r, dataSize)
  {
    var idx := Position(r.addr);
    var bytes := info.bytes;
    for i := 0 to dataSize
      invariant bytes == info.bytes + ByteRange(idx, i)
    {
      bytes := bytes + {idx + i};
    }
    after := Transaction(info.chunks + {idx / 32}, bytes, info.active + {r.thread});
  }

  lemma SlotTransactionAfter(reqs: seq<Request>, r: Request, dataSize: nat, k: nat)
    requires IsDataSize(dataSize)
    ensures var segment := SegmentSize(dataSize); var b := BlockAddress(r.addr, segment);
            var before := Joined(reqs, dataSize, InSlot(reqs, segment, b, k));
            Joined(reqs + [r], dataSize, InSlot(reqs + [r], segment, b, k))
              == (if k == Count(reqs, segment, b, Position(r.addr)) then WithRequest(before, r, dataSize) else before)
  {
    var segment := SegmentSize(dataSize);
    var b := BlockAddress(r.addr, segment);
    SlotWithNewRequest(reqs, r, segment, b, k);
    if k == Count(reqs, segment, b, Position(r.addr)) {
      JoinedWithNewRequest(reqs, r, dataSize, InSlot(reqs, segment, b, k));
    } else {
      JoinedIgnoresNewRequests(reqs, r, dataSize, InSlot(reqs, segment, b, k));
    }
  }
}
