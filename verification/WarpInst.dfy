/** A warp's memory instruction: it turns the lanes' addresses into the accesses of its queue. */
module WarpInst {
  import opened Ordering
  import opened Coalescer
  import opened Blocks

  // ----- what a half or part of the warp gathers

  ghost predicate IsAtomicMap(trans: map<nat, seq<Transaction>>, reqs: seq<Request>, dataSize: nat)
    requires IsDataSize(dataSize)
  {
    && trans.Keys == SegmentsTouched(reqs, SegmentSize(dataSize))
    && forall b :: b in trans ==> IsSlotList(trans[b], reqs, dataSize, b)
  }

  ghost function AtomicMap(reqs: seq<Request>, dataSize: nat): map<nat, seq<Transaction>>
    requires IsDataSize(dataSize)
  {
    var segment := SegmentSize(dataSize);
    map b | b in SegmentsTouched(reqs, segment) ::
      seq(Depth(reqs, segment, b), k requires 0 <= k => Joined(reqs, dataSize, InSlot(reqs, segment, b, k)))
  }

  ghost function PlainMap(reqs: seq<Request>, dataSize: nat, segment: nat): map<nat, Transaction>
    requires IsSegmentSize(segment)
  {
    map b | b in SegmentsTouched(reqs, segment) :: Joined(reqs, dataSize, InBlock(reqs, segment, b))
  }

  lemma AtomicMapIsUnique(trans: map<nat, seq<Transaction>>, reqs: seq<Request>, dataSize: nat)
    requires IsDataSize(dataSize) && IsAtomicMap(trans, reqs, dataSize)
    ensures trans == AtomicMap(reqs, dataSize)
  {
    forall b | b in trans
      ensures trans[b] == AtomicMap(reqs, dataSize)[b]
    {
      assert IsSlotList(trans[b], reqs, dataSize, b);
    }
  }

  ghost predicate IsPlainMap(trans: map<nat, Transaction>, reqs: seq<Request>, dataSize: nat, segment: nat)
    requires IsSegmentSize(segment)
  {
    && trans.Keys == SegmentsTouched(reqs, segment)
    && forall b :: b in trans ==> trans[b] == Joined(reqs, dataSize, InBlock(reqs, segment, b))
  }

  lemma OtherSlotListsStay(list: seq<Transaction>, reqs: seq<Request>, r: Request, dataSize: nat, b: nat)
    requires IsDataSize(dataSize) && IsSlotList(list, reqs, dataSize, b)
             && b != BlockAddress(r.addr, SegmentSize(dataSize))
    ensures IsSlotList(list, reqs + [r], dataSize, b)
  {
    var segment := SegmentSize(dataSize);
    DepthWithNewRequest(reqs, r, segment, b);
    forall k | 0 <= k < |list|
      ensures list[k] == Joined(reqs + [r], dataSize, InSlot(reqs + [r], segment, b, k))
    {
      SlotWithNewRequest(reqs, r, segment, b, k);
      JoinedIgnoresNewRequests(reqs, r, dataSize, InSlot(reqs, segment, b, k));
    }
  }

  lemma UnseenBlockHasNoSlots(reqs: seq<Request>, dataSize: nat, b: nat)
    requires IsDataSize(dataSize) && b !in SegmentsTouched(reqs, SegmentSize(dataSize))
    ensures IsSlotList([], reqs, dataSize, b)
  {
    DepthIsLargestCount(reqs, SegmentSize(dataSize), b, 0);
  }

  method AddAtomic(trans: map<nat, seq<Transaction>>, r: Request, dataSize: nat, ghost reqs: seq<Request>)
    returns (after: map<nat, seq<Transaction>>)
    requires IsDataSize(dataSize) && Aligned(reqs, dataSize) && r.addr % dataSize == 0
    requires IsAtomicMap(trans, reqs, dataSize)
    ensures IsAtomicMap(after, reqs + [r], dataSize)
  {
    var b := BlockAddress(r.addr, SegmentSize(dataSize));
    if b !in trans {
      UnseenBlockHasNoSlots(reqs, dataSize, b);
    }
    var list := PlaceAtomic(if b in trans then trans[b] else [], r, dataSize, reqs);
    after := trans[b := list];
    BlocksWithNewRequest(reqs, r, SegmentSize(dataSize));
    forall c | c in after && c != b
      ensures IsSlotList(after[c], reqs + [r], dataSize, c)
    {
      OtherSlotListsStay(trans[c], reqs, r, dataSize, c);
    }
  }

  lemma UnseenBlockIsEmpty(reqs: seq<Request>, segment: nat, b: nat)
    requires IsSegmentSize(segment) && b !in SegmentsTouched(reqs, segment)
    ensures InBlock(reqs, segment, b) == {}
  {
  }

  method AddPlain(trans: map<nat, Transaction>, r: Request, dataSize: nat, segment: nat, ghost reqs: seq<Request>)
    returns (after: map<nat, Transaction>)
    requires IsSegmentSize(segment) && IsPlainMap(trans, reqs, dataSize, segment)
    ensures IsPlainMap(after, reqs + [r], dataSize, segment)
  {
    var b := BlockAddress(r.addr, segment);
    if b !in trans {
      UnseenBlockIsEmpty(reqs, segment, b);
      assert Joined(reqs, dataSize, {}) == EMPTY_TRANSACTION;
    }
    var info := AddRequest(if b in trans then trans[b] else EMPTY_TRANSACTION, r, dataSize);
    after := trans[b := info];
    BlocksWithNewRequest(reqs, r, segment);
    JoinedWithNewRequest(reqs, r, dataSize, InBlock(reqs, segment, b));
    forall c | c in after
      ensures after[c] == Joined(reqs + [r], dataSize, InBlock(reqs + [r], segment, c))
    {
      BlockWithNewRequest(reqs, r, segment, c);
      if c != b {
        JoinedIgnoresNewRequests(reqs, r, dataSize, InBlock(reqs, segment, c));
      }
    }
  }

  lemma QuotientFits(whole: nat, parts: nat)
    requires parts > 0
    ensures parts * (whole / parts) <= whole
  {
  }

  lemma PartsFit(whole: nat, parts: nat, n: nat)
    requires parts > 0 && n <= parts
    ensures Base(n, whole / parts) <= whole
  {
    QuotientFits(whole, parts);
    BaseIsProduct(parts, whole / parts);
    BaseGrows(n, parts, whole / parts);
  }

  // ----- what is sent, and in which order

  datatype Send = Send(block: nat, info: Transaction)

  ghost function SendsOf(b: nat, list: seq<Transaction>): seq<Send>
  {
    seq(|list|, i requires 0 <= i < |list| => Send(b, list[i]))
  }

  /** The elements in ascending order, as an ordered map is walked. */
  ghost function Ascending(s: set<nat>): (keys: seq<nat>)
    ensures forall b :: b in keys <==> b in s
  {
    if s == {} then [] else
    var b := Least(s);
    [b] + Ascending(s - {b})
  }

  lemma LeastIsThere(s: set<nat>)
    requires s != {}
    ensures exists b :: b in s && forall c :: c in s ==> b <= c
  {
    var _ := Least(s);
  }

  lemma AscendingFrom(s: set<nat>, b: nat)
    requires b in s && forall c :: c in s ==> b <= c
    ensures Ascending(s) == [b] + Ascending(s - {b})
  {
    assert b == Least(s);
  }

  method SortedKeys(s: set<nat>) returns (keys: seq<nat>)
    ensures keys == Ascending(s)
  {
    var rest := s;
    keys := [];
    assert Ascending({}) == [];
    hide Ascending;
    while rest != {}
      invariant keys + Ascending(rest) == Ascending(s)
      decreases rest
    {
      LeastIsThere(rest);
      var b: nat :| b in rest && forall c :: c in rest ==> b <= c;
      AscendingFrom(rest, b);
      keys := keys + [b];
      rest := rest - {b};
    }
  }

  ghost function AtomicSendsFor(trans: map<nat, seq<Transaction>>, keys: seq<nat>): seq<Send>
    requires forall b :: b in keys ==> b in trans
  {
    if keys == [] then [] else
    var n := |keys| - 1;
    AtomicSendsFor(trans, keys[..n]) + SendsOf(keys[n], trans[keys[n]])
  }

  /** Segments by ascending address, the transactions of one segment in list order. */
  ghost function AtomicSends(trans: map<nat, seq<Transaction>>): seq<Send>
  {
    AtomicSendsFor(trans, Ascending(trans.Keys))
  }

  lemma NextKeySend(trans: map<nat, Transaction>, keys: seq<nat>, i: nat, sent: seq<Send>)
    requires i < |keys| && forall b :: b in keys ==> b in trans
    ensures sent + PlainSendsFor(trans, keys[..i]) + [Send(keys[i], trans[keys[i]])]
            == sent + PlainSendsFor(trans, keys[..i + 1])
  {
    assert keys[..i + 1][..i] == keys[..i];
  }

  lemma NextKeysSends(trans: map<nat, seq<Transaction>>, keys: seq<nat>, i: nat, sent: seq<Send>)
    requires i < |keys| && forall b :: b in keys ==> b in trans
    ensures sent + AtomicSendsFor(trans, keys[..i + 1])
            == sent + AtomicSendsFor(trans, keys[..i]) + SendsOf(keys[i], trans[keys[i]])
  {
    assert keys[..i + 1][..i] == keys[..i];
  }

  ghost function PlainSendsFor(trans: map<nat, Transaction>, keys: seq<nat>): seq<Send>
    requires forall b :: b in keys ==> b in trans
  {
    if keys == [] then [] else
    var n := |keys| - 1;
    PlainSendsFor(trans, keys[..n]) + [Send(keys[n], trans[keys[n]])]
  }

  ghost function PlainSends(trans: map<nat, Transaction>): seq<Send>
  {
    PlainSendsFor(trans, Ascending(trans.Keys))
  }

  ghost predicate IsAccessFor(a: Access, s: Send, isWrite: bool)
  {
    && a.isWrite == isWrite && a.active == s.info.active && a.bytes == s.info.bytes
    && IsSmallestBlock(a.addr, a.size, s.block - s.block % 128, s.info.chunks)
  }

  /** One access for each transaction sent, each the smallest aligned block that holds its chunks. */
  ghost predicate AreAccessesFor(accesses: seq<Access>, sends: seq<Send>, isWrite: bool)
  {
    && |accesses| == |sends|
    && (sends == [] ||
        var n := |sends| - 1;
        AreAccessesFor(accesses[..n], sends[..n], isWrite) && IsAccessFor(accesses[n], sends[n], isWrite))
  }

  lemma NothingSent(isWrite: bool)
    ensures AreAccessesFor([], [], isWrite)
  {
  }

  lemma {:induction false} AccessAt(accesses: seq<Access>, sends: seq<Send>, isWrite: bool, i: nat)
    requires AreAccessesFor(accesses, sends, isWrite) && i < |sends|
    ensures IsAccessFor(accesses[i], sends[i], isWrite)
  {
    var n := |sends| - 1;
    if i < n {
      AccessAt(accesses[..n], sends[..n], isWrite, i);
    }
  }

  ghost predicate Sendable(s: Send, segment: nat)
    requires IsSegmentSize(segment)
  {
    s.info.chunks != {} && ChunksInSegment(s.info.chunks, s.block, segment)
  }

  lemma Truncated(x: nat)
    requires x % 32 == 0
    ensures x % ADDRESS_LIMIT == x - 128 * (0x200_0000 * (x / ADDRESS_LIMIT))
    ensures x % ADDRESS_LIMIT % 128 == x % 128
  {
    var k := x / 128 - 0x200_0000 * (x / ADDRESS_LIMIT);
    assert x % ADDRESS_LIMIT == 128 * k + x % 128;
  }

  ghost predicate AllSendable(list: seq<Transaction>, b: nat, segment: nat)
    requires IsSegmentSize(segment)
  {
    forall k :: 0 <= k < |list| ==> Sendable(Send(b, list[k]), segment)
  }

  lemma RemainderIn128(x: int, k: int, r: int)
    requires x == 128 * k + r && 0 <= r < 128
    ensures x % 128 == r
  {
  }

  lemma SegmentStart(addr: nat, segment: nat)
    requires IsSegmentSize(segment)
    ensures var pos, x := Position(addr), addr - addr % segment;
            && x % 32 == 0 && x % 128 == pos - pos % segment && x - x % 128 == addr - pos
  {
    var k, pos, x := addr / 128, Position(addr), addr - addr % segment;
    if segment == 32 {
      assert addr / 32 == 4 * k + pos / 32;
      RemainderIn128(x, k, 32 * (pos / 32));
    } else if segment == 64 {
      assert addr / 64 == 2 * k + pos / 64;
      RemainderIn128(x, k, 64 * (pos / 64));
    } else {
      RemainderIn128(x, k, 0);
    }
  }

  lemma BlockFacts(addr: nat, segment: nat)
    requires IsSegmentSize(segment)
    ensures var b := BlockAddress(addr, segment);
            && b % segment == 0
            && b % 128 <= Position(addr) / 32 * 32 && Position(addr) / 32 * 32 + 32 <= b % 128 + segment
            && (addr < ADDRESS_LIMIT ==> b - b % 128 == addr - Position(addr))
  {
    var pos, x := Position(addr), addr - addr % segment;
    SegmentStart(addr, segment);
    Truncated(x);
    var b := BlockAddress(addr, segment);
    assert b % 128 == pos - pos % segment;
    AlignedIfInLine(b, segment);
    ChunkInSegment(pos, segment);
  }

  lemma AlignedIfInLine(b: nat, segment: nat)
    requires IsSegmentSize(segment)
    ensures b % segment == b % 128 % segment
  {
    var k, r := b / 128, b % 128;
    assert b == 128 * k + r;
    if segment == 32 {
      assert b / 32 == 4 * k + r / 32;
    } else if segment == 64 {
      assert b / 64 == 2 * k + r / 64;
    }
  }

  lemma ChunkInSegment(pos: nat, segment: nat)
    requires IsSegmentSize(segment) && pos < 128
    ensures (pos - pos % segment) % segment == 0
    ensures pos - pos % segment <= pos / 32 * 32 && pos / 32 * 32 + 32 <= pos - pos % segment + segment
  {
  }

  lemma JoinedIsSendable(reqs: seq<Request>, dataSize: nat, segment: nat, b: nat, members: set<nat>)
    requires IsSegmentSize(segment) && members != {}
    requires forall i :: i in members ==> i < |reqs| && BlockAddress(reqs[i].addr, segment) == b
    ensures Sendable(Send(b, Joined(reqs, dataSize, members)), segment)
  {
    var chunks := Joined(reqs, dataSize, members).chunks;
    var some :| some in members;
    BlockFacts(reqs[some].addr, segment);
    assert Position(reqs[some].addr) / 32 in chunks;
    forall c | c in chunks
      ensures b % 128 <= 32 * c && 32 * c + 32 <= b % 128 + segment
    {
      var i :| i in members && Position(reqs[i].addr) / 32 == c;
      BlockFacts(reqs[i].addr, segment);
    }
  }

  // ----- the lanes' requests in program order

  ghost function LaneRequests(lane: nat, addrs: seq<nat>, n: nat): seq<Request>
    requires n <= |addrs|
  {
    if n == 0 then [] else LaneRequests(lane, addrs, n - 1) + [Request(lane, addrs[n - 1])]
  }

  ghost function RequestsOf(active: set<nat>, addrs: seq<seq<nat>>, lo: nat, hi: nat, n: nat): seq<Request>
    requires hi <= |addrs| && forall t :: 0 <= t < |addrs| ==> n <= |addrs[t]|
    decreases hi
  {
    if hi <= lo then []
    else RequestsOf(active, addrs, lo, hi - 1, n) + if hi - 1 in active then LaneRequests(hi - 1, addrs[hi - 1], n)
      else []
  }

  lemma LaneRequestsAligned(lane: nat, addrs: seq<nat>, n: nat, size: nat)
    requires n <= |addrs| && IsDataSize(size) && forall a :: a in addrs ==> a % size == 0
    ensures Aligned(LaneRequests(lane, addrs, n), size)
  {
    if n > 0 {
      LaneRequestsAligned(lane, addrs, n - 1, size);
      assert addrs[n - 1] in addrs;
    }
  }

  lemma AtomicSendable(trans: map<nat, seq<Transaction>>, reqs: seq<Request>, dataSize: nat, b: nat)
    requires IsDataSize(dataSize) && IsAtomicMap(trans, reqs, dataSize) && b in trans
    ensures AllSendable(trans[b], b, SegmentSize(dataSize))
  {
    var segment := SegmentSize(dataSize);
    DepthIsLargestCount(reqs, segment, b, 0);
    forall k | 0 <= k < |trans[b]|
      ensures Sendable(Send(b, trans[b][k]), segment)
    {
      var pos :| Count(reqs, segment, b, pos) == Depth(reqs, segment, b);
      var i := EverySlotTaken(reqs, segment, b, pos, k);
      assert i in InSlot(reqs, segment, b, k);
      JoinedIsSendable(reqs, dataSize, segment, b, InSlot(reqs, segment, b, k));
    }
  }

  lemma PlainSendable(trans: map<nat, Transaction>, reqs: seq<Request>, dataSize: nat, segment: nat, b: nat)
    requires IsSegmentSize(segment) && IsPlainMap(trans, reqs, dataSize, segment) && b in trans
    ensures Sendable(Send(b, trans[b]), segment)
  {
    var i: nat :| i < |reqs| && BlockAddress(reqs[i].addr, segment) == b;
    assert i in InBlock(reqs, segment, b);
    JoinedIsSendable(reqs, dataSize, segment, b, InBlock(reqs, segment, b));
  }

  lemma OneAccessMore(accesses: seq<Access>, sends: seq<Send>, a: Access, s: Send, isWrite: bool)
    requires AreAccessesFor(accesses, sends, isWrite) && IsAccessFor(a, s, isWrite)
    ensures AreAccessesFor(accesses + [a], sends + [s], isWrite)
  {
    assert (accesses + [a])[..|accesses|] == accesses && (sends + [s])[..|sends|] == sends;
  }

  /** The instruction: lanes, their addresses (one, or one for each 4-byte piece of a local
      access) and the size of each piece. */
  class WarpInst {
    const warpSize: nat
    const isWrite: bool
    const dataSize: nat
    const isLocal: bool
    const active: set<nat>
    const memreqaddr: seq<seq<nat>>
    var accessq: seq<Access>

    ghost predicate Valid()
    {
      && IsDataSize(dataSize) && |memreqaddr| == warpSize
      && forall t :: 0 <= t < warpSize ==> Pieces() <= |memreqaddr[t]| && |memreqaddr[t]| > 0
                                           && forall a :: a in memreqaddr[t] ==> a % PieceSize() == 0
    }

    function PieceSize(): nat
    {
      if isLocal && dataSize >= 4 then 4 else dataSize
    }

    function Pieces(): nat
    {
      if isLocal && dataSize >= 4 then dataSize / 4 else 1
    }

    constructor (size: nat, write: bool, bytes: nat, local: bool, lanes: set<nat>, addrs: seq<seq<nat>>)
      ensures warpSize == size && isWrite == write && dataSize == bytes && isLocal == local
      ensures active == lanes && memreqaddr == addrs && accessq == []
    {
      warpSize, isWrite, dataSize, isLocal, active, memreqaddr := size, write, bytes, local, lanes, addrs;
      accessq := [];
    }

    method ReduceAndSend(info: Transaction, block: nat, segment: nat)
      requires IsSegmentSize(segment) && Sendable(Send(block, info), segment)
      modifies this
      ensures |accessq| == |old(accessq)| + 1 && accessq[..|old(accessq)|] == old(accessq)
      ensures IsAccessFor(accessq[|old(accessq)|], Send(block, info), isWrite)
    {
      var addr, size := Reduce(info.chunks, block, segment);
      accessq := accessq + [Access(addr, size, isWrite, info.active, info.bytes)];
    }

    ghost function Sent(from: nat): seq<Access>
      requires from <= |accessq|
      reads this
    {
      accessq[from..]
    }

    method SendOne(info: Transaction, block: nat, segment: nat, ghost from: nat, ghost sent: seq<Send>)
      requires IsSegmentSize(segment) && Sendable(Send(block, info), segment)
      requires from <= |accessq| && AreAccessesFor(Sent(from), sent, isWrite)
      modifies this
      ensures from <= |accessq| && accessq[..from] == old(accessq)[..from]
      ensures AreAccessesFor(Sent(from), sent + [Send(block, info)], isWrite)
    {
      ReduceAndSend(info, block, segment);
      OneAccessMore(old(Sent(from)), sent, accessq[|accessq| - 1], Send(block, info), isWrite);
      assert Sent(from) == old(Sent(from)) + [accessq[|accessq| - 1]];
    }

    method SendList(list: seq<Transaction>, b: nat, segment: nat, ghost from: nat, ghost sent: seq<Send>)
      requires IsSegmentSize(segment) && AllSendable(list, b, segment)
      requires from <= |accessq| && AreAccessesFor(Sent(from), sent, isWrite)
      modifies this
      ensures from <= |accessq| && accessq[..from] == old(accessq)[..from]
      ensures AreAccessesFor(Sent(from), sent + SendsOf(b, list), isWrite)
    {
      hide AreAccessesFor, Sendable;
      assert list[..0] == [] && sent + SendsOf(b, []) == sent;
      for k := 0 to |list|
        invariant from <= |accessq| && accessq[..from] == old(accessq)[..from]
        invariant AreAccessesFor(Sent(from), sent + SendsOf(b, list[..k]), isWrite)
      {
        SendOne(list[k], b, segment, from, sent + SendsOf(b, list[..k]));
        assert sent + SendsOf(b, list[..k]) + [Send(b, list[k])] == sent + SendsOf(b, list[..k + 1]);
      }
      assert list[..|list|] == list;
    }

    method SendAtomic(trans: map<nat, seq<Transaction>>, segment: nat, ghost from: nat, ghost sent: seq<Send>)
      requires IsSegmentSize(segment)
      requires forall b :: b in trans ==> AllSendable(trans[b], b, segment)
      requires from <= |accessq| && AreAccessesFor(Sent(from), sent, isWrite)
      modifies this
      ensures from <= |accessq| && accessq[..from] == old(accessq)[..from]
      ensures AreAccessesFor(Sent(from), sent + AtomicSends(trans), isWrite)
    {
      var keys := SortedKeys(trans.Keys);
      assert sent + [] == sent && keys[..0] == [];
      hide AreAccessesFor, Sendable, AllSendable, Ascending;
      for i := 0 to |keys|
        invariant from <= |accessq| && accessq[..from] == old(accessq)[..from]
        invariant AreAccessesFor(Sent(from), sent + AtomicSendsFor(trans, keys[..i]), isWrite)
      {
        SendList(trans[keys[i]], keys[i], segment, from, sent + AtomicSendsFor(trans, keys[..i]));
        NextKeysSends(trans, keys, i, sent);
      }
      assert keys[..|keys|] == keys;
    }

    method SendPlain(trans: map<nat, Transaction>, segment: nat, ghost from: nat, ghost sent: seq<Send>)
      requires IsSegmentSize(segment)
      requires forall b :: b in trans ==> Sendable(Send(b, trans[b]), segment)
      requires from <= |accessq| && AreAccessesFor(Sent(from), sent, isWrite)
      modifies this
      ensures from <= |accessq| && accessq[..from] == old(accessq)[..from]
      ensures AreAccessesFor(Sent(from), sent + PlainSends(trans), isWrite)
    {
      var keys := SortedKeys(trans.Keys);
      assert sent + [] == sent && keys[..0] == [];
      hide AreAccessesFor, Sendable, AllSendable, Ascending;
      for i := 0 to |keys|
        invariant from <= |accessq| && accessq[..from] == old(accessq)[..from]
        invariant AreAccessesFor(Sent(from), sent + PlainSendsFor(trans, keys[..i]), isWrite)
      {
        SendOne(trans[keys[i]], keys[i], segment, from, sent + PlainSendsFor(trans, keys[..i]));
        NextKeySend(trans, keys, i, sent);
      }
      assert keys[..|keys|] == keys;
    }

    ghost function Requests(lo: nat, hi: nat): seq<Request>
      requires Valid() && hi <= warpSize
    {
      RequestsOf(active, memreqaddr, lo, hi, Pieces())
    }

    // ----- atomic accesses: two halves of the warp

    /** An atomic instruction touches global memory, so it has one address for each lane. */
    method GatherAtomic(lo: nat, hi: nat) returns (trans: map<nat, seq<Transaction>>)
      requires Valid() && !isLocal && lo <= hi <= warpSize
      ensures IsAtomicMap(trans, Requests(lo, hi), dataSize) && Aligned(Requests(lo, hi), dataSize)
    {
      trans := map[];
      for thread := lo to hi
        invariant IsAtomicMap(trans, Requests(lo, thread), dataSize) && Aligned(Requests(lo, thread), dataSize)
      {
        assert LaneRequests(thread, memreqaddr[thread], 0) == [];
        if thread in active {
          var r := Request(thread, memreqaddr[thread][0]);
          assert memreqaddr[thread][0] in memreqaddr[thread];
          assert LaneRequests(thread, memreqaddr[thread], 1) == [r];
          assert Requests(lo, thread + 1) == Requests(lo, thread) + [r];
          trans := AddAtomic(trans, r, dataSize, Requests(lo, thread));
        } else {
          assert Requests(lo, thread + 1) == Requests(lo, thread);
        }
      }
    }

    ghost function AtomicSendsOfPart(lo: nat, hi: nat): seq<Send>
      requires Valid() && hi <= warpSize
    {
      AtomicSends(AtomicMap(Requests(lo, hi), dataSize))
    }

    /** What the first n subwarps send. */
    ghost function AtomicSendsUpTo(n: nat, size: nat): seq<Send>
      requires Valid() && Base(n, size) <= warpSize
    {
      if n == 0 then [] else AtomicSendsUpTo(n - 1, size) + AtomicSendsOfPart(Base(n - 1, size), Base(n, size))
    }

    /** What the two halves send. */
    ghost function AtomicSendsOfWarp(): seq<Send>
      requires Valid()
    {
      PartsFit(warpSize, 2, 2);
      AtomicSendsUpTo(2, warpSize / 2)
    }

    method MemoryCoalescingAtomic()
      requires Valid() && !isLocal
      modifies this
      ensures |old(accessq)| <= |accessq| && accessq[..|old(accessq)|] == old(accessq)
      ensures AreAccessesFor(Sent(|old(accessq)|), AtomicSendsOfWarp(), isWrite)
    {
      hide AreAccessesFor, WarpInst.AtomicSendsOfPart;
      NothingSent(isWrite);
      var warpParts := 2;
      var subwarpSize := warpSize / warpParts;
      ghost var from := |accessq|;
      assert Sent(from) == [];
      for subwarp := 0 to warpParts
        invariant Base(subwarp, subwarpSize) <= warpSize
        invariant from <= |accessq| && accessq[..from] == old(accessq)
        invariant AreAccessesFor(Sent(from), AtomicSendsUpTo(subwarp, subwarpSize), isWrite)
      {
        PartsFit(warpSize, warpParts, subwarp + 1);
        var lo, hi := PartBounds(subwarp, subwarpSize);
        CoalesceAtomicPart(lo, hi, from, AtomicSendsUpTo(subwarp, subwarpSize));
      }
    }

    /** The lanes of one part of the warp: from lo up to but not including hi. */
    method PartBounds(part: nat, size: nat) returns (lo: nat, hi: nat)
      ensures lo == Base(part, size) && hi == Base(part + 1, size)
    {
      lo := part * size;
      hi := lo + size;
      BaseIsProduct(part, size);
    }

    method CoalesceAtomicPart(lo: nat, hi: nat, ghost from: nat, ghost sent: seq<Send>)
      requires Valid() && !isLocal && lo <= hi <= warpSize
      requires from <= |accessq| && AreAccessesFor(Sent(from), sent, isWrite)
      modifies this
      ensures from <= |accessq| && accessq[..from] == old(accessq)[..from]
      ensures AreAccessesFor(Sent(from), sent + AtomicSendsOfPart(lo, hi), isWrite)
    {
      var trans := GatherAtomic(lo, hi);
      ghost var reqs := Requests(lo, hi);
      forall b | b in trans
        ensures AllSendable(trans[b], b, SegmentSize(dataSize))
      {
        AtomicSendable(trans, reqs, dataSize, b);
      }
      AtomicMapIsUnique(trans, reqs, dataSize);
      SendAtomic(trans, SegmentSize(dataSize), from, sent);
    }

    // ----- plain accesses: mem_warp_parts parts of the warp

    method GatherPlain(lo: nat, hi: nat) returns (trans: map<nat, Transaction>)
      requires Valid() && lo <= hi <= warpSize
      ensures trans == PlainMap(Requests(lo, hi), PieceSize(), SegmentSize(dataSize))
    {
      var segment := SegmentSize(dataSize);
      trans := map[];
      for thread := lo to hi
        invariant IsPlainMap(trans, Requests(lo, thread), PieceSize(), segment)
      {
        if thread in active {
          ghost var before := Requests(lo, thread);
          assert before + LaneRequests(thread, memreqaddr[thread], 0) == before;
          for access := 0 to Pieces()
            invariant IsPlainMap(trans, before + LaneRequests(thread, memreqaddr[thread], access), PieceSize(), segment)
          {
            var r := Request(thread, memreqaddr[thread][access]);
            ghost var reqs := before + LaneRequests(thread, memreqaddr[thread], access);
            trans := AddPlain(trans, r, PieceSize(), segment, reqs);
            assert reqs + [r] == before + LaneRequests(thread, memreqaddr[thread], access + 1);
          }
          assert Requests(lo, thread + 1) == before + LaneRequests(thread, memreqaddr[thread], Pieces());
        } else {
          assert Requests(lo, thread + 1) == Requests(lo, thread);
        }
      }
      assert trans == PlainMap(Requests(lo, hi), PieceSize(), segment);
    }

    ghost function PlainSendsOfPart(lo: nat, hi: nat): seq<Send>
      requires Valid() && hi <= warpSize
    {
      PlainSends(PlainMap(Requests(lo, hi), PieceSize(), SegmentSize(dataSize)))
    }

    ghost function PlainSendsUpTo(n: nat, size: nat): seq<Send>
      requires Valid() && Base(n, size) <= warpSize
    {
      if n == 0 then [] else PlainSendsUpTo(n - 1, size) + PlainSendsOfPart(Base(n - 1, size), Base(n, size))
    }

    /** What the parts send. */
    ghost function PlainSendsOfWarp(parts: nat): seq<Send>
      requires Valid() && parts > 0
    {
      PartsFit(warpSize, parts, parts);
      PlainSendsUpTo(parts, warpSize / parts)
    }

    method MemoryCoalescing(warpParts: nat)
      requires Valid() && warpParts > 0
      modifies this
      ensures |old(accessq)| <= |accessq| && accessq[..|old(accessq)|] == old(accessq)
      ensures AreAccessesFor(Sent(|old(accessq)|), PlainSendsOfWarp(warpParts), isWrite)
    {
      hide AreAccessesFor, WarpInst.PlainSendsOfPart;
      NothingSent(isWrite);
      var subwarpSize := warpSize / warpParts;
      PartsFit(warpSize, warpParts, warpParts);
      ghost var from := |accessq|;
      assert Sent(from) == [];
      for subwarp := 0 to warpParts
        invariant Base(subwarp, subwarpSize) <= warpSize
        invariant from <= |accessq| && accessq[..from] == old(accessq)
        invariant AreAccessesFor(Sent(from), PlainSendsUpTo(subwarp, subwarpSize), isWrite)
      {
        PartsFit(warpSize, warpParts, subwarp + 1);
        var lo, hi := PartBounds(subwarp, subwarpSize);
        CoalescePlainPart(lo, hi, from, PlainSendsUpTo(subwarp, subwarpSize));
      }
    }

    method CoalescePlainPart(lo: nat, hi: nat, ghost from: nat, ghost sent: seq<Send>)
      requires Valid() && lo <= hi <= warpSize
      requires from <= |accessq| && AreAccessesFor(Sent(from), sent, isWrite)
      modifies this
      ensures from <= |accessq| && accessq[..from] == old(accessq)[..from]
      ensures AreAccessesFor(Sent(from), sent + PlainSendsOfPart(lo, hi), isWrite)
    {
      var segment := SegmentSize(dataSize);
      var trans := GatherPlain(lo, hi);
      ghost var reqs := Requests(lo, hi);
      forall b | b in trans
        ensures Sendable(Send(b, trans[b]), segment)
      {
        PlainSendable(trans, reqs, PieceSize(), segment, b);
      }
      SendPlain(trans, segment, from, sent);
    }
  }
}
