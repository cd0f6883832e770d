/** What coalescing promises about the accesses in the queue, lane by lane. */
module CoalescingTheorems {
  import opened Ordering
  import opened Coalescer
  import opened Blocks
  import opened WarpInst

  /** The access lies around the request's bytes exactly when the address fits in 32 bits: block
      addresses are kept in a 32-bit word. */
  lemma AccessCoversRequest(reqs: seq<Request>, dataSize: nat, segment: nat, b: nat, members: set<nat>, a: Access,
                            isWrite: bool, i: nat)
    requires IsSegmentSize(segment) && IsDataSize(dataSize) && i in members && Aligned(reqs, dataSize)
    requires forall j :: j in members ==> j < |reqs| && BlockAddress(reqs[j].addr, segment) == b
    requires IsAccessFor(a, Send(b, Joined(reqs, dataSize, members)), isWrite)
    ensures (a.addr <= reqs[i].addr && reqs[i].addr + dataSize <= a.addr + a.size) <==> reqs[i].addr < ADDRESS_LIMIT
    ensures reqs[i].thread in a.active && ByteRange(Position(reqs[i].addr), dataSize) <= a.bytes
  {
    var addr, line := reqs[i].addr, b - b % 128;
    var info := Joined(reqs, dataSize, members);
    var c := Position(addr) / 32;
    assert c in info.chunks;
    BlockFacts(addr, segment);
    AlignedPositions(addr, dataSize);
    LineBelowLimit(b);
    assert IsBlockHolding(a.addr, a.size, line, info.chunks);
    ChunkBlockCovers(addr, dataSize, line, c, a.addr, a.size);
    forall x | x in ByteRange(Position(addr), dataSize)
      ensures x in a.bytes
    {
    }
  }

  lemma ChunkBlockCovers(addr: nat, dataSize: nat, line: nat, c: nat, start: nat, size: nat)
    requires IsSegmentSize(size) && start % size == 0 && start <= line + 32 * c && line + 32 * c + 32 <= start + size
    requires line % 128 == 0 && c == Position(addr) / 32 && Position(addr) % 32 + dataSize <= 32 && dataSize > 0
    requires addr < ADDRESS_LIMIT ==> line == addr - Position(addr)
    requires line + 128 <= ADDRESS_LIMIT
    ensures (start <= addr && addr + dataSize <= start + size) <==> addr < ADDRESS_LIMIT
  {
    AlignedBlockOfChunk(start, size, line, c);
    assert BlockOffset(size, c) + size <= 128;
    assert Position(addr) == 32 * c + Position(addr) % 32;
  }

  lemma LineBelowLimit(b: nat)
    ensures b < ADDRESS_LIMIT ==> b - b % 128 + 128 <= ADDRESS_LIMIT
    ensures (b - b % 128) % 128 == 0
  {
    var k := b / 128;
    assert b - b % 128 == 128 * k;
  }

  // ----- the lanes' requests

  lemma {:induction false} LaneRequestsAre(lane: nat, addrs: seq<nat>, n: nat)
    requires n <= |addrs|
    ensures |LaneRequests(lane, addrs, n)| == n
    ensures forall p :: 0 <= p < n ==> LaneRequests(lane, addrs, n)[p] == Request(lane, addrs[p])
  {
    if n > 0 {
      LaneRequestsAre(lane, addrs, n - 1);
    }
  }

  ghost predicate IsAddressOf(addrs: seq<nat>, n: nat, a: nat)
    requires n <= |addrs|
  {
    exists p :: 0 <= p < n && addrs[p] == a
  }

  /** Lanes lo to hi-1 that are active are requested at their addresses, and no others. */
  ghost predicate RequestsLanes(reqs: seq<Request>, active: set<nat>, addrs: seq<seq<nat>>, lo: nat, hi: nat, n: nat)
    requires hi <= |addrs| && forall t :: 0 <= t < |addrs| ==> n <= |addrs[t]|
  {
    && (forall t, p :: lo <= t < hi && t in active && 0 <= p < n ==> Request(t, addrs[t][p]) in reqs)
    && (forall r :: r in reqs ==> lo <= r.thread < hi && r.thread in active && IsAddressOf(addrs[r.thread], n, r.addr))
  }

  lemma OneLaneMore(before: seq<Request>, own: seq<Request>, active: set<nat>, addrs: seq<seq<nat>>, lo: nat, hi: nat,
                    n: nat)
    requires lo < hi <= |addrs| && forall t :: 0 <= t < |addrs| ==> n <= |addrs[t]|
    requires RequestsLanes(before, active, addrs, lo, hi - 1, n)
    requires |own| == n && forall p :: 0 <= p < n ==> own[p] == Request(hi - 1, addrs[hi - 1][p])
    ensures RequestsLanes(before + if hi - 1 in active then own else [], active, addrs, lo, hi, n)
  {
    var added := if hi - 1 in active then own else [];
    forall t, p | lo <= t < hi && t in active && 0 <= p < n
      ensures Request(t, addrs[t][p]) in before + added
    {
      if t == hi - 1 {
        assert own[p] in own;
      }
    }
    forall r | r in added
      ensures r.thread == hi - 1 && IsAddressOf(addrs[hi - 1], n, r.addr)
    {
      var p :| 0 <= p < n && own[p] == r;
    }
  }

  lemma {:induction false} RequestedLanes(active: set<nat>, addrs: seq<seq<nat>>, lo: nat, hi: nat, n: nat)
    requires hi <= |addrs| && forall t :: 0 <= t < |addrs| ==> n <= |addrs[t]|
    ensures RequestsLanes(RequestsOf(active, addrs, lo, hi, n), active, addrs, lo, hi, n)
    decreases hi
  {
    if lo < hi {
      RequestedLanes(active, addrs, lo, hi - 1, n);
      LaneRequestsAre(hi - 1, addrs[hi - 1], n);
      OneLaneMore(RequestsOf(active, addrs, lo, hi - 1, n), LaneRequests(hi - 1, addrs[hi - 1], n), active, addrs, lo,
                  hi, n);
    }
  }

  lemma RequestOfLane(active: set<nat>, addrs: seq<seq<nat>>, lo: nat, hi: nat, n: nat, t: nat, p: nat) returns (i: nat)
    requires hi <= |addrs| && forall t :: 0 <= t < |addrs| ==> n <= |addrs[t]|
    requires lo <= t < hi && t in active && p < n
    ensures var reqs := RequestsOf(active, addrs, lo, hi, n);
            i < |reqs| && reqs[i] == Request(t, addrs[t][p])
  {
    RequestedLanes(active, addrs, lo, hi, n);
    var reqs := RequestsOf(active, addrs, lo, hi, n);
    assert Request(t, addrs[t][p]) in reqs;
    i :| 0 <= i < |reqs| && reqs[i] == Request(t, addrs[t][p]);
  }

  ghost predicate LanesDiffer(reqs: seq<Request>)
  {
    forall i, j :: 0 <= i < j < |reqs| ==> reqs[i].thread != reqs[j].thread
  }

  lemma NewLaneDiffers(before: seq<Request>, r: Request)
    requires LanesDiffer(before) && forall q :: q in before ==> q.thread < r.thread
    ensures LanesDiffer(before + [r])
  {
    var reqs := before + [r];
    forall i, j | 0 <= i < j < |reqs|
      ensures reqs[i].thread != reqs[j].thread
    {
      assert reqs[i] in before;
    }
  }

  /** With one address for each lane no lane is requested twice. */
  lemma {:induction false} OneRequestForEachLane(active: set<nat>, addrs: seq<seq<nat>>, lo: nat, hi: nat)
    requires hi <= |addrs| && forall t :: 0 <= t < |addrs| ==> 1 <= |addrs[t]|
    ensures LanesDiffer(RequestsOf(active, addrs, lo, hi, 1))
    decreases hi
  {
    if lo < hi {
      OneRequestForEachLane(active, addrs, lo, hi - 1);
      RequestedLanes(active, addrs, lo, hi - 1, 1);
      LaneRequestsAre(hi - 1, addrs[hi - 1], 1);
      var before, r := RequestsOf(active, addrs, lo, hi - 1, 1), Request(hi - 1, addrs[hi - 1][0]);
      assert LaneRequests(hi - 1, addrs[hi - 1], 1) == [r];
      NewLaneDiffers(before, r);
      assert before + [] == before;
    }
  }

  // ----- how many accesses a lane gets

  /** How many of the accesses mark the lane. */
  ghost function LaneAccesses(accesses: seq<Access>, t: nat): nat
  {
    if accesses == [] then 0
    else
      var n := |accesses| - 1;
      LaneAccesses(accesses[..n], t) + if t in accesses[n].active then 1 else 0
  }

  ghost function LaneSends(sends: seq<Send>, t: nat): nat
  {
    if sends == [] then 0
    else
      var n := |sends| - 1;
      LaneSends(sends[..n], t) + if t in sends[n].info.active then 1 else 0
  }

  lemma {:induction false} HasAnAccess(accesses: seq<Access>, t: nat)
    ensures LaneAccesses(accesses, t) > 0 <==> exists i :: 0 <= i < |accesses| && t in accesses[i].active
  {
    if accesses != [] {
      var n := |accesses| - 1;
      HasAnAccess(accesses[..n], t);
      if i :| 0 <= i < |accesses| && t in accesses[i].active {
        assert i < n ==> t in accesses[..n][i].active;
      }
    }
  }

  lemma {:induction false} AccessesAsSent(accesses: seq<Access>, sends: seq<Send>, isWrite: bool, t: nat)
    requires AreAccessesFor(accesses, sends, isWrite)
    ensures LaneAccesses(accesses, t) == LaneSends(sends, t)
  {
    if sends != [] {
      var n := |sends| - 1;
      AccessesAsSent(accesses[..n], sends[..n], isWrite, t);
    }
  }

  lemma {:induction false} SendsAdd(a: seq<Send>, b: seq<Send>, t: nat)
    ensures LaneSends(a + b, t) == LaneSends(a, t) + LaneSends(b, t)
  {
    if b == [] {
      assert a + b == a;
    } else {
      assert (a + b)[..|a| + |b| - 1] == a + b[..|b| - 1];
      SendsAdd(a, b[..|b| - 1], t);
    }
  }

  lemma {:induction false} SendsOfList(b: nat, list: seq<Transaction>, t: nat, slots: set<nat>)
    requires forall k :: k in slots ==> k < |list|
    requires forall k :: 0 <= k < |list| ==> (t in list[k].active <==> k in slots)
    ensures LaneSends(SendsOf(b, list), t) == |slots|
  {
    if list == [] {
      assert slots == {};
    } else {
      var n := |list| - 1;
      assert SendsOf(b, list)[..n] == SendsOf(b, list[..n]);
      SendsOfList(b, list[..n], t, slots - {n});
      assert n in slots ==> |slots| == |slots - {n}| + 1;
      assert n !in slots ==> slots - {n} == slots;
    }
  }

  ghost predicate IsAscending(keys: seq<nat>)
  {
    forall i, j :: 0 <= i < j < |keys| ==> keys[i] < keys[j]
  }

  lemma AscendingWithFirst(b: nat, rest: seq<nat>)
    requires IsAscending(rest) && forall c :: c in rest ==> b < c
    ensures IsAscending([b] + rest)
  {
    var keys := [b] + rest;
    forall i, j | 0 <= i < j < |keys|
      ensures keys[i] < keys[j]
    {
      assert keys[j] == rest[j - 1] && rest[j - 1] in rest;
    }
  }

  lemma LeastIsBelow(s: set<nat>, rest: seq<nat>)
    requires s != {} && forall c :: c in rest <==> c in s - {Least(s)}
    ensures forall c :: c in rest ==> Least(s) < c
  {
    forall c | c in rest
      ensures Least(s) < c
    {
      assert c in s && c != Least(s);
    }
  }

  lemma {:induction false} AscendingIsSorted(s: set<nat>)
    ensures IsAscending(Ascending(s))
  {
    if s != {} {
      hide IsAscending, Least;
      var rest := Ascending(s - {Least(s)});
      AscendingIsSorted(s - {Least(s)});
      LeastIsBelow(s, rest);
      AscendingWithFirst(Least(s), rest);
    }
  }

  /** Segments of the lane, each sent once, when the segments are all different. */
  ghost function Among(keys: seq<nat>, segments: set<nat>): set<nat>
  {
    set b | b in segments && b in keys
  }

  lemma OneKeyMore(keys: seq<nat>, segments: set<nat>)
    requires keys != [] && IsAscending(keys)
    ensures var n := |keys| - 1;
            |Among(keys, segments)| == |Among(keys[..n], segments)| + if keys[n] in segments then 1 else 0
  {
    var n := |keys| - 1;
    var before := Among(keys[..n], segments);
    assert keys[n] !in before;
    assert Among(keys, segments) == before + if keys[n] in segments then {keys[n]} else {};
  }

  lemma {:induction false} AtomicSendsOfLane(trans: map<nat, seq<Transaction>>, keys: seq<nat>, t: nat,
                                             segments: set<nat>)
    requires IsAscending(keys) && forall b :: b in keys ==> b in trans
    requires forall b :: b in keys ==> LaneSends(SendsOf(b, trans[b]), t) == if b in segments then 1 else 0
    ensures LaneSends(AtomicSendsFor(trans, keys), t) == |Among(keys, segments)|
  {
    if keys != [] {
      var n := |keys| - 1;
      AtomicSendsOfLane(trans, keys[..n], t, segments);
      SendsAdd(AtomicSendsFor(trans, keys[..n]), SendsOf(keys[n], trans[keys[n]]), t);
      OneKeyMore(keys, segments);
    }
  }

  lemma {:induction false} PlainSendsOfLane(trans: map<nat, Transaction>, keys: seq<nat>, t: nat, segments: set<nat>)
    requires IsAscending(keys) && forall b :: b in keys ==> b in trans
    requires forall b :: b in keys ==> (t in trans[b].active <==> b in segments)
    ensures LaneSends(PlainSendsFor(trans, keys), t) == |Among(keys, segments)|
  {
    if keys != [] {
      var n := |keys| - 1;
      var before := PlainSendsFor(trans, keys[..n]);
      PlainSendsOfLane(trans, keys[..n], t, segments);
      assert (before + [Send(keys[n], trans[keys[n]])])[..|before|] == before;
      OneKeyMore(keys, segments);
    }
  }

  // ----- atomics

  /** Every active lane of the half is in exactly one transaction, the one of its slot. */
  lemma LaneInOneTransaction(w: WarpInst, lo: nat, hi: nat, t: nat) returns (block: nat, slot: nat)
    requires w.Valid() && !w.isLocal && lo <= t < hi <= w.warpSize && t in w.active
    ensures var trans := AtomicMap(w.Requests(lo, hi), w.dataSize);
            && block in trans && slot < |trans[block]|
            && forall b: nat, k: nat :: b in trans && 0 <= k < |trans[b]| ==>
                 (t in trans[b][k].active <==> b == block && k == slot)
  {
    var reqs, segment := w.Requests(lo, hi), SegmentSize(w.dataSize);
    var i := RequestOfLane(w.active, w.memreqaddr, lo, hi, 1, t, 0);
    OneRequestForEachLane(w.active, w.memreqaddr, lo, hi);
    hide LanesDiffer;
    block, slot := BlockAddress(reqs[i].addr, segment), Slot(reqs, segment, i);
    EachRequestHasOneSlot(reqs, segment, i);
    var trans: map<nat, seq<Transaction>> := AtomicMap(reqs, w.dataSize);
    forall b: nat, k: nat | b in trans && 0 <= k < |trans[b]|
      ensures t in trans[b][k].active <==> b == block && k == slot
    {
      SlotOfLane(reqs, w.dataSize, t, i, b, k);
    }
  }

  lemma SlotOfLane(reqs: seq<Request>, dataSize: nat, t: nat, i: nat, b: nat, k: nat)
    requires IsDataSize(dataSize) && i < |reqs| && reqs[i].thread == t
    requires LanesDiffer(reqs)
    ensures var segment := SegmentSize(dataSize);
            t in Joined(reqs, dataSize, InSlot(reqs, segment, b, k)).active
            <==> b == BlockAddress(reqs[i].addr, segment) && k == Slot(reqs, segment, i)
  {
    var members := InSlot(reqs, SegmentSize(dataSize), b, k);
    if t in Joined(reqs, dataSize, members).active {
      var j :| j in members && j < |reqs| && reqs[j].thread == t;
      assert j == i;
    }
    if i in members {
      assert reqs[i].thread in Joined(reqs, dataSize, members).active;
    }
  }

  lemma {:induction false} EverySlotIsSent(trans: map<nat, seq<Transaction>>, keys: seq<nat>, b: nat, k: nat)
    returns (i: nat)
    requires forall c :: c in keys ==> c in trans
    requires b in keys && k < |trans[b]|
    ensures i < |AtomicSendsFor(trans, keys)| && AtomicSendsFor(trans, keys)[i] == Send(b, trans[b][k])
  {
    var n := |keys| - 1;
    if b == keys[n] {
      i := |AtomicSendsFor(trans, keys[..n])| + k;
    } else {
      i := EverySlotIsSent(trans, keys[..n], b, k);
    }
  }

  lemma SendsOfNextPart(w: WarpInst, n: nat, size: nat, e: Send)
    requires w.Valid() && n > 0 && Base(n, size) <= w.warpSize
    requires e in w.AtomicSendsUpTo(n - 1, size) || e in w.AtomicSendsOfPart(Base(n - 1, size), Base(n, size))
    ensures e in w.AtomicSendsUpTo(n, size)
  {
  }

  lemma {:induction false} SentByPart(w: WarpInst, n: nat, size: nat, part: nat, e: Send)
    requires w.Valid() && part < n && Base(n, size) <= w.warpSize && Base(part + 1, size) <= w.warpSize
    requires e in w.AtomicSendsOfPart(Base(part, size), Base(part + 1, size))
    ensures e in w.AtomicSendsUpTo(n, size)
    decreases n
  {
    hide WarpInst.AtomicSendsOfPart, WarpInst.AtomicSendsUpTo;
    if part < n - 1 {
      SentByPart(w, n - 1, size, part, e);
    }
    SendsOfNextPart(w, n, size, e);
  }

  lemma NoRequestNoSlot(reqs: seq<Request>, dataSize: nat, t: nat, members: set<nat>)
    requires forall r :: r in reqs ==> r.thread != t
    ensures t !in Joined(reqs, dataSize, members).active
  {
  }

  lemma AtomicSegmentServes(trans: map<nat, seq<Transaction>>, b: nat, t: nat, block: nat, slot: nat)
    requires b in trans && block in trans && slot < |trans[block]|
    requires forall c: nat, k: nat :: c in trans && 0 <= k < |trans[c]| ==>
               (t in trans[c][k].active <==> c == block && k == slot)
    ensures LaneSends(SendsOf(b, trans[b]), t) == if b in {block} then 1 else 0
  {
    hide LaneSends, SendsOf;
    SendsOfList(b, trans[b], t, if b == block then {slot} else {});
  }

  lemma AtomicSegmentIsIdle(reqs: seq<Request>, dataSize: nat, b: nat, t: nat)
    requires IsDataSize(dataSize) && b in AtomicMap(reqs, dataSize) && forall r :: r in reqs ==> r.thread != t
    ensures LaneSends(SendsOf(b, AtomicMap(reqs, dataSize)[b]), t) == 0
  {
    hide LaneSends, SendsOf, Joined, InSlot, Depth;
    var list := AtomicMap(reqs, dataSize)[b];
    forall k | 0 <= k < |list|
      ensures t !in list[k].active
    {
      NoRequestNoSlot(reqs, dataSize, t, InSlot(reqs, SegmentSize(dataSize), b, k));
    }
    SendsOfList(b, list, t, {});
  }

  lemma NotRequested(active: set<nat>, addrs: seq<seq<nat>>, lo: nat, hi: nat, n: nat, t: nat)
    requires hi <= |addrs| && forall t :: 0 <= t < |addrs| ==> n <= |addrs[t]|
    requires !(lo <= t < hi && t in active)
    ensures forall r :: r in RequestsOf(active, addrs, lo, hi, n) ==> r.thread != t
  {
    hide RequestsOf;
    RequestedLanes(active, addrs, lo, hi, n);
  }

  /** One half of the warp sends one access for each of its active lanes, and none for others. */
  lemma AtomicPartServes(w: WarpInst, lo: nat, hi: nat, t: nat)
    requires w.Valid() && !w.isLocal && hi <= w.warpSize
    ensures LaneSends(w.AtomicSendsOfPart(lo, hi), t) == if lo <= t < hi && t in w.active then 1 else 0
  {
    hide IsAscending, LaneSends, SendsOf, AtomicMap, RequestsOf, WarpInst.Valid, AtomicSendsFor;
    LanesHaveAddresses(w);
    var reqs := w.Requests(lo, hi);
    var trans: map<nat, seq<Transaction>> := AtomicMap(reqs, w.dataSize);
    var keys := Ascending(trans.Keys);
    AscendingIsSorted(trans.Keys);
    if lo <= t < hi && t in w.active {
      var block, slot := LaneInOneTransaction(w, lo, hi, t);
      forall b | b in trans
        ensures LaneSends(SendsOf(b, trans[b]), t) == if b in {block} then 1 else 0
      {
        AtomicSegmentServes(trans, b, t, block, slot);
      }
      AtomicSendsOfLane(trans, keys, t, {block});
      assert Among(keys, {block}) == {block};
    } else {
      NotRequested(w.active, w.memreqaddr, lo, hi, w.Pieces(), t);
      forall b | b in trans
        ensures LaneSends(SendsOf(b, trans[b]), t) == if b in {} then 1 else 0
      {
        AtomicSegmentIsIdle(reqs, w.dataSize, b, t);
      }
      AtomicSendsOfLane(trans, keys, t, {});
      assert Among(keys, {}) == {};
    }
  }

  lemma LanesHaveAddresses(w: WarpInst)
    requires w.Valid()
    ensures IsDataSize(w.dataSize) && |w.memreqaddr| == w.warpSize
    ensures forall t :: 0 <= t < |w.memreqaddr| ==> w.Pieces() <= |w.memreqaddr[t]|
  {
  }

  lemma {:induction false} AtomicPartsServe(w: WarpInst, n: nat, size: nat, t: nat)
    requires w.Valid() && !w.isLocal && Base(n, size) <= w.warpSize
    ensures LaneSends(w.AtomicSendsUpTo(n, size), t) == if t < Base(n, size) && t in w.active then 1 else 0
  {
    hide WarpInst.AtomicSendsOfPart;
    if n > 0 {
      AtomicPartsServe(w, n - 1, size, t);
      AtomicPartServes(w, Base(n - 1, size), Base(n, size), t);
      SendsAdd(w.AtomicSendsUpTo(n - 1, size), w.AtomicSendsOfPart(Base(n - 1, size), Base(n, size)), t);
    }
  }

  /** An atomic instruction queues exactly one access for each active lane of the two halves.  An
      odd warp has one lane beyond them, and that lane gets none. */
  lemma AtomicLanesServed(w: WarpInst, accesses: seq<Access>, t: nat)
    requires w.Valid() && !w.isLocal && t in w.active && t < w.warpSize
    requires AreAccessesFor(accesses, w.AtomicSendsOfWarp(), w.isWrite)
    ensures LaneAccesses(accesses, t) == if t == w.warpSize - 1 && w.warpSize % 2 == 1 then 0 else 1
  {
    var size := w.warpSize / 2;
    AccessesAsSent(accesses, w.AtomicSendsOfWarp(), w.isWrite, t);
    PartsFit(w.warpSize, 2, 2);
    AtomicPartsServe(w, 2, size, t);
    assert Base(0, size) == 0 && Base(1, size) == size && Base(2, size) == size + size;
  }

  /** After an atomic instruction every active lane of the two halves has an access in the queue
      that marks its bytes, and covers them when the lane's address fits in 32 bits. */
  lemma AtomicLaneIsServed(w: WarpInst, accesses: seq<Access>, t: nat) returns (i: nat)
    requires w.Valid() && !w.isLocal && t in w.active && t < w.warpSize / 2 * 2
    requires AreAccessesFor(accesses, w.AtomicSendsOfWarp(), w.isWrite)
    ensures i < |accesses| && t in accesses[i].active
    ensures ByteRange(Position(w.memreqaddr[t][0]), w.dataSize) <= accesses[i].bytes
    ensures accesses[i].addr <= w.memreqaddr[t][0]
            && w.memreqaddr[t][0] + w.dataSize <= accesses[i].addr + accesses[i].size
            <==> w.memreqaddr[t][0] < ADDRESS_LIMIT
  {
    hide WarpInst.AtomicSendsOfPart, RequestsOf, Aligned, Joined, Slot, BlockAddress, IsAccessFor;
    var size := w.warpSize / 2;
    assert Base(0, size) == 0 && Base(1, size) == size && Base(2, size) == size + size;
    var part := if t < size then 0 else 1;
    var lo, hi := Base(part, size), Base(part + 1, size);
    var r, e := LaneSlotIsSent(w, lo, hi, t);
    SentByPart(w, 2, size, part, e);
    i :| 0 <= i < |w.AtomicSendsOfWarp()| && w.AtomicSendsOfWarp()[i] == e;
    AccessAt(accesses, w.AtomicSendsOfWarp(), w.isWrite, i);
    RequestsAreAligned(w, lo, hi);
    AccessCoversRequest(w.Requests(lo, hi), w.dataSize, SegmentSize(w.dataSize), e.block,
                        InSlot(w.Requests(lo, hi), SegmentSize(w.dataSize), e.block,
                               Slot(w.Requests(lo, hi), SegmentSize(w.dataSize), r)),
                        accesses[i], w.isWrite, r);
  }

  lemma LaneSlotIsSent(w: WarpInst, lo: nat, hi: nat, t: nat) returns (r: nat, e: Send)
    requires w.Valid() && !w.isLocal && lo <= t < hi <= w.warpSize && t in w.active
    ensures var reqs, segment := w.Requests(lo, hi), SegmentSize(w.dataSize);
            && r < |reqs| && reqs[r] == Request(t, w.memreqaddr[t][0])
            && e.block == BlockAddress(reqs[r].addr, segment)
            && e.info == Joined(reqs, w.dataSize, InSlot(reqs, segment, e.block, Slot(reqs, segment, r)))
            && e in w.AtomicSendsOfPart(lo, hi)
  {
    var reqs, segment := w.Requests(lo, hi), SegmentSize(w.dataSize);
    r := RequestOfLane(w.active, w.memreqaddr, lo, hi, 1, t, 0);
    var b, k := BlockAddress(reqs[r].addr, segment), Slot(reqs, segment, r);
    EachRequestHasOneSlot(reqs, segment, r);
    var trans := AtomicMap(reqs, w.dataSize);
    var s := EverySlotIsSent(trans, Ascending(trans.Keys), b, k);
    e := AtomicSends(trans)[s];
  }

  lemma {:induction false} RequestsAreAligned(w: WarpInst, lo: nat, hi: nat)
    requires w.Valid() && hi <= w.warpSize
    ensures Aligned(w.Requests(lo, hi), w.PieceSize())
    decreases hi
  {
    if lo < hi {
      RequestsAreAligned(w, lo, hi - 1);
      LaneRequestsAligned(hi - 1, w.memreqaddr[hi - 1], w.Pieces(), w.PieceSize());
    }
  }

  // ----- plain accesses

  lemma {:induction false} EveryBlockIsSent(trans: map<nat, Transaction>, keys: seq<nat>, b: nat) returns (i: nat)
    requires (forall c :: c in keys ==> c in trans) && b in keys
    ensures i < |PlainSendsFor(trans, keys)| && PlainSendsFor(trans, keys)[i] == Send(b, trans[b])
  {
    var n := |keys| - 1;
    if b == keys[n] {
      i := |PlainSendsFor(trans, keys[..n])|;
    } else {
      i := EveryBlockIsSent(trans, keys[..n], b);
    }
  }

  lemma {:induction false} PlainSentByPart(w: WarpInst, n: nat, size: nat, part: nat, e: Send) returns (i: nat)
    requires w.Valid() && part < n && Base(n, size) <= w.warpSize && Base(part + 1, size) <= w.warpSize
    requires e in w.PlainSendsOfPart(Base(part, size), Base(part + 1, size))
    ensures i < |w.PlainSendsUpTo(n, size)| && w.PlainSendsUpTo(n, size)[i] == e
    decreases n
  {
    hide WarpInst.PlainSendsOfPart;
    var before := w.PlainSendsUpTo(n - 1, size);
    var own := w.PlainSendsOfPart(Base(n - 1, size), Base(n, size));
    assert w.PlainSendsUpTo(n, size) == before + own;
    if part == n - 1 {
      var s :| 0 <= s < |own| && own[s] == e;
      i := |before| + s;
    } else {
      i := PlainSentByPart(w, n - 1, size, part, e);
    }
  }

  /** A part of the warp sends one access for each segment it touches. */
  lemma OneSendForEachSegment(trans: map<nat, Transaction>)
    ensures |PlainSends(trans)| == |trans.Keys|
    ensures forall b :: b in trans ==> Send(b, trans[b]) in PlainSends(trans)
  {
    AscendingLength(trans.Keys);
    PlainSendsLength(trans, Ascending(trans.Keys));
    forall b | b in trans
      ensures Send(b, trans[b]) in PlainSends(trans)
    {
      var i := EveryBlockIsSent(trans, Ascending(trans.Keys), b);
    }
  }

  lemma {:induction false} PlainSendsLength(trans: map<nat, Transaction>, keys: seq<nat>)
    requires forall c :: c in keys ==> c in trans
    ensures |PlainSendsFor(trans, keys)| == |keys|
  {
    if keys != [] {
      PlainSendsLength(trans, keys[..|keys| - 1]);
    }
  }

  lemma {:induction false} AscendingLength(s: set<nat>)
    ensures |Ascending(s)| == |s|
  {
    if s != {} {
      hide Least;
      AscendingLength(s - {Least(s)});
    }
  }

  /** After a plain instruction every address of every active lane in the parts has an access in
      the queue that marks its bytes, and covers them when the address fits in 32 bits. */
  lemma PlainLaneIsServed(w: WarpInst, parts: nat, accesses: seq<Access>, t: nat, p: nat) returns (i: nat)
    requires w.Valid() && parts > 0 && t in w.active && p < w.Pieces()
    requires t < parts * (w.warpSize / parts)
    requires AreAccessesFor(accesses, w.PlainSendsOfWarp(parts), w.isWrite)
    ensures i < |accesses| && t in accesses[i].active
    ensures ByteRange(Position(w.memreqaddr[t][p]), w.PieceSize()) <= accesses[i].bytes
    ensures accesses[i].addr <= w.memreqaddr[t][p]
            && w.memreqaddr[t][p] + w.PieceSize() <= accesses[i].addr + accesses[i].size
            <==> w.memreqaddr[t][p] < ADDRESS_LIMIT
  {
    var size := w.warpSize / parts;
    BaseIsProduct(parts, size);
    PartsFit(w.warpSize, parts, parts);
    var part := PartOf(t, parts, size);
    PartsFit(w.warpSize, parts, part + 1);
    var lo, hi := Base(part, size), Base(part + 1, size);
    var r, e := LaneBlockIsSent(w, lo, hi, t, p);
    i := PlainSentByPart(w, parts, size, part, e);
    AccessAt(accesses, w.PlainSendsOfWarp(parts), w.isWrite, i);
    RequestsAreAligned(w, lo, hi);
    AccessCoversRequest(w.Requests(lo, hi), w.PieceSize(), SegmentSize(w.dataSize), e.block,
                        InBlock(w.Requests(lo, hi), SegmentSize(w.dataSize), e.block), accesses[i], w.isWrite, r);
  }

  lemma LaneBlockIsSent(w: WarpInst, lo: nat, hi: nat, t: nat, p: nat) returns (r: nat, e: Send)
    requires w.Valid() && lo <= t < hi <= w.warpSize && t in w.active && p < w.Pieces()
    ensures var reqs, segment := w.Requests(lo, hi), SegmentSize(w.dataSize);
            && r < |reqs| && reqs[r] == Request(t, w.memreqaddr[t][p])
            && e.block == BlockAddress(reqs[r].addr, segment) && r in InBlock(reqs, segment, e.block)
            && e.info == Joined(reqs, w.PieceSize(), InBlock(reqs, segment, e.block))
            && e in w.PlainSendsOfPart(lo, hi)
  {
    var reqs, segment := w.Requests(lo, hi), SegmentSize(w.dataSize);
    r := RequestOfLane(w.active, w.memreqaddr, lo, hi, w.Pieces(), t, p);
    var b := BlockAddress(reqs[r].addr, segment);
    var trans := PlainMap(reqs, w.PieceSize(), segment);
    var s := EveryBlockIsSent(trans, Ascending(trans.Keys), b);
    e := PlainSends(trans)[s];
  }

  lemma {:induction false} PartOf(t: nat, parts: nat, size: nat) returns (part: nat)
    requires t < Base(parts, size)
    ensures part < parts && Base(part, size) <= t < Base(part + 1, size)
  {
    if Base(parts - 1, size) <= t {
      part := parts - 1;
    } else {
      part := PartOf(t, parts - 1, size);
    }
  }

  /** The segments that the lane's addresses lie in. */
  ghost function SegmentsOfLane(w: WarpInst, t: nat): set<nat>
    requires w.Valid() && t < w.warpSize
  {
    set p | 0 <= p < w.Pieces() :: BlockAddress(w.memreqaddr[t][p], SegmentSize(w.dataSize))
  }

  lemma AddressIsInMap(reqs: seq<Request>, dataSize: nat, segment: nat, i: nat)
    requires IsSegmentSize(segment) && i < |reqs|
    ensures var b := BlockAddress(reqs[i].addr, segment);
            b in PlainMap(reqs, dataSize, segment) && reqs[i].thread in PlainMap(reqs, dataSize, segment)[b].active
  {
    hide BlockAddress;
    assert i in InBlock(reqs, segment, BlockAddress(reqs[i].addr, segment));
  }

  lemma MapHoldsAddress(reqs: seq<Request>, dataSize: nat, segment: nat, b: nat, t: nat) returns (i: nat)
    requires IsSegmentSize(segment) && b in PlainMap(reqs, dataSize, segment)
             && t in PlainMap(reqs, dataSize, segment)[b].active
    ensures i < |reqs| && reqs[i].thread == t && BlockAddress(reqs[i].addr, segment) == b
  {
    hide BlockAddress;
    i :| i in InBlock(reqs, segment, b) && i < |reqs| && reqs[i].thread == t;
  }

  lemma SegmentsInMap(w: WarpInst, lo: nat, hi: nat, t: nat)
    requires w.Valid() && lo <= t < hi <= w.warpSize && t in w.active
    ensures var trans := PlainMap(w.Requests(lo, hi), w.PieceSize(), SegmentSize(w.dataSize));
            && SegmentsOfLane(w, t) <= trans.Keys
            && forall b :: b in trans ==> (t in trans[b].active <==> b in SegmentsOfLane(w, t))
  {
    hide RequestsOf, PlainMap, BlockAddress, WarpInst.Valid;
    var reqs, segment, n := w.Requests(lo, hi), SegmentSize(w.dataSize), w.Pieces();
    var trans: map<nat, Transaction> := PlainMap(reqs, w.PieceSize(), segment);
    LanesHaveAddresses(w);
    RequestedLanes(w.active, w.memreqaddr, lo, hi, n);
    forall p | 0 <= p < n
      ensures var b := BlockAddress(w.memreqaddr[t][p], segment); b in trans && t in trans[b].active
    {
      var i := RequestOfLane(w.active, w.memreqaddr, lo, hi, n, t, p);
      AddressIsInMap(reqs, w.PieceSize(), segment, i);
    }
    forall b | b in trans && t in trans[b].active
      ensures b in SegmentsOfLane(w, t)
    {
      var i := MapHoldsAddress(reqs, w.PieceSize(), segment, b, t);
      assert reqs[i] in reqs;
      var p :| 0 <= p < n && w.memreqaddr[t][p] == reqs[i].addr;
    }
  }

  lemma PlainPartServes(w: WarpInst, lo: nat, hi: nat, t: nat)
    requires w.Valid() && hi <= w.warpSize
    ensures LaneSends(w.PlainSendsOfPart(lo, hi), t) == if lo <= t < hi && t in w.active then |SegmentsOfLane(w, t)|
            else 0
  {
    hide IsAscending, SegmentsOfLane;
    var reqs := w.Requests(lo, hi);
    var trans: map<nat, Transaction> := PlainMap(reqs, w.PieceSize(), SegmentSize(w.dataSize));
    AscendingIsSorted(trans.Keys);
    var segments: set<nat> := {};
    if lo <= t < hi && t in w.active {
      segments := SegmentsOfLane(w, t);
      SegmentsInMap(w, lo, hi, t);
    } else {
      RequestedLanes(w.active, w.memreqaddr, lo, hi, w.Pieces());
      forall b | b in trans
        ensures t !in trans[b].active
      {
        NoRequestNoSlot(reqs, w.PieceSize(), t, InBlock(reqs, SegmentSize(w.dataSize), b));
      }
    }
    assert Among(Ascending(trans.Keys), segments) == segments;
    PlainSendsOfLane(trans, Ascending(trans.Keys), t, segments);
  }

  lemma {:induction false} PlainPartsServe(w: WarpInst, n: nat, size: nat, t: nat)
    requires w.Valid() && Base(n, size) <= w.warpSize
    ensures LaneSends(w.PlainSendsUpTo(n, size), t)
         == if t < Base(n, size) && t in w.active then |SegmentsOfLane(w, t)| else 0
  {
    hide WarpInst.PlainSendsOfPart, SegmentsOfLane;
    if n > 0 {
      PlainPartsServe(w, n - 1, size, t);
      PlainPartServes(w, Base(n - 1, size), Base(n, size), t);
      SendsAdd(w.PlainSendsUpTo(n - 1, size), w.PlainSendsOfPart(Base(n - 1, size), Base(n, size)), t);
    }
  }

  /** A plain instruction queues for an active lane one access for each segment the lane touches
      when the lane is in one of the equal parts of the warp, and otherwise none: exactly the lanes
      from parts * (warpSize / parts) on are left out. */
  lemma PlainLanesServed(w: WarpInst, parts: nat, accesses: seq<Access>, t: nat)
    requires w.Valid() && parts > 0 && t in w.active && t < w.warpSize
    requires AreAccessesFor(accesses, w.PlainSendsOfWarp(parts), w.isWrite)
    ensures LaneAccesses(accesses, t) == if t < parts * (w.warpSize / parts) then |SegmentsOfLane(w, t)| else 0
    ensures (exists i :: 0 <= i < |accesses| && t in accesses[i].active) <==> t < parts * (w.warpSize / parts)
  {
    var size := w.warpSize / parts;
    AccessesAsSent(accesses, w.PlainSendsOfWarp(parts), w.isWrite, t);
    HasAnAccess(accesses, t);
    BaseIsProduct(parts, size);
    PartsFit(w.warpSize, parts, parts);
    PlainPartsServe(w, parts, size, t);
    assert BlockAddress(w.memreqaddr[t][0], SegmentSize(w.dataSize)) in SegmentsOfLane(w, t);
  }

  /** A warp of 32 lanes in three parts: the load of lane 31, the only active one, is never sent. */
  method LastLaneIsSkipped() returns (served: bool)
    ensures !served
  {
    var w := new WarpInst(32, false, 4, false, {31}, seq(32, _ => [0]));
    w.MemoryCoalescing(3);
    PlainLanesServed(w, 3, w.accessq, 31);
    served := exists i :: 0 <= i < |w.accessq| && 31 in w.accessq[i].active;
  }

  /** An access just above the 32-bit range gets a block at the bottom of it. */
  lemma HighAddressIsLost()
    ensures BlockAddress(ADDRESS_LIMIT, 128) == 0
  {
    assert ADDRESS_LIMIT % 128 == 0;
  }
}
