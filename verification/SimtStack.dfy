/** The SIMT reconvergence stack of one warp: launch and update for instructions that are neither
    calls nor returns.  Lanes are numbered from 0; a mask is a set of lanes. */
module SimtStack {
  import opened Ordering

  const NULL_PC: int := -1

  datatype Entry = Entry(pc: int, mask: set<nat>, recvg: int)

  /** A group of lanes of one warp that go on to the same pc. */
  datatype Path = Path(pc: int, mask: set<nat>)

  // ----- what an update does

  ghost function NextPcs(live: set<nat>, nextPc: seq<int>): set<int>
  {
    set t | t in live && t < |nextPc| :: nextPc[t]
  }

  ghost function LanesTo(live: set<nat>, nextPc: seq<int>, pc: int): set<nat>
  {
    set t | t in live && t < |nextPc| && nextPc[t] == pc
  }

  ghost function Paths(live: set<nat>, nextPc: seq<int>): map<int, set<nat>>
  {
    map p | p in NextPcs(live, nextPc) :: LanesTo(live, nextPc, p)
  }

  function Without(paths: map<int, set<nat>>, p: int): (rest: map<int, set<nat>>)
    requires p in paths
    ensures |rest| == |paths| - 1 && rest.Keys == paths.Keys - {p}
    ensures forall q :: q in rest ==> rest[q] == paths[q]
  {
    var rest := map q | q in paths && q != p :: paths[q];
    assert rest.Keys == paths.Keys - {p};
    assert |rest| == |rest.Keys| && |paths| == |paths.Keys|;
    rest
  }

  ghost function Front(paths: map<int, set<nat>>, notTaken: int): (p: int)
    requires paths != map[]
    ensures p in paths && (notTaken in paths ==> p == notTaken)
    ensures notTaken !in paths ==> forall q :: q in paths ==> p <= q
  {
    if notTaken in paths then notTaken else Least(paths.Keys)
  }

  /** The fall-through path first, then by ascending pc. */
  ghost function Ordered(paths: map<int, set<nat>>, notTaken: int): (order: seq<Path>)
    ensures |order| == |paths|
    decreases |paths|
  {
    if paths == map[] then [] else
    var p := Front(paths, notTaken);
    [Path(p, paths[p])] + Ordered(Without(paths, p), notTaken)
  }

  ghost function Away(order: seq<Path>, pc: int): seq<Path>
  {
    if order == [] then []
    else Away(order[..|order| - 1], pc) + if order[|order| - 1].pc == pc then [] else [order[|order| - 1]]
  }

  ghost function Entries(order: seq<Path>, recvg: int): seq<Entry>
  {
    seq(|order|, i requires 0 <= i < |order| => Entry(order[i].pc, order[i].mask, recvg))
  }

  /** What replaces the top entry once the paths in order are placed: paths that have arrived at
      the entry's own reconvergence pc vanish; a warp that splits elsewhere leaves an entry that
      waits at the new reconvergence pc for the paths above it. */
  ghost function Replacement(top: Entry, order: seq<Path>, split: bool, recvgPc: int): seq<Entry>
  {
    var kept := Away(order, top.recvg);
    if kept == [] then []
    else if !split || recvgPc == top.recvg then Entries(kept, top.recvg)
    else [Entry(recvgPc, top.mask, top.recvg)] + Entries(Away(kept, recvgPc), recvgPc)
  }

  lemma AwayOneMore(order: seq<Path>, x: Path, pc: int)
    ensures Away(order + [x], pc) == if x.pc == pc then Away(order, pc) else Away(order, pc) + [x]
  {
    assert (order + [x])[..|order|] == order;
  }

  lemma EntriesOneMore(order: seq<Path>, x: Path, recvg: int)
    ensures Entries(order + [x], recvg) == Entries(order, recvg) + [Entry(x.pc, x.mask, recvg)]
  {
  }

  /** One round of placing: first says that no path has been kept before. */
  ghost function PlaceOne(top: Entry, now: seq<Entry>, first: bool, x: Path, split: bool, recvgPc: int): seq<Entry>
  {
    if x.pc == top.recvg then now
    else if !split || recvgPc == top.recvg then now + [Entry(x.pc, x.mask, top.recvg)]
    else var waiting := if first then [Entry(recvgPc, top.mask, top.recvg)] else now;
         if x.pc == recvgPc then waiting else waiting + [Entry(x.pc, x.mask, recvgPc)]
  }

  ghost function Place(top: Entry, now: seq<Entry>, first: bool, order: seq<Path>, split: bool, recvgPc: int)
    : seq<Entry>
    decreases |order|
  {
    if order == [] then now
    else Place(top, PlaceOne(top, now, first, order[0], split, recvgPc),
               first && order[0].pc == top.recvg, order[1..], split, recvgPc)
  }

  lemma NothingAway(pc: int)
    ensures Away([], pc) == [] && Entries([], pc) == []
  {
  }

  lemma PlacingOneMore(top: Entry, placed: seq<Path>, x: Path, split: bool, recvgPc: int)
    ensures Away(placed + [x], top.recvg) == [] <==> Away(placed, top.recvg) == [] && x.pc == top.recvg
    ensures Replacement(top, placed + [x], split, recvgPc)
         == PlaceOne(top, Replacement(top, placed, split, recvgPc), Away(placed, top.recvg) == [], x, split, recvgPc)
  {
    hide Away, Entries;
    var kept := Away(placed, top.recvg);
    AwayOneMore(placed, x, top.recvg);
    NothingAway(recvgPc);
    NothingAway(top.recvg);
    if x.pc != top.recvg {
      if !split || recvgPc == top.recvg {
        EntriesOneMore(kept, x, top.recvg);
      } else {
        AwayOneMore(kept, x, recvgPc);
        if x.pc != recvgPc {
          EntriesOneMore(Away(kept, recvgPc), x, recvgPc);
        }
      }
    }
  }

  lemma {:induction false} PlacingInOrder(top: Entry, placed: seq<Path>, order: seq<Path>, split: bool, recvgPc: int,
                                          now: seq<Entry>, first: bool)
    requires now == Replacement(top, placed, split, recvgPc) && first == (Away(placed, top.recvg) == [])
    ensures Place(top, now, first, order, split, recvgPc) == Replacement(top, placed + order, split, recvgPc)
    decreases |order|
  {
    hide Away, Entries, Replacement, PlaceOne;
    if order == [] {
      assert placed + order == placed;
    } else {
      var x := order[0];
      PlacingOneMore(top, placed, x, split, recvgPc);
      PlacingInOrder(top, placed + [x], order[1..], split, recvgPc,
                     PlaceOne(top, now, first, x, split, recvgPc), first && x.pc == top.recvg);
      assert placed + [x] + order[1..] == placed + order;
    }
  }

  lemma PlacedInOrder(top: Entry, order: seq<Path>, split: bool, recvgPc: int)
    ensures Place(top, [], true, order, split, recvgPc) == Replacement(top, order, split, recvgPc)
  {
    PlacingInOrder(top, [], order, split, recvgPc, [], true);
    assert [] + order == order;
  }

  ghost function Rewritten(stack: seq<Entry>, order: seq<Path>, recvgPc: int): seq<Entry>
    requires |stack| > 0
  {
    stack[..|stack| - 1] + Replacement(stack[|stack| - 1], order, |order| > 1, recvgPc)
  }

  ghost function Updated(stack: seq<Entry>, done: set<nat>, nextPc: seq<int>, recvgPc: int, notTaken: int): seq<Entry>
    requires |stack| > 0
  {
    Rewritten(stack, Ordered(Paths(stack[|stack| - 1].mask - done, nextPc), notTaken), recvgPc)
  }

  class WarpStack {
    const warpSize: nat
    var stack: seq<Entry>

    constructor (size: nat)
      ensures warpSize == size && stack == []
    {
      warpSize, stack := size, [];
    }

    method Launch(startPc: int, activeMask: set<nat>)
      modifies this
      ensures stack == [Entry(startPc, activeMask, NULL_PC)]
    {
      stack := [];
      stack := stack + [Entry(startPc, activeMask, NULL_PC)];
    }

    /** The lanes of the mask that are not done, grouped by next pc.  Each round takes the
        highest lane left and gathers its group. */
    method DivergentPaths(mask: set<nat>, threadDone: set<nat>, nextPc: seq<int>) returns (paths: map<int, set<nat>>)
      requires |nextPc| == warpSize && forall t :: t in mask ==> t < warpSize
      requires forall t :: t in mask - threadDone ==> nextPc[t] != NULL_PC
      ensures paths == Paths(mask - threadDone, nextPc)
    {
      var active := mask;
      paths := map[];
      ghost var all := Paths(mask - threadDone, nextPc);
      while active != {}
        invariant active <= mask
        invariant forall t :: t in mask - threadDone ==> (t in active <==> nextPc[t] !in paths)
        invariant forall p :: p in paths ==> p in all && paths[p] == all[p]
        decreases active
      {
        ghost var before := active;
        var tmpNextPc := NULL_PC;
        var tmpMask: set<nat> := {};
        for i := warpSize downto 0
          invariant active <= before
          invariant forall t :: t in active <==> t in before && (t < i || (t !in threadDone && nextPc[t] != tmpNextPc))
          invariant forall t :: t in tmpMask <==> t in before && i <= t && t !in threadDone && nextPc[t] == tmpNextPc
          invariant tmpNextPc == NULL_PC <==> tmpMask == {}
          invariant tmpNextPc == NULL_PC ==> forall t :: t in before && i <= t ==> t in threadDone
        {
          if i in active {
            if i in threadDone {
              active := active - {i};
            } else if tmpNextPc == NULL_PC {
              tmpNextPc := nextPc[i];
              tmpMask := tmpMask + {i};
              active := active - {i};
            } else if tmpNextPc == nextPc[i] {
              tmpMask := tmpMask + {i};
              active := active - {i};
            }
          }
        }
        if tmpNextPc == NULL_PC {
          assert forall t :: t in before ==> t in threadDone;
          assert active == {};
        } else {
          assert exists t :: t in tmpMask;
          assert tmpMask == LanesTo(mask - threadDone, nextPc, tmpNextPc);
          paths := paths[tmpNextPc := tmpMask];
        }
      }
      forall p | p in all
        ensures p in paths
      {
        var t :| t in mask - threadDone && nextPc[t] == p;
      }
      assert forall p :: p in paths.Keys <==> p in all.Keys;
      assert paths.Keys == all.Keys;
    }

    /** One executed instruction of the top entry. */
    method Update(threadDone: set<nat>, nextPc: seq<int>, recvgPc: int, instSize: nat, instPc: int)
      requires |stack| > 0 && |nextPc| == warpSize
      requires Top().pc == instPc && Top().mask != {}
      requires forall t :: t in Top().mask ==> t < warpSize
      requires forall t :: t in Top().mask - threadDone ==> nextPc[t] != NULL_PC
      requires |Paths(Top().mask - threadDone, nextPc)| <= 2
      modifies this
      ensures stack == Updated(old(stack), threadDone, nextPc, recvgPc, instPc + instSize)
    {
      hide Paths, Ordered, Rewritten;
      var topMask := stack[|stack| - 1].mask;
      var topRecvg := stack[|stack| - 1].recvg;
      var paths := DivergentPaths(topMask, threadDone, nextPc);
      PlaceAll(paths, instPc + instSize, topRecvg, recvgPc);
      stack := stack[..|stack| - 1];
    }

    method PlaceAll(divergentPaths: map<int, set<nat>>, notTaken: int, topRecvg: int, recvgPc: int)
      requires |stack| > 0 && topRecvg == Top().recvg
      modifies this
      ensures |stack| > 0
      ensures stack[..|stack| - 1] == Rewritten(old(stack), Ordered(divergentPaths, notTaken), recvgPc)
    {
      var paths := divergentPaths;
      var n := |paths|;
      var warpDiverged := false;
      ghost var top, rest := stack[|stack| - 1], stack[..|stack| - 1];
      ghost var now: seq<Entry>, first := [], true;
      ghost var end := Place(top, [], true, Ordered(paths, notTaken), n > 1, recvgPc);
      for i := 0 to n
        invariant |paths| == n - i
        invariant Place(top, now, first, Ordered(paths, notTaken), n > 1, recvgPc) == end
        invariant |stack| > 0 && stack == rest + now + [stack[|stack| - 1]]
        invariant first ==> now == [] && stack[|stack| - 1] == top
        invariant warpDiverged <==> n > 1 && !first
      {
        var tmpNextPc, tmpMask, left := TakePath(paths, notTaken);
        var x := Path(tmpNextPc, tmpMask);
        assert Ordered(paths, notTaken)[1..] == Ordered(left, notTaken);
        warpDiverged := PlacePath(x, n > 1, warpDiverged, topRecvg, recvgPc, top, rest, now, first);
        paths, now, first := left, PlaceOne(top, now, first, x, n > 1, recvgPc), first && tmpNextPc == topRecvg;
      }
      PlacedInOrder(top, Ordered(divergentPaths, notTaken), n > 1, recvgPc);
    }

    /** One round of the loop that places the paths; the last entry is the one to fill next. */
    method PlacePath(path: Path, split: bool, diverged: bool, topRecvg: int, recvgPc: int, ghost top: Entry,
                     ghost rest: seq<Entry>, ghost now: seq<Entry>, ghost first: bool)
      returns (warpDiverged: bool)
      requires |stack| > 0 && stack == rest + now + [stack[|stack| - 1]]
      requires first ==> now == [] && stack[|stack| - 1] == top
      requires topRecvg == top.recvg && (diverged <==> split && !first)
      modifies this
      ensures |stack| > 0
      ensures stack == rest + PlaceOne(top, now, first, path, split, recvgPc) + [stack[|stack| - 1]]
      ensures path.pc == topRecvg ==> stack == old(stack)
      ensures warpDiverged <==> split && !(first && path.pc == topRecvg)
    {
      warpDiverged := diverged;
      if path.pc == topRecvg {
        return;
      }
      ghost var waiting := now;
      if split && !warpDiverged {
        warpDiverged := true;
        if recvgPc != topRecvg {
          SetTop(stack[|stack| - 1].(pc := recvgPc));
          PushEmpty();
          waiting := [Entry(recvgPc, top.mask, top.recvg)];
        }
      }
      assert stack == rest + waiting + [stack[|stack| - 1]];
      if warpDiverged && path.pc == recvgPc {
        return;
      }
      var filled := Entry(path.pc, path.mask, if warpDiverged then recvgPc else topRecvg);
      SetTop(filled);
      assert stack == rest + (waiting + [filled]);
      PushEmpty();
    }

    method SetTop(e: Entry)
      requires |stack| > 0
      modifies this
      ensures stack == old(stack)[..|old(stack)| - 1] + [e]
    {
      stack := stack[|stack| - 1 := e];
    }

    method PushEmpty()
      modifies this
      ensures stack == old(stack) + [Entry(NULL_PC, {}, NULL_PC)]
    {
      stack := stack + [Entry(NULL_PC, {}, NULL_PC)];
    }

    ghost function Top(): Entry
      requires |stack| > 0
      reads this
    {
      stack[|stack| - 1]
    }
  }

  /** Removes the fall-through path if it is still there, else the path of the smallest pc. */
  method TakePath(paths: map<int, set<nat>>, notTaken: int) returns (pc: int, mask: set<nat>, rest: map<int, set<nat>>)
    requires paths != map[]
    ensures pc in paths && mask == paths[pc] && |rest| == |paths| - 1
    ensures if notTaken in paths then pc == notTaken else forall q :: q in paths ==> pc <= q
    ensures Ordered(paths, notTaken) == [Path(pc, mask)] + Ordered(rest, notTaken)
  {
    ghost var front := Front(paths, notTaken);
    if notTaken in paths {
      pc := notTaken;
    } else {
      pc :| pc in paths && forall q :: q in paths ==> pc <= q;
    }
    mask := paths[pc];
    rest := Without(paths, pc);
  }
}
