/** Lockstep execution of a warp through its reconvergence stack, against every lane running its
    own thread alone. */
module SimtExecution {
  import opened ControlFlow
  import opened SimtStack

  // ----- programs and the two ways to run them

  datatype Thread<L> = Thread(pc: int, local: L)

  /** next is the control-flow graph over instructions, its last node the exit.  exec runs one
      instruction of one lane: it yields the lane's next pc, NULL_PC when the lane leaves.
      returnPc is the pc that stands for the exit when a branch has no reconvergence point inside
      the function; fallThrough only picks the order of the two sides of a branch. */
  datatype Program<!L(!new)> = Program(next: Graph, ipdom: seq<nat>, returnPc: int, fallThrough: seq<int>,
                                 exec: (int, nat, L) -> Thread<L>)
  {
    ghost function Exit(): int
    {
      |next| - 1
    }

    ghost predicate IsInstruction(pc: int)
    {
      0 <= pc < Exit()
    }

    ghost predicate Valid()
    {
      && |next| >= 2 && |ipdom| == |fallThrough| == Exit() && WellFormed(next) && AllReach(next, Exit())
      && (forall b :: 0 <= b < Exit() ==> Closest(next, Exit(), ipdom[b], b))
      && (forall b :: 0 <= b < Exit() ==> forall s :: s in next[b] ==> s != returnPc)
      && forall pc, lane, local :: IsInstruction(pc) ==> GoesOn(pc, exec(pc, lane, local))
    }

    ghost predicate GoesOn(pc: int, after: Thread<L>)
      requires IsInstruction(pc)
    {
      if after.pc == NULL_PC then |next| - 1 in next[pc] else IsInstruction(after.pc) && after.pc in next[pc]
    }

    ghost function ReconvergencePc(pc: int): int
    {
      if !(0 <= pc < |ipdom|) then NULL_PC
      else if ipdom[pc] == Exit() then returnPc
      else ipdom[pc]
    }

    ghost function FallThroughPc(pc: int): int
    {
      if 0 <= pc < |fallThrough| then fallThrough[pc] else NULL_PC
    }

    // one lane alone

    ghost function RunAlone(lane: nat, thread: Thread<L>): Thread<L>
    {
      if thread.pc == NULL_PC then thread else exec(thread.pc, lane, thread.local)
    }

    ghost function RunAloneFor(lane: nat, thread: Thread<L>, k: nat): Thread<L>
      decreases k
    {
      if k == 0 then thread else RunAloneFor(lane, RunAlone(lane, thread), k - 1)
    }

    // the warp in lockstep

    ghost function Executed(w: Warp<L>): seq<Thread<L>>
      requires |w.stack| > 0
    {
      seq(|w.threads|, t requires 0 <= t < |w.threads| =>
        if t in w.Top().mask && w.threads[t].pc != NULL_PC then exec(w.Top().pc, t, w.threads[t].local)
          else w.threads[t])
    }

    ghost function Step(w: Warp<L>): Warp<L>
      requires |w.stack| > 0
    {
      var threads := Executed(w);
      Warp(Updated(w.stack, Finished(threads), NextPcOf(threads), ReconvergencePc(w.Top().pc),
                   FallThroughPc(w.Top().pc)), threads)
    }

    ghost function Lockstep(w: Warp<L>, n: nat): Warp<L>
      decreases n
    {
      if n == 0 || w.stack == [] then w else Lockstep(Step(w), n - 1)
    }

    ghost predicate TakesTurn(w: Warp<L>, lane: nat)
      requires |w.stack| > 0
    {
      lane in w.Top().mask && lane < |w.threads| && w.threads[lane].pc != NULL_PC
    }

    /** The number of the first n steps in which the lane executes. */
    ghost function Turns(w: Warp<L>, lane: nat, n: nat): nat
      decreases n
    {
      if n == 0 || w.stack == [] then 0
      else (if TakesTurn(w, lane) then 1 else 0) + Turns(Step(w), lane, n - 1)
    }

    // ----- the invariant

    /** A reconvergence pc inside the function strictly postdominates the entry's pc. */
    ghost predicate Reconverges(e: Entry)
      requires |next| > 0
    {
      e.recvg != NULL_PC && e.recvg != returnPc ==>
        IsInstruction(e.recvg) && IsInstruction(e.pc) && StrictlyOnEveryPath(next, |next| - 1, e.recvg, e.pc)
    }

    ghost predicate Invariant(w: Warp<L>, launched: set<nat>)
    {
      && |next| > 0 && WellStacked(w.stack) && (forall e :: e in w.stack ==> Reconverges(e) && e.mask <= launched)
      && (forall t :: t in launched ==> t < |w.threads|)
      && (forall t :: t in launched && w.threads[t].pc != NULL_PC ==> IsInstruction(w.threads[t].pc))
      && forall t :: t in launched && w.threads[t].pc != NULL_PC ==> HomePc(w.stack, t) == w.threads[t].pc
    }
  }

  datatype Warp<L> = Warp(stack: seq<Entry>, threads: seq<Thread<L>>)
  {
    ghost function Top(): Entry
      requires |stack| > 0
    {
      stack[|stack| - 1]
    }
  }

  ghost predicate LanesBelow(mask: set<nat>, n: nat)
  {
    forall t :: t in mask ==> t < n
  }

  ghost function Finished<L>(threads: seq<Thread<L>>): set<nat>
  {
    set t: nat | t < |threads| && threads[t].pc == NULL_PC
  }

  ghost function NextPcOf<L>(threads: seq<Thread<L>>): seq<int>
  {
    seq(|threads|, t requires 0 <= t < |threads| => threads[t].pc)
  }

  // ----- shape of the stack

  /** The highest entry that holds every lane of the mask and more, with nothing of the mask above it. */
  ghost predicate IsParent(below: seq<Entry>, i: nat, mask: set<nat>)
  {
    i < |below| && mask < below[i].mask && forall k :: i < k < |below| ==> below[k].mask !! mask
  }

  ghost predicate NestedOn(below: seq<Entry>, e: Entry)
  {
    e.mask != {} && forall i :: 0 <= i < |below| ==> below[i].mask !! e.mask || e.mask < below[i].mask
  }

  ghost predicate LinkedTo(below: seq<Entry>, e: Entry)
  {
    && (forall i: nat :: IsParent(below, i, e.mask) ==> below[i].pc == e.recvg)
    && ((forall i :: 0 <= i < |below| ==> below[i].mask !! e.mask) ==> e.recvg == NULL_PC)
  }

  ghost predicate WellStacked(stack: seq<Entry>)
  {
    stack != [] ==>
      var below, e := stack[..|stack| - 1], stack[|stack| - 1];
      WellStacked(below) && NestedOn(below, e) && LinkedTo(below, e)
  }

  /** The pc of the topmost entry that holds the lane. */
  ghost function HomePc(stack: seq<Entry>, t: nat): int
  {
    if stack == [] then NULL_PC
    else if t in stack[|stack| - 1].mask then stack[|stack| - 1].pc
    else HomePc(stack[..|stack| - 1], t)
  }

  ghost predicate Covers(stack: seq<Entry>, t: nat)
  {
    exists i :: 0 <= i < |stack| && t in stack[i].mask
  }

  lemma {:induction false} HomePcOfJoin(a: seq<Entry>, b: seq<Entry>, t: nat)
    ensures HomePc(a + b, t) == if Covers(b, t) then HomePc(b, t) else HomePc(a, t)
  {
    if b == [] {
      assert a + b == a;
    } else {
      var n := |b| - 1;
      assert (a + b)[..|a| + n] == a + b[..n];
      assert (a + b)[|a| + n] == b[n];
      if t !in b[n].mask {
        HomePcOfJoin(a, b[..n], t);
        assert Covers(b, t) <==> Covers(b[..n], t);
      }
    }
  }

  lemma {:induction false} UncoveredHome(stack: seq<Entry>, t: nat)
    requires !Covers(stack, t)
    ensures HomePc(stack, t) == NULL_PC
  {
    if stack != [] {
      UncoveredHome(stack[..|stack| - 1], t);
    }
  }

  lemma {:induction false} HomeIndex(stack: seq<Entry>, t: nat) returns (i: nat)
    requires Covers(stack, t)
    ensures i < |stack| && t in stack[i].mask && HomePc(stack, t) == stack[i].pc
    ensures forall k :: i < k < |stack| ==> t !in stack[k].mask
  {
    var n := |stack| - 1;
    if t in stack[n].mask {
      i := n;
    } else {
      i := HomeIndex(stack[..n], t);
    }
  }

  /** Under the entry that holds a lane, the lane's home waits at the entry's reconvergence pc. */
  lemma HomeBelow(below: seq<Entry>, e: Entry, t: nat)
    requires NestedOn(below, e) && LinkedTo(below, e) && t in e.mask
    ensures HomePc(below, t) == e.recvg
  {
    if Covers(below, t) {
      var i := HomeIndex(below, t);
      forall k | i < k < |below|
        ensures below[k].mask !! e.mask
      {
        assert t !in below[k].mask;
      }
      assert IsParent(below, i, e.mask);
    } else {
      UncoveredHome(below, t);
      forall i | 0 <= i < |below|
        ensures below[i].mask !! e.mask
      {
        assert t !in below[i].mask;
      }
    }
  }

  /** A smaller entry with the same reconvergence pc fits wherever the larger one fits. */
  lemma SmallerFits(below: seq<Entry>, e: Entry, s: Entry)
    requires NestedOn(below, e) && LinkedTo(below, e)
    requires s.mask != {} && s.mask <= e.mask && s.recvg == e.recvg
    ensures NestedOn(below, s) && LinkedTo(below, s)
  {
    forall i: nat | IsParent(below, i, s.mask)
      ensures below[i].pc == s.recvg
    {
      assert IsParent(below, i, e.mask);
    }
  }

  ghost predicate Disjoint(es: seq<Entry>)
  {
    forall i, j :: 0 <= i < j < |es| ==> es[i].mask !! es[j].mask
  }

  /** Entries disjoint from e can come between e and the stack it fits on. */
  lemma DisjointBetween(base: seq<Entry>, es: seq<Entry>, e: Entry)
    requires NestedOn(base, e) && LinkedTo(base, e)
    requires forall x :: x in es ==> x.mask !! e.mask
    ensures NestedOn(base + es, e) && LinkedTo(base + es, e)
  {
    var below := base + es;
    forall i | |base| <= i < |below|
      ensures below[i].mask !! e.mask
    {
      assert below[i] == es[i - |base|] && es[i - |base|] in es;
    }
    forall i: nat | IsParent(below, i, e.mask)
      ensures below[i].pc == e.recvg
    {
      assert i < |base|;
      forall k | i < k < |base|
        ensures base[k].mask !! e.mask
      {
        assert below[k] == base[k];
      }
      assert IsParent(base, i, e.mask);
    }
    if forall i :: 0 <= i < |below| ==> below[i].mask !! e.mask {
      forall i | 0 <= i < |base|
        ensures base[i].mask !! e.mask
      {
        assert below[i] == base[i];
      }
    }
  }

  lemma LastIsDisjoint(es: seq<Entry>)
    requires Disjoint(es) && es != []
    ensures Disjoint(es[..|es| - 1])
    ensures forall x :: x in es[..|es| - 1] ==> x.mask !! es[|es| - 1].mask
  {
    var n := |es| - 1;
    forall x | x in es[..n]
      ensures x.mask !! es[n].mask
    {
      var i :| 0 <= i < n && es[i] == x;
      assert es[i].mask !! es[n].mask;
    }
  }

  lemma OneEntryMoreFits(below: seq<Entry>, e: Entry)
    requires WellStacked(below) && NestedOn(below, e) && LinkedTo(below, e)
    ensures WellStacked(below + [e])
  {
    assert (below + [e])[..|below|] == below;
  }

  lemma {:induction false} SiblingsFit(base: seq<Entry>, es: seq<Entry>)
    requires WellStacked(base) && Disjoint(es)
    requires forall e :: e in es ==> NestedOn(base, e) && LinkedTo(base, e)
    ensures WellStacked(base + es)
  {
    hide NestedOn, LinkedTo, Disjoint, WellStacked;
    if es == [] {
      assert base + es == base;
    } else {
      var n := |es| - 1;
      LastIsDisjoint(es);
      SiblingsFit(base, es[..n]);
      assert es[n] in es;
      DisjointBetween(base, es[..n], es[n]);
      OneEntryMoreFits(base + es[..n], es[n]);
      assert base + es == base + es[..n] + [es[n]];
    }
  }

  /** Entries over one that holds all their lanes and waits at their reconvergence pc. */
  lemma ChildFits(below: seq<Entry>, parent: Entry, e: Entry)
    requires NestedOn(below, parent) && e.mask != {} && e.mask < parent.mask && e.recvg == parent.pc
    ensures NestedOn(below + [parent], e) && LinkedTo(below + [parent], e)
  {
    var all := below + [parent];
    assert all[|below|] == parent;
    var t :| t in e.mask;
    assert t in parent.mask;
    assert !(all[|below|].mask !! e.mask);
  }

  lemma {:induction false} HomeAmongDisjoint(es: seq<Entry>, i: nat, t: nat)
    requires Disjoint(es) && i < |es| && t in es[i].mask
    ensures HomePc(es, t) == es[i].pc
  {
    var n := |es| - 1;
    if i < n {
      assert es[i].mask !! es[n].mask;
      HomeAmongDisjoint(es[..n], i, t);
    }
  }

  // ----- the paths of one update

  ghost predicate IsPathList(order: seq<Path>, live: set<nat>, nextPc: seq<int>)
  {
    && (forall i :: 0 <= i < |order| ==> order[i].mask != {} && order[i].mask == LanesTo(live, nextPc, order[i].pc))
    && forall i, j :: 0 <= i < j < |order| ==> order[i].pc != order[j].pc
  }

  ghost predicate ListsAll(order: seq<Path>, paths: map<int, set<nat>>)
  {
    && (forall i :: 0 <= i < |order| ==> order[i].pc in paths && order[i].mask == paths[order[i].pc])
    && (forall p :: p in paths ==> Path(p, paths[p]) in order)
    && forall i, j :: 0 <= i < j < |order| ==> order[i].pc != order[j].pc
  }

  lemma ListsOneMore(p: int, tail: seq<Path>, paths: map<int, set<nat>>)
    requires p in paths && ListsAll(tail, Without(paths, p))
    ensures ListsAll([Path(p, paths[p])] + tail, paths)
  {
    var rest := Without(paths, p);
    var order := [Path(p, paths[p])] + tail;
    forall q | q in paths
      ensures Path(q, paths[q]) in order
    {
      if q == p {
        assert order[0] == Path(q, paths[q]);
      } else {
        assert Path(q, rest[q]) in tail;
      }
    }
  }

  lemma {:induction false} OrderedLists(paths: map<int, set<nat>>, notTaken: int)
    ensures ListsAll(Ordered(paths, notTaken), paths)
    decreases |paths|
  {
    if paths != map[] {
      var p := Front(paths, notTaken);
      OrderedLists(Without(paths, p), notTaken);
      ListsOneMore(p, Ordered(Without(paths, p), notTaken), paths);
    }
  }

  lemma PathsAreListed(live: set<nat>, nextPc: seq<int>, notTaken: int)
    requires forall t :: t in live ==> t < |nextPc|
    ensures var order := Ordered(Paths(live, nextPc), notTaken);
            && IsPathList(order, live, nextPc)
            && forall t :: t in live ==> Path(nextPc[t], LanesTo(live, nextPc, nextPc[t])) in order
  {
    var paths := Paths(live, nextPc);
    OrderedLists(paths, notTaken);
    var order := Ordered(paths, notTaken);
    forall i | 0 <= i < |order|
      ensures order[i].mask != {} && order[i].mask == LanesTo(live, nextPc, order[i].pc)
    {
      var t :| t in live && nextPc[t] == order[i].pc;
      assert t in order[i].mask;
    }
    forall t | t in live
      ensures Path(nextPc[t], LanesTo(live, nextPc, nextPc[t])) in order
    {
      var p := nextPc[t];
      assert p in NextPcs(live, nextPc);
      assert p in paths && paths[p] == LanesTo(live, nextPc, p);
    }
  }

  lemma {:induction false} AwayKeeps(order: seq<Path>, pc: int, live: set<nat>, nextPc: seq<int>)
    requires IsPathList(order, live, nextPc)
    ensures IsPathList(Away(order, pc), live, nextPc)
    ensures forall x :: x in Away(order, pc) <==> x in order && x.pc != pc
  {
    if order != [] {
      var n := |order| - 1;
      AwayKeeps(order[..n], pc, live, nextPc);
      var kept := Away(order[..n], pc);
      assert order == order[..n] + [order[n]];
      forall i | 0 <= i < |kept|
        ensures kept[i].pc != order[n].pc
      {
        assert kept[i] in order[..n];
      }
    }
  }

  lemma ListedEntriesAreDisjoint(order: seq<Path>, recvg: int, live: set<nat>, nextPc: seq<int>)
    requires IsPathList(order, live, nextPc)
    ensures Disjoint(Entries(order, recvg))
  {
    var es := Entries(order, recvg);
    forall i, j | 0 <= i < j < |es|
      ensures es[i].mask !! es[j].mask
    {
      assert order[i].pc != order[j].pc;
    }
  }

  lemma HomeInEntries(order: seq<Path>, recvg: int, live: set<nat>, nextPc: seq<int>, t: nat)
    requires IsPathList(order, live, nextPc) && t < |nextPc| && t in live
    ensures Covers(Entries(order, recvg), t) <==> Path(nextPc[t], LanesTo(live, nextPc, nextPc[t])) in order
    ensures Covers(Entries(order, recvg), t) ==> HomePc(Entries(order, recvg), t) == nextPc[t]
  {
    var es := Entries(order, recvg);
    var x := Path(nextPc[t], LanesTo(live, nextPc, nextPc[t]));
    ListedEntriesAreDisjoint(order, recvg, live, nextPc);
    if i :| 0 <= i < |es| && t in es[i].mask {
      assert order[i] == x;
      HomeAmongDisjoint(es, i, t);
    }
    if x in order {
      var i :| 0 <= i < |order| && order[i] == x;
      assert t in es[i].mask;
    }
  }

  // ----- one update

  /** A path back to the top entry's reconvergence pc is lost exactly when the warp splits and is
      told to reconverge somewhere else: then that path's lanes are parked at the wrong pc.  In
      every other case each live lane's home is its own next pc. */
  lemma EveryLaneFindsItsPc(stack: seq<Entry>, done: set<nat>, nextPc: seq<int>, recvgPc: int, notTaken: int)
    requires stack != [] && WellStacked(stack)
    requires LanesBelow(stack[|stack| - 1].mask, |nextPc|)
    ensures var top := stack[|stack| - 1]; var live := top.mask - done;
            (forall t :: t in live ==> HomePc(Updated(stack, done, nextPc, recvgPc, notTaken), t) == nextPc[t])
            <==> !(|Paths(live, nextPc)| > 1 && recvgPc != top.recvg && top.recvg in Paths(live, nextPc))
  {
    var below, top := stack[..|stack| - 1], stack[|stack| - 1];
    var live := top.mask - done;
    var order := Ordered(Paths(live, nextPc), notTaken);
    var lost := |order| > 1 && recvgPc != top.recvg && top.recvg in Paths(live, nextPc);
    PathsAreListed(live, nextPc, notTaken);
    if lost {
      OrderedLists(Paths(live, nextPc), notTaken);
      var t :| t in live && nextPc[t] == top.recvg;
      LaneOfSplit(below, top, order, live, nextPc, recvgPc, t);
    }
    forall t | t in live && !lost
      ensures HomePc(Updated(stack, done, nextPc, recvgPc, notTaken), t) == nextPc[t]
    {
      if |order| > 1 && recvgPc != top.recvg {
        assert nextPc[t] in NextPcs(live, nextPc);
        LaneOfSplit(below, top, order, live, nextPc, recvgPc, t);
      } else {
        LaneOfUnsplit(below, top, order, live, nextPc, recvgPc, t);
      }
    }
  }

  lemma LaneOfUnsplit(below: seq<Entry>, top: Entry, order: seq<Path>, live: set<nat>, nextPc: seq<int>, recvgPc: int,
                      t: nat)
    requires NestedOn(below, top) && LinkedTo(below, top) && live <= top.mask && t in live && t < |nextPc|
    requires IsPathList(order, live, nextPc) && Path(nextPc[t], LanesTo(live, nextPc, nextPc[t])) in order
    requires |order| <= 1 || recvgPc == top.recvg
    ensures HomePc(below + Replacement(top, order, |order| > 1, recvgPc), t) == nextPc[t]
  {
    var kept := Away(order, top.recvg);
    AwayKeeps(order, top.recvg, live, nextPc);
    var es := Replacement(top, order, |order| > 1, recvgPc);
    assert es == Entries(kept, top.recvg);
    HomeInEntries(kept, top.recvg, live, nextPc, t);
    HomePcOfJoin(below, es, t);
    HomeBelow(below, top, t);
  }

  lemma LaneOfSplit(below: seq<Entry>, top: Entry, order: seq<Path>, live: set<nat>, nextPc: seq<int>, recvgPc: int,
                    t: nat)
    requires live <= top.mask && t in live && t < |nextPc|
    requires IsPathList(order, live, nextPc) && Path(nextPc[t], LanesTo(live, nextPc, nextPc[t])) in order
    requires |order| > 1 && recvgPc != top.recvg
    ensures HomePc(below + Replacement(top, order, true, recvgPc), t) == if nextPc[t] == top.recvg then recvgPc
            else nextPc[t]
  {
    var kept := Away(order, top.recvg);
    var waiting := Entry(recvgPc, top.mask, top.recvg);
    var far := Away(kept, recvgPc);
    SplitIsOverWaiting(top, order, live, nextPc, recvgPc);
    assert forall x :: x in far <==> x in order && x.pc != top.recvg && x.pc != recvgPc by {
      AwayKeeps(order, top.recvg, live, nextPc);
      AwayKeeps(kept, recvgPc, live, nextPc);
    }
    HomeOverWaiting(below, waiting, far, recvgPc, live, nextPc, t);
  }

  lemma HomeOverWaiting(below: seq<Entry>, waiting: Entry, far: seq<Path>, recvgPc: int, live: set<nat>,
                        nextPc: seq<int>, t: nat)
    requires t in waiting.mask && t in live && t < |nextPc| && waiting.pc == recvgPc && IsPathList(far, live, nextPc)
    ensures HomePc(below + ([waiting] + Entries(far, recvgPc)), t)
         == if Path(nextPc[t], LanesTo(live, nextPc, nextPc[t])) in far then nextPc[t] else recvgPc
  {
    var es := Entries(far, recvgPc);
    HomeInEntries(far, recvgPc, live, nextPc, t);
    HomePcOfJoin(below + [waiting], es, t);
    assert below + ([waiting] + es) == below + [waiting] + es;
    assert (below + [waiting])[|below|] == waiting;
  }

  /** A split keeps at least one of its paths, so it always leaves a waiting entry. */
  lemma SplitIsOverWaiting(top: Entry, order: seq<Path>, live: set<nat>, nextPc: seq<int>, recvgPc: int)
    requires IsPathList(order, live, nextPc) && |order| > 1 && recvgPc != top.recvg
    ensures var far := Away(Away(order, top.recvg), recvgPc);
            && IsPathList(far, live, nextPc)
            && Replacement(top, order, true, recvgPc) == [Entry(recvgPc, top.mask, top.recvg)] + Entries(far, recvgPc)
  {
    AwayKeeps(order, top.recvg, live, nextPc);
    AwayKeeps(Away(order, top.recvg), recvgPc, live, nextPc);
    assert order[0].pc != order[1].pc;
    assert order[0] in Away(order, top.recvg) || order[1] in Away(order, top.recvg);
  }

  lemma OtherLanesStay(stack: seq<Entry>, done: set<nat>, nextPc: seq<int>, recvgPc: int, notTaken: int, t: nat)
    requires stack != [] && t !in stack[|stack| - 1].mask
    requires LanesBelow(stack[|stack| - 1].mask, |nextPc|)
    ensures HomePc(Updated(stack, done, nextPc, recvgPc, notTaken), t) == HomePc(stack, t)
  {
    var below, top := stack[..|stack| - 1], stack[|stack| - 1];
    ReplacementWithinTop(top, done, nextPc, recvgPc, notTaken);
    var es := Updated(stack, done, nextPc, recvgPc, notTaken)[|below|..];
    assert !Covers(es, t);
    HomePcOfJoin(below, es, t);
  }

  /** The entries that can replace the top one. */
  ghost predicate FromPath(e: Entry, x: Path, recvg: int)
  {
    e == Entry(x.pc, x.mask, recvg) && x.pc != recvg
  }

  ghost predicate AllFromPaths(es: seq<Entry>, order: seq<Path>, recvg: int)
  {
    forall e :: e in es ==> exists x :: x in order && FromPath(e, x, recvg)
  }

  lemma KeptEntriesAreFromPaths(kept: seq<Path>, order: seq<Path>, recvg: int)
    requires forall x :: x in kept ==> x in order && x.pc != recvg
    ensures AllFromPaths(Entries(kept, recvg), order, recvg)
  {
    forall e | e in Entries(kept, recvg)
      ensures exists x :: x in order && FromPath(e, x, recvg)
    {
      var i :| 0 <= i < |kept| && e == Entries(kept, recvg)[i];
      assert kept[i] in order && FromPath(e, kept[i], recvg);
    }
  }

  lemma ReplacementMembers(top: Entry, order: seq<Path>, live: set<nat>, nextPc: seq<int>, split: bool, recvgPc: int)
    requires IsPathList(order, live, nextPc)
    ensures forall e :: e in Replacement(top, order, split, recvgPc) ==>
              || (recvgPc != top.recvg && order != [] && e == Entry(recvgPc, top.mask, top.recvg))
              || exists x :: x in order && (FromPath(e, x, top.recvg) || FromPath(e, x, recvgPc))
  {
    var kept := Away(order, top.recvg);
    AwayKeeps(order, top.recvg, live, nextPc);
    AwayKeeps(kept, recvgPc, live, nextPc);
    var far := Away(kept, recvgPc);
    hide Away, Entries, IsPathList, FromPath;
    KeptEntriesAreFromPaths(kept, order, top.recvg);
    KeptEntriesAreFromPaths(far, order, recvgPc);
    assert kept != [] ==> kept[0] in order;
  }

  lemma ReplacementWithinTop(top: Entry, done: set<nat>, nextPc: seq<int>, recvgPc: int, notTaken: int)
    requires LanesBelow(top.mask, |nextPc|)
    ensures var order := Ordered(Paths(top.mask - done, nextPc), notTaken);
            var split := |order| > 1;
            forall e :: e in Replacement(top, order, split, recvgPc) ==> e.mask <= top.mask
  {
    var live := top.mask - done;
    var order := Ordered(Paths(live, nextPc), notTaken);
    PathsAreListed(live, nextPc, notTaken);
    ReplacementMembers(top, order, live, nextPc, |order| > 1, recvgPc);
  }

  /** An update keeps the stack nested and linked, whatever the lanes do. */
  lemma UpdateKeepsShape(stack: seq<Entry>, done: set<nat>, nextPc: seq<int>, recvgPc: int, notTaken: int)
    requires stack != [] && WellStacked(stack)
    requires LanesBelow(stack[|stack| - 1].mask, |nextPc|)
    ensures WellStacked(Updated(stack, done, nextPc, recvgPc, notTaken))
  {
    var below, top := stack[..|stack| - 1], stack[|stack| - 1];
    var live := top.mask - done;
    var order := Ordered(Paths(live, nextPc), notTaken);
    PathsAreListed(live, nextPc, notTaken);
    var kept := Away(order, top.recvg);
    AwayKeeps(order, top.recvg, live, nextPc);
    if kept == [] {
      assert below + [] == below;
    } else if |order| <= 1 || recvgPc == top.recvg {
      var es := Entries(kept, top.recvg);
      ListedEntriesAreDisjoint(kept, top.recvg, live, nextPc);
      forall e | e in es
        ensures NestedOn(below, e) && LinkedTo(below, e)
      {
        SmallerFits(below, top, e);
      }
      SiblingsFit(below, es);
    } else {
      SplitKeepsShape(below, top, order, live, nextPc, recvgPc);
    }
  }

  lemma SplitKeepsShape(below: seq<Entry>, top: Entry, order: seq<Path>, live: set<nat>, nextPc: seq<int>, recvgPc: int)
    requires WellStacked(below) && NestedOn(below, top) && LinkedTo(below, top) && live <= top.mask
    requires IsPathList(order, live, nextPc) && |order| > 1
    ensures var es := Entries(Away(Away(order, top.recvg), recvgPc), recvgPc);
            WellStacked(below + ([Entry(recvgPc, top.mask, top.recvg)] + es))
  {
    hide Away, WellStacked, NestedOn, LinkedTo, IsPathList, Entries, Disjoint;
    var kept := Away(order, top.recvg);
    AwayKeeps(order, top.recvg, live, nextPc);
    AwayKeeps(kept, recvgPc, live, nextPc);
    var far := Away(kept, recvgPc);
    var waiting := Entry(recvgPc, top.mask, top.recvg);
    var es := Entries(far, recvgPc);
    WaitingFits(below, top, recvgPc);
    ListedEntriesAreDisjoint(far, recvgPc, live, nextPc);
    PathEntriesFit(below, waiting, far, order, live, nextPc);
    SiblingsFit(below + [waiting], es);
    assert below + ([waiting] + es) == below + [waiting] + es;
  }

  lemma WaitingFits(below: seq<Entry>, top: Entry, pc: int)
    requires WellStacked(below) && NestedOn(below, top) && LinkedTo(below, top)
    ensures var waiting := Entry(pc, top.mask, top.recvg);
            NestedOn(below, waiting) && WellStacked(below + [waiting])
  {
    var waiting := Entry(pc, top.mask, top.recvg);
    SmallerFits(below, top, waiting);
    OneEntryMoreFits(below, waiting);
  }

  lemma PathEntriesFit(below: seq<Entry>, waiting: Entry, far: seq<Path>, order: seq<Path>, live: set<nat>,
                       nextPc: seq<int>)
    requires NestedOn(below, waiting) && live <= waiting.mask
    requires IsPathList(order, live, nextPc) && |order| > 1 && forall x :: x in far ==> x in order
    ensures forall e :: e in Entries(far, waiting.pc) ==>
              NestedOn(below + [waiting], e) && LinkedTo(below + [waiting], e)
  {
    hide NestedOn, LinkedTo, IsPathList;
    var es := Entries(far, waiting.pc);
    forall e | e in es
      ensures NestedOn(below + [waiting], e) && LinkedTo(below + [waiting], e)
    {
      var i :| 0 <= i < |es| && es[i] == e;
      assert far[i] in far && e == Entry(far[i].pc, far[i].mask, waiting.pc);
      PathsOfSplitAreSmaller(order, far[i], live, nextPc);
      ChildFits(below, waiting, e);
    }
  }

  /** No path of a split has all the lanes. */
  lemma PathsOfSplitAreSmaller(order: seq<Path>, x: Path, live: set<nat>, nextPc: seq<int>)
    requires IsPathList(order, live, nextPc) && |order| > 1 && x in order
    ensures x.mask != {} && x.mask < live
  {
    var other := if order[0].pc == x.pc then order[1] else order[0];
    assert other.pc != x.pc && other in order && other.mask != {};
    var t :| t in other.mask;
    assert t in live && t !in x.mask;
  }

  // ----- one step of the warp

  /** The reconvergence pc handed to a split never loses a path: a branch target at which the top
      entry already reconverges is the branch's own immediate postdominator. */
  lemma SplitsLoseNothing<L(!new)>(p: Program<L>, pc: int, recvg: int)
    requires p.Valid() && p.IsInstruction(pc) && p.IsInstruction(recvg) && recvg in p.next[pc]
    requires StrictlyOnEveryPath(p.next, p.Exit(), recvg, pc)
    ensures p.ReconvergencePc(pc) == recvg
  {
    var g, root, c := p.next, p.Exit(), p.ipdom[pc];
    StrictHoldsAtNeighbour(g, root, c, pc, recvg);
    assert OnEveryPath(g, root, recvg, c);
    Antisymmetric(g, root, c, recvg);
  }

  lemma NewEntriesReconverge<L(!new)>(p: Program<L>, top: Entry, order: seq<Path>, live: set<nat>, nextPc: seq<int>)
    requires p.Valid() && p.Reconverges(top) && IsPathList(order, live, nextPc)
    requires FollowEdges(p, top.pc, order)
    ensures var split, recvgPc := |order| > 1, p.ReconvergencePc(top.pc);
            forall e :: e in Replacement(top, order, split, recvgPc) ==> p.Reconverges(e)
  {
    var recvgPc := p.ReconvergencePc(top.pc);
    ReplacementMembers(top, order, live, nextPc, |order| > 1, recvgPc);
    if order != [] {
      assert order[0] in order;
      WaitingReconverges(p, top);
    }
    forall x, recvg | x in order && x.pc != recvg && (recvg == top.recvg || recvg == recvgPc)
      ensures p.Reconverges(Entry(x.pc, x.mask, recvg))
    {
      EdgesKeepReconvergence(p, top.pc, x.pc, recvg);
    }
  }

  lemma EntriesReconverge<L(!new)>(p: Program<L>, w: Warp<L>, launched: set<nat>)
    requires p.Valid() && w.stack != [] && p.Invariant(w, launched)
    ensures forall e :: e in p.Step(w).stack ==> p.Reconverges(e) && e.mask <= launched
  {
    hide Updated, Program<L>.Reconverges, FollowEdges, WellStacked, HomePc;
    var top, threads := w.Top(), p.Executed(w);
    assert top in w.stack;
    LiveLanesFollowEdges(p, w, launched);
    PathsFollowEdges(p, top, Finished(threads), NextPcOf(threads));
    UpdatedEntriesReconverge(p, w.stack, Finished(threads), NextPcOf(threads), launched);
  }

  ghost predicate FollowEdges<L(!new)>(p: Program<L>, pc: int, order: seq<Path>)
  {
    forall x :: x in order ==> p.IsInstruction(pc) && p.IsInstruction(x.pc) && x.pc in p.next[pc]
  }

  lemma PathsFollowEdges<L(!new)>(p: Program<L>, top: Entry, done: set<nat>, nextPc: seq<int>)
    requires |p.next| > 0 && LanesBelow(top.mask, |nextPc|)
    requires forall t :: t in top.mask - done ==>
               p.IsInstruction(top.pc) && p.IsInstruction(nextPc[t]) && nextPc[t] in p.next[top.pc]
    ensures FollowEdges(p, top.pc, Ordered(Paths(top.mask - done, nextPc), p.FallThroughPc(top.pc)))
  {
    var live := top.mask - done;
    var order := Ordered(Paths(live, nextPc), p.FallThroughPc(top.pc));
    PathsAreListed(live, nextPc, p.FallThroughPc(top.pc));
    forall x | x in order
      ensures p.IsInstruction(top.pc) && p.IsInstruction(x.pc) && x.pc in p.next[top.pc]
    {
      var t :| t in x.mask;
      assert t in live;
    }
  }

  lemma UpdatedEntriesReconverge<L(!new)>(p: Program<L>, stack: seq<Entry>, done: set<nat>, nextPc: seq<int>,
                                          launched: set<nat>)
    requires p.Valid() && stack != [] && LanesBelow(stack[|stack| - 1].mask, |nextPc|)
    requires forall e :: e in stack ==> p.Reconverges(e) && e.mask <= launched
    requires var top := stack[|stack| - 1];
             FollowEdges(p, top.pc, Ordered(Paths(top.mask - done, nextPc), p.FallThroughPc(top.pc)))
    ensures var top := stack[|stack| - 1];
            forall e :: e in Updated(stack, done, nextPc, p.ReconvergencePc(top.pc), p.FallThroughPc(top.pc)) ==>
              p.Reconverges(e) && e.mask <= launched
  {
    hide Replacement, Ordered, Paths, FollowEdges, IsPathList, Program<L>.Reconverges;
    var top := stack[|stack| - 1];
    assert top in stack;
    var live := top.mask - done;
    PathsAreListed(live, nextPc, p.FallThroughPc(top.pc));
    NewEntriesReconverge(p, top, Ordered(Paths(live, nextPc), p.FallThroughPc(top.pc)), live, nextPc);
    ReplacementWithinTop(top, done, nextPc, p.ReconvergencePc(top.pc), p.FallThroughPc(top.pc));
  }

  /** Along an edge that does not arrive, the reconvergence pc stays a strict postdominator. */
  lemma EdgesKeepReconvergence<L(!new)>(p: Program<L>, pc: int, s: int, recvg: int)
    requires p.Valid() && p.IsInstruction(pc) && p.IsInstruction(s) && s in p.next[pc] && s != recvg
    requires p.Reconverges(Entry(pc, {}, recvg)) || recvg == p.ReconvergencePc(pc)
    ensures p.Reconverges(Entry(s, {}, recvg))
  {
    if recvg != NULL_PC && recvg != p.returnPc {
      assert StrictlyOnEveryPath(p.next, p.Exit(), recvg, pc);
      StrictHoldsAtNeighbour(p.next, p.Exit(), recvg, pc, s);
    }
  }

  lemma WaitingReconverges<L(!new)>(p: Program<L>, top: Entry)
    requires p.Valid() && p.IsInstruction(top.pc) && p.Reconverges(top)
    ensures p.ReconvergencePc(top.pc) != top.recvg ==>
              p.Reconverges(Entry(p.ReconvergencePc(top.pc), top.mask, top.recvg))
  {
    var g, root, c := p.next, p.Exit(), p.ipdom[top.pc];
    if top.recvg != NULL_PC && top.recvg != p.returnPc {
      assert OnEveryPath(g, root, top.recvg, c);
      if c == root {
        OnlyRootAtRoot(g, root, top.recvg);
      }
    }
  }

  lemma LiveLanesFollowEdges<L(!new)>(p: Program<L>, w: Warp<L>, launched: set<nat>)
    requires p.Valid() && w.stack != [] && p.Invariant(w, launched)
    ensures forall t :: t in w.Top().mask ==> t < |w.threads|
    ensures forall t :: t in w.Top().mask && p.Executed(w)[t].pc != NULL_PC ==>
              p.TakesTurn(w, t) && w.threads[t].pc == w.Top().pc && p.IsInstruction(w.Top().pc)
              && p.IsInstruction(p.Executed(w)[t].pc) && p.Executed(w)[t].pc in p.next[w.Top().pc]
              && p.Executed(w)[t].pc != p.returnPc
  {
    assert w.Top() in w.stack;
    forall t | t in w.Top().mask && p.Executed(w)[t].pc != NULL_PC
      ensures p.TakesTurn(w, t) && w.threads[t].pc == w.Top().pc && p.IsInstruction(w.Top().pc)
           && p.IsInstruction(p.Executed(w)[t].pc) && p.Executed(w)[t].pc in p.next[w.Top().pc]
           && p.Executed(w)[t].pc != p.returnPc
    {
      assert HomePc(w.stack, t) == w.threads[t].pc;
      assert p.GoesOn(w.Top().pc, p.exec(w.Top().pc, t, w.threads[t].local));
    }
  }

  /** Homes after an update that loses nothing. */
  lemma HomesAfterUpdate(stack: seq<Entry>, done: set<nat>, nextPc: seq<int>, recvgPc: int, notTaken: int, t: nat)
    requires stack != [] && WellStacked(stack) && LanesBelow(stack[|stack| - 1].mask, |nextPc|)
    requires var top := stack[|stack| - 1];
             (exists u :: u in top.mask - done && nextPc[u] == top.recvg) ==> recvgPc == top.recvg
    requires t !in done
    ensures HomePc(Updated(stack, done, nextPc, recvgPc, notTaken), t)
         == if t in stack[|stack| - 1].mask then nextPc[t] else HomePc(stack, t)
  {
    var top := stack[|stack| - 1];
    if t in top.mask {
      assert t in top.mask - done;
      if top.recvg in Paths(top.mask - done, nextPc) {
        var u :| u in top.mask - done && nextPc[u] == top.recvg;
      }
      EveryLaneFindsItsPc(stack, done, nextPc, recvgPc, notTaken);
    } else {
      OtherLanesStay(stack, done, nextPc, recvgPc, notTaken, t);
    }
  }

  lemma StepKeepsHomes<L(!new)>(p: Program<L>, w: Warp<L>, launched: set<nat>, t: nat)
    requires p.Valid() && w.stack != [] && p.Invariant(w, launched)
    requires t in launched && p.Executed(w)[t].pc != NULL_PC
    ensures p.IsInstruction(p.Executed(w)[t].pc) && HomePc(p.Step(w).stack, t) == p.Executed(w)[t].pc
  {
    hide Updated, HomePc, WellStacked;
    var top, threads := w.Top(), p.Executed(w);
    var done, nextPc, recvgPc := Finished(threads), NextPcOf(threads), p.ReconvergencePc(top.pc);
    assert top in w.stack;
    LiveLanesFollowEdges(p, w, launched);
    if u :| u in top.mask - done && nextPc[u] == top.recvg {
      SplitsLoseNothing(p, top.pc, top.recvg);
    }
    HomesAfterUpdate(w.stack, done, nextPc, recvgPc, p.FallThroughPc(top.pc), t);
  }

  lemma StepKeepsInvariant<L(!new)>(p: Program<L>, w: Warp<L>, launched: set<nat>)
    requires p.Valid() && w.stack != [] && p.Invariant(w, launched)
    ensures p.Invariant(p.Step(w), launched)
  {
    assert w.Top() in w.stack;
    LiveLanesFollowEdges(p, w, launched);
    EntriesReconverge(p, w, launched);
    forall t | t in launched && p.Executed(w)[t].pc != NULL_PC
      ensures p.IsInstruction(p.Executed(w)[t].pc) && HomePc(p.Step(w).stack, t) == p.Executed(w)[t].pc
    {
      StepKeepsHomes(p, w, launched, t);
    }
    UpdateKeepsShape(w.stack, Finished(p.Executed(w)), NextPcOf(p.Executed(w)), p.ReconvergencePc(w.Top().pc),
                     p.FallThroughPc(w.Top().pc));
  }

  /** A split whose branch is told to reconverge at 7 while lane 0 has arrived at the entry's own
      reconvergence pc 9: one of the two lanes is not where it should be. */
  lemma ParkedLane()
    ensures var stack := [Entry(9, {0, 1, 2}, NULL_PC), Entry(3, {0, 1}, 9)];
            WellStacked(stack) && !(forall t :: t in {0, 1} ==>
                                      HomePc(Updated(stack, {}, [9, 4, 9], 7, 4), t) == [9, 4, 9][t])
  {
    var stack, nextPc, live := [Entry(9, {0, 1, 2}, NULL_PC), Entry(3, {0, 1}, 9)], [9, 4, 9], {0, 1};
    OneEntryMoreFits([], stack[0]);
    assert [] + [stack[0]] == [stack[0]];
    assert 0 in stack[1].mask && !(stack[0].mask !! stack[1].mask);
    assert 2 in stack[0].mask && stack[1].mask < stack[0].mask;
    OneEntryMoreFits([stack[0]], stack[1]);
    assert [stack[0]] + [stack[1]] == stack;
    var paths := Paths(live, nextPc);
    assert live - {} == live;
    assert 0 in live && nextPc[0] == 9 && 1 in live && nextPc[1] == 4;
    assert 9 in paths.Keys && 4 in paths.Keys;
    TwoAreMoreThanOne(paths.Keys, 9, 4);
    EveryLaneFindsItsPc(stack, {}, nextPc, 7, 4);
  }

  lemma TwoAreMoreThanOne(s: set<int>, a: int, b: int)
    requires a in s && b in s && a != b
    ensures |s| > 1
  {
    assert |s - {a}| == |s| - 1 && b in s - {a};
  }
}
