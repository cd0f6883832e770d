/** What the reconvergence stack is for: lockstep execution is every lane's own execution, no lane
    is lost, the warp finishes when its lanes do, and the stack stays small. */
module SimtTheorems {
  import opened ControlFlow
  import opened SimtStack
  import opened SimtExecution

  ghost function Launched<L>(startPc: int, mask: set<nat>, threads: seq<Thread<L>>): Warp<L>
  {
    Warp([Entry(startPc, mask, NULL_PC)], threads)
  }

  ghost predicate Launchable<L(!new)>(p: Program<L>, startPc: int, mask: set<nat>, threads: seq<Thread<L>>)
  {
    && p.Valid() && p.IsInstruction(startPc) && mask != {} && LanesBelow(mask, |threads|)
    && forall t :: t in mask ==> threads[t].pc == startPc
  }

  lemma LaunchHoldsInvariant<L(!new)>(p: Program<L>, startPc: int, mask: set<nat>, threads: seq<Thread<L>>)
    requires Launchable(p, startPc, mask, threads)
    ensures p.Invariant(Launched(startPc, mask, threads), mask)
  {
    var w := Launched(startPc, mask, threads);
    assert w.stack[..0] == [];
  }

  lemma {:induction false} InvariantOverRuns<L(!new)>(p: Program<L>, w: Warp<L>, launched: set<nat>, n: nat)
    requires p.Valid() && p.Invariant(w, launched)
    ensures p.Invariant(p.Lockstep(w, n), launched)
    decreases n
  {
    hide Program<L>.Valid, Program<L>.Invariant, Program<L>.Step;
    if n > 0 && w.stack != [] {
      StepKeepsInvariant(p, w, launched);
      InvariantOverRuns(p, p.Step(w), launched, n - 1);
    }
  }

  /** A lane that takes its turn executes its own next instruction; another lane does not move. */
  lemma LaneStepsAlone<L(!new)>(p: Program<L>, w: Warp<L>, launched: set<nat>, t: nat)
    requires p.Valid() && p.Invariant(w, launched) && w.stack != [] && t in launched
    ensures p.Step(w).threads[t] == if p.TakesTurn(w, t) then p.RunAlone(t, w.threads[t]) else w.threads[t]
  {
    if p.TakesTurn(w, t) {
      assert HomePc(w.stack, t) == w.Top().pc;
    }
  }

  /** Along the first n steps the lane moves as it would alone, when it moves. */
  ghost predicate MovesAsAlone<L(!new)>(p: Program<L>, w: Warp<L>, n: nat, t: nat)
    decreases n
  {
    n > 0 && w.stack != [] ==>
      && t < |w.threads| && t < |p.Step(w).threads|
      && p.Step(w).threads[t] == (if p.TakesTurn(w, t) then p.RunAlone(t, w.threads[t]) else w.threads[t])
      && MovesAsAlone(p, p.Step(w), n - 1, t)
  }

  lemma {:induction false} LanesMoveAsAlone<L(!new)>(p: Program<L>, w: Warp<L>, launched: set<nat>, n: nat, t: nat)
    requires p.Valid() && p.Invariant(w, launched) && t in launched
    ensures MovesAsAlone(p, w, n, t) && t < |w.threads|
    decreases n
  {
    if n > 0 && w.stack != [] {
      StepKeepsInvariant(p, w, launched);
      LaneStepsAlone(p, w, launched, t);
      LanesMoveAsAlone(p, p.Step(w), launched, n - 1, t);
    }
  }

  /** After any number of lockstep steps a lane that moves as alone is where it would be after that
      many turns of its own. */
  lemma {:induction false} TurnsAddUp<L(!new)>(p: Program<L>, w: Warp<L>, n: nat, t: nat)
    requires MovesAsAlone(p, w, n, t) && t < |w.threads|
    ensures t < |p.Lockstep(w, n).threads|
    ensures p.Lockstep(w, n).threads[t] == p.RunAloneFor(t, w.threads[t], p.Turns(w, t, n))
    decreases n
  {
    hide Program<L>.Step, Program<L>.TakesTurn, Program<L>.RunAlone;
    if n > 0 && w.stack != [] {
      var next := p.Step(w);
      TurnsAddUp(p, next, n - 1, t);
      OneTurnMore(p, t, w.threads[t], next.threads[t], p.TakesTurn(w, t), p.Turns(next, t, n - 1));
      assert p.Turns(w, t, n) == (if p.TakesTurn(w, t) then 1 else 0) + p.Turns(next, t, n - 1);
      assert p.Lockstep(w, n) == p.Lockstep(next, n - 1);
    }
  }

  lemma OneTurnMore<L(!new)>(p: Program<L>, t: nat, before: Thread<L>, after: Thread<L>, took: bool, k: nat)
    requires after == if took then p.RunAlone(t, before) else before
    ensures p.RunAloneFor(t, before, (if took then 1 else 0) + k) == p.RunAloneFor(t, after, k)
  {
  }

  /** Every reachable state of a launched warp: a lane still running has an entry, the topmost one
      holding it is at the lane's own pc, and the lane's state is that of its own run. */
  lemma LaunchedWarpRefinesItsLanes<L(!new)>(p: Program<L>, startPc: int, mask: set<nat>, threads: seq<Thread<L>>,
                                             n: nat, t: nat)
    requires Launchable(p, startPc, mask, threads) && t in mask
    ensures var w, after := Launched(startPc, mask, threads), p.Lockstep(Launched(startPc, mask, threads), n);
            && t < |after.threads|
            && after.threads[t] == p.RunAloneFor(t, threads[t], p.Turns(w, t, n))
            && (after.threads[t].pc != NULL_PC ==>
                  Covers(after.stack, t) && HomePc(after.stack, t) == after.threads[t].pc)
  {
    var w := Launched(startPc, mask, threads);
    LaunchHoldsInvariant(p, startPc, mask, threads);
    InvariantOverRuns(p, w, mask, n);
    LanesMoveAsAlone(p, w, mask, n, t);
    TurnsAddUp(p, w, n, t);
    var after := p.Lockstep(w, n);
    if after.threads[t].pc != NULL_PC && !Covers(after.stack, t) {
      UncoveredHome(after.stack, t);
      assert false;
    }
  }

  // ----- the warp finishes when its lanes do

  ghost function Sum(ks: seq<nat>): nat
  {
    if ks == [] then 0 else ks[0] + Sum(ks[1..])
  }

  lemma {:induction false} SumFalls(ks: seq<nat>, js: seq<nat>, i: nat)
    requires |ks| == |js| && (forall k :: 0 <= k < |ks| ==> js[k] <= ks[k])
    requires i < |ks| ==> js[i] < ks[i]
    ensures if i < |ks| then Sum(js) < Sum(ks) else Sum(js) <= Sum(ks)
    decreases |ks|
  {
    if ks != [] {
      SumFalls(ks[1..], js[1..], if i > 0 then i - 1 else |ks|);
    }
  }

  /** ks[t] turns are enough for lane t to finish. */
  ghost predicate Enough<L(!new)>(p: Program<L>, w: Warp<L>, launched: set<nat>, ks: seq<nat>)
  {
    && |ks| == |w.threads|
    && forall t :: t in launched ==> t < |w.threads| && p.RunAloneFor(t, w.threads[t], ks[t]).pc == NULL_PC
  }

  lemma StepWithoutTurnsPops<L(!new)>(p: Program<L>, w: Warp<L>, launched: set<nat>)
    requires p.Valid() && p.Invariant(w, launched) && w.stack != []
    requires forall t :: t in launched ==> !p.TakesTurn(w, t)
    ensures p.Step(w).stack == w.stack[..|w.stack| - 1] && p.Step(w).threads == w.threads
  {
    var top, threads := w.Top(), p.Executed(w);
    assert top in w.stack;
    forall t | 0 <= t < |threads|
      ensures threads[t] == w.threads[t]
    {
      assert t in top.mask ==> t in launched;
    }
    assert threads == w.threads;
    forall t | t in top.mask
      ensures t in Finished(threads)
    {
      assert !p.TakesTurn(w, t);
    }
    assert top.mask - Finished(threads) == {};
    assert Paths({}, NextPcOf(threads)).Keys == {};
    assert Paths({}, NextPcOf(threads)) == map[];
  }

  ghost function TurnsLeft<L(!new)>(p: Program<L>, w: Warp<L>, launched: set<nat>, ks: seq<nat>): seq<nat>
    requires w.stack != [] && |ks| == |w.threads|
  {
    seq(|ks|, t requires 0 <= t < |ks| => if t in launched && p.TakesTurn(w, t) && ks[t] > 0 then ks[t] - 1 else ks[t])
  }

  lemma EnoughAfterStep<L(!new)>(p: Program<L>, w: Warp<L>, launched: set<nat>, ks: seq<nat>)
    requires p.Valid() && p.Invariant(w, launched) && w.stack != [] && Enough(p, w, launched, ks)
    ensures Enough(p, p.Step(w), launched, TurnsLeft(p, w, launched, ks))
    ensures forall t :: t in launched && p.TakesTurn(w, t) ==> ks[t] > 0
  {
    forall t | t in launched
      ensures p.TakesTurn(w, t) ==> ks[t] > 0
      ensures p.RunAloneFor(t, p.Step(w).threads[t], TurnsLeft(p, w, launched, ks)[t]).pc == NULL_PC
    {
      LaneStepsAlone(p, w, launched, t);
    }
  }

  /** A step uses up a turn of some lane or pops an entry. */
  lemma StepComesCloser<L(!new)>(p: Program<L>, w: Warp<L>, launched: set<nat>, ks: seq<nat>)
    requires p.Valid() && p.Invariant(w, launched) && w.stack != [] && Enough(p, w, launched, ks)
    ensures var js := TurnsLeft(p, w, launched, ks);
            Sum(js) < Sum(ks) || (js == ks && |p.Step(w).stack| < |w.stack|)
  {
    var js := TurnsLeft(p, w, launched, ks);
    EnoughAfterStep(p, w, launched, ks);
    if t :| t in launched && p.TakesTurn(w, t) {
      SumFalls(ks, js, t);
    } else {
      StepWithoutTurnsPops(p, w, launched);
      assert js == ks;
    }
  }

  ghost predicate Drains<L(!new)>(p: Program<L>, w: Warp<L>)
  {
    exists n: nat :: p.Lockstep(w, n).stack == []
  }

  lemma DrainsOneStepEarlier<L(!new)>(p: Program<L>, w: Warp<L>)
    requires w.stack == [] || Drains(p, p.Step(w))
    ensures Drains(p, w)
  {
    if w.stack == [] {
      assert p.Lockstep(w, 0).stack == [];
    } else {
      var n: nat :| p.Lockstep(p.Step(w), n).stack == [];
      assert p.Lockstep(w, n + 1).stack == [];
    }
  }

  /** If every launched lane finishes when run alone, the warp reaches an empty stack. */
  lemma {:induction false} WarpDrains<L(!new)>(p: Program<L>, w: Warp<L>, launched: set<nat>, ks: seq<nat>)
    requires p.Valid() && p.Invariant(w, launched) && Enough(p, w, launched, ks)
    ensures Drains(p, w)
    decreases Sum(ks), |w.stack|
  {
    if w.stack != [] {
      StepKeepsInvariant(p, w, launched);
      EnoughAfterStep(p, w, launched, ks);
      StepComesCloser(p, w, launched, ks);
      WarpDrains(p, p.Step(w), launched, TurnsLeft(p, w, launched, ks));
    }
    DrainsOneStepEarlier(p, w);
  }

  /** With the stack empty every launched lane has finished. */
  lemma DrainedMeansFinished<L(!new)>(p: Program<L>, w: Warp<L>, launched: set<nat>, t: nat)
    requires p.Valid() && p.Invariant(w, launched) && w.stack == [] && t in launched
    ensures w.threads[t].pc == NULL_PC
  {
    assert HomePc(w.stack, t) == NULL_PC;
  }

  // ----- the size of the stack

  ghost predicate Laminar(f: set<set<nat>>)
  {
    forall a, b :: a in f && b in f ==> a !! b || a <= b || b <= a
  }

  lemma LargestProper(f: set<set<nat>>, u: set<nat>) returns (m: set<nat>)
    requires f - {u} != {} && forall a :: a in f ==> a <= u
    ensures m in f && m < u && forall a :: a in f && m <= a ==> a == m || a == u
  {
    var todo := f - {u};
    m :| m in todo;
    assert m in f && m != u;
    todo := todo - {m};
    while todo != {}
      invariant m in f && m < u && todo <= f
      invariant forall a :: a in f && a !in todo && m <= a ==> a == m || a == u
      decreases todo
    {
      var b :| b in todo;
      todo := todo - {b};
      if m < b && b != u {
        m := b;
      }
    }
  }

  /** Sets over w elements of which any two are disjoint or nested are at most 2w - 1. */
  lemma {:induction false} LaminarBound(f: set<set<nat>>, u: set<nat>)
    requires Laminar(f) && u != {} && forall a :: a in f ==> a != {} && a <= u
    ensures |f| <= 2 * |u| - 1
    decreases |u|
  {
    if f - {u} == {} {
      assert f <= {u};
      assert |f| <= |{u}| by {
        assert {u} == f + ({u} - f);
      }
    } else {
      var m := LargestProper(f, u);
      var inside, outside := set a | a in f && a <= m, set a | a in f && a <= u - m;
      assert u == m + (u - m);
      assert |u| == |m| + |u - m|;
      assert m != {} && u - m != {};
      LaminarBound(inside, m);
      LaminarBound(outside, u - m);
      forall a | a in f
        ensures a in inside + outside + {u}
      {
        assert a !! m || a <= m || m <= a;
      }
      SubsetSize(f, inside + outside + {u});
      assert |inside + outside + {u}| <= |inside| + |outside| + 1;
    }
  }

  lemma SubsetSize<T>(a: set<T>, b: set<T>)
    requires a <= b
    ensures |a| <= |b|
  {
    assert b == a + (b - a);
  }

  ghost function Masks(stack: seq<Entry>): set<set<nat>>
  {
    set e | e in stack :: e.mask
  }

  ghost predicate Nested(stack: seq<Entry>)
  {
    && (forall i :: 0 <= i < |stack| ==> stack[i].mask != {})
    && forall i, j :: 0 <= i < j < |stack| ==> stack[i].mask !! stack[j].mask || stack[j].mask < stack[i].mask
  }

  /** Any two masks are disjoint or the upper is strictly inside the lower. */
  lemma OneEntryMore(stack: seq<Entry>)
    requires stack != [] && Nested(stack[..|stack| - 1]) && NestedOn(stack[..|stack| - 1], stack[|stack| - 1])
    ensures Nested(stack)
  {
    var below := stack[..|stack| - 1];
    forall i, j | 0 <= i < j < |stack|
      ensures stack[i].mask !! stack[j].mask || stack[j].mask < stack[i].mask
    {
      assert stack[i] == below[i];
      if j < |below| {
        assert stack[j] == below[j];
      }
    }
  }

  lemma TopFits(stack: seq<Entry>)
    requires WellStacked(stack) && stack != []
    ensures WellStacked(stack[..|stack| - 1]) && NestedOn(stack[..|stack| - 1], stack[|stack| - 1])
  {
    hide NestedOn, LinkedTo;
  }

  lemma {:induction false} MasksAreNested(stack: seq<Entry>)
    requires WellStacked(stack)
    ensures Nested(stack)
  {
    if stack != [] {
      TopFits(stack);
      hide Nested, NestedOn, LinkedTo, WellStacked;
      MasksAreNested(stack[..|stack| - 1]);
      OneEntryMore(stack);
    }
  }

  lemma {:induction false} NestedMasksAreDistinct(stack: seq<Entry>)
    requires Nested(stack)
    ensures |Masks(stack)| == |stack|
  {
    if stack != [] {
      var n := |stack| - 1;
      NestedMasksAreDistinct(stack[..n]);
      assert stack == stack[..n] + [stack[n]];
      assert Masks(stack) == Masks(stack[..n]) + {stack[n].mask};
      forall i | 0 <= i < n
        ensures stack[i].mask != stack[n].mask
      {
        assert stack[n].mask != {};
      }
      assert stack[n].mask !in Masks(stack[..n]);
    }
  }

  lemma NestedMasksAreLaminar(stack: seq<Entry>)
    requires Nested(stack)
    ensures Laminar(Masks(stack))
  {
    forall a, b | a in Masks(stack) && b in Masks(stack)
      ensures a !! b || a <= b || b <= a
    {
      var i :| 0 <= i < |stack| && stack[i].mask == a;
      var j :| 0 <= j < |stack| && stack[j].mask == b;
      if i > j {
        assert stack[j].mask !! stack[i].mask || stack[i].mask < stack[j].mask;
      }
    }
  }

  /** No reachable stack of a warp of w launched lanes is deeper than 2w - 1. */
  lemma StackStaysSmall<L(!new)>(p: Program<L>, startPc: int, mask: set<nat>, threads: seq<Thread<L>>, n: nat)
    requires Launchable(p, startPc, mask, threads)
    ensures Nested(p.Lockstep(Launched(startPc, mask, threads), n).stack)
    ensures |p.Lockstep(Launched(startPc, mask, threads), n).stack| <= 2 * |mask| - 1
    ensures |mask| <= |threads|
  {
    var w := Launched(startPc, mask, threads);
    LaunchHoldsInvariant(p, startPc, mask, threads);
    InvariantOverRuns(p, w, mask, n);
    var stack := p.Lockstep(w, n).stack;
    MasksAreNested(stack);
    NestedMasksAreDistinct(stack);
    NestedMasksAreLaminar(stack);
    LaminarBound(Masks(stack), mask);
    LanesFit(mask, |threads|);
  }

  lemma {:induction false} LanesFit(mask: set<nat>, n: nat)
    requires LanesBelow(mask, n)
    ensures |mask| <= n
    decreases n
  {
    if n == 0 {
      assert mask == {};
    } else {
      LanesFit(mask - {n - 1}, n - 1);
      SubsetSize(mask, (mask - {n - 1}) + {n - 1});
    }
  }

  // ----- a program with a branch

  /** Even lanes take one side, odd lanes the other, and both meet before the end. */
  ghost function Diamond(): Program<int>
  {
    Program([{1, 2}, {3}, {3}, {4}, {}], [3, 3, 3, 4], 9, [1, 3, 3, NULL_PC],
            (pc: int, lane: nat, local: int) =>
              Thread(if pc == 0 then (if lane % 2 == 0 then 1 else 2) else if pc == 3 then NULL_PC else 3, local))
  }

  ghost function DiamondGraph(): Graph
  {
    [{1, 2}, {3}, {3}, {4}, {}]
  }

  lemma DiamondReaches()
    ensures AllReach(DiamondGraph(), 4)
  {
    var g := DiamondGraph();
    assert IsPath(g, [0, 1, 3, 4], 0, 4) && IsPath(g, [1, 3, 4], 1, 4) && IsPath(g, [2, 3, 4], 2, 4)
           && IsPath(g, [3, 4], 3, 4) && IsPath(g, [4], 4, 4);
    forall b | 0 <= b < 5
      ensures Reaches(g, b, 4)
    {
    }
  }

  /** The two sides of the branch meet in block 3. */
  lemma DiamondMeets()
    ensures var g := DiamondGraph();
            Closest(g, 4, 3, 0) && Closest(g, 4, 3, 1) && Closest(g, 4, 3, 2) && Closest(g, 4, 4, 3)
  {
    hide Closest;
    var g := DiamondGraph();
    OnlySuccessor(g, 4, 1, 3);
    OnlySuccessor(g, 4, 2, 3);
    OnlySuccessor(g, 4, 3, 4);
    BranchMeets(g, 4, 0, 1, 2, 3);
  }

  lemma BranchMeets(g: Graph, root: nat, b: nat, s: nat, t: nat, m: nat)
    requires b < |g| && s < |g| && t < |g| && m < |g| && b != root && b != m && s != t && s != m && t != m && b != s
             && b != t
    requires s != root && t != root && g[b] == {s, t} && g[s] == {m} && g[t] == {m}
    ensures Closest(g, root, m, b)
  {
    OnlySuccessor(g, root, s, m);
    OnlySuccessor(g, root, t, m);
    NeighboursDecide(g, root, m, b);
    forall d: nat | StrictlyOnEveryPath(g, root, d, b)
      ensures OnEveryPath(g, root, d, m)
    {
      StrictHoldsAtNeighbour(g, root, d, b, s);
      StrictHoldsAtNeighbour(g, root, d, b, t);
      StrictHoldsAtNeighbour(g, root, d, if d == s then t else s, m);
    }
  }

  /** The preconditions of the theorems above can be met, with a branch that splits the warp. */
  lemma DiamondCanBeLaunched()
    ensures Launchable(Diamond(), 0, {0, 1}, [Thread(0, 7), Thread(0, 7)])
  {
    hide Closest, AllReach;
    DiamondReaches();
    DiamondMeets();
    var p := Diamond();
    assert p.next == DiamondGraph() && p.Exit() == 4;
    forall b | 0 <= b < 4
      ensures Closest(p.next, 4, p.ipdom[b], b)
    {
    }
  }
}
