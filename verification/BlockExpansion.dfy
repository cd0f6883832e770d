/** From basic blocks to instructions: a block's instructions run one after the other, and its last
    one goes to the first instructions of the successor blocks.  Immediate postdominators of blocks
    give those of instructions, so what assembly computes makes a program that the reconvergence
    stack executes faithfully. */
module BlockExpansion {
  import opened ControlFlow
  import opened SimtExecution
  import PtxIr

  // ----- where blocks lie

  /** The lengths of the blocks.  The exit block has no instruction; one place stands for it. */
  ghost predicate IsLayout(lens: seq<nat>, n: nat)
  {
    |lens| == n > 0 && lens[n - 1] == 1 && forall b :: 0 <= b < n ==> lens[b] > 0
  }

  ghost function First(lens: seq<nat>, b: nat): nat
    requires b <= |lens|
  {
    if b == 0 then 0 else First(lens, b - 1) + lens[b - 1]
  }

  ghost function Total(lens: seq<nat>): nat
  {
    First(lens, |lens|)
  }

  lemma {:induction false} FirstGrows(lens: seq<nat>, a: nat, b: nat)
    requires a < b <= |lens|
    ensures First(lens, a) + lens[a] <= First(lens, b)
  {
    if a < b - 1 {
      FirstGrows(lens, a, b - 1);
    }
  }

  ghost predicate IsIn(lens: seq<nat>, b: nat, i: nat)
  {
    b < |lens| && First(lens, b) <= i < First(lens, b) + lens[b]
  }

  ghost function BlockAmong(lens: seq<nat>, n: nat, i: nat): (b: nat)
    requires n <= |lens| && i < First(lens, n)
    ensures b < n && IsIn(lens, b, i)
  {
    if First(lens, n - 1) <= i then n - 1 else BlockAmong(lens, n - 1, i)
  }

  ghost function BlockOf(lens: seq<nat>, i: nat): (b: nat)
    requires i < Total(lens)
    ensures IsIn(lens, b, i)
  {
    BlockAmong(lens, |lens|, i)
  }

  lemma OneBlockHolds(lens: seq<nat>, b: nat, i: nat)
    requires IsIn(lens, b, i)
    ensures i < Total(lens) && BlockOf(lens, i) == b
  {
    hide First;
    FirstGrows(lens, b, |lens|);
    var a := BlockOf(lens, i);
    if a < b {
      FirstGrows(lens, a, b);
    } else if b < a {
      FirstGrows(lens, b, a);
    }
  }

  ghost function Last(lens: seq<nat>, b: nat): int
    requires b < |lens|
  {
    First(lens, b) + lens[b] - 1
  }

  // ----- the graph over instructions

  ghost function Starts(lens: seq<nat>, blocks: set<nat>): set<nat>
  {
    set s | s in blocks && s < |lens| :: First(lens, s)
  }

  ghost function Expanded(g: Graph, lens: seq<nat>): (e: Graph)
    requires IsLayout(lens, |g|)
    ensures |e| == Total(lens)
  {
    seq(Total(lens), i requires 0 <= i < Total(lens) =>
      var b := BlockOf(lens, i);
      if i < Last(lens, b) then {i + 1} else Starts(lens, g[b]))
  }

  lemma ExitIsLast(lens: seq<nat>, n: nat)
    requires IsLayout(lens, n)
    ensures First(lens, n - 1) == Last(lens, n - 1) == Total(lens) - 1
  {
  }

  lemma ExpansionIsWellFormed(g: Graph, lens: seq<nat>)
    requires IsLayout(lens, |g|) && WellFormed(g)
    ensures WellFormed(Expanded(g, lens))
  {
    hide First;
    var e := Expanded(g, lens);
    forall i, j | 0 <= i < |e| && j in e[i]
      ensures j < |e|
    {
      var b := BlockOf(lens, i);
      FirstGrows(lens, b, |lens|);
      if i >= Last(lens, b) {
        var s :| s in g[b] && s < |lens| && j == First(lens, s);
        FirstGrows(lens, s, |lens|);
      }
    }
  }

  /** The two kinds of edges. */
  lemma EdgesOf(g: Graph, lens: seq<nat>, b: nat, i: nat)
    requires IsLayout(lens, |g|) && IsIn(lens, b, i)
    ensures i < Total(lens)
    ensures Expanded(g, lens)[i] == if i < Last(lens, b) then {i + 1} else Starts(lens, g[b])
  {
    OneBlockHolds(lens, b, i);
  }

  // ----- paths downwards: from instructions to blocks

  /** A block on every path makes all its instructions be on every path that has not passed them. */
  lemma {:induction false} Visits(g: Graph, lens: seq<nat>, p: seq<nat>, b: nat, i: nat, d: nat, x: nat)
    requires IsLayout(lens, |g|) && WellFormed(g) && IsIn(lens, b, i) && IsIn(lens, d, x)
    requires IsPath(Expanded(g, lens), p, i, Total(lens) - 1)
    requires OnEveryPath(g, |g| - 1, d, b) && (d != b || i <= x)
    ensures x in p
    decreases |p|
  {
    hide First, OnEveryPath, Expanded, Starts;
    var root := |g| - 1;
    ExitIsLast(lens, |g|);
    if i == x {
      assert p[0] == x;
    } else if i == Total(lens) - 1 {
      OneBlockHolds(lens, b, i);
      OneBlockHolds(lens, root, i);
      OnlyRootAtRoot(g, root, d);
      assert false;
    } else {
      EdgesOf(g, lens, b, i);
      assert p[1] in Expanded(g, lens)[p[0]];
      PathSuffix(Expanded(g, lens), p, i, Total(lens) - 1, 1);
      if i < Last(lens, b) {
        assert p[1] == i + 1;
        Visits(g, lens, p[1..], b, i + 1, d, x);
      } else {
        var s := StartedBlock(lens, g[b], p[1]);
        StrictHoldsAtNeighbour(g, root, d, b, s);
        Visits(g, lens, p[1..], s, p[1], d, x);
      }
    }
  }

  lemma StartedBlock(lens: seq<nat>, blocks: set<nat>, i: nat) returns (s: nat)
    requires i in Starts(lens, blocks) && forall b :: 0 <= b < |lens| ==> lens[b] > 0
    ensures s in blocks && s < |lens| && i == First(lens, s) && IsIn(lens, s, i)
  {
    s :| s in blocks && s < |lens| && i == First(lens, s);
  }

  // ----- paths upwards: from blocks to instructions

  /** The instructions of a block lead to its last one. */
  lemma {:induction false} RunsToLast(g: Graph, lens: seq<nat>, p: seq<nat>, b: nat, i: nat) returns (q: seq<nat>)
    requires IsLayout(lens, |g|) && IsIn(lens, b, i)
    requires IsPath(Expanded(g, lens), p, Last(lens, b), Total(lens) - 1)
    ensures IsPath(Expanded(g, lens), q, i, Total(lens) - 1)
    ensures forall y :: y in q ==> y in p || IsIn(lens, b, y)
    decreases Last(lens, b) - i
  {
    hide First, Expanded;
    if i == Last(lens, b) {
      q := p;
    } else {
      q := RunsToLast(g, lens, p, b, i + 1);
      EdgesOf(g, lens, b, i);
      PathHead(Expanded(g, lens), q, i, i + 1, Total(lens) - 1);
      q := [i] + q;
    }
  }

  /** A path over blocks is one over instructions, from the last of its first block on. */
  lemma {:induction false} Lifted(g: Graph, lens: seq<nat>, q: seq<nat>, b: nat) returns (p: seq<nat>)
    requires IsLayout(lens, |g|) && WellFormed(g) && IsPath(g, q, b, |g| - 1)
    ensures IsPath(Expanded(g, lens), p, Last(lens, b), Total(lens) - 1)
    ensures forall y :: y in p ==> y == Last(lens, b) || exists d :: d in q[1..] && IsIn(lens, d, y)
    decreases |q|
  {
    hide First, Expanded;
    var last: nat := Last(lens, b);
    assert IsIn(lens, b, last);
    EdgesOf(g, lens, b, last);
    if |q| == 1 {
      ExitIsLast(lens, |g|);
      p := [last];
    } else {
      var s := q[1];
      assert s in g[q[0]];
      PathSuffix(g, q, b, |g| - 1, 1);
      p := Lifted(g, lens, q[1..], s);
      var onwards := p;
      p := RunsToLast(g, lens, onwards, s, First(lens, s));
      forall y | y in p
        ensures exists d :: d in q[1..] && IsIn(lens, d, y)
      {
        LiesInBlocks(lens, q, s, onwards, y);
      }
      PathHead(Expanded(g, lens), p, last, First(lens, s), Total(lens) - 1);
      p := [last] + p;
    }
  }

  lemma LiesInBlocks(lens: seq<nat>, q: seq<nat>, s: nat, onwards: seq<nat>, y: nat)
    requires |q| > 1 && s == q[1] && s < |lens| && lens[s] > 0
    requires y in onwards || IsIn(lens, s, y)
    requires forall y :: y in onwards ==> y == Last(lens, s) || exists d :: d in q[1..][1..] && IsIn(lens, d, y)
    ensures exists d :: d in q[1..] && IsIn(lens, d, y)
  {
    hide First;
    assert s in q[1..];
    if y in onwards && y != Last(lens, s) {
      var d :| d in q[1..][1..] && IsIn(lens, d, y);
      assert d in q[1..];
    } else {
      assert IsIn(lens, s, y);
    }
  }

  /** A path that does not come back to where it starts. */
  lemma {:induction false} NotComingBack(g: Graph, p: seq<nat>, b: nat, root: nat) returns (q: seq<nat>)
    requires IsPath(g, p, b, root)
    ensures IsPath(g, q, b, root) && b !in q[1..]
    decreases |p|
  {
    if i :| 1 <= i < |p| && p[i] == b {
      PathSuffix(g, p, b, root, i);
      q := NotComingBack(g, p[i..], b, root);
    } else {
      q := p;
    }
  }

  lemma ExpansionReaches(g: Graph, lens: seq<nat>)
    requires IsLayout(lens, |g|) && WellFormed(g) && AllReach(g, |g| - 1)
    ensures AllReach(Expanded(g, lens), Total(lens) - 1)
  {
    hide First, Expanded;
    var e, exit := Expanded(g, lens), Total(lens) - 1;
    forall i | 0 <= i < |e|
      ensures Reaches(e, i, exit)
    {
      var b := BlockOf(lens, i);
      assert Reaches(g, b, |g| - 1);
      var q :| IsPath(g, q, b, |g| - 1);
      var p := Lifted(g, lens, q, b);
      p := RunsToLast(g, lens, p, b, i);
    }
  }

  /** What is on every path from the last instruction of a block lies in a block on every path, and
      not in the block itself. */
  lemma BlockOnEveryPath(g: Graph, lens: seq<nat>, b: nat, x: nat)
    requires IsLayout(lens, |g|) && WellFormed(g) && b < |g| && Reaches(g, b, |g| - 1)
    requires x < Total(lens) && StrictlyOnEveryPath(Expanded(g, lens), Total(lens) - 1, x, Last(lens, b))
    ensures StrictlyOnEveryPath(g, |g| - 1, BlockOf(lens, x), b)
  {
    hide First, Expanded;
    var root, d := |g| - 1, BlockOf(lens, x);
    forall q | IsPath(g, q, b, root)
      ensures d in q[1..]
    {
      var p := Lifted(g, lens, q, b);
      assert x in p;
      var d' :| d' in q[1..] && IsIn(lens, d', x);
      OneBlockHolds(lens, d', x);
    }
    var some :| IsPath(g, some, b, root);
    var q := NotComingBack(g, some, b, root);
    assert d in q[1..];
  }

  /** The closest strict postdominator of a block gives that of the block's last instruction: its
      own first instruction. */
  lemma ClosestExpands(g: Graph, lens: seq<nat>, b: nat, c: nat)
    requires IsLayout(lens, |g|) && WellFormed(g) && b < |g| && Reaches(g, b, |g| - 1)
    requires Closest(g, |g| - 1, c, b)
    ensures Closest(Expanded(g, lens), Total(lens) - 1, First(lens, c), Last(lens, b))
  {
    hide First, Expanded, OnEveryPath;
    var e, root, exit := Expanded(g, lens), |g| - 1, Total(lens) - 1;
    var start, last: nat := First(lens, c), Last(lens, b);
    assert IsIn(lens, c, start) && IsIn(lens, b, last);
    OneBlockHolds(lens, c, start);
    OneBlockHolds(lens, b, last);
    VisitedFrom(g, lens, b, last, c, start);
    forall x | StrictlyOnEveryPath(e, exit, x, last)
      ensures OnEveryPath(e, exit, x, start)
    {
      var d := BlockOf(lens, x);
      BlockOnEveryPath(g, lens, b, x);
      VisitedFrom(g, lens, c, start, d, x);
    }
  }

  lemma VisitedFrom(g: Graph, lens: seq<nat>, b: nat, i: nat, d: nat, x: nat)
    requires IsLayout(lens, |g|) && WellFormed(g) && IsIn(lens, b, i) && IsIn(lens, d, x)
    requires OnEveryPath(g, |g| - 1, d, b) && (d != b || i <= x)
    ensures OnEveryPath(Expanded(g, lens), Total(lens) - 1, x, i)
  {
    forall p | IsPath(Expanded(g, lens), p, i, Total(lens) - 1)
      ensures x in p
    {
      Visits(g, lens, p, b, i, d, x);
    }
  }

  /** Instructions inside a block have the next one as their closest. */
  lemma ClosestInside(g: Graph, lens: seq<nat>, b: nat, i: nat)
    requires IsLayout(lens, |g|) && IsIn(lens, b, i) && i < Last(lens, b)
    ensures Closest(Expanded(g, lens), Total(lens) - 1, i + 1, i)
  {
    hide First, Expanded;
    EdgesOf(g, lens, b, i);
    OneBlockHolds(lens, b, i + 1);
    OnlySuccessor(Expanded(g, lens), Total(lens) - 1, i, i + 1);
  }

  /** An edge into the first instruction comes from a predecessor of the entry block. */
  lemma EdgesToTheStart(g: Graph, preds: Graph, lens: seq<nat>, i: nat)
    requires IsLayout(lens, |g|) && WellFormed(g) && Inverse(preds, g) && i < Total(lens)
    requires 0 in Expanded(g, lens)[i]
    ensures preds[0] != {}
  {
    var b := BlockOf(lens, i);
    EdgesOf(g, lens, b, i);
    var s := StartedBlock(lens, g[b], 0);
    assert s == 0;
    assert b in preds[0];
  }

  // ----- the program

  ghost predicate AreBlockPdoms(g: Graph, ipdom: seq<int>)
  {
    |ipdom| == |g| && forall b :: 0 <= b < |g| - 1 ==> 0 <= ipdom[b] && Closest(g, |g| - 1, ipdom[b], b)
  }

  /** Where each instruction reconverges: the last one of a block at the start of the block's
      immediate postdominator, any other at the next instruction. */
  ghost function InstructionPdoms(g: Graph, lens: seq<nat>, ipdom: seq<int>): (r: seq<nat>)
    requires IsLayout(lens, |g|) && AreBlockPdoms(g, ipdom)
    ensures |r| == Total(lens) - 1
  {
    seq(Total(lens) - 1, i requires 0 <= i < Total(lens) - 1 =>
      var b := BlockOf(lens, i);
      if i < Last(lens, b) then i + 1
      else if b < |g| - 1 then First(lens, ipdom[b]) else 0)
  }

  lemma PdomsAreClosest(g: Graph, lens: seq<nat>, ipdom: seq<int>, i: nat)
    requires IsLayout(lens, |g|) && WellFormed(g) && AllReach(g, |g| - 1) && AreBlockPdoms(g, ipdom)
             && i < Total(lens) - 1
    ensures Closest(Expanded(g, lens), Total(lens) - 1, InstructionPdoms(g, lens, ipdom)[i], i)
  {
    hide First, Expanded, Closest;
    var b := BlockOf(lens, i);
    ExitIsLast(lens, |g|);
    if i < Last(lens, b) {
      ClosestInside(g, lens, b, i);
    } else {
      assert b < |g| - 1;
      assert Reaches(g, b, |g| - 1);
      ClosestExpands(g, lens, b, ipdom[b]);
    }
  }

  /** Every function that assembly lets through is a program for the theorems on the stack, provided
      each block reaches the exit.  Instructions are numbered from the start of the function.  The pc
      that stands for the exit is the bottom of a kernel's call stack, the first pc of all: it lies
      before the function, or is its first instruction, and then the assertion on dominators has
      made sure that nothing jumps there. */
  lemma AssembledIsProgram<L(!new)>(g: Graph, preds: Graph, lens: seq<nat>, ipdom: seq<int>, p: Program<L>)
    requires |g| >= 2 && WellFormed(g) && Inverse(preds, g) && IsLayout(lens, |g|)
    requires AllReach(g, |g| - 1) && AreBlockPdoms(g, ipdom)
    requires p.next == Expanded(g, lens) && p.ipdom == InstructionPdoms(g, lens, ipdom) && |p.fallThrough| == |p.ipdom|
    requires p.returnPc <= 0 && preds[0] == {}
    requires forall pc, lane, local :: p.IsInstruction(pc) ==> p.GoesOn(pc, p.exec(pc, lane, local))
    ensures p.Valid()
  {
    hide First, Closest, Expanded, AllReach;
    ExitIsLast(lens, |g|);
    FirstGrows(lens, 0, |g| - 1);
    ExpansionIsWellFormed(g, lens);
    ExpansionReaches(g, lens);
    forall i | 0 <= i < p.Exit()
      ensures Closest(p.next, p.Exit(), p.ipdom[i], i)
      ensures forall s :: s in p.next[i] ==> s != p.returnPc
    {
      PdomsAreClosest(g, lens, ipdom, i);
      if 0 in p.next[i] {
        EdgesToTheStart(g, preds, lens, i);
      }
    }
  }

  /** Assembling a function of which each block reaches the exit either stops at the assertion on
      dominators, which it does exactly when the entry block has a predecessor, or gives the
      program's reconvergence points. */
  method Assembled<L(!new)>(f: PtxIr.FunctionInfo, ghost lens: seq<nat>, ghost code: Program<L>)
    returns (asserted: bool, ghost p: Program<L>)
    requires f.Valid() && AllReach(f.successorIds, |f.successorIds| - 1) && IsLayout(lens, |f.successorIds|)
    requires code.next == Expanded(f.successorIds, lens) && |code.fallThrough| == |code.next| - 1 && code.returnPc <= 0
    requires forall pc, lane, local :: code.IsInstruction(pc) ==> code.GoesOn(pc, code.exec(pc, lane, local))
    modifies f
    ensures asserted <==> f.predecessorIds[0] == {}
    ensures asserted ==> p == code.(ipdom := p.ipdom) && p.Valid()
    ensures asserted ==> AreBlockPdoms(f.successorIds, f.immediatePostdominatorId)
                         && p.ipdom == InstructionPdoms(f.successorIds, lens, f.immediatePostdominatorId)
  {
    asserted := f.Assemble();
    PtxIr.AllReachingAreAccepted(f.successorIds, |f.successorIds| - 1);
    ghost var g := f.successorIds;
    p := code.(ipdom := InstructionPdoms(g, lens, f.immediatePostdominatorId));
    if asserted {
      hide Expanded, AllReach, Closest;
      AssembledIsProgram(g, f.predecessorIds, lens, f.immediatePostdominatorId, p);
    }
  }
}
