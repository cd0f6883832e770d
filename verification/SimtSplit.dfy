/** Which entry an update leaves where: the order of the sides of a split, and the stack after an
    update spelled out by the next pcs of the live lanes. */
module SimtSplit {
  import opened SimtStack

  /** The place from which on the paths go by pc. */
  function ByPcFrom(paths: map<int, set<nat>>, notTaken: int): nat
  {
    if notTaken in paths then 1 else 0
  }

  ghost predicate IsListed(paths: map<int, set<nat>>, x: Path)
  {
    x.pc in paths && x.mask == paths[x.pc]
  }

  /** Every path is listed once, the fall-through path first and the others by ascending pc. */
  lemma {:induction false} FallThroughFirst(paths: map<int, set<nat>>, notTaken: int)
    ensures var order := Ordered(paths, notTaken);
            && |order| == |paths| && (forall i :: 0 <= i < |order| ==> IsListed(paths, order[i]))
            && (forall i, j :: 0 <= i < j < |order| ==> order[i].pc != order[j].pc)
            && (notTaken in paths ==> |order| > 0 && order[0].pc == notTaken)
            && forall i, j :: ByPcFrom(paths, notTaken) <= i < j < |order| ==> order[i].pc < order[j].pc
    decreases |paths|
  {
    if paths != map[] {
      var p := Front(paths, notTaken);
      var rest := Without(paths, p);
      FallThroughFirst(rest, notTaken);
      var order, later := Ordered(paths, notTaken), Ordered(rest, notTaken);
      assert order == [Path(p, paths[p])] + later;
      forall i | 0 <= i < |later|
        ensures IsListed(paths, later[i]) && later[i].pc != p
      {
        assert IsListed(rest, later[i]);
      }
    }
  }

  // ----- the stack after an update

  ghost function Live(stack: seq<Entry>, done: set<nat>): set<nat>
    requires stack != []
  {
    stack[|stack| - 1].mask - done
  }

  lemma PathsAt(live: set<nat>, nextPc: seq<int>)
    ensures Paths(live, nextPc).Keys == NextPcs(live, nextPc) && |Paths(live, nextPc)| == |NextPcs(live, nextPc)|
  {
    assert Paths(live, nextPc).Keys == NextPcs(live, nextPc);
    assert |Paths(live, nextPc)| == |Paths(live, nextPc).Keys|;
  }

  /** When all lanes of the top entry are done it goes. */
  lemma NobodyGoesOn(stack: seq<Entry>, done: set<nat>, nextPc: seq<int>, recvgPc: int, notTaken: int)
    requires stack != [] && NextPcs(Live(stack, done), nextPc) == {}
    ensures Updated(stack, done, nextPc, recvgPc, notTaken) == stack[..|stack| - 1]
  {
    PathsAt(Live(stack, done), nextPc);
    assert Ordered(Paths(Live(stack, done), nextPc), notTaken) == [];
    NothingAway(stack[|stack| - 1].recvg);
  }

  lemma AwayOne(x: Path, pc: int)
    ensures Away([x], pc) == if x.pc == pc then [] else [x]
  {
    assert [] + [x] == [x];
    AwayOneMore([], x, pc);
  }

  lemma AwayTwo(x: Path, y: Path, pc: int)
    ensures Away([x, y], pc) == (if x.pc == pc then [] else [x]) + (if y.pc == pc then [] else [y])
  {
    AwayOne(x, pc);
    assert [x] + [y] == [x, y];
    AwayOneMore([x], y, pc);
  }

  /** When all live lanes go to one pc the top entry moves there with these lanes, or goes if that
      is where it reconverges. */
  lemma TogetherTheyMove(stack: seq<Entry>, done: set<nat>, nextPc: seq<int>, recvgPc: int, notTaken: int, p: int)
    requires stack != [] && NextPcs(Live(stack, done), nextPc) == {p}
    ensures var top := stack[|stack| - 1];
            Updated(stack, done, nextPc, recvgPc, notTaken)
            == stack[..|stack| - 1]
               + if p == top.recvg then [] else [Entry(p, LanesTo(Live(stack, done), nextPc, p), top.recvg)]
  {
    hide Ordered, Paths, NextPcs, LanesTo, Away;
    var live, top := Live(stack, done), stack[|stack| - 1];
    var x := Path(p, LanesTo(live, nextPc, p));
    OneInOrder(live, nextPc, notTaken, p);
    AwayOne(x, top.recvg);
    assert Entries([x], top.recvg) == [Entry(p, x.mask, top.recvg)];
  }

  lemma OneInOrder(live: set<nat>, nextPc: seq<int>, notTaken: int, p: int)
    requires NextPcs(live, nextPc) == {p}
    ensures Ordered(Paths(live, nextPc), notTaken) == [Path(p, LanesTo(live, nextPc, p))]
  {
    hide Ordered;
    PathsAt(live, nextPc);
    FallThroughFirst(Paths(live, nextPc), notTaken);
    assert |{p}| == 1 && IsListed(Paths(live, nextPc), Ordered(Paths(live, nextPc), notTaken)[0]);
  }

  /** The entry of one side of a split; a side that has arrived at the branch's reconvergence pc, or
      at its entry's, has none. */
  ghost function Side(top: Entry, lanes: set<nat>, pc: int, recvgPc: int): seq<Entry>
  {
    if pc == top.recvg || pc == recvgPc then [] else [Entry(pc, lanes, recvgPc)]
  }

  /** The fall-through side is first, or the one of the smaller pc if neither side falls through. */
  predicate ComesFirst(p: int, q: int, notTaken: int)
  {
    p != q && (p == notTaken || (q != notTaken && p < q))
  }

  /** When the live lanes split, the entry waits at the reconvergence pc, unless that is its own
      already; above it lies the fall-through side and on top, to run next, the other. */
  lemma SplitsAreStacked(stack: seq<Entry>, done: set<nat>, nextPc: seq<int>, recvgPc: int, notTaken: int, p: int,
                         q: int)
    requires stack != [] && NextPcs(Live(stack, done), nextPc) == {p, q} && ComesFirst(p, q, notTaken)
    ensures var top, live := stack[|stack| - 1], Live(stack, done);
            Updated(stack, done, nextPc, recvgPc, notTaken)
            == stack[..|stack| - 1] + (if recvgPc == top.recvg then [] else [Entry(recvgPc, top.mask, top.recvg)])
               + Side(top, LanesTo(live, nextPc, p), p, recvgPc) + Side(top, LanesTo(live, nextPc, q), q, recvgPc)
  {
    hide Ordered, Away, Paths, LanesTo, NextPcs, Entries, Replacement, Side;
    var live, top := Live(stack, done), stack[|stack| - 1];
    var x, y := Path(p, LanesTo(live, nextPc, p)), Path(q, LanesTo(live, nextPc, q));
    TwoInOrder(live, nextPc, notTaken, p, q);
    assert |[x, y]| == 2;
    ReplacedBySides(top, x, y, recvgPc);
    assert Updated(stack, done, nextPc, recvgPc, notTaken)
        == stack[..|stack| - 1] + Replacement(top, [x, y], true, recvgPc);
  }

  lemma TwoInOrder(live: set<nat>, nextPc: seq<int>, notTaken: int, p: int, q: int)
    requires NextPcs(live, nextPc) == {p, q} && ComesFirst(p, q, notTaken)
    ensures Ordered(Paths(live, nextPc), notTaken)
         == [Path(p, LanesTo(live, nextPc, p)), Path(q, LanesTo(live, nextPc, q))]
  {
    hide Ordered;
    var paths := Paths(live, nextPc);
    PathsAt(live, nextPc);
    FallThroughFirst(paths, notTaken);
    var order := Ordered(paths, notTaken);
    assert |{p, q}| == 2;
    assert IsListed(paths, order[0]) && IsListed(paths, order[1]);
    assert order[0].pc == p && order[1].pc == q;
  }

  lemma ReplacedBySides(top: Entry, x: Path, y: Path, recvgPc: int)
    requires x.pc != y.pc
    ensures Replacement(top, [x, y], true, recvgPc)
         == (if recvgPc == top.recvg then [] else [Entry(recvgPc, top.mask, top.recvg)])
            + Side(top, x.mask, x.pc, recvgPc) + Side(top, y.mask, y.pc, recvgPc)
  {
    AwayTwo(x, y, top.recvg);
    var kept := Away([x, y], top.recvg);
    AwayOne(x, recvgPc);
    AwayOne(y, recvgPc);
    AwayTwo(x, y, recvgPc);
    hide Away;
    assert kept == if x.pc == top.recvg then [y] else if y.pc == top.recvg then [x] else [x, y];
    if recvgPc == top.recvg {
      assert Entries(kept, top.recvg) == Side(top, x.mask, x.pc, recvgPc) + Side(top, y.mask, y.pc, recvgPc);
    } else {
      assert Entries(Away(kept, recvgPc), recvgPc)
          == Side(top, x.mask, x.pc, recvgPc) + Side(top, y.mask, y.pc, recvgPc);
    }
  }
}
