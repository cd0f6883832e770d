/** Dominators and postdominators of the basic blocks of a PTX function.

    Blocks are numbered 0 to n-1; block 0 is the entry and block n-1 the one exit block.  Each
    per-block set of the program is one column here, indexed by block number.
 */
module PtxIr {
  import opened ControlFlow
  import opened Ordering

  function AllBlocks(n: nat): (s: set<nat>)
    ensures forall d :: d in s <==> 0 <= d < n
  {
    if n == 0 then {} else AllBlocks(n - 1) + {n - 1}
  }

  ghost function TotalSize(sets: seq<set<nat>>): nat
  {
    if sets == [] then 0 else |sets[0]| + TotalSize(sets[1..])
  }

  lemma {:induction false} ShrinkingOneShrinksTotal(sets: seq<set<nat>>, h: nat, t: set<nat>)
    requires h < |sets| && t < sets[h]
    ensures TotalSize(sets[h := t]) < TotalSize(sets)
  {
    if h == 0 {
      assert sets[0 := t][1..] == sets[1..];
      assert |sets[0]| == |t| + |sets[0] - t|;
    } else {
      assert sets[h := t][1..] == sets[1..][h - 1 := t];
      ShrinkingOneShrinksTotal(sets[1..], h - 1, t);
    }
  }

  /** What holds between updates: nothing that lies on every path is lost, and each set still
      contains what its equation would give. */
  ghost predicate Descending(g: Graph, root: nat, sets: seq<set<nat>>)
    requires WellFormed(g)
  {
    && root < |g| && Complete(g, root, sets) && sets[root] == {root}
    && forall b :: 0 <= b < |g| && b != root ==> Meet(g, sets, b) <= sets[b]
  }

  lemma StartDescends(g: Graph, root: nat, sets: seq<set<nat>>)
    requires WellFormed(g) && root < |g| && |sets| == |g|
    requires forall b :: 0 <= b < |g| ==> sets[b] == if b == root then {root} else AllBlocks(|g|)
    ensures Descending(g, root, sets)
  {
    forall d | d in PostdominatorSet(g, root, root)
      ensures d == root
    {
      OnlyRootAtRoot(g, root, d);
    }
    assert PostdominatorSet(g, root, root) <= {root};
    forall b | 0 <= b < |g|
      ensures PostdominatorSet(g, root, b) <= AllBlocks(|g|) && Meet(g, sets, b) <= AllBlocks(|g|)
    {
    }
  }

  lemma UpdateDescends(g: Graph, root: nat, sets: seq<set<nat>>, h: nat)
    requires WellFormed(g) && Descending(g, root, sets) && h < |g| && h != root
    ensures Descending(g, root, sets[h := Meet(g, sets, h)])
    ensures Meet(g, sets, h) != sets[h] ==> TotalSize(sets[h := Meet(g, sets, h)]) < TotalSize(sets)
  {
    var t := Meet(g, sets, h);
    var next := sets[h := t];
    MeetKeepsComplete(g, root, sets, h);
    forall b | 0 <= b < |g|
      ensures Meet(g, next, b) <= Meet(g, sets, b)
    {
      forall d: nat | d < |g| && InEvery(next, g[b], d)
        ensures InEvery(sets, g[b], d)
      {
      }
    }
    if t != sets[h] {
      ShrinkingOneShrinksTotal(sets, h, t);
    }
  }

  lemma EqualSizeSubset(a: set<nat>, b: set<nat>)
    requires b <= a && |a| == |b|
    ensures a == b
  {
    assert |a - b| == |a| - |b|;
  }

  method Intersect(a: set<nat>, b: set<nat>) returns (r: set<nat>)
    ensures r == a * b
  {
    r := a;
    var todo := a;
    while todo != {}
      invariant todo <= r
      invariant r == (a * b) + todo
      decreases todo
    {
      var x :| x in todo;
      todo := todo - {x};
      if x !in b {
        r := r - {x};
      }
    }
  }

  method IsEqual(a: set<nat>, b: set<nat>) returns (equal: bool)
    ensures equal <==> a == b
  {
    if |a| != |b| {
      return false;
    }
    var todo := b;
    while todo != {}
      invariant todo <= b && b - todo <= a
      decreases todo
    {
      var x :| x in todo;
      if x !in a {
        return false;
      }
      todo := todo - {x};
    }
    EqualSizeSubset(a, b);
    return true;
  }

  method MeetOverNeighbours(g: Graph, sets: seq<set<nat>>, h: nat) returns (t: set<nat>)
    requires WellFormed(g) && h < |g| && |sets| == |g|
    ensures t == Meet(g, sets, h)
  {
    t := AllBlocks(|g|);
    var todo := g[h];
    while todo != {}
      invariant todo <= g[h]
      invariant t == set d: nat | d < |g| && InEvery(sets, g[h] - todo, d)
      decreases todo
    {
      var s :| s in todo;
      ghost var before := t;
      t := Intersect(t, sets[s]);
      forall d: nat | d < |g|
        ensures InEvery(sets, g[h] - (todo - {s}), d) <==> InEvery(sets, g[h] - todo, d) && d in sets[s]
      {
      }
      todo := todo - {s};
    }
    t := t + {h};
  }

  // ----- blocks that cannot reach the root, all of whose candidates are on every path for want of one

  ghost predicate Stuck(g: Graph, root: nat, b: nat)
  {
    b < |g| && !Reaches(g, b, root)
  }

  ghost predicate StuckAlone(g: Graph, root: nat, b: nat)
  {
    Stuck(g, root, b) && forall c: nat :: Stuck(g, root, c) ==> c == b
  }

  /** c is the first block other than b that, like b, cannot reach the root. */
  ghost predicate FirstOtherStuck(g: Graph, root: nat, b: nat, c: nat)
  {
    && Stuck(g, root, b) && Stuck(g, root, c) && c != b
    && forall d: nat :: Stuck(g, root, d) && d != b ==> c <= d
  }

  /** All blocks that reach the root are on every path from one of them. */
  ghost predicate InOneLine(g: Graph, root: nat)
  {
    exists c: nat :: EndsTheLine(g, root, c)
  }

  ghost predicate EndsTheLine(g: Graph, root: nat, c: nat)
  {
    && c < |g| && Reaches(g, c, root)
    && forall d: nat :: d < |g| && Reaches(g, d, root) ==> OnEveryPath(g, root, d, c)
  }

  ghost predicate PostdominatorsAccepted(g: Graph, root: nat)
  {
    forall b: nat :: StuckAlone(g, root, b) ==> InOneLine(g, root)
  }

  lemma RootIsNotStuck(g: Graph, root: nat)
    requires root < |g|
    ensures Reaches(g, root, root)
  {
    assert IsPath(g, [root], root, root);
  }

  lemma StuckHasAll(g: Graph, root: nat, b: nat)
    ensures Stuck(g, root, b) ==> PostdominatorSet(g, root, b) == AllBlocks(|g|)
  {
    if Stuck(g, root, b) {
      forall d: nat | d < |g|
        ensures OnEveryPath(g, root, d, b)
      {
      }
    }
  }

  lemma FirstOther(g: Graph, root: nat, b: nat) returns (c: nat)
    requires Stuck(g, root, b) && !StuckAlone(g, root, b)
    ensures FirstOtherStuck(g, root, b, c)
  {
    var others := set d: nat | d < |g| && Stuck(g, root, d) && d != b;
    var some: nat :| Stuck(g, root, some) && some != b;
    assert some in others;
    c := Least(others);
    forall d: nat | Stuck(g, root, d) && d != b
      ensures c <= d
    {
      assert d in others;
    }
  }

  class FunctionInfo {
    const successorIds: Graph
    const predecessorIds: Graph
    var dominatorIds: seq<set<nat>>
    var postdominatorIds: seq<set<nat>>
    var tmpIds: seq<set<nat>>
    var immediateDominatorId: seq<int>
    var immediatePostdominatorId: seq<int>

    /** A function has an entry and a distinct exit block, and edges join its own blocks. */
    ghost predicate Valid()
      reads this
    {
      && 2 <= |successorIds| && WellFormed(successorIds) && WellFormed(predecessorIds)
      && Inverse(predecessorIds, successorIds)
      && |immediateDominatorId| == |immediatePostdominatorId| == |successorIds|
    }

    constructor (succs: Graph, preds: Graph)
      requires 2 <= |succs| && WellFormed(succs) && WellFormed(preds) && Inverse(preds, succs)
      ensures Valid() && successorIds == succs && predecessorIds == preds
    {
      successorIds, predecessorIds := succs, preds;
      dominatorIds, postdominatorIds, tmpIds := [], [], [];
      immediateDominatorId := seq(|succs|, _ => -1);
      immediatePostdominatorId := seq(|succs|, _ => -1);
    }

    method FindPostdominators()
      requires Valid()
      modifies this`postdominatorIds
      ensures |postdominatorIds| == |successorIds|
      ensures forall b :: 0 <= b < |successorIds| ==>
                postdominatorIds[b] == PostdominatorSet(successorIds, |successorIds| - 1, b)
    {
      hide TotalSize, PostdominatorSet, Meet;
      var n := |successorIds|;
      postdominatorIds := seq(n, (i: nat) requires i < n => if i == n - 1 then {i} else AllBlocks(n));
      StartDescends(successorIds, n - 1, postdominatorIds);
      var change := true;
      while change
        invariant Descending(successorIds, n - 1, postdominatorIds)
        invariant !change ==> IsFixpoint(successorIds, n - 1, postdominatorIds)
        decreases TotalSize(postdominatorIds), if change then 1 else 0
      {
        change := false;
        ghost var start := postdominatorIds;
        for h := n - 1 downto 0
          invariant Descending(successorIds, n - 1, postdominatorIds)
          invariant change ==> TotalSize(postdominatorIds) < TotalSize(start)
          invariant !change ==> postdominatorIds == start
          invariant !change ==> forall b :: h <= b < n - 1 ==> start[b] == Meet(successorIds, start, b)
        {
          var t := MeetOverNeighbours(successorIds, postdominatorIds, h);
          UpdateDescends(successorIds, n - 1, postdominatorIds, h);
          var same := IsEqual(t, postdominatorIds[h]);
          if !same {
            change := true;
            postdominatorIds := postdominatorIds[h := t];
          }
        }
      }
      FixpointIsExact(successorIds, n - 1, postdominatorIds);
    }

    method FindDominators()
      requires Valid()
      modifies this`dominatorIds
      ensures |dominatorIds| == |predecessorIds|
      ensures forall b :: 0 <= b < |predecessorIds| ==>
                dominatorIds[b] == if b != 0 && predecessorIds[b] == {} then {}
                                   else PostdominatorSet(predecessorIds, 0, b)
    {
      hide TotalSize, PostdominatorSet, Meet;
      var n := |predecessorIds|;
      dominatorIds := seq(n, (i: nat) requires i < n => if i == 0 then {i} else AllBlocks(n));
      StartDescends(predecessorIds, 0, dominatorIds);
      var change := true;
      while change
        invariant Descending(predecessorIds, 0, dominatorIds)
        invariant !change ==> IsFixpoint(predecessorIds, 0, dominatorIds)
        decreases TotalSize(dominatorIds), if change then 1 else 0
      {
        change := false;
        ghost var start := dominatorIds;
        for h := 1 to n
          invariant Descending(predecessorIds, 0, dominatorIds)
          invariant change ==> TotalSize(dominatorIds) < TotalSize(start)
          invariant !change ==> dominatorIds == start
          invariant !change ==> forall b :: 1 <= b < h ==> start[b] == Meet(predecessorIds, start, b)
        {
          var t := MeetOverNeighbours(predecessorIds, dominatorIds, h);
          UpdateDescends(predecessorIds, 0, dominatorIds, h);
          var same := IsEqual(t, dominatorIds[h]);
          if !same {
            change := true;
            dominatorIds := dominatorIds[h := t];
          }
        }
      }
      FixpointIsExact(predecessorIds, 0, dominatorIds);
      ghost var exact := dominatorIds;
      // blocks without predecessors, except the entry, get no dominators at all
      for b := 1 to n
        invariant |dominatorIds| == n
        invariant forall k :: 0 <= k < n ==>
                    dominatorIds[k] == if 1 <= k < b && predecessorIds[k] == {} then {} else exact[k]
      {
        if predecessorIds[b] == {} {
          dominatorIds := dominatorIds[b := {}];
        }
      }
    }

    /** One candidate erases the others that are in its own set. */
    method EraseOthers(ids: seq<set<nat>>, b: nat, s: nat)
      requires |ids| == |tmpIds| && b < |ids| && s in tmpIds[b] && forall d :: d in tmpIds[b] ==> d < |ids|
      modifies this`tmpIds
      ensures tmpIds == old(tmpIds)[b := old(tmpIds[b]) - (ids[s] - {s})]
    {
      for t := 0 to |ids|
        invariant |tmpIds| == |ids| && tmpIds == old(tmpIds)[b := tmpIds[b]] && s in tmpIds[b]
        invariant forall d :: d in tmpIds[b] <==> d in old(tmpIds[b]) && !(d < t && d != s && d in ids[s])
      {
        if t in tmpIds[b] && t != s && t in ids[s] {
          tmpIds := tmpIds[b := tmpIds[b] - {t}];
        }
      }
      assert tmpIds[b] == old(tmpIds[b]) - (ids[s] - {s});
    }

    /** Being in another's set goes over to a third. */
    static ghost predicate Ordered(ids: seq<set<nat>>, s: set<nat>)
      requires forall d :: d in s ==> d < |ids|
    {
      && (forall d :: d in s ==> d in ids[d])
      && forall d, e, f :: d in s && e in s && f in s && d in ids[e] && e in ids[f] ==> d in ids[f]
    }

    static ghost predicate Covered(ids: seq<set<nat>>, now: set<nat>, d: nat)
    {
      exists e :: e in now && e < |ids| && d in ids[e]
    }

    /** Each candidate is in the set of one that is left. */
    static ghost predicate Covers(ids: seq<set<nat>>, now: set<nat>, candidates: set<nat>)
    {
      forall d :: d in candidates ==> Covered(ids, now, d)
    }

    static lemma CoverThroughAnother(ids: seq<set<nat>>, candidates: set<nat>, d: nat, e: nat, s: nat)
      requires (forall d :: d in candidates ==> d < |ids|) && Ordered(ids, candidates)
      requires d in candidates && e in candidates && s in candidates && d in ids[e] && e in ids[s]
      ensures d in ids[s]
    {
    }

    static lemma ErasingKeepsCover(ids: seq<set<nat>>, now: set<nat>, candidates: set<nat>, s: nat)
      requires forall d :: d in candidates ==> d < |ids|
      requires Ordered(ids, candidates) && now <= candidates && Covers(ids, now, candidates) && s in now
      ensures Covers(ids, now - (ids[s] - {s}), candidates)
    {
      hide Ordered;
      var after := now - (ids[s] - {s});
      forall d | d in candidates
        ensures Covered(ids, after, d)
      {
        assert Covered(ids, now, d);
        var e :| e in now && e < |ids| && d in ids[e];
        if e in ids[s] {
          CoverThroughAnother(ids, candidates, d, e, s);
          assert s in after;
        } else {
          assert e in after;
        }
      }
    }

    static lemma CandidatesCoverThemselves(ids: seq<set<nat>>, candidates: set<nat>)
      requires (forall d :: d in candidates ==> d < |ids|) && Ordered(ids, candidates)
      ensures Covers(ids, candidates, candidates)
    {
      forall d | d in candidates
        ensures Covered(ids, candidates, d)
      {
        assert d in ids[d];
      }
    }

    /** What holds once the candidates below s have erased: who survives is left, alone once its turn
        has passed. */
    static ghost predicate PrunedUpTo(ids: seq<set<nat>>, candidates: set<nat>, now: set<nat>, s: nat)
      requires forall d :: d in candidates ==> d < |ids|
    {
      && now <= candidates && (now == {} <==> candidates == {})
      && (forall c: nat :: Survives(c, ids, candidates) ==> c in now && (c < s ==> now == {c}))
      && (Ordered(ids, candidates) ==> Covers(ids, now, candidates))
    }

    static lemma NothingPruned(ids: seq<set<nat>>, candidates: set<nat>)
      requires forall d :: d in candidates ==> d < |ids|
      ensures PrunedUpTo(ids, candidates, candidates, 0)
    {
      if Ordered(ids, candidates) {
        CandidatesCoverThemselves(ids, candidates);
      }
    }

    static lemma TurnPassed(ids: seq<set<nat>>, candidates: set<nat>, now: set<nat>, s: nat)
      requires (forall d :: d in candidates ==> d < |ids|) && PrunedUpTo(ids, candidates, now, s)
      ensures PrunedUpTo(ids, candidates, if s in now then now - (ids[s] - {s}) else now, s + 1)
    {
      hide Ordered, Covers;
      if s in now {
        var after := now - (ids[s] - {s});
        assert s in after;
        if Ordered(ids, candidates) {
          ErasingKeepsCover(ids, now, candidates, s);
        }
        forall c: nat | Survives(c, ids, candidates)
          ensures c in after && (c < s + 1 ==> after == {c})
        {
          SurvivorStays(c, ids, candidates, now, s);
        }
      }
    }

    static lemma SurvivorStays(c: nat, ids: seq<set<nat>>, candidates: set<nat>, now: set<nat>, s: nat)
      requires (forall d :: d in candidates ==> d < |ids|) && Survives(c, ids, candidates)
      requires now <= candidates && s in now && c in now && (c < s ==> now == {c})
      ensures var after := now - (ids[s] - {s}); c in after && (c < s + 1 ==> after == {c})
    {
    }

    /** The in-place pruning of the strict candidates of block b.  Walking the ids upwards and
        skipping those already erased visits what the ordered set's iterators visit. */
    method Prune(ids: seq<set<nat>>, b: nat)
      requires |ids| == |tmpIds| && b < |ids|
      requires forall d :: d in tmpIds[b] ==> d < |ids|
      modifies this`tmpIds
      ensures |tmpIds| == |ids| && tmpIds[b] <= old(tmpIds[b])
      ensures forall k :: 0 <= k < |ids| && k != b ==> tmpIds[k] == old(tmpIds[k])
      ensures tmpIds[b] == {} <==> old(tmpIds[b]) == {}
      ensures forall c: nat :: Survives(c, ids, old(tmpIds[b])) ==> tmpIds[b] == {c}
      ensures Ordered(ids, old(tmpIds[b])) ==> Covers(ids, tmpIds[b], old(tmpIds[b]))
    {
      ghost var candidates := tmpIds[b];
      NothingPruned(ids, candidates);
      for s := 0 to |ids|
        invariant |tmpIds| == |ids| && tmpIds == old(tmpIds)[b := tmpIds[b]] && tmpIds[b] <= candidates
        invariant PrunedUpTo(ids, candidates, tmpIds[b], s)
      {
        hide PrunedUpTo;
        TurnPassed(ids, candidates, tmpIds[b], s);
        if s in tmpIds[b] {
          EraseOthers(ids, b, s);
        }
      }
    }

    /** c erases every other candidate and no candidate before it erases c. */
    static ghost predicate Survives(c: nat, ids: seq<set<nat>>, candidates: set<nat>)
      requires forall d :: d in candidates ==> d < |ids|
    {
      && c in candidates
      && forall d :: d in candidates && d != c ==> d in ids[c] && (d < c ==> c !in ids[d])
    }

    static lemma ClosestSurvives(g: Graph, root: nat, ids: seq<set<nat>>, b: nat, c: nat)
      requires WellFormed(g) && |ids| == |g| && b < |g| && Reaches(g, b, root)
      requires ExactWhereReached(g, root, ids)
      requires Closest(g, root, c, b)
      ensures Survives(c, ids, PostdominatorSet(g, root, b) - {b})
    {
      OnEveryPathReaches(g, root, c, b);
      var candidates := PostdominatorSet(g, root, b) - {b};
      forall d | d in candidates && d != c
        ensures d in ids[c] && c !in ids[d]
      {
        assert StrictlyOnEveryPath(g, root, d, b);
        OnEveryPathReaches(g, root, d, b);
        if c in ids[d] {
          Antisymmetric(g, root, c, d);
        }
      }
    }

    /** Every block that reaches the root has exactly the blocks on all its paths. */
    static ghost predicate ExactWhereReached(g: Graph, root: nat, ids: seq<set<nat>>)
    {
      && |ids| == |g|
      && forall k :: 0 <= k < |g| && Reaches(g, k, root) ==> ids[k] == PostdominatorSet(g, root, k)
    }

    /** What pruning leaves of the candidates of a block that cannot reach the root. */
    static ghost predicate IsPrunedStuck(g: Graph, root: nat, b: nat, s: set<nat>)
    {
      && s != {} && (forall c: nat :: FirstOtherStuck(g, root, b, c) ==> s == {c})
      && (|s| <= 1 <==> (StuckAlone(g, root, b) ==> InOneLine(g, root)))
    }

    static ghost predicate IsPruned(g: Graph, root: nat, b: nat, s: set<nat>)
    {
      if Stuck(g, root, b) then IsPrunedStuck(g, root, b, s) else IsClosestAlone(g, root, b, s)
    }

    /** What the block then gets as its immediate postdominator. */
    static ghost predicate Picked(g: Graph, root: nat, b: nat, c: int)
    {
      && (!Stuck(g, root, b) ==> 0 <= c && Closest(g, root, c, b))
      && forall d: nat :: FirstOtherStuck(g, root, b, d) ==> c == d
    }

    /** The root keeps nothing and every other block what pruning leaves. */
    static ghost predicate ArePruned(g: Graph, root: nat, sets: seq<set<nat>>)
    {
      |sets| == |g| == root + 1 && sets[root] == {} && forall k :: 0 <= k < root ==> IsPruned(g, root, k, sets[k])
    }

    static lemma PrunedIsPicked(g: Graph, root: nat, b: nat, s: set<nat>)
      requires IsPruned(g, root, b, s)
      ensures s != {} && forall c :: c in s ==> Picked(g, root, b, c)
    {
      hide Closest;
    }

    static lemma AcceptedWhenPruned(g: Graph, root: nat, sets: seq<set<nat>>)
      requires ArePruned(g, root, sets)
      ensures (forall k :: 0 <= k <= root ==> |sets[k]| <= 1) <==> PostdominatorsAccepted(g, root)
    {
      RootIsNotStuck(g, root);
      hide InOneLine, Closest, FirstOtherStuck;
      forall k | 0 <= k < root
        ensures |sets[k]| <= 1 <==> (StuckAlone(g, root, k) ==> InOneLine(g, root))
      {
      }
      if !PostdominatorsAccepted(g, root) {
        var b: nat :| StuckAlone(g, root, b) && !InOneLine(g, root);
        assert b != root && |sets[b]| > 1;
      }
    }

    static ghost predicate Exact(g: Graph, root: nat, ids: seq<set<nat>>)
    {
      |ids| == |g| && forall k :: 0 <= k < |g| ==> ids[k] == PostdominatorSet(g, root, k)
    }

    static lemma ExactIsOrdered(g: Graph, root: nat, ids: seq<set<nat>>, s: set<nat>)
      requires Exact(g, root, ids) && forall d :: d in s ==> d < |g|
      ensures Ordered(ids, s)
    {
      hide OnEveryPath;
      forall d | d in s
        ensures d in ids[d]
      {
        OnOwnPaths(g, root, d);
      }
      forall d, e, f | d in s && e in s && f in s && d in ids[e] && e in ids[f]
        ensures d in ids[f]
      {
        OnEveryPathThrough(g, root, d, e, f);
      }
    }

    static lemma FirstOtherSurvives(g: Graph, root: nat, ids: seq<set<nat>>, b: nat, c: nat)
      requires Exact(g, root, ids) && FirstOtherStuck(g, root, b, c)
      ensures Survives(c, ids, AllBlocks(|g|) - {b})
    {
      StuckHasAll(g, root, c);
      forall d | d in AllBlocks(|g|) - {b} && d < c
        ensures c !in ids[d]
      {
        assert !Stuck(g, root, d);
        if c in ids[d] {
          OnEveryPathReaches(g, root, c, d);
        }
      }
    }

    static lemma LineEndSurvives(g: Graph, root: nat, ids: seq<set<nat>>, b: nat, c: nat)
      requires Exact(g, root, ids) && StuckAlone(g, root, b) && EndsTheLine(g, root, c)
      ensures Survives(c, ids, AllBlocks(|g|) - {b})
    {
      forall d | d in AllBlocks(|g|) - {b} && d != c
        ensures d in ids[c] && c !in ids[d]
      {
        assert !Stuck(g, root, d);
        if c in ids[d] {
          Antisymmetric(g, root, c, d);
        }
      }
    }

    static lemma OnlyCoverEndsTheLine(g: Graph, root: nat, ids: seq<set<nat>>, b: nat, c: nat)
      requires Exact(g, root, ids) && StuckAlone(g, root, b) && c < |g| && c != b
      requires Covers(ids, {c}, AllBlocks(|g|) - {b})
      ensures EndsTheLine(g, root, c)
    {
      hide OnEveryPath;
      assert !Stuck(g, root, c);
      forall d: nat | d < |g| && Reaches(g, d, root)
        ensures OnEveryPath(g, root, d, c)
      {
        assert d in AllBlocks(|g|) - {b};
        assert Covered(ids, {c}, d);
      }
    }

    static lemma LoneStuckIsPruned(g: Graph, root: nat, ids: seq<set<nat>>, b: nat, s: set<nat>)
      requires Exact(g, root, ids) && StuckAlone(g, root, b)
      requires s <= AllBlocks(|g|) - {b} && s != {}
      requires forall c: nat :: Survives(c, ids, AllBlocks(|g|) - {b}) ==> s == {c}
      requires Ordered(ids, AllBlocks(|g|) - {b}) ==> Covers(ids, s, AllBlocks(|g|) - {b})
      ensures |s| <= 1 <==> InOneLine(g, root)
    {
      hide Survives, Ordered, Covers, EndsTheLine, StuckAlone, PostdominatorSet;
      if InOneLine(g, root) {
        var c :| EndsTheLine(g, root, c);
        LineEndSurvives(g, root, ids, b, c);
      } else if |s| <= 1 {
        var c :| c in s;
        OneIsAll(s, c);
        ExactIsOrdered(g, root, ids, AllBlocks(|g|) - {b});
        OnlyCoverEndsTheLine(g, root, ids, b, c);
      }
    }

    /** The candidates of a block that cannot reach the root are all other blocks.  The first of them
        that cannot reach it either erases all others; if there is none, the end of a line does. */
    static lemma StuckIsPruned(g: Graph, root: nat, ids: seq<set<nat>>, b: nat, s: set<nat>)
      requires Exact(g, root, ids) && Stuck(g, root, b)
      requires s <= AllBlocks(|g|) - {b} && s != {}
      requires forall c: nat :: Survives(c, ids, AllBlocks(|g|) - {b}) ==> s == {c}
      requires Ordered(ids, AllBlocks(|g|) - {b}) ==> Covers(ids, s, AllBlocks(|g|) - {b})
      ensures IsPrunedStuck(g, root, b, s)
    {
      hide Survives, Ordered, Covers, Exact, InOneLine;
      forall c: nat | FirstOtherStuck(g, root, b, c)
        ensures s == {c}
      {
        FirstOtherSurvives(g, root, ids, b, c);
      }
      if !StuckAlone(g, root, b) {
        var _ := FirstOther(g, root, b);
      } else {
        LoneStuckIsPruned(g, root, ids, b, s);
      }
    }

    static lemma OneIsAll(s: set<nat>, c: nat)
      requires |s| <= 1 && c in s
      ensures s == {c}
    {
      EqualSizeSubset(s, {c});
    }

    /** The set holds the closest strict block on the way from b to the root and nothing else. */
    static ghost predicate IsClosestAlone(g: Graph, root: nat, b: nat, s: set<nat>)
    {
      exists c: nat :: Closest(g, root, c, b) && s == {c}
    }

    /** Tmp(b) at the start: all of b's set except b itself. */
    method StartTmp(ids: seq<set<nat>>)
      modifies this`tmpIds
      ensures |tmpIds| == |ids| && forall b :: 0 <= b < |ids| ==> tmpIds[b] == ids[b] - {b}
    {
      tmpIds := ids;
      for b := 0 to |ids|
        invariant |tmpIds| == |ids|
        invariant forall k :: 0 <= k < |ids| ==> tmpIds[k] == if k < b then ids[k] - {k} else ids[k]
      {
        tmpIds := tmpIds[b := tmpIds[b] - {b}];
      }
    }

    method PruneBlock(ids: seq<set<nat>>, b: nat, ghost g: Graph, ghost root: nat)
      requires WellFormed(g) && |ids| == |tmpIds| == |g| && b < |g| && root < |g|
      requires forall d :: d in ids[b] ==> d < |g|
      requires ExactWhereReached(g, root, ids)
      requires tmpIds[b] == ids[b] - {b}
      modifies this`tmpIds
      ensures |tmpIds| == |g| && forall k :: 0 <= k < |g| && k != b ==> tmpIds[k] == old(tmpIds[k])
      ensures tmpIds[b] == {} <==> ids[b] <= {b}
      ensures b != root && Reaches(g, b, root) ==> IsClosestAlone(g, root, b, tmpIds[b])
      ensures Exact(g, root, ids) && Stuck(g, root, b) ==> IsPrunedStuck(g, root, b, tmpIds[b])
    {
      Prune(ids, b);
      if b != root && Reaches(g, b, root) {
        var c := ClosestExists(g, root, b);
        ClosestSurvives(g, root, ids, b, c);
      }
      if Exact(g, root, ids) && Stuck(g, root, b) {
        StuckHasAll(g, root, b);
        assert root in ids[b] - {b} by {
          RootIsNotStuck(g, root);
        }
        StuckIsPruned(g, root, ids, b, tmpIds[b]);
      }
    }

    /** The first two loops: every block but the exit is pruned. */
    method PrunePostdominators()
      requires Valid() && Exact(successorIds, |successorIds| - 1, postdominatorIds)
      modifies this`tmpIds
      ensures ArePruned(successorIds, |successorIds| - 1, tmpIds)
    {
      hide AllBlocks, PostdominatorSet, IsPrunedStuck, IsClosestAlone;
      ghost var g, root := successorIds, |successorIds| - 1;
      StartTmp(postdominatorIds);
      for b := |successorIds| - 1 downto 0
        invariant |tmpIds| == |g|
        invariant forall k :: 0 <= k < b || k == root ==> tmpIds[k] == postdominatorIds[k] - {k}
        invariant forall k :: b <= k < root ==> IsPruned(g, root, k, tmpIds[k])
      {
        BlocksOfSet(g, root, b);
        PruneBlock(postdominatorIds, b, g, root);
      }
      OnlyRootInRootSet(g, root);
    }

    /** asserted reports whether both of the program's own assertions hold: no block keeps two
        candidates, and all blocks but one keep exactly one.  They fail exactly when one block alone
        cannot reach the exit and the others do not lie on one line; where two or more cannot, they
        hold, and each of those gets the first other as its immediate postdominator. */
    method FindIpostdominators() returns (asserted: bool)
      requires Valid() && Exact(successorIds, |successorIds| - 1, postdominatorIds)
      modifies this`tmpIds, this`immediatePostdominatorId
      ensures |immediatePostdominatorId| == |successorIds|
      ensures asserted <==> PostdominatorsAccepted(successorIds, |successorIds| - 1)
      ensures forall b :: 0 <= b < |successorIds| - 1 ==>
                Picked(successorIds, |successorIds| - 1, b, immediatePostdominatorId[b])
    {
      PrunePostdominators();
      var root := |successorIds| - 1;
      AcceptedWhenPruned(successorIds, root, tmpIds);
      hide IsPruned, Picked, PostdominatorsAccepted;
      ghost var pruned := tmpIds;
      asserted := true;
      var found := 0;
      for b := |successorIds| downto 0
        invariant tmpIds == pruned && |immediatePostdominatorId| == |successorIds|
        invariant found == if b > root then 0 else root - b
        invariant asserted <==> forall k :: b <= k <= root ==> |pruned[k]| <= 1
        invariant forall k :: b <= k < root ==> Picked(successorIds, root, k, immediatePostdominatorId[k])
      {
        asserted := asserted && |tmpIds[b]| <= 1;
        if tmpIds[b] != {} {
          var c :| c in tmpIds[b];
          immediatePostdominatorId := immediatePostdominatorId[b := c];
          found := found + 1;
        }
        if b < root {
          PrunedIsPicked(successorIds, root, b, tmpIds[b]);
        }
      }
      asserted := asserted && found == root;
    }

    static lemma BlocksOfSet(g: Graph, root: nat, b: nat)
      ensures forall d :: d in PostdominatorSet(g, root, b) ==> d < |g|
    {
    }

    static lemma OnlyRootInRootSet(g: Graph, root: nat)
      requires root < |g|
      ensures PostdominatorSet(g, root, root) == {root}
    {
      forall d | d in PostdominatorSet(g, root, root)
        ensures d == root
      {
        OnlyRootAtRoot(g, root, d);
      }
    }

    static lemma ReachingNeedsANeighbour(g: Graph, root: nat, b: nat)
      requires b < |g| && Reaches(g, b, root) && b != root
      ensures g[b] != {}
    {
      var p :| IsPath(g, p, b, root);
      assert p[1] in g[p[0]];
    }

    /** Any block but the root that has a neighbour keeps a candidate: the root is on every path. */
    static lemma RootIsCandidate(g: Graph, root: nat, b: nat)
      requires root < |g| && b < |g|
      ensures root in PostdominatorSet(g, root, b) && b in PostdominatorSet(g, root, b)
    {
    }

    /** The first two loops: every block is pruned. */
    method PruneDominators()
      requires Valid() && |dominatorIds| == |predecessorIds|
      requires forall b :: 0 <= b < |predecessorIds| ==>
                 dominatorIds[b] == if b != 0 && predecessorIds[b] == {} then {}
                                    else PostdominatorSet(predecessorIds, 0, b)
      modifies this`tmpIds
      ensures |tmpIds| == |predecessorIds|
      ensures forall k :: 0 <= k < |tmpIds| ==> (tmpIds[k] == {} <==> k == 0 || predecessorIds[k] == {})
      ensures forall k :: 1 <= k < |tmpIds| && Reaches(predecessorIds, k, 0) ==>
                IsClosestAlone(predecessorIds, 0, k, tmpIds[k])
    {
      var g := predecessorIds;
      StartTmp(dominatorIds);
      forall b | 1 <= b < |g| && Reaches(g, b, 0)
        ensures g[b] != {}
      {
        ReachingNeedsANeighbour(g, 0, b);
      }
      OnlyRootInRootSet(g, 0);
      for b := 0 to |g|
        invariant |tmpIds| == |g|
        invariant forall k :: b <= k < |g| ==> tmpIds[k] == dominatorIds[k] - {k}
        invariant forall k :: 0 <= k < b ==> (tmpIds[k] == {} <==> k == 0 || g[k] == {})
        invariant forall k :: 1 <= k < b && Reaches(g, k, 0) ==> IsClosestAlone(g, 0, k, tmpIds[k])
      {
        RootIsCandidate(g, 0, b);
        PruneBlock(dominatorIds, b, g, 0);
      }
    }

    /** asserted reports the one assertion left in the program: the number of blocks with an
        immediate dominator plus the number of candidate-free blocks without predecessors is the
        number of blocks.  It fails exactly when the entry has a predecessor. */
    method FindIdominators() returns (asserted: bool)
      requires Valid() && |dominatorIds| == |predecessorIds|
      requires forall b :: 0 <= b < |predecessorIds| ==>
                 dominatorIds[b] == if b != 0 && predecessorIds[b] == {} then {}
                                    else PostdominatorSet(predecessorIds, 0, b)
      modifies this`tmpIds, this`immediateDominatorId
      ensures |immediateDominatorId| == |predecessorIds|
      ensures asserted <==> predecessorIds[0] == {}
      ensures forall b :: 1 <= b < |predecessorIds| && Reaches(predecessorIds, b, 0) ==>
                0 <= immediateDominatorId[b] && Closest(predecessorIds, 0, immediateDominatorId[b], b)
    {
      PruneDominators();
      hide PostdominatorSet, Closest;
      var g := predecessorIds;
      ghost var pruned := tmpIds;
      var found, noPredecessor := 0, 0;
      for b := 0 to |g|
        invariant tmpIds == pruned && |immediateDominatorId| == |g|
        invariant found + noPredecessor == if b > 0 && g[0] != {} then b - 1 else b
        invariant forall k :: 1 <= k < b && Reaches(g, k, 0) ==>
                    0 <= immediateDominatorId[k] && Closest(g, 0, immediateDominatorId[k], k)
      {
        if tmpIds[b] != {} {
          var c :| c in tmpIds[b];
          immediateDominatorId := immediateDominatorId[b := c];
          found := found + 1;
        } else if predecessorIds[b] == {} {
          noPredecessor := noPredecessor + 1;
        }
      }
      asserted := found == |g| - noPredecessor;
    }

    /** What assembly computes for a function without break instructions, in its order.  It goes
        through exactly when the entry has no predecessor and the postdominators are accepted. */
    method Assemble() returns (asserted: bool)
      requires Valid()
      modifies this
      ensures Valid()
      ensures asserted <==> predecessorIds[0] == {} && PostdominatorsAccepted(successorIds, |successorIds| - 1)
      ensures forall b :: 0 <= b < |successorIds| - 1 ==>
                Picked(successorIds, |successorIds| - 1, b, immediatePostdominatorId[b])
    {
      FindDominators();
      var dominated := FindIdominators();
      FindPostdominators();
      var postdominated := FindIpostdominators();
      asserted := dominated && postdominated;
    }
  }

  lemma AllReachingAreAccepted(g: Graph, root: nat)
    requires AllReach(g, root)
    ensures PostdominatorsAccepted(g, root)
  {
  }

  /** The smallest function whose entry is the head of a loop: the entry branches to itself or falls
      through to a return.  Its last assertion fails although every block is reached and reaches
      the exit. */
  method LoopAtEntry() returns (asserted: bool)
    ensures !asserted
  {
    var f := new FunctionInfo([{0, 1}, {2}, {}], [{0}, {0}, {1}]);
    f.FindDominators();
    asserted := f.FindIdominators();
  }

  lemma {:induction false} NoWayOut(p: seq<nat>, b: nat)
    requires b <= 1 && IsPath([{1}, {1}, {}], p, b, 2)
    ensures false
    decreases p
  {
    var g: Graph := [{1}, {1}, {}];
    assert p[1] in g[p[0]];
    PathSuffix(g, p, b, 2, 1);
    NoWayOut(p[1..], 1);
  }

  /** A function that falls into an endless loop: assembly goes through although no block reaches the
      exit, and the loop's block gets the entry as its immediate postdominator. */
  method EndlessLoop() returns (asserted: bool, ipdom: seq<int>)
    ensures asserted && |ipdom| == 3 && ipdom[0] == 1 && ipdom[1] == 0
  {
    var g: Graph := [{1}, {1}, {}];
    var f := new FunctionInfo(g, [{}, {0, 1}, {}]);
    forall b: nat | b <= 1
      ensures Stuck(g, 2, b)
    {
      if p :| IsPath(g, p, b, 2) {
        NoWayOut(p, b);
      }
    }
    RootIsNotStuck(g, 2);
    assert FirstOtherStuck(g, 2, 0, 1) && FirstOtherStuck(g, 2, 1, 0);
    asserted := f.Assemble();
    ipdom := f.immediatePostdominatorId;
  }
}
