/** Paths, postdominance and immediate postdominators of a flow graph with one root.

    A graph lists, for every block, the blocks that may come next on the way to the root.  With
    the successor lists and the exit block as root this is the theory of postdominators; with the
    predecessor lists and the entry block as root it is the theory of dominators.
 */
module ControlFlow {

  type Graph = seq<set<nat>>

  ghost predicate WellFormed(g: Graph)
  {
    forall b, s :: 0 <= b < |g| && s in g[b] ==> s < |g|
  }

  ghost predicate IsPath(g: Graph, p: seq<nat>, b: nat, root: nat)
  {
    && |p| > 0 && p[0] == b && p[|p| - 1] == root
    && (forall i :: 0 <= i < |p| ==> p[i] < |g|)
    && (forall i :: 0 <= i < |p| - 1 ==> p[i + 1] in g[p[i]])
  }

  ghost predicate Reaches(g: Graph, b: nat, root: nat)
  {
    exists p :: IsPath(g, p, b, root)
  }

  ghost predicate AllReach(g: Graph, root: nat)
  {
    forall b :: 0 <= b < |g| ==> Reaches(g, b, root)
  }

  /** d lies on every path from b to the root. */
  ghost predicate OnEveryPath(g: Graph, root: nat, d: nat, b: nat)
  {
    forall p :: IsPath(g, p, b, root) ==> d in p
  }

  ghost predicate StrictlyOnEveryPath(g: Graph, root: nat, d: nat, b: nat)
  {
    d < |g| && d != b && OnEveryPath(g, root, d, b)
  }

  /** c is strictly on every path from b, and every other such block is on every path from c. */
  ghost predicate Closest(g: Graph, root: nat, c: nat, b: nat)
  {
    && StrictlyOnEveryPath(g, root, c, b)
    && forall d :: StrictlyOnEveryPath(g, root, d, b) ==> OnEveryPath(g, root, d, c)
  }

  ghost function PostdominatorSet(g: Graph, root: nat, b: nat): set<nat>
  {
    set d: nat | d < |g| && OnEveryPath(g, root, d, b)
  }

  // ----- one edge

  lemma PathHead(g: Graph, p: seq<nat>, b: nat, s: nat, root: nat)
    requires b < |g| && s in g[b] && IsPath(g, p, s, root)
    ensures IsPath(g, [b] + p, b, root)
  {
    var q := [b] + p;
    forall i | 0 <= i < |q| - 1
      ensures q[i + 1] in g[q[i]]
    {
      if i > 0 {
        assert p[i] in g[p[i - 1]];
      }
    }
  }

  lemma PathSuffix(g: Graph, p: seq<nat>, b: nat, root: nat, i: nat)
    requires IsPath(g, p, b, root) && i < |p|
    ensures IsPath(g, p[i..], p[i], root)
  {
    var q := p[i..];
    forall k | 0 <= k < |q| - 1
      ensures q[k + 1] in g[q[k]]
    {
      assert p[i + k + 1] in g[p[i + k]];
    }
  }

  /** A path to p[i], cut there and continued by another path from p[i]. */
  lemma PathSplice(g: Graph, p: seq<nat>, b: nat, root: nat, i: nat, q: seq<nat>)
    requires IsPath(g, p, b, root) && i < |p| && IsPath(g, q, p[i], root)
    ensures IsPath(g, p[..i] + q, b, root)
  {
    var r := p[..i] + q;
    forall k | 0 <= k < |r| - 1
      ensures r[k + 1] in g[r[k]]
    {
      if k < i {
        assert p[k + 1] in g[p[k]];
      } else {
        assert q[k - i + 1] in g[q[k - i]];
      }
    }
  }

  /** What every path from b must meet after b, every path from a neighbour of b must meet. */
  lemma StrictHoldsAtNeighbour(g: Graph, root: nat, d: nat, b: nat, s: nat)
    requires b < |g| && s in g[b] && d != b && OnEveryPath(g, root, d, b)
    ensures OnEveryPath(g, root, d, s)
  {
    forall p | IsPath(g, p, s, root)
      ensures d in p
    {
      PathHead(g, p, b, s, root);
      assert d in [b] + p;
    }
  }

  lemma NeighboursDecide(g: Graph, root: nat, d: nat, b: nat)
    requires b != root
    requires b < |g| && forall s :: s in g[b] ==> OnEveryPath(g, root, d, s)
    ensures OnEveryPath(g, root, d, b)
  {
    forall p | IsPath(g, p, b, root)
      ensures d in p
    {
      assert p[1] in g[p[0]];
      PathSuffix(g, p, b, root, 1);
    }
  }

  // ----- order

  /** A block on every path from one that reaches the root reaches it too. */
  lemma OnEveryPathReaches(g: Graph, root: nat, d: nat, b: nat)
    requires Reaches(g, b, root) && OnEveryPath(g, root, d, b)
    ensures d < |g| && Reaches(g, d, root)
  {
    var p :| IsPath(g, p, b, root);
    var i :| 0 <= i < |p| && p[i] == d;
    PathSuffix(g, p, b, root, i);
  }

  /** Two different blocks that lie on each other's every path cannot reach the root: each visit
      to one would force a later visit to the other. */
  lemma {:induction false} NoMutualPath(g: Graph, root: nat, a: nat, b: nat, p: seq<nat>)
    requires a != b && OnEveryPath(g, root, a, b) && OnEveryPath(g, root, b, a)
    requires IsPath(g, p, b, root)
    ensures false
    decreases |p|
  {
    var i :| 0 <= i < |p| && p[i] == a;
    PathSuffix(g, p, b, root, i);
    var q := p[i..];
    assert b in q;
    var j :| 0 <= j < |q| && q[j] == b;
    PathSuffix(g, q, a, root, j);
    NoMutualPath(g, root, a, b, q[j..]);
  }

  lemma Antisymmetric(g: Graph, root: nat, a: nat, b: nat)
    requires OnEveryPath(g, root, a, b) && OnEveryPath(g, root, b, a)
    requires Reaches(g, b, root)
    ensures a == b
  {
    var p :| IsPath(g, p, b, root);
    if a != b {
      NoMutualPath(g, root, a, b, p);
    }
  }

  lemma OnOwnPaths(g: Graph, root: nat, b: nat)
    ensures OnEveryPath(g, root, b, b)
  {
  }

  lemma OnEveryPathThrough(g: Graph, root: nat, c: nat, d: nat, b: nat)
    requires OnEveryPath(g, root, c, d) && OnEveryPath(g, root, d, b)
    ensures OnEveryPath(g, root, c, b)
  {
    forall p | IsPath(g, p, b, root)
      ensures c in p
    {
      var i :| 0 <= i < |p| && p[i] == d;
      PathSuffix(g, p, b, root, i);
      assert c in p[i..];
    }
  }

  lemma OnlyRootAtRoot(g: Graph, root: nat, d: nat)
    requires root < |g| && OnEveryPath(g, root, d, root)
    ensures d == root
  {
    assert IsPath(g, [root], root, root);
    assert d in [root];
  }

  /** If p meets c before d, then d is on every path from c. */
  lemma FirstMetIsCloser(g: Graph, root: nat, b: nat, p: seq<nat>, i: nat, d: nat)
    requires IsPath(g, p, b, root) && i < |p| && d !in p[..i]
    requires OnEveryPath(g, root, d, b)
    ensures OnEveryPath(g, root, d, p[i])
  {
    forall q | IsPath(g, q, p[i], root)
      ensures d in q
    {
      PathSplice(g, p, b, root, i, q);
      assert d in p[..i] + q;
    }
  }

  lemma FirstOccurrence(p: seq<nat>, d: nat) returns (i: nat)
    requires d in p
    ensures i < |p| && p[i] == d && d !in p[..i]
  {
    i := 0;
    while p[i] != d
      invariant i < |p| && d !in p[..i]
      invariant d in p[i..]
      decreases |p| - i
    {
      i := i + 1;
    }
  }

  /** The strict postdominators of a block that reaches the root form a chain. */
  lemma StrictOnesFormAChain(g: Graph, root: nat, b: nat, c: nat, d: nat)
    requires Reaches(g, b, root)
    requires OnEveryPath(g, root, c, b) && OnEveryPath(g, root, d, b)
    ensures OnEveryPath(g, root, c, d) || OnEveryPath(g, root, d, c)
  {
    var p :| IsPath(g, p, b, root);
    var i := FirstOccurrence(p, c);
    var j := FirstOccurrence(p, d);
    if i <= j {
      assert p[..i] <= p[..j];
      FirstMetIsCloser(g, root, b, p, i, d);
    } else {
      assert p[..j] <= p[..i];
      FirstMetIsCloser(g, root, b, p, j, c);
    }
  }

  /** A block other than the root that reaches the root has a closest strict postdominator. */
  lemma ClosestExists(g: Graph, root: nat, b: nat) returns (c: nat)
    requires b != root && Reaches(g, b, root)
    ensures Closest(g, root, c, b)
  {
    var p :| IsPath(g, p, b, root);
    var i := 1;
    while !StrictlyOnEveryPath(g, root, p[i], b)
      invariant 1 <= i < |p|
      invariant forall k :: 0 <= k < i ==> !StrictlyOnEveryPath(g, root, p[k], b)
      decreases |p| - i
    {
      if i == |p| - 1 {
        assert StrictlyOnEveryPath(g, root, root, b);
      }
      i := i + 1;
    }
    c := p[i];
    forall d | StrictlyOnEveryPath(g, root, d, b)
      ensures OnEveryPath(g, root, d, c)
    {
      FirstMetIsCloser(g, root, b, p, i, d);
    }
  }

  lemma ClosestIsUnique(g: Graph, root: nat, b: nat, c: nat, d: nat)
    requires Closest(g, root, c, b) && Closest(g, root, d, b)
    requires Reaches(g, c, root)
    ensures c == d
  {
    Antisymmetric(g, root, d, c);
  }

  /** Where there is only one way to go on, that is the closest. */
  lemma OnlySuccessor(g: Graph, root: nat, b: nat, s: nat)
    requires b < |g| && s < |g| && b != root && b != s && g[b] == {s}
    ensures Closest(g, root, s, b)
  {
    assert OnEveryPath(g, root, s, s);
    NeighboursDecide(g, root, s, b);
    forall d: nat | StrictlyOnEveryPath(g, root, d, b)
      ensures OnEveryPath(g, root, d, s)
    {
      StrictHoldsAtNeighbour(g, root, d, b, s);
    }
  }

  // ----- set equations

  ghost predicate InEvery(sets: seq<set<nat>>, ns: set<nat>, d: nat)
  {
    forall s :: s in ns ==> s < |sets| && d in sets[s]
  }

  /** One evaluation of the data-flow equation at block b. */
  ghost function Meet(g: Graph, sets: seq<set<nat>>, b: nat): set<nat>
    requires b < |g| && WellFormed(g) && |sets| == |g|
  {
    {b} + set d: nat | d < |g| && InEvery(sets, g[b], d)
  }

  ghost predicate IsFixpoint(g: Graph, root: nat, sets: seq<set<nat>>)
    requires WellFormed(g)
  {
    && |sets| == |g| && root < |g| && sets[root] == {root}
    && forall b :: 0 <= b < |g| && b != root ==> sets[b] == Meet(g, sets, b)
  }

  /** No block that lies on every path is missing. */
  ghost predicate Complete(g: Graph, root: nat, sets: seq<set<nat>>)
  {
    && |sets| == |g|
    && forall b :: 0 <= b < |g| ==> PostdominatorSet(g, root, b) <= sets[b]
  }

  lemma MeetKeepsComplete(g: Graph, root: nat, sets: seq<set<nat>>, b: nat)
    requires WellFormed(g) && Complete(g, root, sets) && b < |g|
    ensures PostdominatorSet(g, root, b) <= Meet(g, sets, b)
  {
    forall d | d in PostdominatorSet(g, root, b)
      ensures d in Meet(g, sets, b)
    {
      if d != b {
        forall s | s in g[b]
          ensures d in sets[s]
        {
          StrictHoldsAtNeighbour(g, root, d, b, s);
          assert d in PostdominatorSet(g, root, s);
        }
      }
    }
  }

  lemma {:induction false} FixpointIsSoundOnPath(g: Graph, root: nat, sets: seq<set<nat>>, b: nat, d: nat, p: seq<nat>)
    requires WellFormed(g) && IsFixpoint(g, root, sets)
    requires IsPath(g, p, b, root) && d in sets[b]
    ensures d in p
    decreases |p|
  {
    if b != root && d != b {
      assert p[1] in g[p[0]];
      PathSuffix(g, p, b, root, 1);
      assert d in Meet(g, sets, b);
      FixpointIsSoundOnPath(g, root, sets, p[1], d, p[1..]);
    }
  }

  /** A complete fixpoint of the data-flow equations is the all-paths answer. */
  lemma FixpointIsExact(g: Graph, root: nat, sets: seq<set<nat>>)
    requires WellFormed(g) && IsFixpoint(g, root, sets) && Complete(g, root, sets)
    ensures forall b :: 0 <= b < |g| ==> sets[b] == PostdominatorSet(g, root, b)
  {
    forall b | 0 <= b < |g|
      ensures sets[b] <= PostdominatorSet(g, root, b)
    {
      forall d | d in sets[b]
        ensures d in PostdominatorSet(g, root, b)
      {
        assert d < |g| by {
          if b != root {
            assert d in Meet(g, sets, b);
          }
        }
        forall p | IsPath(g, p, b, root)
          ensures d in p
        {
          FixpointIsSoundOnPath(g, root, sets, b, d, p);
        }
      }
    }
  }

  // ----- reading predecessor paths forwards

  ghost predicate Inverse(g: Graph, h: Graph)
  {
    && |g| == |h|
    && forall a, b :: 0 <= a < |g| && 0 <= b < |g| ==> (b in g[a] <==> a in h[b])
  }

  ghost function Backwards(p: seq<nat>): seq<nat>
  {
    seq(|p|, i requires 0 <= i < |p| => p[|p| - 1 - i])
  }

  /** A predecessor path from b back to the entry is a successor path from the entry to b. */
  lemma PathBackwards(g: Graph, h: Graph, p: seq<nat>, b: nat, root: nat)
    requires Inverse(g, h) && IsPath(g, p, b, root)
    ensures IsPath(h, Backwards(p), root, b)
    ensures Backwards(Backwards(p)) == p
    ensures forall d :: d in p <==> d in Backwards(p)
  {
    var q := Backwards(p);
    forall i | 0 <= i < |q| - 1
      ensures q[i + 1] in h[q[i]]
    {
      var k := |p| - 2 - i;
      assert p[k + 1] in g[p[k]];
    }
    forall d | d in p
      ensures d in q
    {
      var i :| 0 <= i < |p| && p[i] == d;
      assert q[|p| - 1 - i] == d;
    }
  }

  /** So what is on every predecessor path from b back to the entry dominates b: it is on every
      successor path from the entry to b. */
  lemma DominatesForwards(g: Graph, h: Graph, entry: nat, d: nat, b: nat)
    requires Inverse(g, h)
    ensures OnEveryPath(g, entry, d, b) <==> OnEveryPath(h, b, d, entry)
  {
    if OnEveryPath(g, entry, d, b) {
      forall p | IsPath(h, p, entry, b)
        ensures d in p
      {
        PathBackwards(h, g, p, entry, b);
      }
    }
    if OnEveryPath(h, b, d, entry) {
      forall p | IsPath(g, p, b, entry)
        ensures d in p
      {
        PathBackwards(g, h, p, b, entry);
      }
    }
  }
}
