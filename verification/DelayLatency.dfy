/** How long a datum stays in the delay queue: the length that every mix of operations leaves. */
module DelayLatency {
  import opened DelayQueue
  import opened Options

  // ----- the last datum

  /** The cells up to the last datum. */
  ghost function Reach<T>(cells: seq<Option<T>>): (n: nat)
    ensures n <= |cells|
  {
    if cells == [] then 0
    else
      var later := Reach(cells[1..]);
      if later > 0 then later + 1 else if cells[0].Some? then 1 else 0
  }

  lemma {:induction false} ReachByLast<T>(cells: seq<Option<T>>, c: Option<T>)
    ensures Reach(cells + [c]) == if c.Some? then |cells| + 1 else Reach(cells)
  {
    if cells != [] {
      assert (cells + [c])[1..] == cells[1..] + [c];
      ReachByLast(cells[1..], c);
    } else {
      assert (cells + [c])[1..] == [];
    }
  }

  lemma ReachAfterPop<T>(q: Queue<T>)
    ensures Reach(q.Pop().cells) == if Reach(q.cells) > 0 then Reach(q.cells) - 1 else 0
  {
    if q.cells != [] {
      ReachByLast(q.cells[1..], None);
    }
  }

  lemma {:induction false} NothingReached<T>(cells: seq<Option<T>>, i: nat)
    requires Reach(cells) == 0 && i < |cells|
    ensures cells[i] == None
  {
    if i > 0 {
      NothingReached(cells[1..], i - 1);
    }
  }

  lemma {:induction false} OnlyEmptyCells<T>(cells: seq<Option<T>>)
    requires forall i :: 0 <= i < |cells| ==> cells[i] == None
    ensures DataOf(cells) == []
  {
    if cells != [] {
      OnlyEmptyCells(cells[..|cells| - 1]);
    }
  }

  lemma NoDataLeft<T>(q: Queue<T>)
    requires Reach(q.cells) == 0
    ensures q.Data() == []
  {
    forall i | 0 <= i < |q.cells|
      ensures q.cells[i] == None
    {
      NothingReached(q.cells, i);
    }
    OnlyEmptyCells(q.cells);
  }

  // ----- no cell is kept for nothing

  function Larger(a: nat, b: nat): nat
  {
    if a < b then b else a
  }

  /** The queue is as long as its least length or its last datum asks for. */
  ghost predicate IsTight<T>(q: Queue<T>)
  {
    |q.cells| == Larger(q.minLen, Reach(q.cells))
  }

  lemma {:induction false} ReachOfPadded<T>(cells: seq<Option<T>>, n: nat)
    ensures Reach(Padded(cells, n)) == Reach(cells) && |Padded(cells, n)| == Larger(|cells|, n)
    decreases n - |cells|
  {
    if |cells| < n {
      ReachByLast(cells, None);
      ReachOfPadded(cells + [None], n);
    }
  }

  lemma {:induction false} ReachOfTrimmed<T>(cells: seq<Option<T>>, n: nat)
    requires n <= |cells|
    ensures Reach(Trimmed(cells, n)) == Reach(cells) && |Trimmed(cells, n)| == Larger(n, Reach(cells))
  {
    if cells != [] {
      var front, last := cells[..|cells| - 1], cells[|cells| - 1];
      assert cells == front + [last];
      ReachByLast(front, last);
      if |cells| > n && last.None? {
        ReachOfTrimmed(front, n);
      }
    }
  }

  /** A datum goes into the first cell from which it leaves no sooner than the least length asks. */
  lemma LengthAfterPush<T>(q: Queue<T>, x: T)
    requires q.Valid() && IsTight(q)
    ensures var after := q.Push(Some(x));
            IsTight(after) && |after.cells| == Larger(q.minLen, Reach(q.cells) + 1)
  {
    var n := |q.cells|;
    if n > 0 {
      var front, last := q.cells[..n - 1], q.cells[n - 1];
      assert q.cells == front + [last];
      ReachByLast(front, last);
      ReachByLast(front, Some(x));
      assert q.cells[n - 1 := Some(x)] == front + [Some(x)];
    }
    ReachByLast(q.cells, Some(x));
  }

  lemma OperationKeepsTight<T>(q: Queue<T>, op: Op<T>)
    requires q.Valid() && IsTight(q)
    ensures IsTight(Do(q, op))
  {
    match op
    case PushData(x) => LengthAfterPush(q, x);
    case PopData => ReachAfterPop(q);
    case SetMin(n) =>
      ReachOfPadded(q.cells, n);
      if n < q.minLen {
        ReachOfTrimmed(q.cells, n);
      }
  }

  lemma {:induction false} RunIsTight<T>(q: Queue<T>, ops: seq<Op<T>>)
    requires q.Valid() && IsTight(q)
    ensures Run(q, ops).Valid() && IsTight(Run(q, ops))
  {
    hide IsTight, Do;
    DataLeaveInOrder(q, ops);
    if ops != [] {
      RunIsTight(q, ops[..|ops| - 1]);
      OperationKeepsTight(Run(q, ops[..|ops| - 1]), ops[|ops| - 1]);
    }
  }

  lemma NewQueueIsTight<T>(n: nat)
    ensures var q := Queue<T>.Queue([], 0).SetMinLength(n); q.Valid() && IsTight(q) && q.minLen == n
  {
    ReachOfPadded<T>([], n);
  }

  /** After any operations on a new queue, what is pushed leaves on exactly the pop whose number is the
      larger of the least length and one more than the place of the last datum before it: that of the
      least length if the queue holds no data. */
  lemma LatencyAfterPush<T>(n: nat, before: seq<Op<T>>, x: T, after: seq<Op<T>>)
    ensures var q := Run(Queue<T>.Queue([], 0).SetMinLength(n), before);
            var pop := Larger(q.minLen, Reach(q.cells) + 1);
            var r := q.Push(Some(x));
            && (Pops(after) < pop ==>
                  && pop - 1 - Pops(after) < |Run(r, after).cells|
                  && Run(r, after).cells[pop - 1 - Pops(after)] == Some(x))
            && (Pops(after) == pop - 1 ==> Run(r, after).Front() == Some(x))
            && (q.Data() == [] ==> Reach(q.cells) == 0)
  {
    NewQueueIsTight<T>(n);
    var start := Queue<T>.Queue([], 0).SetMinLength(n);
    RunIsTight(start, before);
    var q := Run(start, before);
    LengthAfterPush(q, x);
    LatencyIsLength(q, x, after);
    ReachIsData(q.cells);
  }

  lemma {:induction false} ReachIsData<T>(cells: seq<Option<T>>)
    ensures DataOf(cells) == [] <==> Reach(cells) == 0
  {
    if cells != [] {
      var front, last := cells[..|cells| - 1], cells[|cells| - 1];
      assert cells == front + [last];
      ReachByLast(front, last);
      ReachIsData(front);
    }
  }
}
