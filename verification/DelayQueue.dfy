/** The fixed-latency queue of the memory system: a chain of cells, some of them empty on purpose
    so that what is pushed stays inside for a while. */
module DelayQueue {
  import opened Options

  // ----- the queue as a value

  datatype Queue<T> = Queue(cells: seq<Option<T>>, minLen: nat)
  {
    ghost predicate Valid()
    {
      minLen <= |cells|
    }

    /** A datum goes into a new cell, or into the last one if that is empty and not needed as delay. */
    function Push(data: Option<T>): Queue<T>
    {
      var n := |cells|;
      if n > 0 && cells[n - 1].None? && minLen <= n then Queue(cells[n - 1 := data], minLen)
      else Queue(cells + [data], minLen)
    }

    function Front(): Option<T>
    {
      if cells == [] then None else cells[0]
    }

    /** The first cell leaves; an empty cell joins when the queue would be too short. */
    function Pop(): Queue<T>
    {
      if cells == [] then this
      else if 0 < minLen && |cells| - 1 < minLen then Queue(cells[1..] + [None], minLen)
      else Queue(cells[1..], minLen)
    }

    function SetMinLength(n: nat): Queue<T>
    {
      if n >= minLen then Queue(Padded(cells, n), n) else Queue(Trimmed(cells, n), n)
    }

    ghost function Data(): seq<T>
    {
      DataOf(cells)
    }
  }

  function Padded<T>(cells: seq<Option<T>>, n: nat): seq<Option<T>>
    decreases n - |cells|
  {
    if n <= |cells| then cells else Padded(cells + [None], n)
  }

  /** The cells without the empty ones at the end that are beyond the first n. */
  function Trimmed<T>(cells: seq<Option<T>>, n: nat): seq<Option<T>>
  {
    if |cells| > n && cells[|cells| - 1].None? then Trimmed(cells[..|cells| - 1], n) else cells
  }

  ghost function DataOf<T>(cells: seq<Option<T>>): seq<T>
  {
    if cells == [] then []
    else DataOf(cells[..|cells| - 1]) + match cells[|cells| - 1] case None => [] case Some(x) => [x]
  }

  // ----- the queue as a chain of nodes

  class Node<T> {
    var data: Option<T>
    var next: Node?<T>

    constructor ()
      ensures data == None && next == null
    {
      data, next := None, null;
    }
  }

  class FifoPipeline<T> {
    var minLen: nat
    const maxLen: nat
    var length: nat
    var head: Node?<T>
    var tail: Node?<T>
    ghost var spine: seq<Node<T>>

    ghost predicate Linked()
      reads this, spine
    {
      && (forall i, j :: 0 <= i < j < |spine| ==> spine[i] != spine[j])
      && (forall i :: 0 <= i < |spine| - 1 ==> spine[i].next == spine[i + 1])
      && (|spine| > 0 ==> spine[|spine| - 1].next == null)
      && (if spine == [] then head == null && tail == null else head == spine[0] && tail == spine[|spine| - 1])
    }

    /** The shape, without the promise on the least length. */
    ghost predicate IsChain()
      reads this, spine
    {
      Linked() && length == |spine|
    }

    ghost predicate Valid()
      reads this, spine
    {
      IsChain() && minLen <= length
    }

    ghost function View(): Queue<T>
      reads this, spine
    {
      Queue(seq(|spine|, i requires 0 <= i < |spine| reads this, spine => spine[i].data), minLen)
    }

    constructor (minlen: nat, maxlen: nat)
      requires maxlen > 0
      ensures Valid() && fresh(spine) && View() == Queue([], 0).SetMinLength(minlen) && maxLen == maxlen
    {
      minLen, maxLen, length, head, tail, spine := minlen, maxlen, 0, null, null, [];
      new;
      ghost var goal := Padded<Option<T>>([], minlen);
      assert View().cells == [];
      for i := 0 to minlen
        invariant IsChain() && length == i && minLen == minlen && fresh(spine)
        invariant Padded(View().cells, minlen) == Padded([], minlen)
      {
        Push(None);
      }
    }

    /** A new cell at the end, still empty. */
    method AppendCell()
      requires IsChain()
      modifies this`length, this`head, this`tail, this`spine, spine
      ensures IsChain() && View() == Queue(old(View()).cells + [None], minLen) && minLen == old(minLen)
      ensures fresh(set n | n in spine && n !in old(spine)) && |spine| == |old(spine)| + 1
    {
      var n := new Node<T>();
      if head != null {
        tail.next := n;
        tail := n;
      } else {
        head, tail := n, n;
      }
      length := length + 1;
      spine := spine + [n];
      assert View().cells == old(View()).cells + [None];
    }

    /** The last cell is filled. */
    method FillTail(data: Option<T>)
      requires IsChain() && length > 0
      modifies spine
      ensures IsChain() && View() == Queue(old(View()).cells[length - 1 := data], minLen)
    {
      tail.next := null;
      tail.data := data;
      assert View().cells == old(View()).cells[length - 1 := data];
    }

    method Push(data: Option<T>)
      requires IsChain()
      modifies this`length, this`head, this`tail, this`spine, spine
      ensures IsChain() && View() == old(View()).Push(data) && minLen == old(minLen)
      ensures fresh(set n | n in spine && n !in old(spine))
    {
      ghost var cells := View().cells;
      assert |cells| == length;
      if head != null {
        if tail.data.Some? || length < minLen {
          AppendCell();
          assert View().cells[length - 1 := data] == cells + [data];
        }
      } else {
        AppendCell();
        assert View().cells[length - 1 := data] == cells + [data];
      }
      FillTail(data);
    }

    method Pop() returns (data: Option<T>)
      requires IsChain()
      modifies this`length, this`head, this`tail, this`spine, spine
      ensures IsChain() && View() == old(View()).Pop() && data == old(View()).Front() && minLen == old(minLen)
      ensures fresh(set n | n in spine && n !in old(spine))
    {
      if head == null {
        return None;
      }
      var next := head.next;
      data := head.data;
      if head == tail {
        tail := null;
      }
      head := next;
      length := length - 1;
      spine := spine[1..];
      assert View().cells == old(View()).cells[1..];
      if 0 < minLen && length < minLen {
        Push(None);
      }
    }

    method SetMinLength(newMinLen: nat)
      requires Valid()
      modifies this, spine
      ensures Valid() && View() == old(View()).SetMinLength(newMinLen)
      ensures fresh(set n | n in spine && n !in old(spine))
    {
      if newMinLen == minLen {
        return;
      }
      var longer := newMinLen > minLen;
      minLen := newMinLen;
      assert View().cells == old(View()).cells;
      if longer {
        PadToMinLength();
      } else {
        TrimToMinLength();
      }
    }

    method PadToMinLength()
      requires IsChain()
      modifies this`length, this`head, this`tail, this`spine, spine
      ensures IsChain() && minLen <= length && View() == Queue(Padded(old(View()).cells, minLen), minLen)
      ensures minLen == old(minLen) && fresh(set n | n in spine && n !in old(spine))
    {
      hide FifoPipeline<T>.Linked;
      while length < minLen
        invariant IsChain() && length == |View().cells| && View().minLen == minLen
        invariant Padded(View().cells, minLen) == Padded(old(View()).cells, minLen)
        invariant fresh(set n | n in spine && n !in old(spine))
        decreases minLen - length
      {
        Push(None);
      }
    }

    method TrimToMinLength()
      requires Valid()
      modifies this`length, this`head, this`tail, this`spine, spine
      ensures Valid() && View() == Queue(Trimmed(old(View()).cells, minLen), minLen)
      ensures minLen == old(minLen) && fresh(set n | n in spine && n !in old(spine))
    {
      while length > minLen && tail.data.None?
        invariant Valid() && Trimmed(View().cells, minLen) == Trimmed(old(View()).cells, minLen)
        invariant fresh(set n | n in spine && n !in old(spine))
        decreases length
      {
        DropTail();
      }
    }

    /** Unlinks the last cell: the chain is walked to the cell before it, if there is one. */
    method DropTail()
      requires IsChain() && length > 0 && minLen < length
      modifies this`length, this`head, this`tail, this`spine, spine
      ensures IsChain() && View() == old(View()).(cells := old(View()).cells[..old(length) - 1])
              && minLen == old(minLen)
      ensures spine == old(spine)[..old(length) - 1]
    {
      var iter := head;
      ghost var i := 0;
      while iter != null && iter.next != tail
        invariant iter == null ==> |spine| == 1
        invariant iter != null ==> 0 <= i < |spine| && iter == spine[i] && (|spine| > 1 ==> i <= |spine| - 2)
        decreases |spine| - i, iter != null
      {
        assert |spine| > 1 ==> iter.next == spine[i + 1];
        iter := iter.next;
        i := i + 1;
      }
      if iter == null {
        var _ := Pop();
      } else {
        assert |spine| > 1 && iter.next == spine[i + 1];
        assert i == |spine| - 2;
        tail := iter;
        tail.next := null;
        length := length - 1;
        spine := spine[..|spine| - 1];
      }
      assert View().cells == old(View()).cells[..old(length) - 1];
    }

    method Top() returns (data: Option<T>)
      requires IsChain()
      ensures data == View().Front()
    {
      if head != null {
        return head.data;
      }
      return None;
    }

    method Full() returns (full: bool)
      requires IsChain()
      ensures full <==> 0 < maxLen <= |View().cells|
    {
      full := 0 < maxLen && length >= maxLen;
    }

    method Empty() returns (empty: bool)
      requires IsChain()
      ensures empty <==> View().cells == []
    {
      empty := head == null;
    }
  }

  // ----- runs of the queue

  datatype Op<T> = PushData(x: T) | PopData | SetMin(n: nat)

  function Do<T>(q: Queue<T>, op: Op<T>): Queue<T>
  {
    match op
    case PushData(x) => q.Push(Some(x))
    case PopData => q.Pop()
    case SetMin(n) => q.SetMinLength(n)
  }

  function Run<T>(q: Queue<T>, ops: seq<Op<T>>): Queue<T>
  {
    if ops == [] then q else Do(Run(q, ops[..|ops| - 1]), ops[|ops| - 1])
  }

  /** What came out, empty cells left aside. */
  ghost function Popped<T>(q: Queue<T>, ops: seq<Op<T>>): seq<T>
  {
    if ops == [] then []
    else
      var before := Run(q, ops[..|ops| - 1]);
      Popped(q, ops[..|ops| - 1])
        + if ops[|ops| - 1].PopData? && before.Front().Some? then [before.Front().value] else []
  }

  ghost function Pushed<T>(ops: seq<Op<T>>): seq<T>
  {
    if ops == [] then []
    else Pushed(ops[..|ops| - 1]) + match ops[|ops| - 1] case PushData(x) => [x] case _ => []
  }

  ghost function Pops<T>(ops: seq<Op<T>>): nat
  {
    if ops == [] then 0 else Pops(ops[..|ops| - 1]) + if ops[|ops| - 1].PopData? then 1 else 0
  }

  lemma DataOfSnoc<T>(cells: seq<Option<T>>, c: Option<T>)
    ensures DataOf(cells + [c]) == DataOf(cells) + match c case None => [] case Some(x) => [x]
  {
    assert (cells + [c])[..|cells|] == cells;
  }

  lemma {:induction false} DataOfTail<T>(cells: seq<Option<T>>)
    requires cells != []
    ensures DataOf(cells) == (match cells[0] case None => [] case Some(x) => [x]) + DataOf(cells[1..])
  {
    var n := |cells| - 1;
    if n > 0 {
      DataOfTail(cells[..n]);
      assert cells[..n][1..] == cells[1..][..n - 1];
    } else {
      assert cells[..0] == [] && cells[1..] == [];
    }
  }

  lemma {:induction false} PaddingHasNoData<T>(cells: seq<Option<T>>, n: nat)
    ensures DataOf(Padded(cells, n)) == DataOf(cells) && cells <= Padded(cells, n) && n <= |Padded(cells, n)|
    decreases n - |cells|
  {
    if |cells| < n {
      DataOfSnoc(cells, None);
      PaddingHasNoData(cells + [None], n);
    }
  }

  lemma {:induction false} TrimmingLosesNoData<T>(cells: seq<Option<T>>, n: nat)
    requires n <= |cells|
    ensures DataOf(Trimmed(cells, n)) == DataOf(cells) && n <= |Trimmed(cells, n)|
    ensures Trimmed(cells, n) <= cells
    ensures forall i :: |Trimmed(cells, n)| <= i < |cells| ==> cells[i].None?
  {
    if |cells| > n && cells[|cells| - 1].None? {
      TrimmingLosesNoData(cells[..|cells| - 1], n);
    }
  }

  lemma PushedLast<T>(q: Queue<T>, x: T)
    requires q.Valid()
    ensures q.Push(Some(x)).Valid() && q.Push(Some(x)).Data() == q.Data() + [x]
  {
    var n := |q.cells|;
    if n > 0 && q.cells[n - 1].None? && q.minLen <= n {
      assert q.cells[n - 1 := Some(x)] == q.cells[..n - 1] + [Some(x)];
      DataOfSnoc(q.cells[..n - 1], Some(x));
    } else {
      DataOfSnoc(q.cells, Some(x));
    }
  }

  lemma PoppedFirst<T>(q: Queue<T>)
    requires q.Valid()
    ensures q.Pop().Valid() && q.Data() == (if q.Front().Some? then [q.Front().value] else []) + q.Pop().Data()
  {
    if q.cells != [] {
      DataOfTail(q.cells);
      DataOfSnoc(q.cells[1..], None);
    }
  }

  lemma LengthChanged<T>(q: Queue<T>, n: nat)
    requires q.Valid()
    ensures q.SetMinLength(n).Valid() && q.SetMinLength(n).Data() == q.Data() && q.SetMinLength(n).minLen == n
  {
    if n >= q.minLen {
      PaddingHasNoData(q.cells, n);
    } else {
      TrimmingLosesNoData(q.cells, n);
    }
  }

  /** Every operation keeps the least length, and moves data only out at the front and in at the end. */
  lemma OneOperation<T>(q: Queue<T>, op: Op<T>)
    requires q.Valid()
    ensures Do(q, op).Valid()
    ensures match op
            case PushData(x) => Do(q, op).Data() == q.Data() + [x]
            case PopData => q.Data() == (if q.Front().Some? then [q.Front().value] else []) + Do(q, op).Data()
            case SetMin(n) => Do(q, op).Data() == q.Data() && Do(q, op).minLen == n
  {
    match op
    case PushData(x) => PushedLast(q, x);
    case PopData => PoppedFirst(q);
    case SetMin(n) => LengthChanged(q, n);
  }

  /** Under any mix of operations data leave in push order with none lost or made up. */
  lemma {:induction false} DataLeaveInOrder<T>(q: Queue<T>, ops: seq<Op<T>>)
    requires q.Valid()
    ensures Run(q, ops).Valid()
    ensures Popped(q, ops) + Run(q, ops).Data() == q.Data() + Pushed(ops)
  {
    if ops != [] {
      var before := ops[..|ops| - 1];
      DataLeaveInOrder(q, before);
      var r, op := Run(q, before), ops[|ops| - 1];
      OneOperation(r, op);
      match op
      case PushData(x) =>
        assert Popped(q, ops) == Popped(q, before) && Pushed(ops) == Pushed(before) + [x];
        assert Popped(q, before) + (r.Data() + [x]) == Popped(q, before) + r.Data() + [x];
        assert q.Data() + Pushed(before) + [x] == q.Data() + (Pushed(before) + [x]);
      case PopData =>
        var out := if r.Front().Some? then [r.Front().value] else [];
        assert Popped(q, before) + out + Do(r, op).Data() == Popped(q, before) + (out + Do(r, op).Data());
      case SetMin(_) =>
        assert Popped(q, ops) == Popped(q, before) && Pushed(ops) == Pushed(before);
    }
  }

  /** A cell holding a datum moves only when the queue is popped. */
  lemma {:induction false} DataMoveOnlyByPops<T>(q: Queue<T>, ops: seq<Op<T>>, i: nat)
    requires q.Valid() && i < |q.cells| && q.cells[i].Some? && Pops(ops) <= i
    ensures i - Pops(ops) < |Run(q, ops).cells| && Run(q, ops).cells[i - Pops(ops)] == q.cells[i]
  {
    if ops != [] {
      hide Do;
      var before, op := ops[..|ops| - 1], ops[|ops| - 1];
      DataMoveOnlyByPops(q, before, i);
      DataLeaveInOrder(q, before);
      OneOperationMoves(Run(q, before), op, i - Pops(before));
    }
  }

  lemma OneOperationMoves<T>(r: Queue<T>, op: Op<T>, at: nat)
    requires r.Valid() && at < |r.cells| && r.cells[at].Some? && (op.PopData? ==> at > 0)
    ensures var to := if op.PopData? then at - 1 else at;
            to < |Do(r, op).cells| && Do(r, op).cells[to] == r.cells[at]
  {
    hide DataOf, Padded, Trimmed;
    if op.SetMin? {
      PaddingHasNoData(r.cells, op.n);
      if op.n < r.minLen {
        TrimmingLosesNoData(r.cells, op.n);
      }
    }
  }

  /** What is pushed into a queue leaves on exactly the pop whose number is the queue's length
      after the push: after that many pops less one it is in front, however the other operations
      fall, and until then no pop yields it from another place. */
  lemma LatencyIsLength<T>(q: Queue<T>, x: T, ops: seq<Op<T>>)
    requires q.Valid()
    ensures var r := q.Push(Some(x));
            && r.cells[|r.cells| - 1] == Some(x)
            && (Pops(ops) < |r.cells| ==>
                  var at := |r.cells| - 1 - Pops(ops);
                  at < |Run(r, ops).cells| && Run(r, ops).cells[at] == Some(x))
            && (Pops(ops) == |r.cells| - 1 ==> Run(r, ops).Front() == Some(x))
  {
    var r := q.Push(Some(x));
    OneOperation(q, PushData(x));
    if Pops(ops) < |r.cells| {
      DataMoveOnlyByPops(r, ops, |r.cells| - 1);
    }
  }
}
