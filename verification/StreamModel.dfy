/** Streams of operations shared by host threads, which push, and the GPU thread, which starts
    and completes them: the steps within the critical sections and what each of them keeps. */
module StreamModel {
  import opened Options

  datatype Op = Transfer(id: nat) | Event(id: nat) | Kernel(uid: nat, simMode: bool)

  /** ops: not yet completed, the front one pending once it has started.  pushed and completed are
      the whole history. */
  datatype Stream = Stream(ops: seq<Op>, pending: bool, pushed: seq<Op>, completed: seq<Op>)
  {
    function Pushed(op: Op): Stream
    {
      Stream(ops + [op], pending, pushed + [op], completed)
    }

    function Started(): Stream
    {
      this.(pending := true)
    }

    function Done(): Stream
      requires ops != []
    {
      Stream(ops[1..], false, pushed, completed + [ops[0]])
    }

    ghost predicate Ok()
    {
      completed + ops == pushed && (pending ==> ops != [])
    }

    predicate Runs(uid: nat)
    {
      pending && ops != [] && ops[0].Kernel? && ops[0].uid == uid
    }
  }

  /** Stream 0 is the special stream zero.  grids says which stream a started kernel belongs to.
      running are the kernels given to the GPU and not yet registered as finished; those among them
      that are done wait in the queue finished, and the others each take one of the GPU's slots. */
  datatype State = State(streams: seq<Stream>, grids: map<nat, nat>, serviceZero: bool, running: set<nat>,
                         finished: seq<nat>, slots: nat)

  const EMPTY := Stream([], false, [], [])

  function Start(slots: nat): State
  {
    State([EMPTY], map[], false, {}, [], slots)
  }

  // ----- the steps

  function PushedTo(s: State, k: nat, op: Op): State
    requires k < |s.streams|
  {
    s.(streams := s.streams[k := s.streams[k].Pushed(op)])
  }

  function Added(s: State): State
  {
    s.(streams := s.streams + [EMPTY])
  }

  predicate OthersEmpty(s: State)
  {
    forall k :: 1 <= k < |s.streams| ==> s.streams[k].ops == []
  }

  /** The first stream from k on that is neither busy nor empty. */
  function FirstReady(streams: seq<Stream>, k: nat): (r: nat)
    requires k <= |streams|
    ensures k <= r <= |streams| && (r < |streams| ==> !streams[r].pending && streams[r].ops != [])
    ensures forall i :: k <= i < r ==> streams[i].pending || streams[i].ops == []
    decreases |streams| - k
  {
    if k == |streams| || (!streams[k].pending && streams[k].ops != []) then k else FirstReady(streams, k + 1)
  }

  function Started(s: State, k: nat): State
    requires k < |s.streams| && s.streams[k].ops != []
  {
    var op := s.streams[k].ops[0];
    s.(streams := s.streams[k := s.streams[k].Started()], grids := if op.Kernel? then s.grids[op.uid := k] else s.grids)
  }

  /** The stream whose front operation is started next, and whether stream zero is served. */
  function Choice(s: State): (r: (Option<nat>, bool))
    requires |s.streams| > 0
    ensures r.0.Some? ==> r.0.value < |s.streams| && !s.streams[r.0.value].pending && s.streams[r.0.value].ops != []
  {
    if s.serviceZero || OthersEmpty(s) then
      (if s.streams[0].ops != [] && !s.streams[0].pending then Some(0) else None, s.streams[0].ops != [])
    else
      var k := FirstReady(s.streams, 1);
      (if k < |s.streams| then Some(k) else None, false)
  }

  function Fronted(s: State): State
    requires |s.streams| > 0
  {
    var (k, zero) := Choice(s);
    var after := s.(serviceZero := zero);
    if k.Some? then Started(after, k.value) else after
  }

  function Completed(s: State, k: nat): State
    requires k < |s.streams| && s.streams[k].ops != []
  {
    s.(streams := s.streams[k := s.streams[k].Done()])
  }

  ghost predicate CanFinish(s: State, uid: nat)
  {
    uid in s.grids && s.grids[uid] < |s.streams| && s.streams[s.grids[uid]].Runs(uid)
  }

  function Finished(s: State, uid: nat): State
    requires CanFinish(s, uid)
  {
    Completed(s, s.grids[uid]).(grids := s.grids - {uid}, running := s.running - {uid})
  }

  /** Transfers and events are over at once; a kernel is given to the GPU if that can take it, and
      is over at once in functional mode. */
  function Performed(s: State, k: nat, canStart: bool): State
    requires k < |s.streams| && s.streams[k].ops != []
    requires s.streams[k].ops[0].Kernel? ==> CanFinish(s, s.streams[k].ops[0].uid)
  {
    var op := s.streams[k].ops[0];
    if !op.Kernel? then Completed(s, k)
    else if !canStart then s
    else if op.simMode then Finished(s, op.uid)
    else s.(running := s.running + {op.uid})
  }

  // ----- what every step keeps

  /** A grid id is mapped to a stream exactly when that kernel is the stream's pending front. */
  ghost predicate GridsAgree(s: State)
  {
    forall uid: nat, k: nat :: Maps(s, uid, k) <==> k < |s.streams| && s.streams[k].Runs(uid)
  }

  ghost predicate Maps(s: State, uid: nat, k: nat)
  {
    uid in s.grids && s.grids[uid] == k
  }

  ghost predicate IsKernelAt(s: State, k: nat, i: nat, uid: nat)
  {
    k < |s.streams| && i < |s.streams[k].pushed| && s.streams[k].pushed[i].Kernel? && s.streams[k].pushed[i].uid == uid
  }

  /** A kernel object is pushed once; uids start at 1. */
  ghost predicate KernelsDiffer(s: State)
  {
    && (forall k, i, uid :: IsKernelAt(s, k, i, uid) ==> uid > 0)
    && forall k, i, l, j, uid :: IsKernelAt(s, k, i, uid) && IsKernelAt(s, l, j, uid) ==> k == l && i == j
  }

  ghost predicate Inv(s: State)
  {
    && |s.streams| > 0 && (forall k :: 0 <= k < |s.streams| ==> s.streams[k].Ok())
    && (s.streams[0].pending ==> s.serviceZero)
       && (s.serviceZero ==> forall k :: 1 <= k < |s.streams| ==> !s.streams[k].pending)
    && GridsAgree(s) && KernelsDiffer(s) && s.running <= s.grids.Keys
  }

  lemma RunningIsPushed(s: State, k: nat, uid: nat)
    requires k < |s.streams| && s.streams[k].Ok() && s.streams[k].ops != [] && s.streams[k].ops[0].Kernel?
             && s.streams[k].ops[0].uid == uid
    ensures IsKernelAt(s, k, |s.streams[k].completed|, uid)
  {
    var st := s.streams[k];
    assert st.pushed[|st.completed|] == st.ops[0];
  }

  lemma FrontIsPositive(s: State, k: nat)
    requires Inv(s) && k < |s.streams| && s.streams[k].ops != []
    ensures s.streams[k].ops[0].Kernel? ==> s.streams[k].ops[0].uid > 0
  {
    assert s.streams[k].Ok();
    if s.streams[k].ops[0].Kernel? {
      RunningIsPushed(s, k, s.streams[k].ops[0].uid);
    }
  }

  ghost predicate CanPush(s: State, k: nat, op: Op)
  {
    k < |s.streams| && (op.Kernel? ==> op.uid > 0 && forall l, i :: !IsKernelAt(s, l, i, op.uid))
  }

  lemma PushKeepsInv(s: State, k: nat, op: Op)
    requires Inv(s) && CanPush(s, k, op)
    ensures Inv(PushedTo(s, k, op))
  {
    var after := PushedTo(s, k, op);
    assert after.streams[k].completed + after.streams[k].ops == s.streams[k].completed + s.streams[k].ops + [op];
    forall uid: nat, j: nat
      ensures Maps(after, uid, j) <==> j < |after.streams| && after.streams[j].Runs(uid)
    {
      assert Maps(s, uid, j) <==> Maps(after, uid, j);
    }
    PushKeepsKernels(s, k, op);
  }

  lemma PushKeepsKernels(s: State, k: nat, op: Op)
    requires KernelsDiffer(s) && CanPush(s, k, op)
    ensures KernelsDiffer(PushedTo(s, k, op))
  {
    var after := PushedTo(s, k, op);
    forall a, i, uid | IsKernelAt(after, a, i, uid)
      ensures uid > 0
    {
      assert (a == k && i == |s.streams[k].pushed|) || IsKernelAt(s, a, i, uid);
    }
    forall a, i, b, j, uid | IsKernelAt(after, a, i, uid) && IsKernelAt(after, b, j, uid)
      ensures a == b && i == j
    {
      var n := |s.streams[k].pushed|;
      assert (a == k && i == n) || IsKernelAt(s, a, i, uid);
      assert (b == k && j == n) || IsKernelAt(s, b, j, uid);
    }
  }

  lemma AddKeepsInv(s: State)
    requires Inv(s)
    ensures Inv(Added(s))
  {
    var after := Added(s);
    forall uid: nat, k: nat
      ensures Maps(after, uid, k) <==> k < |after.streams| && after.streams[k].Runs(uid)
    {
      assert Maps(s, uid, k) <==> Maps(after, uid, k);
    }
    SameKernels(s, after);
  }

  lemma SameKernels(s: State, after: State)
    requires KernelsDiffer(s)
    requires forall k, i, uid :: IsKernelAt(after, k, i, uid) ==> IsKernelAt(s, k, i, uid)
    ensures KernelsDiffer(after)
  {
  }

  lemma StartKeepsInv(s: State, k: nat)
    requires Inv(s) && k < |s.streams| && !s.streams[k].pending && s.streams[k].ops != []
    requires if k == 0 then s.serviceZero else !s.serviceZero
    ensures Inv(Started(s, k))
  {
    var after := Started(s, k);
    StartKeepsGrids(s, k);
    SameKernels(s, after);
  }

  lemma StartKeepsGrids(s: State, k: nat)
    requires Inv(s) && k < |s.streams| && !s.streams[k].pending && s.streams[k].ops != []
    ensures GridsAgree(Started(s, k))
  {
    var after, op := Started(s, k), s.streams[k].ops[0];
    forall uid: nat, j: nat
      ensures Maps(after, uid, j) <==> j < |after.streams| && after.streams[j].Runs(uid)
    {
      assert Maps(s, uid, j) <==> j < |s.streams| && s.streams[j].Runs(uid);
      if op.Kernel? && op.uid == uid && Maps(s, uid, j) {
        RunningIsPushed(s, j, uid);
        RunningIsPushed(s, k, uid);
      }
      if op.Kernel? && op.uid == uid && j != k && j < |s.streams| && s.streams[j].Runs(uid) {
        RunningIsPushed(s, j, uid);
        RunningIsPushed(s, k, uid);
      }
    }
  }

  lemma FrontKeepsInv(s: State)
    requires Inv(s)
    ensures Inv(Fronted(s))
  {
    var (k, zero) := Choice(s);
    var after := s.(serviceZero := zero);
    assert Inv(after) by {
      ServiceKeepsInv(s, zero);
    }
    if k.Some? {
      StartKeepsInv(after, k.value);
    }
  }

  lemma ServiceKeepsInv(s: State, zero: bool)
    requires Inv(s) && zero == Choice(s).1
    ensures Inv(s.(serviceZero := zero))
  {
    var after := s.(serviceZero := zero);
    assert s.streams[0].Ok();
    forall k | 1 <= k < |s.streams| && zero
      ensures !s.streams[k].pending
    {
      assert s.streams[k].Ok();
    }
    forall uid: nat, k: nat
      ensures Maps(after, uid, k) <==> k < |after.streams| && after.streams[k].Runs(uid)
    {
      assert Maps(s, uid, k) <==> Maps(after, uid, k);
    }
    SameKernels(s, after);
  }

  lemma CompletingKeepsStreams(s: State, k: nat)
    requires Inv(s) && k < |s.streams| && s.streams[k].pending
    ensures var after := Completed(s, k);
            && (forall j :: 0 <= j < |s.streams| ==> after.streams[j].Ok())
            && (after.streams[0].pending ==> after.serviceZero)
            && (after.serviceZero ==> forall j :: 1 <= j < |s.streams| ==> !after.streams[j].pending)
            && KernelsDiffer(after)
  {
    var st := s.streams[k];
    assert st.Ok();
    assert st.completed + [st.ops[0]] + st.ops[1..] == st.completed + st.ops;
    SameKernels(s, Completed(s, k));
  }

  /** The completed kernel's uid is the one the stream's front has, as register_finished_kernel asserts. */
  lemma FinishKeepsInv(s: State, uid: nat)
    requires Inv(s) && uid in s.grids
    ensures CanFinish(s, uid) && Inv(Finished(s, uid))
  {
    var k := s.grids[uid];
    assert Maps(s, uid, k);
    CompletingKeepsStreams(s, k);
    var after := Finished(s, uid);
    forall u: nat, j: nat
      ensures Maps(after, u, j) <==> j < |after.streams| && after.streams[j].Runs(u)
    {
      assert Maps(s, u, j) <==> j < |s.streams| && s.streams[j].Runs(u);
      assert u != uid ==> (Maps(after, u, j) <==> Maps(s, u, j));
      if u == uid && j < |s.streams| && j != k {
        assert !Maps(s, u, j);
      }
    }
    SameKernels(Completed(s, k), after);
  }

  lemma PerformKeepsInv(s: State, k: nat, canStart: bool)
    requires Inv(s) && k < |s.streams| && s.streams[k].pending
    ensures s.streams[k].ops != []
    ensures s.streams[k].ops[0].Kernel? ==> CanFinish(s, s.streams[k].ops[0].uid)
    ensures Inv(Performed(s, k, canStart))
  {
    assert s.streams[k].Ok();
    var op := s.streams[k].ops[0];
    if op.Kernel? {
      assert s.streams[k].Runs(op.uid) && Maps(s, op.uid, k);
      FinishKeepsInv(s, op.uid);
      if canStart && !op.simMode {
        var after := s.(running := s.running + {op.uid});
        SameGrids(s, after);
        SameKernels(s, after);
      }
    } else {
      CompletingKeepsStreams(s, k);
      TransferKeepsGrids(s, k);
    }
  }

  lemma SameGrids(s: State, after: State)
    requires GridsAgree(s) && s.streams == after.streams && s.grids == after.grids
    ensures GridsAgree(after)
  {
    forall uid: nat, k: nat
      ensures Maps(after, uid, k) <==> k < |after.streams| && after.streams[k].Runs(uid)
    {
      assert Maps(s, uid, k) <==> Maps(after, uid, k);
    }
  }

  lemma TransferKeepsGrids(s: State, k: nat)
    requires GridsAgree(s) && k < |s.streams| && s.streams[k].ops != [] && !s.streams[k].ops[0].Kernel?
    ensures GridsAgree(Completed(s, k))
  {
    var after := Completed(s, k);
    forall uid: nat, j: nat
      ensures Maps(after, uid, j) <==> j < |after.streams| && after.streams[j].Runs(uid)
    {
      assert Maps(s, uid, j) <==> j < |s.streams| && s.streams[j].Runs(uid);
      assert Maps(s, uid, j) <==> Maps(after, uid, j);
    }
  }

  // ----- the GPU's slots

  function Elements(q: seq<nat>): set<nat>
  {
    set u | u in q
  }

  /** The kernels in slots. */
  function Busy(s: State): set<nat>
  {
    s.running - Elements(s.finished)
  }

  predicate CanStart(s: State)
  {
    |Busy(s)| < s.slots
  }

  ghost predicate GpuOk(s: State)
  {
    && s.slots > 0 && |Busy(s)| <= s.slots && Elements(s.finished) <= s.running
    && forall i, j :: 0 <= i < j < |s.finished| ==> s.finished[i] != s.finished[j]
  }

  lemma SameStreamsKeepInv(s: State, after: State)
    requires Inv(s) && after == s.(running := after.running, finished := after.finished) && after.running <= s.running
    ensures Inv(after)
  {
    SameGrids(s, after);
    SameKernels(s, after);
  }

  lemma RunningIsMapped(s: State, uid: nat)
    requires Inv(s) && uid in s.running
    ensures uid in s.grids
  {
  }

  /** A kernel that has not started runs nowhere. */
  lemma WaitingIsNotRunning(s: State, k: nat, uid: nat)
    requires Inv(s) && k < |s.streams| && !s.streams[k].pending
    requires s.streams[k].ops != [] && s.streams[k].ops[0].Kernel? && s.streams[k].ops[0].uid == uid
    ensures uid !in s.running
  {
    if uid in s.running {
      RunningIsMapped(s, uid);
      var j := s.grids[uid];
      assert Maps(s, uid, j);
      RunningIsPushed(s, j, uid);
      RunningIsPushed(s, k, uid);
    }
  }
}
