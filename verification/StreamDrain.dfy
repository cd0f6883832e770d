/** Progress of the streams: what one operation of the GPU thread gets done, and when everything that
    was pushed is completed. */
module StreamDrain {
  import opened Options
  import opened StreamModel
  import opened StreamRuns
  import opened StreamRefusal

  // ----- one operation

  /** The operation is over in the step that starts it: transfers and events are, and functional-mode
      kernels if the GPU has a slot. */
  predicate IsOverAtOnce(op: Op, canStart: bool)
  {
    !op.Kernel? || (op.simMode && canStart)
  }

  /** What the GPU thread starts is the one operation that its stream has completed afterwards, or the
      kernel that stays its pending front and is with the GPU if that had a slot. */
  lemma StartedOperationEnds(s: State)
    requires Sound(s) && Choice(s).0.Some?
    ensures var k := Choice(s).0.value;
            var st, op, after := s.streams[k], s.streams[k].ops[0], Operated(s);
            && |after.streams| == |s.streams|
            && (forall j :: 0 <= j < |s.streams| && j != k ==> after.streams[j] == s.streams[j])
            && if IsOverAtOnce(op, CanStart(s))
               then && after.streams[k].completed == st.completed + [op] && after.streams[k].ops == st.ops[1..]
                    && !after.streams[k].pending && after.streams[k].pushed == st.pushed
               else && after.streams[k] == st.(pending := true) && op.Kernel?
                    && (op.uid in after.running <==> CanStart(s))
  {
    hide GpuOk, CanStart;
    OperatingIsSound(s);
    var k := Choice(s).0.value;
    var op := s.streams[k].ops[0];
    if op.Kernel? {
      WaitingIsNotRunning(s, k, op.uid);
    }
  }

  ghost predicate HasWork(s: State, k: nat)
  {
    k < |s.streams| && s.streams[k].ops != []
  }

  ghost predicate OthersWait(s: State, after: State)
  {
    && |s.streams| <= |after.streams|
    && forall k :: 1 <= k < |s.streams| ==>
         after.streams[k].completed == s.streams[k].completed && !after.streams[k].pending
  }

  /** Stream zero's turn begins when all other streams are empty and something waits in stream zero,
      and while it lasts nothing of the others is started or completed, whatever is pushed to them. */
  lemma ZeroHasItsTurn(s: State, e: Step)
    requires Sound(s) && Enabled(s, e)
    ensures !s.serviceZero && After(s, e).serviceZero ==>
              e.Operate? && OthersEmpty(After(s, e)) && HasWork(Registered(s), 0)
    ensures s.serviceZero ==> OthersWait(s, After(s, e))
  {
    hide GpuOk, CanStart, Registered, Operated;
    if e.Operate? {
      var r := Registered(s);
      ZeroAlonePends(s);
      OperatedInTurn(r);
    }
  }

  lemma ZeroAlonePends(s: State)
    requires Sound(s)
    ensures Registered(s).serviceZero == s.serviceZero && |Registered(s).streams| == |s.streams|
    ensures s.serviceZero ==> forall k :: 1 <= k < |s.streams| ==> Registered(s).streams[k] == s.streams[k]
  {
    if s.finished != [] {
      RegisteringIsSound(s);
    }
  }

  lemma OperatedInTurn(s: State)
    requires Sound(s)
    ensures |Operated(s).streams| == |s.streams|
    ensures !s.serviceZero && Operated(s).serviceZero ==>
              (forall k :: 1 <= k < |s.streams| ==> Operated(s).streams[k].ops == []) && s.streams[0].ops != []
    ensures s.serviceZero ==> forall k :: 1 <= k < |s.streams| ==> Operated(s).streams[k] == s.streams[k]
  {
    hide GpuOk, CanStart, FirstReady;
    if Choice(s).0.Some? {
      StartedOperationEnds(s);
      OperatingIsSound(s);
    }
  }

  // ----- what stays pending

  /** Only kernels stay pending, and those that the GPU runs are not in functional mode. */
  ghost predicate KernelsPend(s: State)
  {
    forall k :: 0 <= k < |s.streams| && s.streams[k].pending ==> PendsWell(s, s.streams[k])
  }

  ghost predicate PendsWell(s: State, st: Stream)
  {
    st.ops != [] && st.ops[0].Kernel? && (st.ops[0].uid in s.running ==> !st.ops[0].simMode)
  }

  lemma RegisteringKeepsPend(s: State)
    requires Sound(s) && KernelsPend(s)
    ensures KernelsPend(Registered(s))
  {
    hide GpuOk, PendsWell;
    if s.finished != [] {
      hide Inv;
      RegisteringIsSound(s);
      var after := Registered(s);
      forall k | 0 <= k < |after.streams| && after.streams[k].pending
        ensures PendsWell(after, after.streams[k])
      {
        assert after.streams[k] == s.streams[k];
        PendsWithFewer(s, after, s.streams[k]);
      }
    }
  }

  lemma PendsWithFewer(s: State, after: State, st: Stream)
    requires PendsWell(s, st) && after.running <= s.running
    ensures PendsWell(after, st)
  {
  }

  /** One kernel is in front of one stream only. */
  lemma OneFront(s: State, j: nat, k: nat, uid: nat)
    requires Inv(s) && j < |s.streams| && k < |s.streams| && s.streams[j].Runs(uid) && s.streams[k].Runs(uid)
    ensures j == k
  {
    assert Maps(s, uid, j) && Maps(s, uid, k);
  }

  lemma OperatingKeepsPend(s: State)
    requires Sound(s) && KernelsPend(s)
    ensures KernelsPend(Operated(s))
  {
    var after, k := Operated(s), Choice(s).0;
    if k.Some? {
      StartedOperationEnds(s);
      OperatedRunning(s);
      hide Inv, GpuOk, Operated, Choice, CanStart;
      forall j: nat | j < |after.streams| && after.streams[j].pending
        ensures PendsWell(after, after.streams[j])
      {
        if j != k.value {
          assert PendsWell(s, s.streams[j]);
          if s.streams[j].ops[0].uid in after.running && s.streams[j].ops[0].uid !in s.running {
            OneFront(after, j, k.value, s.streams[j].ops[0].uid);
          }
        }
      }
    }
  }

  lemma OperatedRunning(s: State)
    requires Sound(s) && Choice(s).0.Some?
    ensures var op, after := s.streams[Choice(s).0.value].ops[0], Operated(s);
            && after.slots == s.slots && after.finished == s.finished
            && (op.Kernel? ==> op.uid !in s.running)
            && after.running == if op.Kernel? && !op.simMode && CanStart(s) then s.running + {op.uid} else s.running
  {
    hide Inv, GpuOk, CanStart, Performed;
    OperatingIsSound(s);
    var k := Choice(s).0.value;
    PerformingOnGpu(Fronted(s), k, CanStart(s));
    if s.streams[k].ops[0].Kernel? {
      WaitingIsNotRunning(s, k, s.streams[k].ops[0].uid);
    }
  }

  lemma StepKeepsPend(s: State, e: Step)
    requires Sound(s) && Enabled(s, e) && KernelsPend(s)
    ensures KernelsPend(After(s, e))
  {
    hide Inv, GpuOk, Registered, Operated;
    match e
    case AddStream =>
      assert forall k :: 0 <= k < |s.streams| ==> Added(s).streams[k] == s.streams[k];
    case Push(j, op) =>
      forall k | 0 <= k < |s.streams| && s.streams[k].pending
        ensures PendsWell(PushedTo(s, j, op), PushedTo(s, j, op).streams[k])
      {
        assert PendsWell(s, s.streams[k]);
      }
    case KernelDone(_) =>
    case Operate =>
      RegisteringKeepsPend(s);
      OperatingKeepsPend(Registered(s));
  }

  /** Over every interleaving what is pending between critical sections is a kernel, and one in
      functional mode only if the GPU has refused it. */
  lemma {:induction false} OnlyKernelsPend(slots: nat, steps: seq<Step>)
    requires slots > 0 && Run(slots, steps).Some?
    ensures KernelsPend(Run(slots, steps).value)
  {
    hide Inv, GpuOk, After;
    if steps != [] {
      OnlyKernelsPend(slots, steps[..|steps| - 1]);
      StepKeepsPend(Run(slots, steps[..|steps| - 1]).value, steps[|steps| - 1]);
    }
  }

  // ----- what is left to do

  function WorkOf(st: Stream): nat
  {
    5 * |st.ops| - if st.pending && st.ops != [] then 3 else 0
  }

  function TotalWork(streams: seq<Stream>): nat
  {
    if streams == [] then 0 else TotalWork(streams[..|streams| - 1]) + WorkOf(streams[|streams| - 1])
  }

  lemma {:induction false} OneStreamWorked(streams: seq<Stream>, k: nat, st: Stream)
    requires k < |streams|
    ensures TotalWork(streams[k := st]) + WorkOf(streams[k]) == TotalWork(streams) + WorkOf(st)
  {
    hide WorkOf;
    var n := |streams| - 1;
    if k < n {
      OneStreamWorked(streams[..n], k, st);
      assert streams[k := st][..n] == streams[..n][k := st];
    } else {
      assert streams[k := st][..n] == streams[..n];
    }
  }

  /** Bounds how often the streams can change without further pushes. */
  function Rank(s: State): nat
  {
    TotalWork(s.streams) + |Busy(s)| + if s.serviceZero then 1 else 0
  }

  lemma DoneLowersRank(s: State, uid: nat)
    requires Sound(s) && uid in Busy(s)
    ensures Rank(Done(s, uid)) < Rank(s)
  {
    hide TotalWork, Inv;
    assert Busy(Done(s, uid)) == Busy(s) - {uid};
  }

  lemma RegisteringLowersRank(s: State)
    requires Sound(s)
    ensures if s.finished == [] then Registered(s) == s else Rank(Registered(s)) < Rank(s)
  {
    if s.finished != [] {
      hide Inv, GpuOk, TotalWork;
      RegisteringIsSound(s);
      var k := s.grids[s.finished[0]];
      BusyAfterRegistering(s);
      OneStreamWorked(s.streams, k, s.streams[k].Done());
    }
  }

  lemma BusyAfterRegistering(s: State)
    requires Sound(s)
    ensures Busy(Registered(s)) == Busy(s)
  {
    if s.finished != [] {
      hide Inv, Completed;
      RegisteringIsSound(s);
      HeadLeaves(s.finished);
    }
  }

  lemma StartingLowersRank(s: State)
    requires Sound(s) && Choice(s).0.Some?
    ensures Rank(Operated(s)) < Rank(s)
  {
    StartedOperationEnds(s);
    OperatedRunning(s);
    hide Inv, GpuOk, Operated, Choice, CanStart, TotalWork;
    var k, after := Choice(s).0.value, Operated(s);
    assert after.streams == s.streams[k := after.streams[k]];
    OneStreamWorked(s.streams, k, after.streams[k]);
    BusyGrowsByOne(s, after, s.streams[k].ops[0]);
  }

  lemma BusyGrowsByOne(s: State, after: State, op: Op)
    requires after.finished == s.finished
    requires after.running == s.running || (op.Kernel? && after.running == s.running + {op.uid})
    ensures |Busy(after)| <= |Busy(s)| + 1
    ensures after.running == s.running ==> |Busy(after)| == |Busy(s)|
  {
    hide Elements;
    if op.Kernel? && after.running == s.running + {op.uid} {
      Subset(Busy(after), Busy(s) + {op.uid});
    }
  }

  lemma Subset(a: set<nat>, b: set<nat>)
    requires a <= b
    ensures |a| <= |b|
  {
    assert b == a + (b - a);
  }

  lemma OperatingLowersRank(s: State)
    requires Sound(s)
    ensures Operated(s) == s || Rank(Operated(s)) < Rank(s)
  {
    if Choice(s).0.Some? {
      StartingLowersRank(s);
    } else {
      hide GpuOk, TotalWork, CanStart;
      var zero := Choice(s).1;
      assert zero ==> s.serviceZero;
      assert s.(serviceZero := s.serviceZero) == s;
    }
  }

  lemma StepLowersRank(s: State, e: Step)
    requires Sound(s) && Enabled(s, e) && (e.Operate? || e.KernelDone?)
    ensures After(s, e) == s || Rank(After(s, e)) < Rank(s)
    ensures s.finished != [] || e.KernelDone? ==> Rank(After(s, e)) < Rank(s)
  {
    hide Inv, GpuOk, Registered, Operated, Rank;
    match e
    case KernelDone(uid) => DoneLowersRank(s, uid);
    case Operate =>
      RegisteringLowersRank(s);
      OperatingLowersRank(Registered(s));
  }

  // ----- when nothing more happens

  ghost predicate AllEmpty(s: State)
  {
    forall k :: 0 <= k < |s.streams| ==> s.streams[k].ops == []
  }

  ghost predicate NoneRefused(s: State)
  {
    forall k: nat, uid: nat :: !Refused(s, k, uid)
  }

  /** No kernel is in a slot, and a further operation of the GPU thread changes nothing. */
  ghost predicate IsSettled(s: State)
    requires Sound(s)
  {
    Busy(s) == {} && After(s, Operate) == s
  }

  lemma SettledRunsNothing(s: State)
    requires Sound(s) && IsSettled(s)
    ensures s.finished == [] && s.running == {} && Choice(s).0 == None && !Choice(s).1 == !s.serviceZero
  {
    assert |s.streams| > 0;
    hide Inv, GpuOk, Operated, Rank;
    StepLowersRank(s, Operate);
    RegisteringLowersRank(s);
    if Choice(s).0.Some? {
      StartingLowersRank(s);
    }
    NothingRuns(s);
    assert Operated(s).serviceZero == Choice(s).1 by {
      NothingStarted(s);
    }
  }

  lemma NothingRuns(s: State)
    requires s.finished == [] && Busy(s) == {}
    ensures s.running == {}
  {
  }

  lemma NothingStarted(s: State)
    requires Sound(s) && Choice(s).0 == None
    ensures Operated(s) == s.(serviceZero := Choice(s).1)
  {
    hide Inv, GpuOk, Choice;
  }

  lemma PendingIsRefused(s: State, k: nat)
    requires KernelsPend(s) && s.running == {} && k < |s.streams|
    ensures s.streams[k].pending ==> exists uid: nat :: Refused(s, k, uid)
  {
    if s.streams[k].pending {
      assert PendsWell(s, s.streams[k]);
      assert Refused(s, k, s.streams[k].ops[0].uid);
    }
  }

  /** If nothing is left to happen, every stream is empty, so that everything pushed is completed,
      exactly if no kernel has been refused. */
  lemma SettledIsEmpty(s: State)
    requires Sound(s) && KernelsPend(s) && IsSettled(s)
    ensures AllEmpty(s) <==> NoneRefused(s)
  {
    SettledRunsNothing(s);
    hide GpuOk, After, Busy, CanStart, FirstReady;
    if NoneRefused(s) {
      forall k: nat | k < |s.streams|
        ensures !s.streams[k].pending
      {
        PendingIsRefused(s, k);
      }
      NothingReady(s);
    }
  }

  lemma NothingReady(s: State)
    requires |s.streams| > 0 && Choice(s).0 == None && !Choice(s).1 == !s.serviceZero
    requires forall k :: 0 <= k < |s.streams| ==> !s.streams[k].pending
    ensures AllEmpty(s)
  {
  }

  // ----- draining

  /** Steps of the GPU and of its thread only: nothing is pushed. */
  predicate IsDrain(tail: seq<Step>)
  {
    forall i :: 0 <= i < |tail| ==> tail[i].Operate? || tail[i].KernelDone?
  }

  ghost function AfterAll(s: State, tail: seq<Step>): Option<State>
    requires Sound(s)
    ensures AfterAll(s, tail).Some? ==> Sound(AfterAll(s, tail).value)
    decreases |tail|
  {
    if tail == [] then Some(s)
    else if Enabled(s, tail[0]) then AfterAll(After(s, tail[0]), tail[1..])
    else None
  }

  /** How many of the steps change the state. */
  ghost function Changes(s: State, tail: seq<Step>): nat
    requires Sound(s) && AfterAll(s, tail).Some?
    decreases |tail|
  {
    if tail == [] then 0
    else (if After(s, tail[0]) == s then 0 else 1) + Changes(After(s, tail[0]), tail[1..])
  }

  /** Without pushes only so many steps can change anything, whatever their order. */
  lemma {:induction false} DrainIsBounded(s: State, tail: seq<Step>)
    requires Sound(s) && IsDrain(tail) && AfterAll(s, tail).Some?
    ensures Changes(s, tail) + Rank(AfterAll(s, tail).value) <= Rank(s)
    decreases |tail|
  {
    hide Inv, GpuOk, Sound, After, Rank;
    if tail != [] {
      StepLowersRank(s, tail[0]);
      assert IsDrain(tail[1..]);
      DrainIsBounded(After(s, tail[0]), tail[1..]);
    }
  }

  lemma NotRefusing(s: State, e: Step)
    requires Sound(s) && Enabled(s, e) && NoneRefused(s) && (e.KernelDone? || (e.Operate? && Busy(s) == {}))
    ensures NoneRefused(After(s, e))
  {
    hide Inv, Registered, After;
    if e.Operate? {
      BusyAfterRegistering(s);
      SlotsAfterRegistering(s);
    }
    forall k: nat, uid: nat
      ensures !Refused(After(s, e), k, uid)
    {
      StepRefuses(s, e, k, uid);
    }
  }

  lemma SlotsAfterRegistering(s: State)
    requires Sound(s)
    ensures Registered(s).slots == s.slots
  {
    hide Inv;
    if s.finished != [] {
      RegisteringIsSound(s);
    }
  }

  /** The same streams, to which the same operations have been pushed. */
  ghost predicate SamePushed(s: State, after: State)
  {
    && |after.streams| == |s.streams|
    && forall k :: 0 <= k < |s.streams| ==> after.streams[k].pushed == s.streams[k].pushed
  }

  lemma RegisteringPushesNone(s: State)
    requires Sound(s)
    ensures SamePushed(s, Registered(s))
  {
    hide Inv, GpuOk;
    if s.finished != [] {
      RegisteringIsSound(s);
    }
  }

  lemma OperatingPushesNone(s: State)
    requires Sound(s)
    ensures SamePushed(s, Operated(s))
  {
    if Choice(s).0.Some? {
      StartedOperationEnds(s);
    } else {
      NothingStarted(s);
    }
  }

  lemma NothingPushed(s: State, e: Step)
    requires Sound(s) && Enabled(s, e) && (e.Operate? || e.KernelDone?)
    ensures SamePushed(s, After(s, e))
  {
    hide Inv, GpuOk, CanStart, Registered, Operated;
    if e.Operate? {
      RegisteringPushesNone(s);
      OperatingPushesNone(Registered(s));
    }
  }

  /** From any state in which no kernel is refused, letting the kernels in slots be done before each
      operation empties all streams. */
  lemma {:induction false} DrainExists(s: State) returns (tail: seq<Step>)
    requires Sound(s) && KernelsPend(s) && NoneRefused(s)
    ensures IsDrain(tail) && AfterAll(s, tail).Some? && AllEmpty(AfterAll(s, tail).value)
    ensures SamePushed(s, AfterAll(s, tail).value)
    decreases Rank(s)
  {
    hide Inv, GpuOk, Sound, After, Rank, NoneRefused, AllEmpty, KernelsPend, Busy;
    if AllEmpty(s) {
      tail := [];
    } else {
      SettledIsEmptyIf(s);
      var e := Operate;
      if Busy(s) != {} {
        var uid :| uid in Busy(s);
        e := StreamRuns.KernelDone(uid);
      }
      StepLowersRank(s, e);
      StepKeepsPend(s, e);
      NotRefusing(s, e);
      NothingPushed(s, e);
      var later := DrainExists(After(s, e));
      tail := [e] + later;
      assert tail[1..] == later;
    }
  }

  lemma SettledIsEmptyIf(s: State)
    requires Sound(s) && KernelsPend(s) && NoneRefused(s)
    ensures IsSettled(s) ==> AllEmpty(s)
  {
    hide Inv, GpuOk, Sound, After, Rank, NoneRefused, AllEmpty, KernelsPend, Busy, IsSettled;
    if IsSettled(s) {
      SettledIsEmpty(s);
    }
  }

  /** Every run in which no kernel has been refused can be continued without pushes until all streams
      have completed exactly what was pushed to them, in order. */
  lemma EverythingCompletes(slots: nat, steps: seq<Step>) returns (tail: seq<Step>)
    requires slots > 0 && Run(slots, steps).Some? && NoneRefused(Run(slots, steps).value)
    ensures IsDrain(tail) && AfterAll(Run(slots, steps).value, tail).Some?
    ensures var s := Run(slots, steps).value;
            var end := AfterAll(s, tail).value;
            && |end.streams| == |s.streams|
            && forall k :: 0 <= k < |s.streams| ==> end.streams[k].completed == s.streams[k].pushed
  {
    hide Run;
    var s := Run(slots, steps).value;
    OnlyKernelsPend(slots, steps);
    tail := DrainExists(s);
    var end := AfterAll(s, tail).value;
    forall k | 0 <= k < |end.streams|
      ensures end.streams[k].completed == s.streams[k].pushed
    {
      assert end.streams[k].Ok() && end.streams[k].ops == [];
      assert end.streams[k].completed + [] == end.streams[k].completed;
    }
  }
}
