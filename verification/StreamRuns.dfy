/** Whole runs: host threads that add streams and push, the GPU thread's critical sections, and
    kernels that finish in between, interleaved freely. */
module StreamRuns {
  import opened Options
  import opened StreamModel

  // ----- runs

  /** One critical section of a host thread, which adds a stream or pushes, or of the GPU thread,
      which registers the kernel at the head of the finished ones, if any, and then starts and
      performs an operation; or a cycle of the GPU in which a kernel is done and leaves its slot. */
  datatype Step = AddStream | Push(k: nat, op: Op) | KernelDone(uid: nat) | Operate

  ghost predicate Sound(s: State)
  {
    Inv(s) && GpuOk(s)
  }

  ghost predicate Enabled(s: State, e: Step)
  {
    match e
    case AddStream => true
    case Push(k, op) => CanPush(s, k, op)
    case KernelDone(uid) => uid in Busy(s)
    case Operate => true
  }

  function Done(s: State, uid: nat): State
  {
    s.(finished := s.finished + [uid])
  }

  lemma DoneIsSound(s: State, uid: nat)
    requires Sound(s) && uid in Busy(s)
    ensures Sound(Done(s, uid))
  {
    SameStreamsKeepInv(s, Done(s, uid));
    assert Busy(Done(s, uid)) == Busy(s) - {uid};
  }

  /** The states within one operation of the GPU thread: after registering, after starting, and at
      the end. */
  ghost function Registered(s: State): (after: State)
    requires Sound(s)
    ensures Sound(after)
  {
    if s.finished == [] then s
    else
      RegisteringIsSound(s);
      Finished(s, s.finished[0]).(finished := s.finished[1..])
  }

  lemma RegisteringIsSound(s: State)
    requires Sound(s) && s.finished != []
    ensures CanFinish(s, s.finished[0]) && Sound(Finished(s, s.finished[0]).(finished := s.finished[1..]))
  {
    hide Inv, CanFinish, Elements;
    var uid := s.finished[0];
    HeadLeaves(s.finished);
    RunningIsMapped(s, uid);
    FinishKeepsInv(s, uid);
    var after := Finished(s, uid).(finished := s.finished[1..]);
    SameStreamsKeepInv(Finished(s, uid), after);
    assert Busy(after) == Busy(s);
  }

  lemma HeadLeaves(q: seq<nat>)
    requires q != [] && forall i, j :: 0 <= i < j < |q| ==> q[i] != q[j]
    ensures Elements(q) == {q[0]} + Elements(q[1..]) && q[0] !in Elements(q[1..])
  {
    assert q == [q[0]] + q[1..];
  }

  ghost function Operated(s: State): (after: State)
    requires Sound(s)
    ensures Sound(after) && Inv(Fronted(s))
  {
    FrontKeepsInv(s);
    OperatingIsSound(s);
    var k := Choice(s).0;
    if k.None? then Fronted(s)
    else
      PerformKeepsInv(Fronted(s), k.value, CanStart(s));
      Performed(Fronted(s), k.value, CanStart(s))
  }

  lemma OperatingIsSound(s: State)
    requires Sound(s)
    ensures var k := Choice(s).0;
            if k.None? then Sound(Fronted(s))
            else && Fronted(s).streams[k.value].pending && Fronted(s).streams[k.value].ops != []
                 && (Fronted(s).streams[k.value].ops[0].Kernel? ==>
                       CanFinish(Fronted(s), Fronted(s).streams[k.value].ops[0].uid))
                 && Sound(Performed(Fronted(s), k.value, CanStart(s)))
  {
    hide Inv, CanFinish, Performed, GpuOk, CanStart;
    FrontKeepsInv(s);
    var k := Choice(s).0;
    SameOnGpu(s, Fronted(s));
    if k.Some? {
      PerformKeepsInv(Fronted(s), k.value, CanStart(s));
      PerformingOnGpu(Fronted(s), k.value, CanStart(s));
      var after, op := Performed(Fronted(s), k.value, CanStart(s)), s.streams[k.value].ops[0];
      if op.Kernel? {
        WaitingIsNotRunning(s, k.value, op.uid);
      }
      if op.Kernel? && CanStart(s) && !op.simMode {
        TakesASlot(s, after, op.uid);
      } else {
        SameOnGpu(s, after);
      }
    }
  }

  lemma SameOnGpu(s: State, after: State)
    requires GpuOk(s) && after.slots == s.slots && after.finished == s.finished && after.running == s.running
    ensures GpuOk(after)
  {
  }

  lemma TakesASlot(s: State, after: State, uid: nat)
    requires GpuOk(s) && after.slots == s.slots && after.finished == s.finished && after.running == s.running + {uid}
    requires uid !in s.running && CanStart(s)
    ensures GpuOk(after)
  {
    hide Elements;
    assert Busy(after) == Busy(s) + {uid};
  }

  /** Performing touches the GPU only by giving it a kernel. */
  lemma PerformingOnGpu(s: State, k: nat, canStart: bool)
    requires k < |s.streams| && s.streams[k].ops != []
    requires s.streams[k].ops[0].Kernel? ==> CanFinish(s, s.streams[k].ops[0].uid)
    ensures var after, op := Performed(s, k, canStart), s.streams[k].ops[0];
            && after.slots == s.slots && after.finished == s.finished
            && after.running == if !op.Kernel? || !canStart then s.running
                                else if op.simMode then s.running - {op.uid} else s.running + {op.uid}
  {
  }

  ghost function After(s: State, e: Step): (after: State)
    requires Sound(s) && Enabled(s, e)
    ensures Sound(after)
  {
    match e
    case AddStream =>
      AddKeepsInv(s);
      Added(s)
    case Push(k, op) =>
      PushKeepsInv(s, k, op);
      PushedTo(s, k, op)
    case KernelDone(uid) =>
      DoneIsSound(s, uid);
      Done(s, uid)
    case Operate => Operated(Registered(s))
  }

  lemma StartIsSound(slots: nat)
    requires slots > 0
    ensures Sound(Start(slots))
  {
  }

  /** The state after a run on a GPU with so many slots, None if a step was not enabled. */
  ghost function Run(slots: nat, steps: seq<Step>): (r: Option<State>)
    requires slots > 0
    ensures r.Some? ==> Sound(r.value)
  {
    if steps == [] then
      StartIsSound(slots);
      Some(Start(slots))
    else
      match Run(slots, steps[..|steps| - 1])
      case None => None
      case Some(s) => if Enabled(s, steps[|steps| - 1]) then Some(After(s, steps[|steps| - 1])) else None
  }

  ghost predicate Separate(s: State)
  {
    |s.streams| > 0 && (s.streams[0].pending ==> forall k :: 1 <= k < |s.streams| ==> !s.streams[k].pending)
  }

  /** Over every interleaving, and also in the middle of the GPU thread's step: no operation of
      stream zero is pending together with one of another stream. */
  lemma StreamZeroIsExclusive(slots: nat, steps: seq<Step>)
    requires slots > 0 && Run(slots, steps).Some?
    ensures var s := Run(slots, steps).value;
            && Separate(s) && Separate(Registered(s)) && Separate(Fronted(Registered(s)))
            && Separate(Operated(Registered(s)))
  {
    hide Registered, Operated, GpuOk;
    var s := Run(slots, steps).value;
    InvSeparates(s);
    InvSeparates(Registered(s));
    InvSeparates(Operated(Registered(s)));
    InvSeparates(Fronted(Registered(s)));
  }

  lemma InvSeparates(s: State)
    requires Inv(s)
    ensures Separate(s)
  {
  }

  /** Nothing is taken out of a stream's history. */
  ghost predicate Extends(s: State, after: State, k: nat)
  {
    && k < |s.streams| && k < |after.streams|
    && s.streams[k].completed <= after.streams[k].completed && s.streams[k].pushed <= after.streams[k].pushed
  }

  lemma CompletingExtends(s: State, j: nat, k: nat)
    requires k < |s.streams| && j < |s.streams| && s.streams[j].ops != []
    ensures Extends(s, Completed(s, j), k)
  {
  }

  lemma RegisteringExtends(s: State, k: nat)
    requires Sound(s) && k < |s.streams|
    ensures Extends(s, Registered(s), k)
  {
    hide Inv, Completed;
    if s.finished != [] {
      RegisteringIsSound(s);
      CompletingExtends(s, s.grids[s.finished[0]], k);
    }
  }

  lemma FrontingExtends(s: State, k: nat)
    requires k < |s.streams|
    ensures Extends(s, Fronted(s), k)
  {
  }

  lemma PerformingExtends(s: State, j: nat, canStart: bool, k: nat)
    requires k < |s.streams| && j < |s.streams| && s.streams[j].ops != []
    requires s.streams[j].ops[0].Kernel? ==> CanFinish(s, s.streams[j].ops[0].uid)
    ensures Extends(s, Performed(s, j, canStart), k)
  {
    hide Completed;
    var op := s.streams[j].ops[0];
    if !op.Kernel? {
      CompletingExtends(s, j, k);
    } else if canStart && op.simMode {
      CompletingExtends(s, s.grids[op.uid], k);
    }
  }

  lemma OperatingExtends(s: State, k: nat)
    requires Sound(s) && k < |s.streams|
    ensures Extends(s, Operated(s), k)
  {
    hide Inv, GpuOk, Performed, CanStart;
    FrontKeepsInv(s);
    FrontingExtends(s, k);
    var j := Choice(s).0;
    if j.Some? {
      PerformKeepsInv(Fronted(s), j.value, CanStart(s));
      PerformingExtends(Fronted(s), j.value, CanStart(s), k);
    }
  }

  lemma StepExtends(s: State, e: Step, k: nat)
    requires Sound(s) && Enabled(s, e) && k < |s.streams|
    ensures Extends(s, After(s, e), k)
  {
    hide Sound, Operated, Registered;
    if e.Operate? {
      RegisteringExtends(s, k);
      OperatingExtends(Registered(s), k);
    }
  }

  /** Each stream completes its operations in the order they were pushed, none lost or repeated:
      what it has completed is a prefix of what was pushed to it, and both only grow. */
  lemma StreamsCompleteInOrder(slots: nat, steps: seq<Step>, e: Step, k: nat)
    requires slots > 0 && Run(slots, steps).Some? && Enabled(Run(slots, steps).value, e)
    requires k < |Run(slots, steps).value.streams|
    ensures var st := Run(slots, steps).value.streams[k]; st.completed + st.ops == st.pushed
    ensures Extends(Run(slots, steps).value, After(Run(slots, steps).value, e), k)
  {
    assert Run(slots, steps).value.streams[k].Ok();
    StepExtends(Run(slots, steps).value, e, k);
  }

  /** A grid id is mapped to a stream exactly when that kernel is the stream's pending front, so a
      kernel that finishes is the one its stream expects.  Never more kernels are in slots than there
      are slots. */
  lemma FinishedKernelIsExpected(slots: nat, steps: seq<Step>, uid: nat, k: nat)
    requires slots > 0 && Run(slots, steps).Some?
    ensures var s := Run(slots, steps).value;
            && (uid in s.grids && s.grids[uid] == k <==> k < |s.streams| && s.streams[k].Runs(uid))
            && (uid in s.running ==> CanFinish(s, uid))
            && |Busy(s)| <= s.slots && Elements(s.finished) <= s.running
  {
    var s := Run(slots, steps).value;
    assert Maps(s, uid, k) <==> k < |s.streams| && s.streams[k].Runs(uid);
    if uid in s.running {
      assert Maps(s, uid, s.grids[uid]);
    }
  }
}
