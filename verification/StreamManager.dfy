/** The stream manager's objects.  Every method is one critical section under the manager's lock. */
module StreamManager {
  import opened Options
  import opened StreamModel
  import opened StreamRuns
  import opened GpuSim

  class CUstream {
    var operations: seq<Op>
    var pending: bool
    ghost var pushed: seq<Op>
    ghost var completed: seq<Op>

    ghost function View(): Stream
      reads this
    {
      Stream(operations, pending, pushed, completed)
    }

    constructor ()
      ensures View() == EMPTY
    {
      operations, pending, pushed, completed := [], false, [], [];
    }

    method Empty() returns (empty: bool)
      ensures empty <==> operations == []
    {
      empty := operations == [];
    }

    method Busy() returns (busy: bool)
      ensures busy == pending
    {
      busy := pending;
    }

    method Push(op: Op)
      modifies this
      ensures View() == old(View()).Pushed(op)
    {
      operations := operations + [op];
      pushed := pushed + [op];
    }

    /** The front operation starts; it stays in the queue until it is recorded done. */
    method Next() returns (result: Op)
      requires operations != []
      modifies this
      ensures result == old(operations)[0] && View() == old(View()).Started()
    {
      pending := true;
      result := operations[0];
    }

    method RecordNextDone()
      requires pending && operations != []
      modifies this
      ensures View() == old(View()).Done()
    {
      completed := completed + [operations[0]];
      operations := operations[1..];
      pending := false;
    }
  }

  ghost function ViewsOf(list: seq<CUstream>): (v: seq<Stream>)
    reads list
    ensures |v| == |list|
  {
    seq(|list|, i requires 0 <= i < |list| reads list => list[i].View())
  }

  class Manager {
    const streamZero: CUstream
    var streams: seq<CUstream>
    var gridIdToStream: map<nat, nat>
    var serviceStreamZero: bool
    const gpu: GpgpuSim

    /** Stream zero and then the others; a stream's place in it stands for the pointer to it. */
    ghost function All(): seq<CUstream>
      reads this`streams
    {
      [streamZero] + streams
    }

    ghost predicate Distinct()
      reads this`streams
    {
      forall i, j :: 0 <= i < j < |All()| ==> All()[i] != All()[j]
    }

    ghost function Views(): (v: seq<Stream>)
      reads this`streams, streamZero, streams
      ensures |v| == |All()|
    {
      [streamZero.View()] + ViewsOf(streams)
    }

    /** The kernels given to the GPU and not yet registered as finished. */
    ghost function Given(): set<nat>
      reads gpu, gpu.runningKernels
    {
      gpu.InSlots() + Elements(gpu.finishedKernel)
    }

    ghost function View(): State
      reads this, streamZero, streams, gpu, gpu.runningKernels
    {
      State(Views(), gridIdToStream, serviceStreamZero, Given(), gpu.finishedKernel, gpu.runningKernels.Length)
    }

    /** The kernels in slots and those done are apart. */
    ghost predicate Linked()
      reads this, gpu, gpu.runningKernels
    {
      Distinct() && gpu.Valid()
    }

    ghost predicate Valid()
      reads this, streamZero, streams, gpu, gpu.runningKernels
    {
      Linked() && Sound(View())
    }

    constructor (sim: GpgpuSim)
      requires sim.Valid() && sim.InSlots() == {} && sim.finishedKernel == [] && sim.runningKernels.Length > 0
      ensures Valid() && View() == Start(sim.runningKernels.Length) && gpu == sim && fresh(streamZero)
    {
      streamZero := new CUstream();
      gpu := sim;
      streams, gridIdToStream, serviceStreamZero := [], map[], false;
      new;
      StartIsSound(sim.runningKernels.Length);
      assert Views() == [EMPTY];
    }

    lemma NotGiven(uid: nat)
      requires uid !in Given()
      ensures uid !in gpu.InSlots() && uid !in gpu.finishedKernel
    {
    }

    lemma BusyAreInSlots()
      requires gpu.Valid()
      ensures Busy(View()) == gpu.InSlots()
    {
    }

    function StreamAt(k: nat): CUstream
      requires k <= |streams|
      reads this`streams
    {
      if k == 0 then streamZero else streams[k - 1]
    }

    lemma OneStreamChanged(before: seq<Stream>, k: nat, v: Stream)
      requires k <= |streams| && |before| == |streams| + 1 && StreamAt(k).View() == v
      requires forall j :: 0 <= j <= |streams| && j != k ==> StreamAt(j).View() == before[j]
      ensures Views() == before[k := v]
    {
      forall j | 0 <= j <= |streams|
        ensures Views()[j] == before[k := v][j]
      {
        assert Views()[j] == StreamAt(j).View();
      }
    }

    lemma ViewsAt(k: nat)
      requires k <= |streams|
      ensures Views()[k] == StreamAt(k).View() && StreamAt(k) == All()[k]
    {
    }

    lemma OthersDiffer(k: nat)
      requires Distinct() && k <= |streams|
      ensures forall j :: 0 <= j <= |streams| && j != k ==> StreamAt(j) != StreamAt(k)
    {
      forall j | 0 <= j <= |streams| && j != k
        ensures StreamAt(j) != StreamAt(k)
      {
        assert StreamAt(j) == All()[j] && StreamAt(k) == All()[k];
      }
    }

    method AddStream(stream: CUstream)
      requires Valid() && stream.View() == EMPTY && stream !in All()
      modifies this`streams
      ensures Valid() && View() == After(old(View()), StreamRuns.AddStream) && streams == old(streams) + [stream]
    {
      AddKeepsInv(View());
      streams := streams + [stream];
      assert Views() == old(Views()) + [EMPTY];
      assert All() == old(All()) + [stream];
    }

    /** The part of a push under the lock.  The host may have waited before it until the other
        streams were empty; it does not hold the lock meanwhile, so that proves nothing here. */
    method Push(op: Op, k: nat)
      requires Valid() && CanPush(View(), k, op)
      modifies streamZero, streams
      ensures Valid() && View() == After(old(View()), StreamRuns.Push(k, op))
    {
      PushKeepsInv(View(), k, op);
      ghost var before := Views();
      ViewsAt(k);
      OthersDiffer(k);
      var stream := StreamAt(k);
      stream.Push(op);
      OneStreamChanged(before, k, before[k].Pushed(op));
    }

    lemma OthersInList()
      ensures OthersEmpty(View()) <==> forall k :: 0 <= k < |streams| ==> streams[k].operations == []
    {
      hide Manager.Distinct, Manager.Given;
      assert forall k :: 1 <= k < |Views()| ==> Views()[k].ops == streams[k - 1].operations;
      assert forall k :: 0 <= k < |streams| ==> streams[k].operations == Views()[k + 1].ops;
    }

    method ConcurrentStreamsEmpty() returns (result: bool)
      ensures result <==> OthersEmpty(View())
    {
      hide OthersEmpty, Manager.View;
      OthersInList();
      result := true;
      for i := 0 to |streams|
        invariant result <==> forall k :: 0 <= k < i ==> streams[k].operations == []
      {
        var empty := streams[i].Empty();
        if !empty {
          result := false;
        }
      }
    }

    /** Called by the GPU thread; 0 says that no kernel has finished.  The GPU has let the kernel go. */
    method RegisterFinishedKernel(gridUid: nat) returns (registered: bool)
      requires Distinct() && Inv(View()) && (gridUid > 0 ==> gridUid in gridIdToStream && gridUid !in View().running)
      modifies this`gridIdToStream, streamZero, streams
      ensures registered <==> gridUid > 0
      ensures Distinct() && Inv(View())
      ensures (if gridUid > 0 then CanFinish(old(View()), gridUid) && View() == Finished(old(View()), gridUid)
               else View() == old(View()))
    {
      if gridUid == 0 {
        return false;
      }
      hide Inv, Completed;
      ghost var s := View();
      FinishKeepsInv(s, gridUid);
      var k := gridIdToStream[gridUid];
      RecordDoneAt(k);
      gridIdToStream := gridIdToStream - {gridUid};
      CompletedOnGpu(s, k);
      assert View() == Finished(s, gridUid);
      return true;
    }

    method RecordDoneAt(k: nat)
      requires Distinct() && k < |View().streams| && View().streams[k].pending && View().streams[k].ops != []
      modifies streamZero, streams
      ensures Distinct() && View() == Completed(old(View()), k)
    {
      ghost var before := Views();
      ViewsAt(k);
      OthersDiffer(k);
      var stream := StreamAt(k);
      stream.RecordNextDone();
      OneStreamChanged(before, k, before[k].Done());
    }

    method StartAt(k: nat) returns (result: Op)
      requires Distinct() && k < |View().streams| && View().streams[k].ops != []
      modifies this`gridIdToStream, streamZero, streams
      ensures Distinct() && View() == Started(old(View()), k) && result == old(View()).streams[k].ops[0]
    {
      ghost var before := Views();
      ViewsAt(k);
      OthersDiffer(k);
      var stream := StreamAt(k);
      result := stream.Next();
      OneStreamChanged(before, k, before[k].Started());
      if result.Kernel? {
        gridIdToStream := gridIdToStream[result.uid := k];
      }
    }

    /** The first of the other streams that is neither busy nor empty. */
    method FindReady() returns (k: nat)
      ensures k == FirstReady(Views(), 1)
    {
      k := 1;
      while k <= |streams|
        invariant 1 <= k <= |streams| + 1 && FirstReady(Views(), k) == FirstReady(Views(), 1)
      {
        ViewsAt(k);
        var busy := StreamAt(k).Busy();
        var empty := StreamAt(k).Empty();
        if !busy && !empty {
          break;
        }
        k := k + 1;
      }
    }

    /** Stream zero's turn: its front operation starts unless one is pending; the turn is over when
        there is none. */
    method FrontOfZero() returns (result: Option<Op>)
      requires Distinct() && serviceStreamZero
      modifies this`gridIdToStream, this`serviceStreamZero, streamZero, streams
      ensures Distinct()
      ensures var s := old(View()); var starts := s.streams[0].ops != [] && !s.streams[0].pending;
              && result == (if starts then Some(s.streams[0].ops[0]) else None)
              && View() == if starts then Started(s, 0) else s.(serviceZero := s.streams[0].ops != [])
    {
      hide Started;
      result := None;
      ViewsAt(0);
      if streamZero.operations != [] {
        if !streamZero.pending {
          var op := StartAt(0);
          result := Some(op);
        }
      } else {
        serviceStreamZero := false;
      }
    }

    /** The turn of the first of the other streams that is ready. */
    method FrontOfOthers() returns (result: Option<Op>, k: nat)
      requires Distinct()
      modifies this`gridIdToStream, streamZero, streams
      ensures Distinct() && k == FirstReady(old(View()).streams, 1)
      ensures var s := old(View());
              && result == (if k < |s.streams| then Some(s.streams[k].ops[0]) else None)
              && View() == if k < |s.streams| then Started(s, k) else s
    {
      hide Started;
      result := None;
      k := FindReady();
      if k <= |streams| {
        var op := StartAt(k);
        result := Some(op);
      }
    }

    method FrontOf() returns (result: Option<Op>, k: nat)
      requires Distinct()
      modifies this`gridIdToStream, this`serviceStreamZero, streamZero, streams
      ensures Distinct()
      ensures var s := old(View());
              k == (if s.serviceZero then 0 else FirstReady(s.streams, 1))
              && var starts := if s.serviceZero then s.streams[0].ops != [] && !s.streams[0].pending
                               else k < |s.streams|;
                 && result == (if starts then Some(s.streams[k].ops[0]) else None)
                 && View() == if starts then Started(s, k)
                              else if s.serviceZero then s.(serviceZero := s.streams[0].ops != []) else s
    {
      hide Started, Manager.Given, Manager.Distinct, FirstReady;
      if serviceStreamZero {
        k := 0;
        result := FrontOfZero();
      } else {
        result, k := FrontOfOthers();
      }
    }

    /** Starts the operation to be done next, if there is one, and says which stream it is of. */
    method Front() returns (result: Option<Op>, k: nat)
      requires Distinct() && Inv(View())
      modifies this`gridIdToStream, this`serviceStreamZero, streamZero, streams
      ensures Distinct() && Inv(View()) && View() == Fronted(old(View()))
      ensures var next := Choice(old(View())).0;
              if next.Some? then k == next.value && result == Some(old(View()).streams[k].ops[0]) else result == None
    {
      ghost var s := View();
      FrontKeepsInv(s);
      if s.serviceZero || OthersEmpty(s) {
        FrontedZero(s);
      } else {
        FrontedOther(s);
      }
      hide Inv, Started, OthersEmpty, FirstReady, Choice, Fronted, Manager.Distinct, Manager.Given, Manager.Views;
      var others := ConcurrentStreamsEmpty();
      if others {
        serviceStreamZero := true;
      }
      assert View() == s.(serviceZero := s.serviceZero || OthersEmpty(s));
      hide Manager.View;
      result, k := FrontOf();
    }

    method GiveToGpu(uid: nat)
      requires gpu.Valid() && |gpu.InSlots()| < gpu.runningKernels.Length && uid !in Given()
      modifies gpu.runningKernels
      ensures gpu.Valid() && Given() == old(Given()) + {uid}
    {
      NotGiven(uid);
      hide GpgpuSim.InSlots, GpgpuSim.Valid, Elements;
      ghost var inSlots, done := gpu.InSlots(), Elements(gpu.finishedKernel);
      var _ := gpu.Launch(uid);
      JoinedLater(inSlots, done, uid);
    }

    method RunOnGpu(uid: nat)
      requires Linked() && |gpu.InSlots()| < gpu.runningKernels.Length && uid !in Given()
      modifies gpu.runningKernels
      ensures Linked() && View() == old(View()).(running := old(View()).running + {uid})
    {
      hide Manager.Distinct, Manager.Views, Manager.Given, GpgpuSim.InSlots, GpgpuSim.Valid;
      ghost var s := View();
      GiveToGpu(uid);
      assert View().running == s.running + {uid};
    }

    method HasSlot() returns (free: bool)
      requires gpu.Valid()
      ensures free == CanStart(View()) == (|gpu.InSlots()| < gpu.runningKernels.Length)
    {
      BusyAreInSlots();
      hide Busy, Manager.Views, Manager.Given, GpgpuSim.Valid, GpgpuSim.InSlots;
      free := gpu.CanStartKernel();
    }

    /** A kernel goes to the GPU if that can take it, and is over at once in functional mode. */
    method LaunchKernel(uid: nat, simMode: bool)
      requires Linked() && Inv(View()) && uid > 0 && uid in gridIdToStream && uid !in View().running
      modifies this`gridIdToStream, streamZero, streams, gpu.runningKernels
      ensures Linked() && CanFinish(old(View()), uid)
      ensures View() == if !CanStart(old(View())) then old(View())
                        else if simMode then Finished(old(View()), uid)
                        else old(View()).(running := old(View()).running + {uid})
    {
      hide Inv, CanFinish, Finished, CanStart, Manager.Given, Manager.Views, Manager.Distinct, GpgpuSim.Valid,
           GpgpuSim.InSlots;
      FinishKeepsInv(View(), uid);
      assert View().running == Given();
      hide Manager.View;
      var free := HasSlot();
      if free {
        if simMode {
          var _ := RegisterFinishedKernel(uid);
        } else {
          RunOnGpu(uid);
        }
      }
    }

    /** Performs the operation just started; a kernel that the GPU cannot take is left as it is. */
    method DoOperation(op: Op, k: nat)
      requires Linked() && Inv(View()) && k < |View().streams| && View().streams[k].pending
      requires View().streams[k].ops != [] && op == View().streams[k].ops[0]
      requires op.Kernel? ==> op.uid !in View().running
      modifies this`gridIdToStream, streamZero, streams, gpu.runningKernels
      ensures op.Kernel? ==> CanFinish(old(View()), op.uid)
      ensures Linked() && View() == Performed(old(View()), k, CanStart(old(View())))
    {
      ghost var s := View();
      PerformKeepsInv(s, k, CanStart(s));
      FrontIsPositive(s, k);
      hide Inv, Completed, Manager.Distinct, Manager.Linked, Finished, CanStart;
      if !op.Kernel? {
        CompletedOnGpu(s, k);
        RecordDoneAt(k);
      } else {
        LaunchKernel(op.uid, op.simMode);
      }
    }

    /** The head of the GPU's queue is taken off; 0 if that is empty. */
    method TakeFinished() returns (gridUid: nat)
      requires Linked()
      modifies gpu
      ensures Linked() && gridUid == if old(gpu.finishedKernel) == [] then 0 else old(gpu.finishedKernel)[0]
      ensures View() == WithoutHead(old(View()))
    {
      hide Manager.Distinct, Manager.Views, GpgpuSim.InSlots;
      HeadOfQueue(gpu.finishedKernel, gpu.InSlots());
      gridUid := gpu.FinishedKernel();
    }

    /** The GPU thread's critical section. */
    method Operation() returns (check: bool)
      requires Valid()
      modifies this, streamZero, streams, gpu, gpu.runningKernels
      ensures check <==> old(gpu.finishedKernel) != []
      ensures Valid() && View() == After(old(View()), Operate)
    {
      hide Inv, GpuOk, Fronted, Performed, Finished, Registered, Operated, CanStart, WithoutHead,
           GpgpuSim.InSlots, GpgpuSim.Valid, Manager.Given, Manager.Views, Manager.Distinct;
      ghost var s := View();
      TakenFromQueue(s);
      var gridUid := TakeFinished();
      assert s.finished == old(gpu.finishedKernel) && (gridUid > 0 <==> s.finished != []);
      check := RegisterFinishedKernel(gridUid);
      ghost var registered := View();
      assert registered == Registered(s);
      StartedIsPending(registered);
      OperatedIs(registered);
      hide Manager.View;
      var op, k := Front();
      if op.Some? {
        DoOperation(op.value, k);
      }
    }
  }

  /** Between the critical sections a kernel of the GPU is done. */
  method KernelDone(m: Manager, uid: nat)
    requires m.Valid() && uid in m.gpu.InSlots()
    modifies m.gpu, m.gpu.runningKernels
    ensures m.Valid() && uid in old(Busy(m.View())) && m.View() == After(old(m.View()), StreamRuns.KernelDone(uid))
  {
    hide Inv, GpuOk, Manager.Distinct;
    m.BusyAreInSlots();
    ghost var s := m.View();
    DoneIsSound(s, uid);
    var found := m.gpu.SetKernelDone(uid);
    assert m.View().running == s.running;
  }

  lemma JoinedLater(a: set<nat>, b: set<nat>, uid: nat)
    ensures (a + {uid}) + b == (a + b) + {uid}
  {
  }

  lemma CompletedOnGpu(s: State, k: nat)
    requires k < |s.streams| && s.streams[k].ops != []
    ensures Completed(s, k) == s.(streams := Completed(s, k).streams)
  {
  }

  lemma FrontedZero(s: State)
    requires |s.streams| > 0 && (s.serviceZero || OthersEmpty(s))
    ensures var starts := s.streams[0].ops != [] && !s.streams[0].pending;
            && Choice(s).0 == (if starts then Some(0) else None)
            && Fronted(s) == if starts then Started(s.(serviceZero := true), 0)
                             else s.(serviceZero := s.streams[0].ops != [])
  {
    hide OthersEmpty, Started;
  }

  lemma FrontedOther(s: State)
    requires |s.streams| > 0 && !s.serviceZero && !OthersEmpty(s)
    ensures var k := FirstReady(s.streams, 1);
            && Choice(s).0 == (if k < |s.streams| then Some(k) else None)
            && Fronted(s) == if k < |s.streams| then Started(s, k) else s
  {
    hide OthersEmpty, Started, FirstReady;
    assert s.(serviceZero := false) == s;
  }

  lemma CompletedSeparately(s: State, k: nat, running: set<nat>, finished: seq<nat>)
    requires k < |s.streams| && s.streams[k].ops != []
    ensures Completed(s.(running := running, finished := finished), k)
         == Completed(s, k).(running := running, finished := finished)
  {
  }

  lemma HeadOfQueue(q: seq<nat>, slots: set<nat>)
    requires (forall uid :: uid in q ==> uid !in slots) && forall i, j :: 0 <= i < j < |q| ==> q[i] != q[j]
    ensures q != [] ==> slots + Elements(q[1..]) == slots + Elements(q) - {q[0]}
  {
    if q != [] {
      HeadLeaves(q);
    }
  }

  function WithoutHead(s: State): State
  {
    if s.finished == [] then s
    else s.(running := s.running - {s.finished[0]}, finished := s.finished[1..])
  }

  /** Taking the head of the queue first and registering it then is registering it. */
  lemma TakenFromQueue(s: State)
    requires Sound(s)
    ensures var taken := WithoutHead(s);
            && Inv(taken)
            && if s.finished == [] then taken == Registered(s)
               else && s.finished[0] > 0 && s.finished[0] in taken.grids && s.finished[0] !in taken.running
                    && CanFinish(taken, s.finished[0]) && Finished(taken, s.finished[0]) == Registered(s)
  {
    hide Inv, GpuOk, Completed;
    if s.finished != [] {
      var uid, taken := s.finished[0], WithoutHead(s);
      SameStreamsKeepInv(s, taken);
      RegisteringIsSound(s);
      FinishKeepsInv(s, uid);
      FrontIsPositive(s, s.grids[uid]);
      CompletedSeparately(s, s.grids[uid], taken.running, taken.finished);
    }
  }

  lemma StartedIsPending(s: State)
    requires Inv(s)
    ensures CanStart(Fronted(s)) == CanStart(s)
    ensures var k := Choice(s).0;
            k.Some? ==> && k.value < |Fronted(s).streams| && Fronted(s).streams[k.value].pending
                        && Fronted(s).streams[k.value].ops == s.streams[k.value].ops != []
                        && (s.streams[k.value].ops[0].Kernel? ==>
                              s.streams[k.value].ops[0].uid !in Fronted(s).running)
  {
    var k := Choice(s).0;
    if k.Some? && s.streams[k.value].ops[0].Kernel? {
      WaitingIsNotRunning(s, k.value, s.streams[k.value].ops[0].uid);
    }
  }

  lemma OperatedIs(s: State)
    requires Sound(s)
    ensures match Choice(s).0
            case None => Operated(s) == Fronted(s)
            case Some(k) =>
              && k < |Fronted(s).streams| && Fronted(s).streams[k].ops != []
              && (Fronted(s).streams[k].ops[0].Kernel? ==> CanFinish(Fronted(s), Fronted(s).streams[k].ops[0].uid))
              && Operated(s) == Performed(Fronted(s), k, CanStart(s))
  {
    hide Inv, GpuOk, Performed, CanStart;
    OperatingIsSound(s);
  }
}
