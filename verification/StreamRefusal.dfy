/** Kernels that the GPU refuses: the exact condition, over every interleaving. */
module StreamRefusal {
  import opened Options
  import opened StreamModel
  import opened StreamRuns

  /** Started, but neither given to the GPU nor over. */
  ghost predicate Refused(s: State, k: nat, uid: nat)
  {
    k < |s.streams| && s.streams[k].Runs(uid) && uid !in s.running
  }

  /** What is started next is the kernel uid in front of stream k. */
  ghost predicate StartsKernel(s: State, k: nat, uid: nat)
    requires |s.streams| > 0
  {
    var j := Choice(s).0;
    j == Some(k) && s.streams[k].ops[0].Kernel? && s.streams[k].ops[0].uid == uid
  }

  /** The step starts that kernel, and the GPU cannot take it. */
  ghost predicate Refuses(s: State, e: Step, k: nat, uid: nat)
    requires Sound(s)
  {
    e.Operate? && !CanStart(Registered(s)) && StartsKernel(Registered(s), k, uid)
  }

  // ----- what each step refuses

  lemma RegisteringRefusesNone(s: State, k: nat, uid: nat)
    requires Sound(s)
    ensures Refused(Registered(s), k, uid) <==> Refused(s, k, uid)
  {
    if s.finished != [] {
      var f := s.finished[0];
      RegisteringIsSound(s);
      assert Maps(s, f, s.grids[f]);
      if k < |s.streams| && s.streams[k].Runs(uid) && k != s.grids[f] {
        assert Maps(s, uid, k);
      }
    }
  }

  lemma PushingRefusesNone(s: State, j: nat, op: Op, k: nat, uid: nat)
    requires Inv(s) && CanPush(s, j, op)
    ensures Refused(PushedTo(s, j, op), k, uid) <==> Refused(s, k, uid)
  {
    if k == j {
      assert s.streams[j].Ok();
    }
  }

  lemma PerformingOther(s: State, j: nat, canStart: bool, k: nat, uid: nat)
    requires Inv(s) && j < |s.streams| && j != k && s.streams[j].pending && s.streams[j].ops != []
    requires s.streams[j].ops[0].Kernel? ==> CanFinish(s, s.streams[j].ops[0].uid)
    ensures Refused(Performed(s, j, canStart), k, uid) <==> Refused(s, k, uid)
  {
    var op := s.streams[j].ops[0];
    assert Maps(s, uid, k) <==> k < |s.streams| && s.streams[k].Runs(uid);
    if op.Kernel? {
      assert s.streams[j].Runs(op.uid) && Maps(s, op.uid, j);
    }
  }

  lemma PerformingStarted(s: State, k: nat, canStart: bool, uid: nat)
    requires Inv(s) && k < |s.streams| && s.streams[k].pending && s.streams[k].ops != []
    requires s.streams[k].ops[0].Kernel? ==> CanFinish(s, s.streams[k].ops[0].uid)
    requires s.streams[k].Runs(uid) ==> uid !in s.running
    ensures Refused(Performed(s, k, canStart), k, uid) <==> !canStart && s.streams[k].Runs(uid)
  {
    var op := s.streams[k].ops[0];
    if op.Kernel? {
      assert s.streams[k].Runs(op.uid) && Maps(s, op.uid, k);
    }
  }

  /** A kernel is refused by an operation exactly when it is the one started and the GPU cannot
      take it; those refused before stay so. */
  lemma OperatingRefuses(s: State, k: nat, uid: nat)
    requires Sound(s)
    ensures Refused(Operated(s), k, uid) <==> Refused(s, k, uid) || (!CanStart(s) && StartsKernel(s, k, uid))
  {
    hide Inv, GpuOk, Performed, CanStart;
    FrontKeepsInv(s);
    var j := Choice(s).0;
    if j.Some? {
      PerformKeepsInv(Fronted(s), j.value, CanStart(s));
      if j.value != k {
        PerformingOther(Fronted(s), j.value, CanStart(s), k, uid);
      } else {
        if StartsKernel(s, k, uid) {
          WaitingIsNotRunning(s, k, uid);
        }
        PerformingStarted(Fronted(s), k, CanStart(s), uid);
      }
    }
  }

  lemma StepRefuses(s: State, e: Step, k: nat, uid: nat)
    requires Sound(s) && Enabled(s, e)
    ensures Refused(After(s, e), k, uid) <==> Refused(s, k, uid) || Refuses(s, e, k, uid)
  {
    hide Operated, Registered, Choice, Inv, GpuOk;
    match e
    case AddStream =>
    case Push(j, op) => PushingRefusesNone(s, j, op, k, uid);
    case KernelDone(_) =>
    case Operate =>
      RegisteringRefusesNone(s, k, uid);
      OperatingRefuses(Registered(s), k, uid);
  }

  /** A kernel that the GPU could not take when it was started is never started again: it stays the
      pending front of its stream under every further step, and its stream completes nothing. */
  lemma RefusedKernelIsStuck(s: State, e: Step, k: nat, uid: nat)
    requires Sound(s) && Enabled(s, e) && Refused(s, k, uid)
    ensures Refused(After(s, e), k, uid)
    ensures After(s, e).streams[k].completed == s.streams[k].completed
  {
    var after := After(s, e);
    assert Refused(after, k, uid) && Extends(s, after, k) by {
      hide Sound;
      StepRefuses(s, e, k, uid);
      StepExtends(s, e, k);
    }
    OneFrontOneHistory(s, after, k, uid);
  }

  lemma OneFrontOneHistory(s: State, after: State, k: nat, uid: nat)
    requires Inv(s) && Inv(after) && Extends(s, after, k) && s.streams[k].Runs(uid) && after.streams[k].Runs(uid)
    ensures after.streams[k].completed == s.streams[k].completed
  {
    RunningIsPushed(s, k, uid);
    RunningIsPushed(after, k, uid);
    assert IsKernelAt(after, k, |s.streams[k].completed|, uid);
  }

  // ----- when the GPU has no room

  lemma RunningIsPending(s: State, uid: nat)
    requires Inv(s) && uid in s.running
    ensures uid in s.grids && s.grids[uid] < |s.streams| && s.streams[s.grids[uid]].Runs(uid)
  {
    RunningIsMapped(s, uid);
    assert Maps(s, uid, s.grids[uid]);
  }

  /** When a kernel of stream zero is started, no kernel is with the GPU. */
  lemma ZeroFindsRoom(s: State, uid: nat)
    requires Sound(s) && StartsKernel(s, 0, uid)
    ensures CanStart(s)
  {
    if u :| u in s.running {
      RunningIsPending(s, u);
      assert false;
    }
    assert Busy(s) == {};
  }

  lemma {:induction false} Injected(a: set<nat>, m: map<nat, nat>, b: set<nat>)
    requires forall u :: u in a ==> u in m && m[u] in b
    requires forall u, v :: u in a && v in a && m[u] == m[v] ==> u == v
    ensures |a| <= |b|
    decreases a
  {
    if a != {} {
      var u :| u in a;
      Injected(a - {u}, m, b - {m[u]});
    }
  }

  function Interval(n: nat): (r: set<nat>)
    ensures |r| == n && forall j :: j in r <==> 1 <= j <= n
  {
    if n == 0 then {} else Interval(n - 1) + {n}
  }

  /** Each kernel in a slot holds up a stream other than zero and other than the one that is served. */
  lemma BusyHoldStreams(s: State, k: nat)
    requires Sound(s) && k > 0 && Choice(s).0 == Some(k)
    ensures |s.streams| >= 2 && |Busy(s)| <= |s.streams| - 2
  {
    hide GpuOk, OthersEmpty;
    var others := Interval(|s.streams| - 1) - {k};
    assert k in Interval(|s.streams| - 1);
    forall u | u in Busy(s)
      ensures u in s.grids && s.grids[u] in others && s.streams[s.grids[u]].Runs(u)
    {
      RunningIsPending(s, u);
      assert s.grids[u] != k && s.grids[u] != 0;
    }
    Injected(Busy(s), s.grids, others);
  }

  /** A kernel that is refused is of a stream other than zero, and finds every slot taken by a kernel
      of yet another stream. */
  lemma RefusedFindsSlotsTaken(s: State, e: Step, k: nat, uid: nat)
    requires Sound(s) && Refuses(s, e, k, uid)
    ensures k > 0 && |Busy(Registered(s))| == s.slots && |s.streams| >= s.slots + 2
  {
    hide Choice, OthersEmpty;
    RegisteringKeepsStreams(s);
    if k == 0 {
      ZeroFindsRoom(Registered(s), uid);
    } else {
      BusyHoldStreams(Registered(s), k);
    }
  }

  lemma RegisteringKeepsStreams(s: State)
    requires Sound(s)
    ensures |Registered(s).streams| == |s.streams| && Registered(s).slots == s.slots
  {
    hide Inv, GpuOk;
    if s.finished != [] {
      RegisteringIsSound(s);
    }
  }

  // ----- whole runs

  /** Step n is an operation that starts kernel uid of stream k, one of the streams other than zero,
      while every slot is taken. */
  ghost predicate RefusesAt(slots: nat, steps: seq<Step>, n: nat, k: nat, uid: nat)
    requires slots > 0
  {
    && n < |steps| && Run(slots, steps[..n]).Some? && steps[n].Operate?
    && var s := Registered(Run(slots, steps[..n]).value);
       k > 0 && |Busy(s)| == slots && StartsKernel(s, k, uid)
  }

  lemma {:induction false} SlotsStay(slots: nat, steps: seq<Step>)
    requires slots > 0 && Run(slots, steps).Some?
    ensures Run(slots, steps).value.slots == slots && |Run(slots, steps).value.streams| > 0
  {
    if steps != [] {
      hide Sound, After, Enabled;
      var before := steps[..|steps| - 1];
      SlotsStay(slots, before);
      StepKeepsSlots(Run(slots, before).value, steps[|steps| - 1]);
    }
  }

  lemma StepKeepsSlots(s: State, e: Step)
    requires Sound(s) && Enabled(s, e) && |s.streams| > 0
    ensures After(s, e).slots == s.slots && |After(s, e).streams| >= |s.streams|
  {
    hide Inv, GpuOk, Choice;
    if e.Operate? {
      RegisteringKeepsStreams(s);
      OperatingKeepsStreams(Registered(s));
    }
  }

  lemma OperatingKeepsStreams(s: State)
    requires Sound(s)
    ensures |Operated(s).streams| == |s.streams| && Operated(s).slots == s.slots
  {
    hide Inv, GpuOk;
    FrontKeepsInv(s);
    OperatingIsSound(s);
  }

  lemma RefusesIsFull(slots: nat, s: State, e: Step, k: nat, uid: nat)
    requires slots > 0 && Sound(s) && s.slots == slots
    ensures Refuses(s, e, k, uid)
            <==> e.Operate? && k > 0 && |Busy(Registered(s))| == slots && StartsKernel(Registered(s), k, uid)
  {
    hide StartsKernel, Registered, Inv;
    RegisteringKeepsStreams(s);
    if Refuses(s, e, k, uid) {
      RefusedFindsSlotsTaken(s, e, k, uid);
    }
  }

  lemma NoneRefusedAtStart(slots: nat, k: nat, uid: nat)
    ensures !Refused(Start(slots), k, uid)
  {
  }

  /** Over every interleaving: the kernels refused at the end of a run are exactly those that some
      operation of the run started, on a stream other than zero, while every slot was taken. */
  lemma {:induction false} RefusedOverRuns(slots: nat, steps: seq<Step>, k: nat, uid: nat)
    requires slots > 0 && Run(slots, steps).Some?
    ensures Refused(Run(slots, steps).value, k, uid) <==> exists n :: RefusesAt(slots, steps, n, k, uid)
  {
    hide Sound, After, Refuses, Enabled, Refused, Registered, StartsKernel, Busy;
    if steps == [] {
      NoneRefusedAtStart(slots, k, uid);
    } else {
      var m := |steps| - 1;
      var before := steps[..m];
      RefusedOverRuns(slots, before, k, uid);
      SlotsStay(slots, before);
      StepRefuses(Run(slots, before).value, steps[m], k, uid);
      RefusesIsFull(slots, Run(slots, before).value, steps[m], k, uid);
      forall n | 0 <= n < m
        ensures RefusesAt(slots, before, n, k, uid) <==> RefusesAt(slots, steps, n, k, uid)
      {
        assert before[..n] == steps[..n];
      }
      assert RefusesAt(slots, steps, m, k, uid) <==> Refuses(Run(slots, before).value, steps[m], k, uid);
    }
  }

  /** With a slot for each stream but zero no kernel is ever refused. */
  lemma {:induction false} EnoughSlotsRefuseNone(slots: nat, steps: seq<Step>, k: nat, uid: nat)
    requires slots > 0 && Run(slots, steps).Some? && |Run(slots, steps).value.streams| <= slots + 1
    ensures !Refused(Run(slots, steps).value, k, uid)
  {
    hide Sound, After, Refuses, Enabled, Refused;
    if steps == [] {
      NoneRefusedAtStart(slots, k, uid);
    } else {
      var m := |steps| - 1;
      var s := Run(slots, steps[..m]).value;
      SlotsStay(slots, steps[..m]);
      StepKeepsSlots(s, steps[m]);
      EnoughSlotsRefuseNone(slots, steps[..m], k, uid);
      StepRefuses(s, steps[m], k, uid);
      if Refuses(s, steps[m], k, uid) {
        RefusedFindsSlotsTaken(s, steps[m], k, uid);
      }
    }
  }

  // ----- a run in which the GPU is full

  /** m streams besides zero, each with one kernel; the first j of these have been started. */
  ghost function Row(m: nat, j: nat): seq<Stream>
  {
    seq(m + 1, i requires 0 <= i <= m =>
      if i == 0 then EMPTY else Stream([Kernel(i, false)], i <= j, [Kernel(i, false)], []))
  }

  ghost function Crowded(slots: nat, m: nat, j: nat): State
  {
    State(Row(m, j), map u | u in Interval(j) :: u, false, Interval(if j < slots then j else slots), [], slots)
  }

  function Pushes(m: nat): seq<Step>
  {
    if m == 0 then [] else Pushes(m - 1) + [AddStream] + [Push(m, Kernel(m, false))]
  }

  function Crowding(m: nat, j: nat): seq<Step>
  {
    if j == 0 then Pushes(m) else Crowding(m, j - 1) + [Operate]
  }

  lemma OneStepMore(slots: nat, steps: seq<Step>, e: Step)
    requires slots > 0 && Run(slots, steps).Some? && Enabled(Run(slots, steps).value, e)
    ensures Run(slots, steps + [e]) == Some(After(Run(slots, steps).value, e))
  {
    assert (steps + [e])[..|steps|] == steps;
  }

  lemma RowGrows(m: nat)
    requires m > 0
    ensures (Row(m - 1, 0) + [EMPTY])[m := EMPTY.Pushed(Kernel(m, false))] == Row(m, 0)
    ensures Row(0, 0) == [EMPTY]
  {
    assert [] + [Kernel(m, false)] == [Kernel(m, false)];
  }

  lemma HostSteps(slots: nat, steps: seq<Step>, k: nat, op: Op)
    requires slots > 0 && Run(slots, steps).Some? && CanPush(Added(Run(slots, steps).value), k, op)
    ensures Run(slots, steps + [AddStream] + [Push(k, op)]) == Some(PushedTo(Added(Run(slots, steps).value), k, op))
  {
    hide Sound, Run, CanPush, Added, PushedTo, Inv;
    OneStepMore(slots, steps, AddStream);
    OneStepMore(slots, steps + [AddStream], Push(k, op));
  }

  lemma PushedInRow(slots: nat, m: nat)
    requires m > 0
    ensures m < |Added(Crowded(slots, m - 1, 0)).streams|
    ensures PushedTo(Added(Crowded(slots, m - 1, 0)), m, Kernel(m, false)) == Crowded(slots, m, 0)
  {
    hide Interval;
    RowGrows(m);
  }

  lemma NothingPushed(slots: nat)
    ensures Crowded(slots, 0, 0) == Start(slots)
  {
    RowGrows(1);
    var s := Crowded(slots, 0, 0);
    hide Row;
    assert Interval(0) == {};
    assert s.grids == map[];
  }

  lemma {:induction false} PushesRun(slots: nat, m: nat)
    requires slots > 0
    ensures Run(slots, Pushes(m)) == Some(Crowded(slots, m, 0))
  {
    if m == 0 {
      hide Crowded, Sound;
      NothingPushed(slots);
    } else {
      PushedInRow(slots, m);
      NewKernel(slots, m);
      hide Sound, Run, Crowded, CanPush, Added, PushedTo, Row, Interval;
      PushesRun(slots, m - 1);
      HostSteps(slots, Pushes(m - 1), m, Kernel(m, false));
    }
  }

  lemma NewKernel(slots: nat, m: nat)
    requires m > 0
    ensures CanPush(Added(Crowded(slots, m - 1, 0)), m, Kernel(m, false))
  {
    var added := Added(Crowded(slots, m - 1, 0));
    forall k: nat, i: nat
      ensures !IsKernelAt(added, k, i, m)
    {
    }
  }

  lemma NextInRow(slots: nat, m: nat, j: nat)
    requires j < m
    ensures var next: nat := j + 1; Choice(Crowded(slots, m, j)) == (Some(next), false)
  {
    assert Row(m, j)[j + 1].ops != [];
    hide Interval, Row, FirstReady;
    ReadyInRow(m, j);
  }

  lemma ReadyInRow(m: nat, j: nat)
    requires j < m
    ensures |Row(m, j)| == m + 1 && FirstReady(Row(m, j), 1) == j + 1
  {
    var row := Row(m, j);
    var r := FirstReady(row, 1);
    hide FirstReady;
    assert !row[j + 1].pending && row[j + 1].ops != [];
    assert forall i :: 1 <= i <= j ==> row[i].pending;
  }

  lemma StartedInRow(slots: nat, m: nat, j: nat)
    requires j < m
    ensures Started(Crowded(slots, m, j), j + 1) == Crowded(slots, m, j + 1).(running := Crowded(slots, m, j).running)
  {
    hide Interval;
    var s, next := Crowded(slots, m, j), Crowded(slots, m, j + 1);
    assert Row(m, j)[j + 1 := Row(m, j)[j + 1].Started()] == Row(m, j + 1);
    assert s.grids[j + 1 := j + 1] == next.grids;
  }

  lemma CrowdedOperates(slots: nat, m: nat, j: nat)
    requires j < m && Sound(Crowded(slots, m, j))
    ensures After(Crowded(slots, m, j), Operate) == Crowded(slots, m, j + 1)
  {
    var s, next := Crowded(slots, m, j), Crowded(slots, m, j + 1);
    hide Crowded, Inv, GpuOk, Choice, Started, Busy, CanStart, CanFinish, Finished, Row, Interval;
    NextInRow(slots, m, j);
    StartedInRow(slots, m, j);
    CrowdedRoom(slots, m, j);
    CrowdedFront(slots, m, j);
    OperatingIsSound(s);
    assert Fronted(s) == Started(s, j + 1);
  }

  lemma CrowdedFront(slots: nat, m: nat, j: nat)
    requires j < m
    ensures var s := Crowded(slots, m, j);
            && s.finished == [] && !s.serviceZero && j + 1 < |s.streams|
            && s.streams[j + 1].ops == [Kernel(j + 1, false)]
  {
  }

  lemma CrowdedRoom(slots: nat, m: nat, j: nat)
    requires j < m
    ensures var s, next := Crowded(slots, m, j), Crowded(slots, m, j + 1);
            && (CanStart(s) <==> j < slots)
            && next.running == if j < slots then s.running + {j + 1} else s.running
  {
    var s := Crowded(slots, m, j);
    assert Busy(s) == s.running;
  }

  lemma {:induction false} CrowdingRuns(slots: nat, m: nat, j: nat)
    requires slots > 0 && j <= m
    ensures Run(slots, Crowding(m, j)) == Some(Crowded(slots, m, j))
  {
    hide Sound, Run, After, Crowded, Pushes;
    if j == 0 {
      PushesRun(slots, m);
    } else {
      CrowdingRuns(slots, m, j - 1);
      CrowdedOperates(slots, m, j - 1);
      OneStepMore(slots, Crowding(m, j - 1), Operate);
    }
  }

  lemma CrowdedRefuses(slots: nat, m: nat)
    requires slots < m
    ensures |Crowded(slots, m, slots + 1).streams| == m + 1
    ensures Refused(Crowded(slots, m, slots + 1), slots + 1, slots + 1)
  {
  }

  ghost predicate RefusedIn(slots: nat, steps: seq<Step>, n: nat, k: nat, uid: nat)
    requires slots > 0
  {
    Run(slots, steps).Some? && |Run(slots, steps).value.streams| == n && Refused(Run(slots, steps).value, k, uid)
  }

  /** Runs that end with n streams, zero among them, and with a refused kernel exist exactly when the
      others outnumber the GPU's slots. */
  lemma RefusalIsReachable(slots: nat, n: nat)
    requires slots > 0
    ensures (exists steps, k, uid :: RefusedIn(slots, steps, n, k, uid)) <==> n >= slots + 2
  {
    hide Run, Crowded, Refused;
    if n >= slots + 2 {
      CrowdingRuns(slots, n - 1, slots + 1);
      CrowdedRefuses(slots, n - 1);
      assert RefusedIn(slots, Crowding(n - 1, slots + 1), n, slots + 1, slots + 1);
    }
    forall steps, k: nat, uid: nat | RefusedIn(slots, steps, n, k, uid)
      ensures n >= slots + 2
    {
      if n <= slots + 1 {
        EnoughSlotsRefuseNone(slots, steps, k, uid);
      }
    }
  }
}
