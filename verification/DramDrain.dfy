/** Progress of a DRAM partition: once no more requests arrive, all that have arrived are answered
    within a number of cycles that the timing parameters and the work left bound. */
module DramDrain {
  import opened Bits
  import opened DelayQueue
  import opened Options
  import opened DramModel
  import opened DramTiming
  import opened DramBurst
  import opened DramRuns
  import opened DramProgress
  import opened DramService
  import opened DramWork
  import FrFcfs

  // ----- counters

  function LongestWait(c: Config): nat
  {
    c.tCCD + c.tCCDL + c.tRRD + c.tRCD + c.tRCDWR + c.tRAS + c.tRP + c.tRC + c.tWTP + c.readToPrecharge + c.tRTPL
    + c.tRTW + c.tWTR
  }

  /** No counter has more than n to go. */
  ghost predicate Within(s: State, n: nat)
  {
    forall x :: Value(s, x) <= n
  }

  lemma WithinAfterIssue(c: Config, s: State, n: nat)
    requires s.Shaped(c) && Within(s, n) && n <= LongestWait(c)
    ensures Within(AfterIssue(c, s), LongestWait(c))
    ensures Choice(c, s, 0) == Nop && n > 0 ==> Within(AfterIssue(c, s), n - 1)
  {
    hide Value, AfterIssue, Choice;
    forall x
      ensures Value(AfterIssue(c, s), x) <= LongestWait(c)
      ensures Choice(c, s, 0) == Nop && n > 0 ==> Value(AfterIssue(c, s), x) <= n - 1
    {
      CounterAfterIssue(c, s, x);
    }
  }

  lemma SameTimingWithin(a: State, b: State, n: nat)
    requires SameTiming(a, b) && Within(a, n)
    ensures Within(b, n)
  {
    hide Value;
    forall x
      ensures Value(b, x) <= n
    {
      assert Value(a, x) == Value(b, x);
    }
  }

  // ----- a command is issued

  /** With every counter at zero and room in the pipeline, a bank that holds a request can issue. */
  lemma HolderCanIssue(c: Config, s: State, j: nat)
    requires s.Shaped(c) && Within(s, 0) && !PipelineFull(c, s) && j < c.nbk && s.banks[j].mrq.Some?
    ensures CommandFor(c, s, j) != Nop
  {
    GroupInRange(c, j);
    var g := c.GroupOf(j);
    assert Value(s, CCD) == Value(s, RTW) == Value(s, WTR) == Value(s, RRD) == 0;
    assert Value(s, RCD(j)) == Value(s, RCDWR(j)) == Value(s, RAS(j)) == Value(s, RP(j)) == 0;
    assert Value(s, RC(j)) == Value(s, WTP(j)) == Value(s, RTP(j)) == Value(s, CCDL(g)) == Value(s, RTPL(g)) == 0;
  }

  lemma {:induction false} NoneChosen(c: Config, s: State, i: nat, k: nat)
    requires s.Shaped(c) && i <= k < c.nbk && Choice(c, s, i) == Nop
    ensures CommandFor(c, s, (k + s.prio) % c.nbk) == Nop
    decreases k - i
  {
    hide CommandFor, State.Shaped;
    if i < k {
      NoneChosen(c, s, i + 1, k);
    }
  }

  lemma TurnOf(j: nat, prio: nat, n: nat) returns (k: nat)
    requires j < n && prio < n
    ensures k < n && (k + prio) % n == j
  {
    k := if j >= prio then j - prio else j + n - prio;
    if j < prio {
      PartsOf(j + n, 1, j, n);
    } else {
      SmallNumber(j, n);
    }
  }

  lemma SomeCommandIssues(c: Config, s: State, j: nat)
    requires s.Shaped(c) && Within(s, 0) && !PipelineFull(c, s) && j < c.nbk && s.banks[j].mrq.Some?
    ensures Choice(c, s, 0) != Nop
  {
    HolderCanIssue(c, s, j);
    hide CommandFor;
    var k := TurnOf(j, s.prio, c.nbk);
    if Choice(c, s, 0) == Nop {
      NoneChosen(c, s, 0, k);
      assert false;
    }
  }

  // ----- a bank gets a request

  ghost predicate SomeHolds(s: State)
  {
    exists b: nat :: b < |s.banks| && s.banks[b].mrq.Some?
  }

  ghost predicate SomeQueued(s: State)
  {
    exists b: nat :: b < |s.sched| && s.sched[b].queue != []
  }

  /** The FIFO scheduler keeps no queues. */
  ghost predicate QueuesUsed(c: Config, s: State)
  {
    c.frfcfs || !SomeQueued(s)
  }

  lemma {:induction false} WorkAtBanks(banks: seq<BankState>, reqs: map<nat, Request>)
    requires BanksWork(banks, reqs) > 0
    ensures exists b: nat :: b < |banks| && banks[b].mrq.Some?
  {
    var n := |banks| - 1;
    if BankWork(banks[n], reqs) == 0 {
      WorkAtBanks(banks[..n], reqs);
      var b: nat :| b < n && banks[..n][b].mrq.Some?;
      assert banks[b].mrq.Some?;
    }
  }

  lemma {:induction false} WorkInSched(sched: seq<FrFcfs.Bank>, sizes: map<nat, nat>)
    requires SchedWork(sched, sizes) > 0
    ensures exists b: nat :: b < |sched| && sched[b].queue != []
  {
    var n := |sched| - 1;
    if QueueWork(sched[n].queue, sizes) == 0 {
      WorkInSched(sched[..n], sizes);
      var b: nat :| b < n && sched[..n][b].queue != [];
      assert sched[b].queue != [];
    }
  }

  lemma WorkIsSomewhere(s: State, log: Log)
    requires Work(s, log) > 0
    ensures SomeHolds(s) || s.mrqq.cells != [] || SomeQueued(s)
  {
    hide BanksWork, SchedWork;
    if BanksWork(s.banks, s.reqs) > 0 {
      WorkAtBanks(s.banks, s.reqs);
    } else if SchedWork(s.sched, log.sizes) > 0 {
      WorkInSched(s.sched, log.sizes);
    }
  }

  lemma FifoGives(c: Config, s: State, log: Log)
    requires Consistent(c, s, log) && (SomeHolds(s) || s.mrqq.cells != [])
    ensures s.mrqq.Front().Some? ==> s.mrqq.Front().value in s.reqs && s.reqs[s.mrqq.Front().value].bk < c.nbk
    ensures SomeHolds(FifoScheduled(c, s))
  {
    FifoKeepsConsistent(c, s, log);
    ConsistentIsShaped(c, s, log);
    var after := FifoScheduled(c, s);
    if SomeHolds(s) {
      var b: nat :| b < |s.banks| && s.banks[b].mrq.Some?;
      assert after.banks[b].mrq.Some?;
    } else {
      assert s.mrqq.Front().Some?;
      assert after.banks[s.reqs[s.mrqq.Front().value].bk].mrq.Some?;
    }
  }

  lemma {:induction false} NothingPending(sched: seq<FrFcfs.Bank>)
    requires forall b: nat :: b < |sched| ==> sched[b].queue == []
    ensures Pending(sched) == 0
  {
    if sched != [] {
      NothingPending(sched[..|sched| - 1]);
    }
  }

  lemma {:induction false} AdmittedStays(c: Config, s: State, b: nat)
    requires s.Shaped(c) && CanAdmit(c, s) && b < c.nbk && s.sched[b].queue != []
    ensures Admitted(c, s).Shaped(c) && Admitted(c, s).sched[b].queue != []
    decreases |s.mrqq.cells|
  {
    hide State.Shaped;
    AdmittingKeepsShape(c, s);
    if !(s.mrqq.cells == [] || (c.schedQueueSize > 0 && Pending(s.sched) >= c.schedQueueSize)) {
      OneAdmittedStays(c, s, b);
      AdmittedStays(c, AdmittedOne(c, s), b);
    }
  }

  lemma OneAdmittedStays(c: Config, s: State, b: nat)
    requires s.Shaped(c) && CanAdmit(c, s) && s.mrqq.cells != [] && b < c.nbk
    ensures s.sched[b].queue != [] ==> AdmittedOne(c, s).sched[b].queue != []
    ensures SomeQueued(AdmittedOne(c, s))
  {
    var bk := s.reqs[s.mrqq.cells[0].value].bk;
    assert AdmittedOne(c, s).sched[bk].queue != [];
  }

  lemma AdmittedHasSome(c: Config, s: State)
    requires s.Shaped(c) && CanAdmit(c, s) && (s.mrqq.cells != [] || SomeQueued(s))
    ensures SomeQueued(Admitted(c, s))
  {
    AdmittingKeepsShape(c, s);
    if SomeQueued(s) {
      var b: nat :| b < |s.sched| && s.sched[b].queue != [];
      AdmittedStays(c, s, b);
    } else {
      NothingPending(s.sched);
      OneAdmittedStays(c, s, 0);
      var one := AdmittedOne(c, s);
      var b: nat :| b < |one.sched| && one.sched[b].queue != [];
      AdmittedStays(c, one, b);
    }
  }

  lemma {:induction false} NoneServable(c: Config, s: State, i: nat, k: nat)
    requires s.Shaped(c) && i <= k < c.nbk && FirstServable(c, s, i) == None
    ensures var b := (k + s.prio) % c.nbk; s.banks[b].mrq.Some? || s.sched[b].queue == []
    decreases k - i
  {
    if i < k {
      NoneServable(c, s, i + 1, k);
    }
  }

  lemma FrfcfsGives(c: Config, s: State)
    requires s.Shaped(c) && CanAdmit(c, s) && (SomeHolds(s) || s.mrqq.cells != [] || SomeQueued(s))
    ensures SomeHolds(FrfcfsScheduled(c, s))
  {
    AdmittingKeepsShape(c, s);
    var admitted, after := Admitted(c, s), FrfcfsScheduled(c, s);
    var first := FirstServable(c, admitted, 0);
    if first.Some? {
      ServableIsABank(c, admitted, 0);
      assert after.banks[first.value].mrq.Some?;
    } else if !SomeHolds(s) {
      AdmittedHasSome(c, s);
      var b: nat :| b < |admitted.sched| && admitted.sched[b].queue != [];
      var k := TurnOf(b, s.prio, c.nbk);
      NoneServable(c, admitted, 0, k);
      assert SomeHolds(s);
    }
  }

  // ----- one cycle

  lemma SameSizesSameWork(s: State, log: Log, log': Log)
    requires log.sizes == log'.sizes
    ensures Work(s, log) == Work(s, log')
  {
  }

  lemma WorkBeforeIssue(c: Config, m: Moment)
    requires Consistent(c, m.s, m.log)
    ensures Work(BeforeIssue(c, m.s, m.log), m.log) <= Work(m.s, m.log)
    ensures QueuesUsed(c, m.s) && Work(m.s, m.log) > 0 ==> SomeHolds(BeforeIssue(c, m.s, m.log))
  {
    hide Consistent, Work, QueuesUsed, SomeHolds, SomeQueued;
    ReturningKeepsConsistent(c, m.s, m.log);
    ReturningKeepsWork(c, m.s, m.log);
    var returned, log' := Returned(c, m.s), LogReturned(c, m.s, m.log);
    SameSizesSameWork(returned, m.log, log');
    ReturningKeepsQueues(c, m.s);
    FifoKeepsConsistent(c, returned, log');
    FrfcfsKeepsConsistent(c, returned, log');
    ConsistentIsShaped(c, returned, log');
    if Work(m.s, m.log) > 0 {
      WorkIsSomewhere(returned, log');
    }
    if c.frfcfs {
      FrfcfsLowersWork(c, returned, log');
      SameSizesSameWork(FrfcfsScheduled(c, returned), m.log, log');
      if Work(m.s, m.log) > 0 {
        FrfcfsGives(c, returned);
      }
    } else {
      FifoLowersWork(c, returned, log');
      SameSizesSameWork(FifoScheduled(c, returned), m.log, log');
      if QueuesUsed(c, m.s) && Work(m.s, m.log) > 0 {
        FifoUsesNone(c, returned);
        FifoGives(c, returned, log');
      }
    }
  }

  lemma ReturningKeepsQueues(c: Config, s: State)
    requires s.rwq.Front().Some? ==> s.rwq.Front().value in s.reqs
    ensures QueuesUsed(c, s) ==> QueuesUsed(c, Returned(c, s))
  {
    assert Returned(c, s).sched == s.sched;
  }

  lemma FifoUsesNone(c: Config, s: State)
    requires QueuesUsed(c, s) && !c.frfcfs
    ensures !SomeQueued(s)
  {
  }

  lemma IssuingLowersWork(c: Config, s: State, log: Log)
    requires Consistent(c, s, log)
    ensures s.Shaped(c)
    ensures if Choice(c, s, 0) == Nop then Work(AfterIssue(c, s), log) == Work(s, log)
            else Work(AfterIssue(c, s), log) < Work(s, log)
  {
    ConsistentIsShaped(c, s, log);
    ChoiceServes(c, s);
    ChoiceIsReady(c, s, 0);
    var cmd := Choice(c, s, 0);
    hide Consistent, Choice, Work, Issued, Ticked, ServesItsRequest, State.Shaped;
    TickingKeepsWork(Issued(c, s, cmd), log);
    if cmd.Act? || cmd.Pre? {
      RowCommandLowersWork(c, s, log, cmd);
    } else if cmd.Read? || cmd.Write? {
      ColumnLowersWork(c, s, log, cmd);
      SameSizesSameWork(Issued(c, s, cmd), log, LogIssued(s, log, cmd));
    } else {
      NopKeepsState(c, s);
    }
  }

  lemma NopKeepsState(c: Config, s: State)
    requires s.Shaped(c)
    ensures Issued(c, s, Nop) == s
  {
  }

  /** A cycle in which there is work issues a command, which lowers the work, or counts every counter
      down. */
  lemma CycleLowers(c: Config, m: Moment, n: nat) returns (n': nat)
    requires Consistent(c, m.s, m.log) && PipelineOk(c, m.s) && QueuesUsed(c, m.s) && c.WL <= c.CL
    requires Within(m.s, n) && n <= LongestWait(c) && !QueueFull(m.s.returnq, c.ReturnLimit())
    ensures var after := AfterCycle(c, m);
            && after.log.sizes == m.log.sizes && Within(after.s, n') && n' <= LongestWait(c)
            && Work(after.s, after.log) <= Work(m.s, m.log)
            && (Work(m.s, m.log) > 0 && Work(after.s, after.log) == Work(m.s, m.log) ==> n' + 1 == n)
  {
    hide Consistent, PipelineOk, QueuesUsed, Within, Work, BeforeIssue, PipelineFull, SomeHolds;
    var s, log := BeforeIssue(c, m.s, m.log), LogReturned(c, m.s, m.log);
    BeforeIssueKeepsTiming(c, m.s, m.log);
    SameTimingWithin(m.s, s, n);
    BeforeIssueKeepsPipeline(c, m.s, m.log);
    WorkBeforeIssue(c, m);
    SameSizesSameWork(s, m.log, log);
    IssuingLowersWork(c, s, log);
    WithinAfterIssue(c, s, n);
    SameSizesSameWork(AfterIssue(c, s), log, AfterCycle(c, m).log);
    n' := LongestWait(c);
    if Choice(c, s, 0) == Nop {
      if n > 0 {
        n' := n - 1;
      } else if Work(m.s, m.log) > 0 {
        HeldIsIssued(c, s);
        assert false;
      }
    }
  }

  lemma HeldIsIssued(c: Config, s: State)
    requires s.Shaped(c) && Within(s, 0) && !PipelineFull(c, s) && SomeHolds(s)
    ensures Choice(c, s, 0) != Nop
  {
    hide Within, PipelineFull, Choice;
    var j: nat :| j < |s.banks| && s.banks[j].mrq.Some?;
    SomeCommandIssues(c, s, j);
  }
}
