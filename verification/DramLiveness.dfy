/** Over every run: once no more requests arrive, every request is answered. */
module DramLiveness {
  import opened Blocks
  import opened DelayLatency
  import opened DelayQueue
  import opened Options
  import opened DramModel
  import opened DramTiming
  import opened DramBurst
  import opened DramRuns
  import opened DramAnswers
  import opened DramProgress
  import opened DramWork
  import opened DramDrain
  import FrFcfs

  // ----- nothing left to do

  lemma {:induction false} IdleBanks(banks: seq<BankState>, reqs: map<nat, Request>, id: nat)
    requires BanksWork(banks, reqs) == 0
    requires forall b: nat :: b < |banks| && banks[b].mrq.Some? ==> banks[b].mrq.value in reqs
    ensures (forall b: nat :: b < |banks| ==> banks[b].mrq == None) && AtBanks(banks, id) == 0
  {
    if banks != [] {
      var n := |banks| - 1;
      forall b: nat | b < n && banks[..n][b].mrq.Some?
        ensures banks[..n][b].mrq.value in reqs
      {
        assert banks[b].mrq.Some?;
      }
      IdleBanks(banks[..n], reqs, id);
      assert forall b: nat :: b < n ==> banks[b] == banks[..n][b];
    }
  }

  lemma {:induction false} IdleSched(sched: seq<FrFcfs.Bank>, sizes: map<nat, nat>, id: nat)
    requires SchedWork(sched, sizes) == 0
    ensures InSched(sched, id) == 0
  {
    if sched != [] {
      IdleSched(sched[..|sched| - 1], sizes, id);
      assert sched[|sched| - 1].queue == [];
    }
  }

  lemma IdleWaitsForNone(c: Config, s: State, log: Log, id: nat)
    requires s.Shaped(c) && Work(s, log) == 0 && forall i :: 0 <= i < |s.mrqq.cells| ==> s.mrqq.cells[i].Some?
    ensures Waiting(s, id) == 0 && !SomeHolds(s)
  {
    hide SchedWork, InSched, BanksWork, AtBanks;
    IdleBanks(s.banks, s.reqs, id);
    IdleSched(s.sched, log.sizes, id);
    assert s.mrqq.cells == [];
    assert s.mrqq.Data() == [];
  }

  /** With no work and no data left every request has been answered once. */
  lemma DoneIsAnswered(c: Config, m: Moment, id: nat)
    requires Consistent(c, m.s, m.log) && Work(m.s, m.log) == 0 && Reach(m.s.rwq.cells) == 0
    ensures id !in m.s.reqs && (id in m.log.sizes ==> Times(m.log.answered, id) == 1)
  {
    assert IdOk(c, m.s, m.log, id);
    IdleWaitsForNone(c, m.s, m.log, id);
    NoDataLeft(m.s.rwq);
    InFlight(m.s, m.log, id);
    hide Work, DataOf, AtBanks, InSched, Reach;
    assert Times([], id) == 0;
  }

  lemma NothingToIssue(c: Config, s: State)
    requires s.Shaped(c) && !SomeHolds(s)
    ensures AfterIssue(c, s).rwq == s.rwq
  {
    ChoiceIsReady(c, s, 0);
  }

  /** With no work left a cycle only moves the data on. */
  lemma IdleCycle(c: Config, m: Moment)
    requires Consistent(c, m.s, m.log) && Work(m.s, m.log) == 0 && !QueueFull(m.s.returnq, c.ReturnLimit())
    ensures AfterCycle(c, m).s.rwq == m.s.rwq.Pop()
  {
    WorkBeforeIssue(c, m);
    var s, log := BeforeIssue(c, m.s, m.log), LogReturned(c, m.s, m.log);
    assert s.Shaped(c) && QueuesOk(s, log);
    hide Consistent, BeforeIssue, Work, Queue<nat>.Pop, SomeHolds;
    SchedulingKeepsPipeline(c, m.s, m.log);
    IdleWaitsForNone(c, s, m.log, 0);
    NothingToIssue(c, s);
  }

  // ----- cycles left

  /** A round is a command and the longest wait before it. */
  ghost function RoundsFor(c: Config, work: nat): nat
  {
    Base(work, LongestWait(c) + 1)
  }

  /** An upper bound for the cycles until everything is answered, when no counter exceeds n. */
  ghost function CyclesLeft(c: Config, m: Moment, n: nat): nat
  {
    if Work(m.s, m.log) > 0 then RoundsFor(c, Work(m.s, m.log)) + n + c.CL + 2 else Reach(m.s.rwq.cells)
  }

  lemma FewerRounds(c: Config, less: nat, more: nat)
    requires less < more
    ensures RoundsFor(c, less) + LongestWait(c) < RoundsFor(c, more)
  {
    BaseGrows(less, more - 1, LongestWait(c) + 1);
    NextBlock(LongestWait(c) + 1, more - 1);
  }

  ghost predicate Ready(c: Config, m: Moment)
  {
    && Consistent(c, m.s, m.log) && PipelineOk(c, m.s) && QueuesUsed(c, m.s) && c.WL <= c.CL
    && m.s.returnq.minLen == 0
  }

  lemma PipelineBoundsReach(c: Config, s: State)
    requires PipelineOk(c, s) && c.WL <= c.CL
    ensures Reach(s.rwq.cells) <= c.CL + 1
  {
  }

  lemma CycleKeepsReady(c: Config, m: Moment)
    requires Ready(c, m)
    ensures Ready(c, AfterCycle(c, m))
  {
    hide Consistent, PipelineOk, BeforeIssue, QueuesUsed;
    BeforeIssueKeepsPipeline(c, m.s, m.log);
    var s := BeforeIssue(c, m.s, m.log);
    ConsistentIsShaped(c, s, LogReturned(c, m.s, m.log));
    IssuingKeepsPipeline(c, s);
    BeforeIssueUsesQueues(c, m.s, m.log);
    IssuingUsesQueues(c, s);
    CycleKeepsNoDelay(c, m);
  }

  lemma QueueKeepsMinLen(q: Queue<nat>, x: Option<nat>)
    ensures q.Pop().minLen == q.minLen && q.Push(x).minLen == q.minLen
  {
  }

  lemma CycleKeepsNoDelay(c: Config, m: Moment)
    requires Consistent(c, m.s, m.log)
    ensures AfterCycle(c, m).s.returnq.minLen == m.s.returnq.minLen
  {
    hide Consistent, BeforeIssue, AfterIssue, Queue<nat>.Pop, Queue<nat>.Push;
    SchedulingAnswersNone(c, m.s, m.log);
    QueueKeepsMinLen(m.s.returnq, m.s.rwq.Front());
    var s := BeforeIssue(c, m.s, m.log);
    ConsistentIsShaped(c, s, LogReturned(c, m.s, m.log));
    IssuingAnswersNone(c, s);
  }

  lemma BeforeIssueUsesQueues(c: Config, s: State, log: Log)
    requires Consistent(c, s, log) && QueuesUsed(c, s)
    ensures QueuesUsed(c, BeforeIssue(c, s, log))
  {
    hide Consistent;
    if !c.frfcfs {
      ReturningKeepsConsistent(c, s, log);
      ReturningKeepsQueues(c, s);
      ConsistentIsShaped(c, Returned(c, s), LogReturned(c, s, log));
      FifoKeepsConsistent(c, Returned(c, s), LogReturned(c, s, log));
      FrfcfsKeepsConsistent(c, Returned(c, s), LogReturned(c, s, log));
      assert FifoScheduled(c, Returned(c, s)).sched == Returned(c, s).sched;
    }
  }

  lemma IssuingUsesQueues(c: Config, s: State)
    requires s.Shaped(c) && QueuesUsed(c, s)
    ensures QueuesUsed(c, AfterIssue(c, s))
  {
    ChoiceIsReady(c, s, 0);
    assert AfterIssue(c, s).sched == s.sched;
  }

  /** Every cycle with room in the return queue brings the end nearer. */
  lemma CycleIsProgress(c: Config, m: Moment, n: nat) returns (n': nat)
    requires Ready(c, m) && Within(m.s, n) && n <= LongestWait(c) && !QueueFull(m.s.returnq, c.ReturnLimit())
    ensures var after := AfterCycle(c, m);
            && Ready(c, after) && after.log.sizes == m.log.sizes && Within(after.s, n') && n' <= LongestWait(c)
            && (CyclesLeft(c, after, n') < CyclesLeft(c, m, n) || CyclesLeft(c, after, n') == 0)
  {
    CycleKeepsReady(c, m);
    n' := CycleLowers(c, m, n);
    var after := AfterCycle(c, m);
    if Work(m.s, m.log) == 0 {
      IdleCycle(c, m);
      ReachAfterPop(m.s.rwq);
    } else {
      PipelineBoundsReach(c, after.s);
      if Work(after.s, after.log) < Work(m.s, m.log) {
        FewerRounds(c, Work(after.s, after.log), Work(m.s, m.log));
      }
    }
  }

  // ----- runs without arrivals

  /** Cycles, each with room in the return queue, and answers taken. */
  ghost predicate IsDrain(c: Config, m: Moment, tail: seq<Event>)
    requires Consistent(c, m.s, m.log)
    decreases |tail|
  {
    tail == [] ||
    (!tail[0].Accept? && (tail[0].Cycle? ==> !QueueFull(m.s.returnq, c.ReturnLimit()))
     && IsDrain(c, Next(c, m, tail[0]), tail[1..]))
  }

  ghost function AfterAll(c: Config, m: Moment, tail: seq<Event>): (after: Moment)
    requires Consistent(c, m.s, m.log) && IsDrain(c, m, tail)
    ensures Consistent(c, after.s, after.log)
    decreases |tail|
  {
    if tail == [] then m else AfterAll(c, Next(c, m, tail[0]), tail[1..])
  }

  function Cycles(tail: seq<Event>): nat
  {
    if tail == [] then 0 else (if tail[0].Cycle? then 1 else 0) + Cycles(tail[1..])
  }

  lemma TakingIsIdle(c: Config, m: Moment, n: nat)
    requires Ready(c, m) && Within(m.s, n)
    ensures var after := Next(c, m, TakeAnswer);
            && Ready(c, after) && after.log == m.log && Within(after.s, n)
            && CyclesLeft(c, after, n) == CyclesLeft(c, m, n)
  {
    hide Consistent, BanksWork, CellsWork, SchedWork, Reach, RoundsFor, Queue<nat>.Pop;
    var after := Next(c, m, TakeAnswer);
    assert after.s == m.s.(returnq := m.s.returnq.Pop());
    QueueKeepsMinLen(m.s.returnq, None);
    MovingRequestsKeepsTiming(m.s, after.s);
    SameTimingWithin(m.s, after.s, n);
  }

  lemma {:induction false} DrainsAll(c: Config, m: Moment, n: nat, tail: seq<Event>)
    requires Ready(c, m) && Within(m.s, n) && n <= LongestWait(c) && IsDrain(c, m, tail)
    requires Cycles(tail) >= CyclesLeft(c, m, n)
    ensures var end := AfterAll(c, m, tail);
            end.log.sizes == m.log.sizes && Work(end.s, end.log) == 0 && Reach(end.s.rwq.cells) == 0
    decreases |tail|
  {
    hide Ready, Within, Work, Reach, RoundsFor, AfterCycle, Queue<nat>.Pop;
    ReadyIsConsistent(c, m);
    if tail != [] {
      var n' := n;
      if tail[0].Cycle? {
        n' := CycleIsProgress(c, m, n);
      } else {
        TakingIsIdle(c, m, n);
      }
      hide CyclesLeft, Next;
      DrainsAll(c, Next(c, m, tail[0]), n', tail[1..]);
    }
  }

  lemma ReadyIsConsistent(c: Config, m: Moment)
    requires Ready(c, m)
    ensures Consistent(c, m.s, m.log)
  {
  }

  lemma StartIsReady(c: Config)
    requires c.Valid() && c.WL <= c.CL
    ensures Ready(c, Moment(Initial(c), Log([], [], [], map[]))) && Within(Initial(c), LongestWait(c))
  {
    InitialIsConsistent(c);
    EmptyPipelineIsOk(c);
    forall x
      ensures Value(Initial(c), x) <= LongestWait(c)
    {
    }
  }

  lemma NextIsReady(c: Config, m: Moment, e: Event)
    requires Ready(c, m) && Allowed(c, m, e) && Within(m.s, LongestWait(c))
    ensures Ready(c, Next(c, m, e)) && Within(Next(c, m, e).s, LongestWait(c))
  {
    hide Consistent, Within, BeforeIssue, Queue<nat>.Pop, Queue<nat>.Push;
    if e.Cycle? {
      CycleKeepsReady(c, m);
      hide PipelineOk, QueuesUsed;
      BeforeIssueKeepsTiming(c, m.s, m.log);
      var s := BeforeIssue(c, m.s, m.log);
      ConsistentIsShaped(c, s, LogReturned(c, m.s, m.log));
      SameTimingWithin(m.s, s, LongestWait(c));
      WithinAfterIssue(c, s, LongestWait(c));
    } else {
      QueueKeepsMinLen(m.s.returnq, None);
      MovingRequestsKeepsTiming(m.s, Next(c, m, e).s);
      SameTimingWithin(m.s, Next(c, m, e).s, LongestWait(c));
    }
  }

  lemma {:induction false} EveryRunIsReady(c: Config, events: seq<Event>)
    requires c.Valid() && IsAllowedRun(c, events) && c.WL <= c.CL
    ensures Ready(c, DramRuns.Run(c, events).value) && Within(DramRuns.Run(c, events).value.s, LongestWait(c))
  {
    if events == [] {
      StartIsReady(c);
    } else {
      hide Ready, Within, Next, Consistent;
      EveryRunIsReady(c, events[..|events| - 1]);
      NextIsReady(c, DramRuns.Run(c, events[..|events| - 1]).value, events[|events| - 1]);
    }
  }

  lemma RunOneMore(c: Config, events: seq<Event>, e: Event)
    requires c.Valid() && IsAllowedRun(c, events) && Allowed(c, DramRuns.Run(c, events).value, e)
    ensures DramRuns.Run(c, events + [e]) == Some(Next(c, DramRuns.Run(c, events).value, e))
  {
    hide Next, Consistent;
    assert (events + [e])[..|events|] == events;
  }

  lemma {:induction false} RunContinued(c: Config, events: seq<Event>, tail: seq<Event>)
    requires c.Valid() && IsAllowedRun(c, events) && IsDrain(c, DramRuns.Run(c, events).value, tail)
    ensures DramRuns.Run(c, events + tail) == Some(AfterAll(c, DramRuns.Run(c, events).value, tail))
    decreases |tail|
  {
    hide DramRuns.Run, Next, Consistent;
    if tail == [] {
      assert events + tail == events;
    } else {
      RunOneMore(c, events, tail[0]);
      RunContinued(c, events + [tail[0]], tail[1..]);
      assert events + [tail[0]] + tail[1..] == events + tail;
    }
  }

  /** However a run has gone, once no more requests arrive every request is answered, exactly once, and
      freed, in so many cycles at most: for each command still to come the longest wait and the cycle
      that issues it, and then what the pipeline holds.  The answers must be taken away fast enough,
      and writes must not take longer than reads. */
  lemma EveryRequestIsAnswered(c: Config, events: seq<Event>, tail: seq<Event>)
    requires c.Valid() && IsAllowedRun(c, events) && c.WL <= c.CL
    requires IsDrain(c, DramRuns.Run(c, events).value, tail)
    requires Cycles(tail) >= CyclesLeft(c, DramRuns.Run(c, events).value, LongestWait(c))
    ensures IsAllowedRun(c, events + tail)
    ensures var end := DramRuns.Run(c, events + tail).value;
            && end.s.reqs == map[] && end.log.sizes == DramRuns.Run(c, events).value.log.sizes
            && forall id :: id in end.log.sizes ==> Times(end.log.answered, id) == 1
  {
    hide DramRuns.Run, Ready, Consistent, Within, CyclesLeft, Work, Reach, Times;
    var m := DramRuns.Run(c, events).value;
    RunContinued(c, events, tail);
    EveryRunIsReady(c, events);
    DrainsAll(c, m, LongestWait(c), tail);
    var end := AfterAll(c, m, tail);
    forall id: nat
      ensures id !in end.s.reqs && (id in end.log.sizes ==> Times(end.log.answered, id) == 1)
    {
      DoneIsAnswered(c, end, id);
    }
    assert end.s.reqs.Keys == {};
  }

  // ----- such a continuation exists

  lemma {:induction false} RoomIsMade(c: Config, m: Moment, n: nat) returns (tail: seq<Event>)
    requires Ready(c, m) && Within(m.s, n)
    ensures Consistent(c, m.s, m.log) && IsDrain(c, m, tail) && Cycles(tail) == 0
    ensures var after := AfterAll(c, m, tail);
            Ready(c, after) && Within(after.s, n) && !QueueFull(after.s.returnq, c.ReturnLimit())
    decreases |m.s.returnq.cells|
  {
    if !QueueFull(m.s.returnq, c.ReturnLimit()) {
      tail := [];
    } else {
      var next := Next(c, m, TakeAnswer);
      TakingIsIdle(c, m, n);
      assert next.s.returnq == m.s.returnq.Pop();
      hide Consistent, PipelineOk, QueuesUsed, Within, Next;
      var later := RoomIsMade(c, next, n);
      tail := [TakeAnswer] + later;
      assert tail[1..] == later;
    }
  }

  lemma {:induction false} DrainsJoined(c: Config, m: Moment, a: seq<Event>, b: seq<Event>)
    requires Consistent(c, m.s, m.log) && IsDrain(c, m, a) && IsDrain(c, AfterAll(c, m, a), b)
    ensures IsDrain(c, m, a + b) && AfterAll(c, m, a + b) == AfterAll(c, AfterAll(c, m, a), b)
    ensures Cycles(a + b) == Cycles(a) + Cycles(b)
    decreases |a|
  {
    hide Consistent, Next;
    if a == [] {
      assert a + b == b;
    } else {
      assert (a + b)[1..] == a[1..] + b;
      DrainsJoined(c, Next(c, m, a[0]), a[1..], b);
    }
  }

  /** Answers can be taken away so that any number of cycles find room in the return queue. */
  lemma {:induction false} DrainExists(c: Config, m: Moment, n: nat, k: nat) returns (tail: seq<Event>)
    requires Ready(c, m) && Within(m.s, n) && n <= LongestWait(c)
    ensures Consistent(c, m.s, m.log) && IsDrain(c, m, tail) && Cycles(tail) == k
    decreases k
  {
    ReadyIsConsistent(c, m);
    hide Ready, Consistent, Within, CyclesLeft, Next, AfterCycle;
    if k == 0 {
      tail := [];
    } else {
      var room := RoomIsMade(c, m, n);
      var ready := AfterAll(c, m, room);
      var n' := CycleIsProgress(c, ready, n);
      CycleIsNext(c, ready);
      var later := DrainExists(c, Next(c, ready, Cycle), n', k - 1);
      var rest := [Cycle] + later;
      assert rest[1..] == later;
      DrainsJoined(c, m, room, rest);
      tail := room + rest;
    }
  }

  lemma CycleIsNext(c: Config, m: Moment)
    requires Consistent(c, m.s, m.log)
    ensures Next(c, m, Cycle) == AfterCycle(c, m)
  {
    hide Consistent;
  }

  /** So every run can be continued without arrivals to an end at which every request is answered. */
  lemma EveryRunCanBeFinished(c: Config, events: seq<Event>) returns (tail: seq<Event>)
    requires c.Valid() && IsAllowedRun(c, events) && c.WL <= c.CL
    ensures IsDrain(c, DramRuns.Run(c, events).value, tail) && IsAllowedRun(c, events + tail)
    ensures var end := DramRuns.Run(c, events + tail).value;
            end.s.reqs == map[] && forall id :: id in end.log.sizes ==> Times(end.log.answered, id) == 1
  {
    hide DramRuns.Run, Ready, Consistent, Within, CyclesLeft, Work, Reach, Times;
    var m := DramRuns.Run(c, events).value;
    EveryRunIsReady(c, events);
    tail := DrainExists(c, m, LongestWait(c), CyclesLeft(c, m, LongestWait(c)));
    EveryRequestIsAnswered(c, events, tail);
  }
}
