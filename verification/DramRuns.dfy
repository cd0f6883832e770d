/** Whole runs of a DRAM partition: requests arrive, cycles pass, answers are taken away, in any
    order.  Every run obeys the timing rules and loses, repeats or leaks no request. */
module DramRuns {
  import opened DelayQueue
  import opened Options
  import opened DramModel
  import opened DramTiming
  import opened DramBurst
  import FrFcfs

  datatype Event =
    Accept(id: nat, bk: nat, row: nat, nbytes: nat, isWrite: bool, isWriteback: bool) | Cycle | TakeAnswer

  datatype Moment = Moment(s: State, log: Log)

  ghost function Initial(c: Config): State
  {
    State(seq(c.nbk, _ => BankState(0, 0, 0, 0, 0, 0, 0, false, 0, None)), seq(c.nbkgrp, _ => BankGroup(0, 0)),
          0, 0, 0, 0, false, 0, map[],
          Queue([], 0).SetMinLength(c.CL), Queue([], 0), seq(c.nbk, _ => FrFcfs.Bank([], None)), Queue([], 0))
  }

  // ----- one cycle

  /** Data leave, then the scheduler runs; the state in which the command is chosen. */
  ghost function BeforeIssue(c: Config, s: State, log: Log): (after: State)
    requires Consistent(c, s, log)
    ensures Consistent(c, after, LogReturned(c, s, log))
  {
    ReturningKeepsConsistent(c, s, log);
    var returned, log' := Returned(c, s), LogReturned(c, s, log);
    FifoKeepsConsistent(c, returned, log');
    FrfcfsKeepsConsistent(c, returned, log');
    if c.frfcfs then FrfcfsScheduled(c, returned) else FifoScheduled(c, returned)
  }

  ghost function AfterCycle(c: Config, m: Moment): (after: Moment)
    requires Consistent(c, m.s, m.log)
    ensures Consistent(c, after.s, after.log)
  {
    var s, log := BeforeIssue(c, m.s, m.log), LogReturned(c, m.s, m.log);
    ChoiceIsReady(c, s, 0);
    IssuingKeepsConsistent(c, s, log, Choice(c, s, 0));
    var log' := LogIssued(s, log, Choice(c, s, 0));
    TickingKeepsConsistent(c, Issued(c, s, Choice(c, s, 0)), log');
    Moment(AfterIssue(c, s), log')
  }

  lemma BeforeIssueKeepsTiming(c: Config, s: State, log: Log)
    requires Consistent(c, s, log)
    ensures SameTiming(s, BeforeIssue(c, s, log))
  {
    ReturningKeepsConsistent(c, s, log);
    var returned, log' := Returned(c, s), LogReturned(c, s, log);
    ReturningKeepsTiming(c, s);
    FifoKeepsConsistent(c, returned, log');
    FrfcfsKeepsConsistent(c, returned, log');
    if c.frfcfs {
      FrfcfsKeepsTiming(c, returned);
      SameTimingTwice(s, returned, FrfcfsScheduled(c, returned));
    } else {
      FifoKeepsTiming(c, returned);
      SameTimingTwice(s, returned, FifoScheduled(c, returned));
    }
  }

  lemma SameTimingTwice(a: State, b: State, d: State)
    requires SameTiming(a, b) && SameTiming(b, d)
    ensures SameTiming(a, d)
  {
    hide Value;
    forall x
      ensures Value(a, x) == Value(d, x)
    {
      assert Value(a, x) == Value(b, x) && Value(b, x) == Value(d, x);
    }
  }

  // ----- runs

  /** Arrivals name a bank of the partition and are new objects. */
  ghost predicate Allowed(c: Config, m: Moment, e: Event)
  {
    e.Accept? ==> e.bk < c.nbk && e.id !in m.log.sizes
  }

  ghost function Next(c: Config, m: Moment, e: Event): (after: Moment)
    requires Consistent(c, m.s, m.log) && Allowed(c, m, e)
    ensures Consistent(c, after.s, after.log)
  {
    match e
    case Cycle => AfterCycle(c, m)
    case Accept(id, bk, row, nbytes, isWrite, isWriteback) =>
      var r := Request(bk, row, nbytes, isWrite, isWriteback, 0, 0);
      AcceptingKeepsConsistent(c, m.s, m.log, id, r);
      Moment(Accepted(m.s, id, r), m.log.(sizes := m.log.sizes[id := nbytes]))
    case TakeAnswer =>
      TakingKeepsConsistent(c, m.s, m.log);
      m.(s := m.s.(returnq := m.s.returnq.Pop()))
  }

  lemma TakingKeepsConsistent(c: Config, s: State, log: Log)
    requires Consistent(c, s, log)
    ensures Consistent(c, s.(returnq := s.returnq.Pop()), log)
  {
    hide DataOf, AtBanks, InSched, Fate, Queue<nat>.Pop;
    var after := s.(returnq := s.returnq.Pop());
    forall k: nat
      ensures IdOk(c, after, log, k)
    {
      assert IdOk(c, s, log, k);
      assert RecordOf(after, log, k) == RecordOf(s, log, k);
    }
  }

  lemma {:induction false} InitialQueueIsEmpty(cells: seq<Option<nat>>, n: nat)
    requires DataOf(cells) == []
    ensures DataOf(Padded(cells, n)) == [] && n <= |Padded(cells, n)|
  {
    PaddingHasNoData(cells, n);
  }

  lemma {:induction false} NobodyWaits(banks: seq<BankState>, sched: seq<FrFcfs.Bank>, id: nat)
    requires |banks| == |sched|
    requires forall i :: 0 <= i < |banks| ==> banks[i].mrq == None && sched[i].queue == []
    ensures AtBanks(banks, id) == 0 && InSched(sched, id) == 0
  {
    if banks != [] {
      NobodyWaits(banks[..|banks| - 1], sched[..|sched| - 1], id);
    }
  }

  lemma InitialIsConsistent(c: Config)
    requires c.Valid()
    ensures Consistent(c, Initial(c), Log([], [], [], map[]))
  {
    InitialQueueIsEmpty([], c.CL);
    forall k: nat
      ensures IdOk(c, Initial(c), Log([], [], [], map[]), k)
    {
      NobodyWaits(Initial(c).banks, Initial(c).sched, k);
    }
  }

  /** The state and the log after a run of events; None when one of them is not allowed. */
  ghost function Run(c: Config, events: seq<Event>): (r: Option<Moment>)
    requires c.Valid()
    ensures r.Some? ==> Consistent(c, r.value.s, r.value.log)
  {
    if events == [] then
      InitialIsConsistent(c);
      Some(Moment(Initial(c), Log([], [], [], map[])))
    else
      match Run(c, events[..|events| - 1])
      case None => None
      case Some(m) => if Allowed(c, m, events[|events| - 1]) then Some(Next(c, m, events[|events| - 1])) else None
  }

  ghost predicate IsAllowedRun(c: Config, events: seq<Event>)
    requires c.Valid()
  {
    Run(c, events).Some?
  }

  /** The states in which the commands of a run are chosen. */
  ghost function IssueStates(c: Config, events: seq<Event>): seq<State>
    requires c.Valid() && IsAllowedRun(c, events)
  {
    if events == [] then []
    else
      var before := Run(c, events[..|events| - 1]).value;
      IssueStates(c, events[..|events| - 1]) + if events[|events| - 1].Cycle?
        then [BeforeIssue(c, before.s, before.log)] else []
  }

  /** At every moment of every run each request accepted so far is live and unanswered, or has been
      answered once after all its bursts and is nowhere any more. */
  lemma EveryRunConserves(c: Config, events: seq<Event>, id: nat)
    requires c.Valid() && IsAllowedRun(c, events) && id in Run(c, events).value.log.sizes
    ensures var m := Run(c, events).value;
            if id in m.s.reqs then Times(m.log.answered, id) == 0
            else && Times(m.log.answered, id) == 1
                 && Times(m.log.pushed, id) == Times(m.log.popped, id) == AtomsFor(m.log.sizes[id], c.atomSize)
                 && id !in m.s.rwq.Data() && Waiting(m.s, id) == 0
  {
    var m := Run(c, events).value;
    EachRequestOnce(c, m.s, m.log, id);
  }

  lemma OneEventMore(c: Config, m: Moment, e: Event)
    requires Consistent(c, m.s, m.log) && Allowed(c, m, e)
    ensures if e.Cycle?
            then SameTiming(m.s, BeforeIssue(c, m.s, m.log))
                 && Next(c, m, e).s == AfterIssue(c, BeforeIssue(c, m.s, m.log))
            else SameTiming(m.s, Next(c, m, e).s)
  {
    if e.Cycle? {
      BeforeIssueKeepsTiming(c, m.s, m.log);
    } else {
      MovingRequestsKeepsTiming(m.s, Next(c, m, e).s);
    }
  }

  /** The timing rules hold of every run: its commands form a run in the sense of DramTiming. */
  lemma {:induction false} EveryRunIsTimed(c: Config, events: seq<Event>)
    requires c.Valid() && IsAllowedRun(c, events)
    ensures IsRun(c, IssueStates(c, events) + [Run(c, events).value.s])
  {
    hide Next, BeforeIssue, AfterIssue, SameTiming, IsStep, Consistent, Value;
    if events == [] {
      InitialIsConsistent(c);
      NothingIssued(c);
      assert IssueStates(c, events) + [Initial(c)] == [Initial(c)];
    } else {
      var before, e := events[..|events| - 1], events[|events| - 1];
      var m := Run(c, before).value;
      EveryRunIsTimed(c, before);
      AddingAnEvent(c, IssueStates(c, before), m, e);
      var chosen := if e.Cycle? then [BeforeIssue(c, m.s, m.log)] else [];
      assert IssueStates(c, events) == IssueStates(c, before) + chosen;
    }
  }

  lemma NothingIssued(c: Config)
    requires c.Valid() && Initial(c).Shaped(c)
    ensures IsRun(c, [Initial(c)])
  {
    forall x
      ensures Value(Initial(c), x) == 0
    {
    }
  }

  lemma AddingAnEvent(c: Config, states: seq<State>, m: Moment, e: Event)
    requires Consistent(c, m.s, m.log) && Allowed(c, m, e) && IsRun(c, states + [m.s])
    ensures IsRun(c, (states + if e.Cycle? then [BeforeIssue(c, m.s, m.log)] else []) + [Next(c, m, e).s])
  {
    hide Next, BeforeIssue, AfterIssue, SameTiming, IsStep, IsRun, IdOk, QueuesOk;
    OneEventMore(c, m, e);
    var now := Next(c, m, e).s;
    if e.Cycle? {
      var chosen := BeforeIssue(c, m.s, m.log);
      LastReplaced(c, states, m.s, chosen);
      OneStateMore(c, states + [chosen], now);
    } else {
      LastReplaced(c, states, m.s, now);
      assert states + [] == states;
    }
  }

  lemma LastReplaced(c: Config, states: seq<State>, a: State, b: State)
    requires IsRun(c, states + [a]) && SameTiming(a, b) && b.Shaped(c)
    ensures IsRun(c, states + [b])
  {
    hide AfterIssue, State.Shaped, Value;
    var was, now := states + [a], states + [b];
    forall k | 0 <= k < |now| - 1
      ensures IsStep(c, now, k)
    {
      assert IsStep(c, was, k) && now[k] == was[k];
      if k == |states| - 1 {
        SameTimingTwice(AfterIssue(c, was[k]), a, b);
      }
    }
    forall k | 0 <= k < |now|
      ensures now[k].Shaped(c)
    {
      if k < |states| {
        assert now[k] == was[k];
      }
    }
    if states == [] {
      RunsStartAtZero(c, was, a);
      ShapedSizes(c, a);
      ShapedSizes(c, b);
      forall x
        ensures Value(b, x) == 0
      {
        assert Value(a, x) == Value(b, x);
      }
    } else {
      assert now[0] == was[0];
    }
  }

  lemma RunsStartAtZero(c: Config, states: seq<State>, a: State)
    requires IsRun(c, states) && states[0] == a
    ensures (forall x :: Value(a, x) == 0) && forall b :: 0 <= b < c.nbk ==> !a.banks[b].active
  {
  }

  lemma ShapedSizes(c: Config, s: State)
    requires s.Shaped(c)
    ensures |s.banks| == c.nbk
  {
  }

  lemma OneStateMore(c: Config, states: seq<State>, now: State)
    requires IsRun(c, states) && now.Shaped(c) && now == AfterIssue(c, states[|states| - 1])
    ensures IsRun(c, states + [now])
  {
    hide AfterIssue, State.Shaped, Value;
    var all := states + [now];
    forall k | 0 <= k < |all| - 1
      ensures IsStep(c, all, k)
    {
      if k < |states| - 1 {
        assert IsStep(c, states, k);
      } else {
        assert all[k] == states[k] && all[k + 1] == now;
      }
    }
    assert all[0] == states[0];
  }
}
