/** A request alone in a DRAM partition: how soon the next transfer for it is issued. */
module DramLone {
  import opened Blocks
  import opened DelayQueue
  import opened Options
  import opened DramModel
  import opened DramTiming
  import opened DramBurst
  import opened DramRuns
  import opened DramProgress
  import opened DramService
  import opened DramWork
  import opened DramDrain
  import opened DramLiveness
  import FrFcfs

  /** Bank j holds the request, and nothing else waits anywhere. */
  ghost predicate IsAlone(s: State, j: nat, id: nat)
  {
    && j < |s.banks| && s.banks[j].mrq == Some(id) && s.mrqq.cells == [] && !SomeQueued(s)
    && forall b: nat :: b < |s.banks| && b != j ==> s.banks[b].mrq == None
  }

  lemma {:induction false} NoneToServe(c: Config, s: State, i: nat)
    requires s.Shaped(c) && !SomeQueued(s) && i <= c.nbk
    ensures FirstServable(c, s, i) == None
    decreases c.nbk - i
  {
    if i < c.nbk {
      NoneToServe(c, s, i + 1);
    }
  }

  lemma AloneIsNotScheduled(c: Config, s: State, j: nat, id: nat)
    requires s.Shaped(c) && CanAdmit(c, s) && IsAlone(s, j, id)
    ensures FrfcfsScheduled(c, s) == s && FifoScheduled(c, s) == s
  {
    hide State.Shaped;
    assert Admitted(c, s) == s;
    NoneToServe(c, s, 0);
  }

  lemma AloneAfterReturn(c: Config, s: State, log: Log, j: nat, id: nat)
    requires Consistent(c, s, log) && IsAlone(s, j, id)
    ensures s.rwq.Front().Some? ==> s.rwq.Front().value in s.reqs
    ensures var after := Returned(c, s);
            && IsAlone(after, j, id) && after.banks == s.banks && id in s.reqs && id in after.reqs
            && after.reqs[id].row == s.reqs[id].row
  {
    ReturningKeepsConsistent(c, s, log);
    ConsistentIsShaped(c, s, log);
    ConsistentIsShaped(c, Returned(c, s), LogReturned(c, s, log));
    hide Consistent, Queue<nat>.Pop, Queue<nat>.Push;
    assert Returned(c, s).banks[j].mrq.value in Returned(c, s).reqs;
  }

  /** The schedulers leave it where it is. */
  lemma AloneBeforeIssue(c: Config, s: State, log: Log, j: nat, id: nat)
    requires Consistent(c, s, log) && IsAlone(s, j, id)
    ensures var after := BeforeIssue(c, s, log);
            && IsAlone(after, j, id) && after.banks == s.banks && id in s.reqs && id in after.reqs
            && after.reqs[id].row == s.reqs[id].row
  {
    hide Consistent, IsAlone, Returned, FrfcfsScheduled, FifoScheduled, State.Shaped;
    AloneAfterReturn(c, s, log, j, id);
    ReturningKeepsConsistent(c, s, log);
    var returned, log' := Returned(c, s), LogReturned(c, s, log);
    FifoKeepsConsistent(c, returned, log');
    FrfcfsKeepsConsistent(c, returned, log');
    ConsistentIsShaped(c, returned, log');
    AloneIsNotScheduled(c, returned, j, id);
  }

  /** What the command does: a transfer, one row command fewer to go, or nothing. */
  lemma AloneAfterIssue(c: Config, s: State, j: nat, id: nat)
    requires s.Shaped(c) && IsAlone(s, j, id) && id in s.reqs
    ensures var after, cmd := AfterIssue(c, s), Choice(c, s, 0);
            && (cmd == Nop || cmd.bank == j)
            && (!IsColumn(cmd) ==>
                  && IsAlone(after, j, id) && after.reqs == s.reqs
                  && if cmd == Nop then RowCommands(after.banks[j], s.reqs[id]) == RowCommands(s.banks[j], s.reqs[id])
                     else RowCommands(after.banks[j], s.reqs[id]) < RowCommands(s.banks[j], s.reqs[id]))
  {
    ChoiceServes(c, s);
    ChoiceIsReady(c, s, 0);
    hide Choice, CommandFor, State.Shaped, Queue<nat>.Push, Queue<nat>.SetMinLength;
  }

  ghost function LoneCycles(c: Config, s: State, j: nat, id: nat, n: nat): nat
    requires j < |s.banks| && id in s.reqs
  {
    Base(RowCommands(s.banks[j], s.reqs[id]), LongestWait(c) + 1) + n + 1
  }

  lemma FewerRowCommands(c: Config, less: nat, more: nat)
    requires less < more
    ensures Base(less, LongestWait(c) + 1) + LongestWait(c) < Base(more, LongestWait(c) + 1)
  {
    FewerRounds(c, less, more);
  }

  /** The command of a cycle transfers data for the request, or brings that nearer. */
  lemma LoneCommand(c: Config, s: State, n: nat, j: nat, id: nat) returns (n': nat)
    requires s.Shaped(c) && Within(s, n) && n <= LongestWait(c) && !PipelineFull(c, s)
    requires IsAlone(s, j, id) && id in s.reqs
    ensures var after, cmd := AfterIssue(c, s), Choice(c, s, 0);
            && Within(after, n') && n' <= LongestWait(c) && j < |s.banks| && j < |after.banks|
            && if IsColumn(cmd) then cmd.bank == j && s.banks[j].mrq == Some(id)
               else && IsAlone(after, j, id) && after.reqs == s.reqs
                    && LoneCycles(c, after, j, id, n') < LoneCycles(c, s, j, id, n)
  {
    hide AfterIssue, Within, PipelineFull, IsAlone, Base, RowCommands, Choice, State.Shaped;
    WithinAfterIssue(c, s, n);
    AloneAfterIssue(c, s, j, id);
    AloneHolds(s, j, id);
    n' := LongestWait(c);
    var after, cmd := AfterIssue(c, s), Choice(c, s, 0);
    if cmd == Nop {
      if n == 0 {
        HeldIsIssued(c, s);
        assert false;
      } else {
        n' := n - 1;
        AloneHolds(after, j, id);
      }
    } else if !IsColumn(cmd) {
      AloneHolds(after, j, id);
      FewerRowCommands(c, RowCommands(after.banks[j], s.reqs[id]), RowCommands(s.banks[j], s.reqs[id]));
    } else {
      SameBanksLength(c, s);
    }
  }

  lemma SameBanksLength(c: Config, s: State)
    requires s.Shaped(c)
    ensures |AfterIssue(c, s).banks| == |s.banks|
  {
    ChoiceIsReady(c, s, 0);
  }

  /** A cycle with room in the return queue transfers data for the request, or brings that nearer. */
  lemma LoneCycle(c: Config, m: Moment, n: nat, j: nat, id: nat) returns (n': nat)
    requires Ready(c, m) && Within(m.s, n) && n <= LongestWait(c) && !QueueFull(m.s.returnq, c.ReturnLimit())
    requires IsAlone(m.s, j, id)
    ensures Consistent(c, m.s, m.log) && id in m.s.reqs
    ensures var after := AfterCycle(c, m);
            && Ready(c, after) && Within(after.s, n') && n' <= LongestWait(c)
            && (Times(after.log.pushed, id) > Times(m.log.pushed, id) ||
                (IsAlone(after.s, j, id) && id in after.s.reqs && after.log.pushed == m.log.pushed
                 && LoneCycles(c, after.s, j, id, n') < LoneCycles(c, m.s, j, id, n)))
  {
    hide Ready, PipelineOk, QueuesUsed, BeforeIssue, AfterIssue, Within, PipelineFull, IsAlone, Base, Choice,
         Consistent, State.Shaped;
    CycleKeepsReady(c, m);
    ReadyParts(c, m);
    var s, log := BeforeIssue(c, m.s, m.log), LogReturned(c, m.s, m.log);
    ConsistentIsShaped(c, s, log);
    AloneBeforeIssue(c, m.s, m.log, j, id);
    BeforeIssueKeepsTiming(c, m.s, m.log);
    SameTimingWithin(m.s, s, n);
    BeforeIssueKeepsPipeline(c, m.s, m.log);
    n' := LoneCommand(c, s, n, j, id);
    if IsColumn(Choice(c, s, 0)) {
      TimesOneMore(log.pushed, id, id);
    }
  }

  lemma ReadyParts(c: Config, m: Moment)
    requires Ready(c, m)
    ensures Consistent(c, m.s, m.log) && PipelineOk(c, m.s) && c.WL <= c.CL
  {
  }

  lemma AloneHolds(s: State, j: nat, id: nat)
    requires IsAlone(s, j, id)
    ensures SomeHolds(s) && j < |s.banks| && s.banks[j].mrq == Some(id)
  {
  }

  // ----- runs

  lemma NextOnlyPushes(c: Config, m: Moment, e: Event, id: nat)
    requires Consistent(c, m.s, m.log) && Allowed(c, m, e)
    ensures Times(Next(c, m, e).log.pushed, id) >= Times(m.log.pushed, id)
  {
    hide Consistent, BeforeIssue, AfterIssue, Choice;
    if e.Cycle? {
      var s := BeforeIssue(c, m.s, m.log);
      ConsistentIsShaped(c, s, LogReturned(c, m.s, m.log));
      ChoiceIsReady(c, s, 0);
      if IsColumn(Choice(c, s, 0)) {
        TimesOneMore(m.log.pushed, s.banks[Choice(c, s, 0).bank].mrq.value, id);
      }
    }
  }

  lemma {:induction false} DrainOnlyPushes(c: Config, m: Moment, tail: seq<Event>, id: nat)
    requires Consistent(c, m.s, m.log) && IsDrain(c, m, tail)
    ensures Times(AfterAll(c, m, tail).log.pushed, id) >= Times(m.log.pushed, id)
    decreases |tail|
  {
    hide Consistent, Next, Times;
    if tail != [] {
      NextOnlyPushes(c, m, tail[0], id);
      DrainOnlyPushes(c, Next(c, m, tail[0]), tail[1..], id);
    }
  }

  lemma TakingLeavesAlone(c: Config, m: Moment, j: nat, id: nat)
    requires Consistent(c, m.s, m.log) && IsAlone(m.s, j, id)
    ensures var after := Next(c, m, TakeAnswer);
            && IsAlone(after.s, j, id) && id in m.s.reqs && after.s.reqs == m.s.reqs && after.s.banks == m.s.banks
            && after.log == m.log
  {
    ConsistentIsShaped(c, m.s, m.log);
    assert m.s.banks[j].mrq.value in m.s.reqs;
    hide Consistent, Queue<nat>.Pop;
  }

  /** Data for the request have been transferred, or it is still alone and nearer to that. */
  ghost predicate IsNearer(c: Config, m: Moment, n: nat, next: Moment, n': nat, j: nat, id: nat, cycles: nat)
  {
    && Ready(c, next) && Within(next.s, n') && n' <= LongestWait(c)
    && (Times(next.log.pushed, id) > Times(m.log.pushed, id) || IsStillAlone(c, m, n, next, n', j, id, cycles))
  }

  ghost predicate IsStillAlone(c: Config, m: Moment, n: nat, next: Moment, n': nat, j: nat, id: nat, cycles: nat)
  {
    && IsAlone(next.s, j, id) && id in next.s.reqs && id in m.s.reqs && j < |m.s.banks|
    && next.log.pushed == m.log.pushed
    && LoneCycles(c, next.s, j, id, n') + cycles <= LoneCycles(c, m.s, j, id, n)
  }

  lemma LoneEvent(c: Config, m: Moment, n: nat, j: nat, id: nat, e: Event) returns (n': nat)
    requires Ready(c, m) && Within(m.s, n) && n <= LongestWait(c) && IsAlone(m.s, j, id) && !e.Accept?
    requires e.Cycle? ==> !QueueFull(m.s.returnq, c.ReturnLimit())
    ensures Consistent(c, m.s, m.log) && id in m.s.reqs
    ensures IsNearer(c, m, n, Next(c, m, e), n', j, id, if e.Cycle? then 1 else 0)
  {
    hide Ready, Within, IsAlone, Consistent, AfterCycle, Times;
    ReadyParts(c, m);
    AloneHolds(m.s, j, id);
    if e.Cycle? {
      n' := LoneCycle(c, m, n, j, id);
      CycleIsNext(c, m);
    } else {
      n' := n;
      TakingIsIdle(c, m, n);
      TakingLeavesAlone(c, m, j, id);
    }
  }

  lemma {:induction false} LoneIsServed(c: Config, m: Moment, n: nat, j: nat, id: nat, tail: seq<Event>)
    requires Ready(c, m) && Within(m.s, n) && n <= LongestWait(c) && IsAlone(m.s, j, id)
    requires j < |m.s.banks| && id in m.s.reqs
    requires IsDrain(c, m, tail) && Cycles(tail) >= LoneCycles(c, m.s, j, id, n)
    ensures Times(AfterAll(c, m, tail).log.pushed, id) > Times(m.log.pushed, id)
    decreases |tail|
  {
    ReadyIsConsistent(c, m);
    SomeCyclesLeft(c, m.s, j, id, n);
    hide Ready, Within, IsAlone, Consistent, Times, Next, LoneCycles;
    var next := Next(c, m, tail[0]);
    var n' := LoneEvent(c, m, n, j, id, tail[0]);
    if Times(next.log.pushed, id) > Times(m.log.pushed, id) {
      DrainOnlyPushes(c, next, tail[1..], id);
    } else {
      AloneHolds(next.s, j, id);
      LoneIsServed(c, next, n', j, id, tail[1..]);
    }
  }

  lemma SomeCyclesLeft(c: Config, s: State, j: nat, id: nat, n: nat)
    requires j < |s.banks| && id in s.reqs
    ensures LoneCycles(c, s, j, id, n) > 0
  {
  }

  lemma ThreeRounds(c: Config, s: State, j: nat, id: nat)
    requires j < |s.banks| && id in s.reqs
    ensures LoneCycles(c, s, j, id, LongestWait(c)) <= 3 * (LongestWait(c) + 1)
  {
    var k := RowCommands(s.banks[j], s.reqs[id]);
    BaseGrows(k, 2, LongestWait(c) + 1);
    NextBlock(LongestWait(c) + 1, 0);
    NextBlock(LongestWait(c) + 1, 1);
  }

  /** If one bank holds a request and nothing else waits, data for it are transferred within three
      times the longest wait: a precharge, an activation and the transfer, each after its wait. */
  lemma LoneRequestIsServed(c: Config, events: seq<Event>, j: nat, id: nat, tail: seq<Event>)
    requires c.Valid() && IsAllowedRun(c, events) && c.WL <= c.CL
    requires IsAlone(DramRuns.Run(c, events).value.s, j, id)
    requires IsDrain(c, DramRuns.Run(c, events).value, tail) && Cycles(tail) >= 3 * (LongestWait(c) + 1)
    ensures IsAllowedRun(c, events + tail)
    ensures Times(DramRuns.Run(c, events + tail).value.log.pushed, id)
          > Times(DramRuns.Run(c, events).value.log.pushed, id)
  {
    hide DramRuns.Run, Ready, Consistent, Within, Next, Times, IsDrain, AfterAll, IsAlone, LoneCycles;
    var m := DramRuns.Run(c, events).value;
    RunContinued(c, events, tail);
    EveryRunIsReady(c, events);
    TakingLeavesAlone(c, m, j, id);
    AloneHolds(m.s, j, id);
    ThreeRounds(c, m.s, j, id);
    LoneIsServed(c, m, LongestWait(c), j, id, tail);
  }
}
