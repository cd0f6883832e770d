/** The answers a DRAM partition hands out: over every run they are the finished requests that are
    no write-backs, in the order in which they finished. */
module DramAnswers {
  import opened DelayQueue
  import opened DramModel
  import opened DramBurst
  import opened DramTiming
  import opened DramRuns

  ghost function TakenBy(m: Moment, e: Event): seq<nat>
  {
    if e.TakeAnswer? && m.s.returnq.Front().Some? then [m.s.returnq.Front().value] else []
  }

  ghost function WriteBackOf(e: Event): set<nat>
  {
    if e.Accept? && e.isWriteback then {e.id} else {}
  }

  /** The write-backs among the requests accepted. */
  ghost function WriteBacks(events: seq<Event>): set<nat>
  {
    if events == [] then {}
    else
      WriteBacks(events[..|events| - 1]) + WriteBackOf(events[|events| - 1])
  }

  /** What has been taken from the return queue, oldest first. */
  ghost function Taken(c: Config, events: seq<Event>): seq<nat>
    requires c.Valid() && IsAllowedRun(c, events)
  {
    if events == [] then []
    else
      Taken(c, events[..|events| - 1]) + TakenBy(DramRuns.Run(c, events[..|events| - 1]).value, events[|events| - 1])
  }

  ghost function Excluding(ids: seq<nat>, without: set<nat>): seq<nat>
  {
    if ids == [] then []
    else
      var id := ids[|ids| - 1];
      Excluding(ids[..|ids| - 1], without) + if id in without then [] else [id]
  }

  lemma {:induction false} ExcludingOneMore(ids: seq<nat>, without: set<nat>, id: nat)
    requires id !in ids
    ensures Excluding(ids, without + {id}) == Excluding(ids, without)
  {
    if ids != [] {
      ExcludingOneMore(ids[..|ids| - 1], without, id);
    }
  }

  lemma ExcludingLast(ids: seq<nat>, without: set<nat>, id: nat)
    ensures Excluding(ids + [id], without) == Excluding(ids, without) + if id in without then [] else [id]
  {
    assert (ids + [id])[..|ids|] == ids;
  }

  ghost predicate AnswersOk(s: State, log: Log, taken: seq<nat>, writeBacks: set<nat>)
  {
    && s.returnq.Valid()
    && (forall id :: id in s.reqs ==> (s.reqs[id].isWriteback <==> id in writeBacks))
    && Excluding(log.answered, writeBacks) == taken + s.returnq.Data()
  }

  /** Nothing is answered and no request changes its kind. */
  ghost predicate SameAnswers(s: State, after: State)
  {
    && after.returnq == s.returnq && after.reqs.Keys == s.reqs.Keys
    && forall id :: id in s.reqs ==> after.reqs[id].isWriteback == s.reqs[id].isWriteback
  }

  // ----- the steps

  lemma ReturningAnswers(c: Config, s: State, log: Log, taken: seq<nat>, writeBacks: set<nat>)
    requires Consistent(c, s, log) && AnswersOk(s, log, taken, writeBacks)
    ensures s.rwq.Front().Some? ==> s.rwq.Front().value in s.reqs
    ensures AnswersOk(Returned(c, s), LogReturned(c, s, log), taken, writeBacks)
  {
    hide Queue<nat>.Push, Queue<nat>.Pop, Queue<nat>.Valid, DataOf, Consistent, Excluding;
    match s.rwq.Front()
    case None =>
    case Some(id) =>
      FrontIsInFlight(c, s, log, id);
      PushedLast(s.returnq, id);
      ExcludingLast(log.answered, writeBacks, id);
      assert taken + (s.returnq.Data() + [id]) == taken + s.returnq.Data() + [id];
  }

  lemma SchedulingAnswersNone(c: Config, s: State, log: Log)
    requires Consistent(c, s, log)
    ensures s.rwq.Front().Some? ==> s.rwq.Front().value in s.reqs
    ensures SameAnswers(Returned(c, s), BeforeIssue(c, s, log))
  {
    hide Consistent, Admitted, Returned, FirstServable, Queue<nat>.Pop, FrFcfs.Scheduled, FrFcfs.Served;
    ReturningKeepsConsistent(c, s, log);
    var returned, log' := Returned(c, s), LogReturned(c, s, log);
    FifoKeepsConsistent(c, returned, log');
    FrfcfsKeepsConsistent(c, returned, log');
    ConsistentIsShaped(c, returned, log');
    if c.frfcfs {
      AdmittingKeepsShape(c, returned);
    }
  }

  lemma IssuingAnswersNone(c: Config, s: State)
    requires s.Shaped(c)
    ensures SameAnswers(s, AfterIssue(c, s))
  {
    hide Choice, Queue<nat>.Push, Queue<nat>.SetMinLength, CommandFor;
    ChoiceIsReady(c, s, 0);
  }

  lemma SameAnswersStayOk(s: State, after: State, log: Log, log': Log, taken: seq<nat>, writeBacks: set<nat>)
    requires AnswersOk(s, log, taken, writeBacks) && SameAnswers(s, after) && log'.answered == log.answered
    ensures AnswersOk(after, log', taken, writeBacks)
  {
  }

  lemma CycleAnswers(c: Config, m: Moment, taken: seq<nat>, writeBacks: set<nat>)
    requires Consistent(c, m.s, m.log) && AnswersOk(m.s, m.log, taken, writeBacks)
    ensures AnswersOk(AfterCycle(c, m).s, AfterCycle(c, m).log, taken, writeBacks)
  {
    hide Consistent, AnswersOk, SameAnswers, Returned, AfterIssue, BeforeIssue, State.Shaped;
    var s, log := BeforeIssue(c, m.s, m.log), LogReturned(c, m.s, m.log);
    ReturningAnswers(c, m.s, m.log, taken, writeBacks);
    SchedulingAnswersNone(c, m.s, m.log);
    SameAnswersStayOk(Returned(c, m.s), s, log, log, taken, writeBacks);
    ConsistentIsShaped(c, s, log);
    IssuingAnswersNone(c, s);
    ChoiceIsReady(c, s, 0);
    SameAnswersStayOk(s, AfterIssue(c, s), log, LogIssued(s, log, Choice(c, s, 0)), taken, writeBacks);
  }

  lemma NewRequestIsUnanswered(c: Config, s: State, log: Log, id: nat)
    requires Consistent(c, s, log) && id !in log.sizes
    ensures id !in s.reqs && id !in log.answered
  {
    assert IdOk(c, s, log, id);
    assert Times(log.answered, id) == 0;
  }

  lemma AcceptingAnswers(c: Config, s: State, log: Log, id: nat, r: Request, taken: seq<nat>, writeBacks: set<nat>)
    requires Consistent(c, s, log) && id !in log.sizes && AnswersOk(s, log, taken, writeBacks) && id !in writeBacks
    ensures AnswersOk(Accepted(s, id, r), log.(sizes := log.sizes[id := r.nbytes]), taken,
                      writeBacks + if r.isWriteback then {id} else {})
  {
    hide Consistent, Excluding, DataOf, Queue<nat>.Push, Queue<nat>.Valid;
    NewRequestIsUnanswered(c, s, log, id);
    ExcludingOneMore(log.answered, writeBacks, id);
    assert writeBacks + {} == writeBacks;
  }

  lemma TakingAnswers(s: State, log: Log, taken: seq<nat>, writeBacks: set<nat>)
    requires AnswersOk(s, log, taken, writeBacks)
    ensures AnswersOk(s.(returnq := s.returnq.Pop()), log,
                      taken + if s.returnq.Front().Some? then [s.returnq.Front().value] else [], writeBacks)
  {
    hide Excluding, DataOf, Queue<nat>.Pop, Queue<nat>.Valid, Queue<nat>.Front;
    PoppedFirst(s.returnq);
  }

  // ----- whole runs

  lemma {:induction false} WriteBacksAreAccepted(c: Config, events: seq<Event>)
    requires c.Valid() && IsAllowedRun(c, events)
    ensures WriteBacks(events) <= DramRuns.Run(c, events).value.log.sizes.Keys
  {
    if events != [] {
      var before := events[..|events| - 1];
      WriteBacksAreAccepted(c, before);
      SizesOnlyGrow(c, DramRuns.Run(c, before).value, events[|events| - 1]);
    }
  }

  lemma SizesOnlyGrow(c: Config, m: Moment, e: Event)
    requires Consistent(c, m.s, m.log) && Allowed(c, m, e)
    ensures Next(c, m, e).log.sizes.Keys == m.log.sizes.Keys + if e.Accept? then {e.id} else {}
  {
    hide Consistent, BeforeIssue, Choice;
  }

  lemma EventAnswers(c: Config, m: Moment, e: Event, taken: seq<nat>, writeBacks: set<nat>)
    requires Consistent(c, m.s, m.log) && Allowed(c, m, e) && AnswersOk(m.s, m.log, taken, writeBacks)
    requires writeBacks <= m.log.sizes.Keys
    ensures AnswersOk(Next(c, m, e).s, Next(c, m, e).log, taken + TakenBy(m, e), writeBacks + WriteBackOf(e))
  {
    hide Consistent, BeforeIssue, AfterCycle, AnswersOk, Accepted, Queue<nat>.Pop;
    assert taken + [] == taken && writeBacks + {} == writeBacks;
    match e
    case Cycle => CycleAnswers(c, m, taken, writeBacks);
    case Accept(id, bk, row, nbytes, isWrite, isWriteback) =>
      AcceptingAnswers(c, m.s, m.log, id, Request(bk, row, nbytes, isWrite, isWriteback, 0, 0), taken, writeBacks);
    case TakeAnswer => TakingAnswers(m.s, m.log, taken, writeBacks);
  }

  lemma {:induction false} RunAnswers(c: Config, events: seq<Event>)
    requires c.Valid() && IsAllowedRun(c, events)
    ensures var m := DramRuns.Run(c, events).value; AnswersOk(m.s, m.log, Taken(c, events), WriteBacks(events))
  {
    if events != [] {
      hide Consistent, Next, AnswersOk;
      var before, e := events[..|events| - 1], events[|events| - 1];
      RunAnswers(c, before);
      WriteBacksAreAccepted(c, before);
      EventAnswers(c, DramRuns.Run(c, before).value, e, Taken(c, before), WriteBacks(before));
    }
  }

  /** Over every run: the requests answered that are no write-backs, in the order in which their last
      bursts left, are the answers taken so far followed by those that wait in the return queue. */
  lemma AnswersComeInOrder(c: Config, events: seq<Event>)
    requires c.Valid() && IsAllowedRun(c, events)
    ensures var m := DramRuns.Run(c, events).value;
            Excluding(m.log.answered, WriteBacks(events)) == Taken(c, events) + m.s.returnq.Data()
  {
    RunAnswers(c, events);
  }
}
