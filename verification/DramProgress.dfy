/** When the data pipeline of a DRAM partition stops reads and writes, over every run. */
module DramProgress {
  import opened DelayQueue
  import opened Options
  import opened DramModel
  import opened DramTiming
  import opened DramBurst
  import opened DramRuns

  // ----- the length of the pipeline

  lemma {:induction false} PaddedLength<T>(cells: seq<Option<T>>, n: nat)
    ensures |Padded(cells, n)| == if n <= |cells| then |cells| else n
    decreases n - |cells|
  {
    if |cells| < n {
      PaddedLength(cells + [None], n);
    }
  }

  lemma LengthSet<T>(q: Queue<T>, n: nat, most: nat)
    requires q.Valid() && |q.cells| <= most && n <= most
    ensures |q.SetMinLength(n).cells| <= most
  {
    if n >= q.minLen {
      PaddedLength(q.cells, n);
    } else {
      TrimmingLosesNoData(q.cells, n);
    }
  }

  /** The least length goes with the direction of the last transfer; unless writes take longer than
      reads, the pipeline keeps to its limit. */
  ghost predicate PipelineOk(c: Config, s: State)
  {
    && s.rwq.minLen == (if s.writeMode then c.WL else c.CL) && s.rwq.Valid()
    && (c.WL <= c.CL ==> |s.rwq.cells| <= c.CL + 1)
  }

  predicate PipelineFull(c: Config, s: State)
  {
    QueueFull(s.rwq, c.CL + 1)
  }

  lemma PoppingMakesRoom(c: Config, s: State, popped: State)
    requires PipelineOk(c, s) && popped.rwq == s.rwq.Pop() && popped.writeMode == s.writeMode
    ensures PipelineOk(c, popped) && (c.WL <= c.CL ==> !PipelineFull(c, popped))
  {
    PoppedFirst(s.rwq);
  }

  lemma SchedulingKeepsPipeline(c: Config, s: State, log: Log)
    requires Consistent(c, s, log)
    ensures s.rwq.Front().Some? ==> s.rwq.Front().value in s.reqs
    ensures var after := BeforeIssue(c, s, log);
            after.rwq == Returned(c, s).rwq && after.writeMode == s.writeMode
  {
    hide Consistent, Admitted, FirstServable;
    ReturningKeepsConsistent(c, s, log);
    var returned, log' := Returned(c, s), LogReturned(c, s, log);
    FifoKeepsConsistent(c, returned, log');
    FrfcfsKeepsConsistent(c, returned, log');
    ConsistentIsShaped(c, returned, log');
    AdmittingKeepsShape(c, returned);
  }

  lemma BeforeIssueKeepsPipeline(c: Config, s: State, log: Log)
    requires Consistent(c, s, log) && PipelineOk(c, s)
    ensures var after := BeforeIssue(c, s, log);
            && PipelineOk(c, after) && after.writeMode == s.writeMode
            && (c.WL <= c.CL && !QueueFull(s.returnq, c.ReturnLimit()) ==> !PipelineFull(c, after))
  {
    hide Consistent, BeforeIssue, Queue<nat>.Pop, Queue<nat>.Front, Queue<nat>.Valid;
    SchedulingKeepsPipeline(c, s, log);
    if !QueueFull(s.returnq, c.ReturnLimit()) {
      PoppingMakesRoom(c, s, BeforeIssue(c, s, log));
    }
  }

  lemma ChosenFitsPipeline(c: Config, s: State)
    requires s.Shaped(c)
    ensures IsColumn(Choice(c, s, 0)) ==> !PipelineFull(c, s)
  {
    ChoiceIsReady(c, s, 0);
  }

  lemma SwitchedAndPushed(c: Config, q: Queue<nat>, n: nat, switching: bool, id: nat)
    requires q.Valid() && (!switching ==> q.minLen == n) && (n <= c.CL ==> |q.cells| <= c.CL)
    ensures var after := (if switching then q.SetMinLength(n) else q).Push(Some(id));
            after.Valid() && after.minLen == n && (n <= c.CL ==> |after.cells| <= c.CL + 1)
  {
    var queue := if switching then q.SetMinLength(n) else q;
    if switching {
      LengthChanged(q, n);
      if n <= c.CL {
        LengthSet(q, n, c.CL);
      }
    }
    PushedLast(queue, id);
  }

  lemma IssuingKeepsPipeline(c: Config, s: State)
    requires s.Shaped(c) && PipelineOk(c, s)
    ensures PipelineOk(c, AfterIssue(c, s))
    ensures AfterIssue(c, s).writeMode == match Choice(c, s, 0)
                                          case Read(_, _) => false
                                          case Write(_, _) => true
                                          case _ => s.writeMode
  {
    ChoiceIsReady(c, s, 0);
    ChosenFitsPipeline(c, s);
    hide Choice, CommandFor, State.Shaped, Queue<nat>.Push, Queue<nat>.SetMinLength, Queue<nat>.Valid;
    match Choice(c, s, 0)
    case Read(j, _) => SwitchedAndPushed(c, s.rwq, c.CL, s.writeMode, s.banks[j].mrq.value);
    case Write(j, _) => SwitchedAndPushed(c, s.rwq, c.WL, !s.writeMode, s.banks[j].mrq.value);
    case _ =>
  }

  // ----- every run

  lemma {:induction false} EveryRunKeepsPipeline(c: Config, events: seq<Event>)
    requires c.Valid() && IsAllowedRun(c, events)
    ensures PipelineOk(c, DramRuns.Run(c, events).value.s)
  {
    hide Consistent, Queue<nat>.Valid, AfterIssue, BeforeIssue;
    if events == [] {
      PaddedLength<nat>([], c.CL);
      EmptyPipelineIsOk(c);
    } else {
      var m, e := DramRuns.Run(c, events[..|events| - 1]).value, events[|events| - 1];
      EveryRunKeepsPipeline(c, events[..|events| - 1]);
      if e.Cycle? {
        BeforeIssueKeepsPipeline(c, m.s, m.log);
        ConsistentIsShaped(c, BeforeIssue(c, m.s, m.log), LogReturned(c, m.s, m.log));
        IssuingKeepsPipeline(c, BeforeIssue(c, m.s, m.log));
      }
    }
  }

  lemma EmptyPipelineIsOk(c: Config)
    ensures PipelineOk(c, Initial(c))
  {
    PaddedLength<nat>([], c.CL);
  }

  /** Unless writes take longer than reads the pipeline holds no command back: while the return queue
      has room each bank could issue just what it could with an empty pipeline, at any time in any run. */
  lemma PipelineNeverWaits(c: Config, events: seq<Event>, j: nat)
    requires c.Valid() && IsAllowedRun(c, events) && c.WL <= c.CL && j < c.nbk
    requires !QueueFull(DramRuns.Run(c, events).value.s.returnq, c.ReturnLimit())
    ensures var m := DramRuns.Run(c, events).value;
            var s := BeforeIssue(c, m.s, m.log);
            var alone := s.(rwq := Queue([], 0));
            && s.Shaped(c) && alone.Shaped(c)
            && CommandFor(c, s, j) == CommandFor(c, alone, j) && Choice(c, s, 0) == Choice(c, alone, 0)
  {
    var m := DramRuns.Run(c, events).value;
    EveryRunKeepsPipeline(c, events);
    BeforeIssueKeepsPipeline(c, m.s, m.log);
    var s := BeforeIssue(c, m.s, m.log);
    ConsistentIsShaped(c, s, LogReturned(c, m.s, m.log));
    hide Consistent, BeforeIssue, DramRuns.Run, IsAllowedRun, PipelineOk, CommandFor, Choice;
    WithEmptyPipeline(c, s);
  }

  lemma WithEmptyPipeline(c: Config, s: State)
    requires s.Shaped(c) && !PipelineFull(c, s)
    ensures var alone := s.(rwq := Queue([], 0));
            && alone.Shaped(c) && Choice(c, s, 0) == Choice(c, alone, 0)
            && forall j: nat :: j < c.nbk ==> CommandFor(c, s, j) == CommandFor(c, alone, j)
  {
    var alone := s.(rwq := Queue([], 0));
    forall j: nat | j < c.nbk
      ensures CommandFor(c, s, j) == CommandFor(c, alone, j)
    {
      SameCommand(c, s, alone, j);
    }
    SameChoice(c, s, alone, 0);
  }

  lemma SameCommand(c: Config, s: State, alone: State, j: nat)
    requires s.Shaped(c) && alone.Shaped(c) && alone == s.(rwq := alone.rwq) && j < c.nbk
    requires !PipelineFull(c, s) && !PipelineFull(c, alone)
    ensures CommandFor(c, s, j) == CommandFor(c, alone, j)
  {
  }

  lemma {:induction false} SameChoice(c: Config, s: State, t: State, i: nat)
    requires s.Shaped(c) && t.Shaped(c) && s.prio == t.prio && i <= c.nbk
    requires forall b: nat :: b < c.nbk ==> CommandFor(c, s, b) == CommandFor(c, t, b)
    ensures Choice(c, s, i) == Choice(c, t, i)
    decreases c.nbk - i
  {
    hide CommandFor, State.Shaped;
    if i < c.nbk {
      SameChoice(c, s, t, i + 1);
    }
  }

  ghost predicate WroteAt(c: Config, states: seq<State>, k: nat)
  {
    k < |states| && states[k].Shaped(c) && Choice(c, states[k], 0).Write?
  }

  ghost predicate ColumnAt(c: Config, states: seq<State>, k: nat)
  {
    k < |states| && states[k].Shaped(c) && IsColumn(Choice(c, states[k], 0))
  }

  /** Once a write has been issued the partition writes, and no column command follows. */
  ghost predicate JamsAfterWrite(c: Config, states: seq<State>, writing: bool)
  {
    && (forall k: nat :: WroteAt(c, states, k) ==> writing)
    && forall k: nat, m: nat :: k < m && WroteAt(c, states, k) ==> !ColumnAt(c, states, m)
  }

  lemma OneCommandMore(c: Config, states: seq<State>, s: State)
    requires JamsAfterWrite(c, states, s.writeMode) && s.Shaped(c) && PipelineOk(c, s) && c.WL > c.CL
    ensures JamsAfterWrite(c, states + [s], AfterIssue(c, s).writeMode)
  {
    IssuingKeepsPipeline(c, s);
    ChosenFitsPipeline(c, s);
    assert s.writeMode ==> !IsColumn(Choice(c, s, 0));
    hide AfterIssue, PipelineOk, Choice, State.Shaped;
    var all, n := states + [s], |states|;
    assert all[n] == s;
    forall k: nat | WroteAt(c, all, k)
      ensures k == n || WroteAt(c, states, k)
    {
      assert k < n ==> all[k] == states[k];
    }
    forall m: nat | ColumnAt(c, all, m)
      ensures m == n || ColumnAt(c, states, m)
    {
      assert m < n ==> all[m] == states[m];
    }
  }

  lemma OneEventMoreJams(c: Config, states: seq<State>, m: Moment, e: Event)
    requires Consistent(c, m.s, m.log) && Allowed(c, m, e) && PipelineOk(c, m.s) && c.WL > c.CL
    requires JamsAfterWrite(c, states, m.s.writeMode)
    ensures JamsAfterWrite(c, states + if e.Cycle? then [BeforeIssue(c, m.s, m.log)] else [],
                           Next(c, m, e).s.writeMode)
  {
    hide JamsAfterWrite, Consistent, BeforeIssue, AfterIssue, PipelineOk, State.Shaped;
    if e.Cycle? {
      BeforeIssueKeepsPipeline(c, m.s, m.log);
      var s := BeforeIssue(c, m.s, m.log);
      ConsistentIsShaped(c, s, LogReturned(c, m.s, m.log));
      OneCommandMore(c, states, s);
    } else {
      assert states + [] == states;
    }
  }

  /** If writes take longer than reads, the first write is the last column command of the run. */
  lemma {:induction false} FirstWriteIsTheLast(c: Config, events: seq<Event>)
    requires c.Valid() && IsAllowedRun(c, events) && c.WL > c.CL
    ensures JamsAfterWrite(c, IssueStates(c, events), DramRuns.Run(c, events).value.s.writeMode)
  {
    if events != [] {
      hide JamsAfterWrite, Consistent, BeforeIssue, Next, PipelineOk;
      var before, e := events[..|events| - 1], events[|events| - 1];
      FirstWriteIsTheLast(c, before);
      EveryRunKeepsPipeline(c, before);
      OneEventMoreJams(c, IssueStates(c, before), DramRuns.Run(c, before).value, e);
    }
  }
}
