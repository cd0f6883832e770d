/** What the commands of a DRAM partition are for: over every run each of them serves the request that
    its bank holds, which is one to that bank. */
module DramService {
  import opened Bits
  import opened DelayQueue
  import opened Options
  import opened DramModel
  import opened DramTiming
  import opened DramBurst
  import opened DramRuns
  import FrFcfs

  // ----- one command

  /** An activation opens the row of the bank's request, a precharge closes a row that this request does
      not want, and a read or write is of a read or write request, to its own row. */
  ghost predicate Serves(cmd: Command, r: Request, bank: BankState)
  {
    match cmd
    case Nop => true
    case Act(_, row) => !bank.active && row == r.row
    case Pre(_) => bank.active && bank.currRow != r.row
    case Read(_, row) => !r.isWrite && bank.active && row == bank.currRow == r.row
    case Write(_, row) => r.isWrite && bank.active && row == bank.currRow == r.row
  }

  ghost predicate ServesItsRequest(s: State, cmd: Command)
  {
    cmd != Nop ==>
      && cmd.bank < |s.banks| && s.banks[cmd.bank].mrq.Some? && s.banks[cmd.bank].mrq.value in s.reqs
      && Serves(cmd, s.reqs[s.banks[cmd.bank].mrq.value], s.banks[cmd.bank])
  }

  lemma CommandServes(c: Config, s: State, j: nat)
    requires s.Shaped(c) && j < c.nbk
    ensures ServesItsRequest(s, CommandFor(c, s, j))
  {
  }

  lemma ChoiceServes(c: Config, s: State)
    requires s.Shaped(c)
    ensures ServesItsRequest(s, Choice(c, s, 0))
  {
    hide CommandFor, ServesItsRequest;
    ChoiceIsReady(c, s, 0);
    if Choice(c, s, 0) != Nop {
      CommandServes(c, s, Choice(c, s, 0).bank);
    } else {
      NopServes(s);
    }
  }

  lemma NopServes(s: State)
    ensures ServesItsRequest(s, Nop)
  {
  }

  /** After a row command its bank is the last in turn; other commands leave the turns as they are. */
  lemma TurnPassesOn(c: Config, s: State)
    requires s.Shaped(c)
    ensures var cmd, after := Choice(c, s, 0), AfterIssue(c, s);
            if cmd.Act? || cmd.Pre? then (c.nbk - 1 + after.prio) % c.nbk == cmd.bank else after.prio == s.prio
  {
    hide Choice, Queue<nat>.Push, Queue<nat>.SetMinLength;
    ChoiceIsReady(c, s, 0);
    if Choice(c, s, 0).Act? || Choice(c, s, 0).Pre? {
      LastInTurn(Choice(c, s, 0).bank, c.nbk);
    }
  }

  lemma LastInTurn(j: nat, n: nat)
    requires j < n
    ensures (n - 1 + (j + 1) % n) % n == j
  {
    if j + 1 == n {
      PartsOf(n, 1, 0, n);
      SmallNumber(n - 1, n);
    } else {
      SmallNumber(j + 1, n);
      PartsOf(n + j, 1, j, n);
    }
  }

  // ----- requests are at their own bank

  ghost predicate QueuedWell(s: State, b: nat, req: FrFcfs.Req)
  {
    req.bk == b && (req.id in s.reqs ==> s.reqs[req.id].bk == b && s.reqs[req.id].row == req.row)
  }

  ghost predicate HeldWell(s: State, b: nat, id: nat)
  {
    id in s.reqs ==> s.reqs[id].bk == b
  }

  /** What a bank holds or the scheduler keeps for it is to that bank, and the row kept is the request's. */
  ghost predicate Placed(s: State)
  {
    && (forall b: nat :: b < |s.banks| && s.banks[b].mrq.Some? ==> HeldWell(s, b, s.banks[b].mrq.value))
    && forall b: nat, i: nat :: b < |s.sched| && i < |s.sched[b].queue| ==> QueuedWell(s, b, s.sched[b].queue[i])
  }

  /** The same requests, as far as bank and row go, or fewer. */
  ghost predicate NoNewPlaces(s: State, after: State)
  {
    forall id: nat :: id in after.reqs ==>
      id in s.reqs && after.reqs[id].bk == s.reqs[id].bk && after.reqs[id].row == s.reqs[id].row
  }

  lemma SamePlaces(s: State, after: State)
    requires Placed(s) && NoNewPlaces(s, after) && |after.banks| == |s.banks| && after.sched == s.sched
    requires forall b: nat :: b < |s.banks| ==> after.banks[b].mrq.None? || after.banks[b].mrq == s.banks[b].mrq
    ensures Placed(after)
  {
    forall b: nat | b < |after.banks| && after.banks[b].mrq.Some?
      ensures HeldWell(after, b, after.banks[b].mrq.value)
    {
      assert HeldWell(s, b, s.banks[b].mrq.value);
    }
    forall b: nat, i: nat | b < |after.sched| && i < |after.sched[b].queue|
      ensures QueuedWell(after, b, after.sched[b].queue[i])
    {
      assert QueuedWell(s, b, s.sched[b].queue[i]);
    }
  }

  lemma GivingKeepsPlaces(s: State, b: nat, id: nat)
    requires Placed(s) && b < |s.banks| && HeldWell(s, b, id)
    ensures Placed(GivenTo(s, b, id))
  {
    var after := GivenTo(s, b, id);
    forall k: nat | k < |after.banks| && after.banks[k].mrq.Some?
      ensures HeldWell(after, k, after.banks[k].mrq.value)
    {
      assert k != b ==> HeldWell(s, k, s.banks[k].mrq.value);
    }
    forall k: nat, i: nat | k < |after.sched| && i < |after.sched[k].queue|
      ensures QueuedWell(after, k, after.sched[k].queue[i])
    {
      assert QueuedWell(s, k, s.sched[k].queue[i]);
    }
  }

  /** One bank's queue changed. */
  lemma RequeueingKeepsPlaces(s: State, after: State, b: nat, q: FrFcfs.Bank)
    requires Placed(s) && b < |s.sched| && after.reqs == s.reqs && after.banks == s.banks
    requires after.sched == s.sched[b := q]
    requires forall i: nat :: i < |q.queue| ==> QueuedWell(s, b, q.queue[i])
    ensures Placed(after)
  {
    forall k: nat | k < |after.banks| && after.banks[k].mrq.Some?
      ensures HeldWell(after, k, after.banks[k].mrq.value)
    {
      assert HeldWell(s, k, s.banks[k].mrq.value);
    }
    forall k: nat, i: nat | k < |after.sched| && i < |after.sched[k].queue|
      ensures QueuedWell(after, k, after.sched[k].queue[i])
    {
      if k == b {
        assert QueuedWell(s, b, q.queue[i]);
      } else {
        assert QueuedWell(s, k, s.sched[k].queue[i]);
      }
    }
  }

  lemma FifoKeepsPlaces(c: Config, s: State, log: Log)
    requires Consistent(c, s, log) && Placed(s)
    ensures s.mrqq.Front().Some? ==> s.mrqq.Front().value in s.reqs && s.reqs[s.mrqq.Front().value].bk < c.nbk
    ensures Placed(FifoScheduled(c, s))
  {
    FifoKeepsConsistent(c, s, log);
    ConsistentIsShaped(c, s, log);
    hide Consistent, Placed;
    if s.mrqq.Front().Some? {
      var id := s.mrqq.Front().value;
      var bkn := s.reqs[id].bk;
      if s.banks[bkn].mrq.None? {
        GivingKeepsPlaces(s, bkn, id);
        QueueDoesNotPlace(GivenTo(s, bkn, id), s.mrqq.Pop(), s.prio);
      }
    }
  }

  lemma QueueDoesNotPlace(s: State, q: Queue<nat>, prio: nat)
    requires Placed(s)
    ensures Placed(s.(mrqq := q)) && Placed(s.(mrqq := q, prio := prio)) && Placed(s.(prio := prio))
  {
    var t := s.(mrqq := q, prio := prio);
    SamePlaces(s, t);
    SamePlaces(s, s.(mrqq := q));
    SamePlaces(s, s.(prio := prio));
  }

  lemma AdmittingOneKeepsPlaces(c: Config, s: State)
    requires s.Shaped(c) && CanAdmit(c, s) && s.mrqq.cells != [] && Placed(s)
    ensures Placed(AdmittedOne(c, s))
  {
    var id := s.mrqq.cells[0].value;
    var req := FrFcfs.Req(id, s.reqs[id].bk, s.reqs[id].row);
    var q := FrFcfs.Added(s.sched[req.bk], req);
    forall i: nat | i < |q.queue|
      ensures QueuedWell(s, req.bk, q.queue[i])
    {
      assert i > 0 ==> QueuedWell(s, req.bk, s.sched[req.bk].queue[i - 1]);
    }
    RequeueingKeepsPlaces(s, AdmittedOne(c, s), req.bk, q);
  }

  lemma {:induction false} AdmittingKeepsPlaces(c: Config, s: State)
    requires s.Shaped(c) && CanAdmit(c, s) && Placed(s)
    ensures Placed(Admitted(c, s))
    decreases |s.mrqq.cells|
  {
    hide Placed, State.Shaped;
    if !(s.mrqq.cells == [] || (c.schedQueueSize > 0 && Pending(s.sched) >= c.schedQueueSize)) {
      AdmittingOneKeepsPlaces(c, s);
      AdmittingKeepsPlaces(c, AdmittedOne(c, s));
    }
  }

  lemma PickingKeepsPlaces(c: Config, s: State, b: nat)
    requires s.Shaped(c) && b < c.nbk && s.sched[b].queue != [] && Placed(s)
    ensures Placed(Picked(c, s, b))
  {
    var bank, row := s.sched[b], s.banks[b].currRow;
    var i := FrFcfs.OldestOf(bank.queue, FrFcfs.RowServed(bank, row));
    var left := FrFcfs.Scheduled(bank, row);
    assert QueuedWell(s, b, bank.queue[i]);
    forall k: nat | k < |left.queue|
      ensures QueuedWell(s, b, left.queue[k])
    {
      assert QueuedWell(s, b, bank.queue[if k < i then k else k + 1]);
    }
    RequeueingKeepsPlaces(s, s.(sched := s.sched[b := left]), b, left);
    GivingKeepsPlaces(s.(sched := s.sched[b := left]), b, bank.queue[i].id);
    SamePlaces(GivenTo(s.(sched := s.sched[b := left]), b, bank.queue[i].id), Picked(c, s, b));
  }

  lemma FrfcfsKeepsPlaces(c: Config, s: State)
    requires s.Shaped(c) && CanAdmit(c, s) && Placed(s)
    ensures Placed(FrfcfsScheduled(c, s))
  {
    hide Placed, Picked;
    AdmittingKeepsShape(c, s);
    AdmittingKeepsPlaces(c, s);
    var admitted := Admitted(c, s);
    if FirstServable(c, admitted, 0).Some? {
      ServableIsABank(c, admitted, 0);
      PickingKeepsPlaces(c, admitted, FirstServable(c, admitted, 0).value);
    }
  }

  lemma ReturningKeepsPlaces(c: Config, s: State)
    requires (s.rwq.Front().Some? ==> s.rwq.Front().value in s.reqs) && Placed(s)
    ensures Placed(Returned(c, s))
  {
    hide Placed, Queue<nat>.Pop, Queue<nat>.Push;
    SamePlaces(s, Returned(c, s));
  }

  lemma IssuingKeepsPlaces(c: Config, s: State, cmd: Command)
    requires s.Shaped(c) && (cmd != Nop ==> cmd.bank < c.nbk) && Placed(s)
    requires cmd.Read? || cmd.Write? ==> s.banks[cmd.bank].mrq.Some?
    ensures Placed(Ticked(Issued(c, s, cmd)))
  {
    hide Placed, Queue<nat>.Push, Queue<nat>.SetMinLength;
    var after := Ticked(Issued(c, s, cmd));
    if cmd != Nop {
      GroupInRange(c, cmd.bank);
    }
    SamePlaces(s, after);
  }

  // ----- every run

  lemma {:induction false} InQueueHas(q: seq<FrFcfs.Req>, i: nat)
    requires i < |q|
    ensures InQueue(q, q[i].id) >= 1
  {
    if i < |q| - 1 {
      InQueueHas(q[..|q| - 1], i);
    }
  }

  lemma InSchedHas(sched: seq<FrFcfs.Bank>, b: nat, i: nat)
    requires b < |sched| && i < |sched[b].queue|
    ensures InSched(sched, sched[b].queue[i].id) >= 1
  {
    var id := sched[b].queue[i].id;
    InQueueHas(sched[b].queue, i);
    InSchedWithOneChanged(sched, b, FrFcfs.Bank([], None), id);
  }

  lemma NewIdWaitsNowhere(c: Config, s: State, log: Log, id: nat)
    requires Consistent(c, s, log) && id !in log.sizes
    ensures forall b: nat :: b < |s.banks| ==> s.banks[b].mrq != Some(id)
    ensures forall b: nat, i: nat :: b < |s.sched| && i < |s.sched[b].queue| ==> s.sched[b].queue[i].id != id
  {
    hide AtBanks, InSched, InQueue, DataOf;
    assert IdOk(c, s, log, id);
    assert Waiting(s, id) == 0;
    forall b: nat | b < |s.banks| && s.banks[b].mrq.Some?
      ensures Waiting(s, s.banks[b].mrq.value) > 0
    {
      AtBanksHas(s.banks, b, s.banks[b].mrq.value);
    }
    forall b: nat, i: nat | b < |s.sched| && i < |s.sched[b].queue|
      ensures Waiting(s, s.sched[b].queue[i].id) > 0
    {
      InSchedHas(s.sched, b, i);
    }
  }

  lemma AcceptingKeepsPlaces(c: Config, s: State, log: Log, id: nat, r: Request)
    requires Consistent(c, s, log) && id !in log.sizes && Placed(s)
    ensures Placed(Accepted(s, id, r))
  {
    NewIdWaitsNowhere(c, s, log, id);
    hide Consistent, Queue<nat>.Push;
    var after := Accepted(s, id, r);
    forall b: nat | b < |after.banks| && after.banks[b].mrq.Some?
      ensures HeldWell(after, b, after.banks[b].mrq.value)
    {
      assert HeldWell(s, b, s.banks[b].mrq.value);
    }
    forall b: nat, i: nat | b < |after.sched| && i < |after.sched[b].queue|
      ensures QueuedWell(after, b, after.sched[b].queue[i])
    {
      assert QueuedWell(s, b, s.sched[b].queue[i]);
    }
  }

  lemma BeforeIssueKeepsPlaces(c: Config, s: State, log: Log)
    requires Consistent(c, s, log) && Placed(s)
    ensures Placed(BeforeIssue(c, s, log))
  {
    hide Consistent, Placed;
    ReturningKeepsConsistent(c, s, log);
    ReturningKeepsPlaces(c, s);
    var returned, log' := Returned(c, s), LogReturned(c, s, log);
    FifoKeepsConsistent(c, returned, log');
    FrfcfsKeepsConsistent(c, returned, log');
    ConsistentIsShaped(c, returned, log');
    if c.frfcfs {
      FrfcfsKeepsPlaces(c, returned);
    } else {
      FifoKeepsPlaces(c, returned, log');
    }
  }

  lemma NextKeepsPlaces(c: Config, m: Moment, e: Event)
    requires Consistent(c, m.s, m.log) && Allowed(c, m, e) && Placed(m.s)
    ensures Placed(Next(c, m, e).s)
  {
    hide Consistent, Placed, BeforeIssue, Queue<nat>.Pop;
    match e
    case Cycle =>
      BeforeIssueKeepsPlaces(c, m.s, m.log);
      var s := BeforeIssue(c, m.s, m.log);
      ConsistentIsShaped(c, s, LogReturned(c, m.s, m.log));
      ChoiceIsReady(c, s, 0);
      IssuingKeepsPlaces(c, s, Choice(c, s, 0));
    case Accept(id, bk, row, nbytes, isWrite, isWriteback) =>
      AcceptingKeepsPlaces(c, m.s, m.log, id, Request(bk, row, nbytes, isWrite, isWriteback, 0, 0));
    case TakeAnswer =>
      SamePlaces(m.s, m.s.(returnq := m.s.returnq.Pop()));
  }

  lemma {:induction false} EveryRunIsPlaced(c: Config, events: seq<Event>)
    requires c.Valid() && IsAllowedRun(c, events)
    ensures Placed(DramRuns.Run(c, events).value.s)
  {
    hide Next, Consistent;
    if events != [] {
      hide Placed;
      EveryRunIsPlaced(c, events[..|events| - 1]);
      NextKeepsPlaces(c, DramRuns.Run(c, events[..|events| - 1]).value, events[|events| - 1]);
    }
  }

  /** In every cycle of every run the command issued serves the request that its bank holds, a request
      to this bank: an activation opens that request's row, a precharge closes a row which it does not
      want, and data are transferred for it from and to its own row. */
  lemma CommandsServeRequests(c: Config, events: seq<Event>)
    requires c.Valid() && IsAllowedRun(c, events)
    ensures var m := DramRuns.Run(c, events).value;
            var s := BeforeIssue(c, m.s, m.log);
            && s.Shaped(c) && ServesItsRequest(s, Choice(c, s, 0))
            && (Choice(c, s, 0) != Nop ==>
                  s.reqs[s.banks[Choice(c, s, 0).bank].mrq.value].bk == Choice(c, s, 0).bank)
  {
    hide Consistent, BeforeIssue, Choice;
    var m := DramRuns.Run(c, events).value;
    EveryRunIsPlaced(c, events);
    BeforeIssueKeepsPlaces(c, m.s, m.log);
    var s := BeforeIssue(c, m.s, m.log);
    ConsistentIsShaped(c, s, LogReturned(c, m.s, m.log));
    ChoiceServes(c, s);
    if Choice(c, s, 0) != Nop {
      var j := Choice(c, s, 0).bank;
      assert HeldWell(s, j, s.banks[j].mrq.value);
    }
  }
}
