/** How much a DRAM partition has left to do, and what each phase of a cycle takes off it. */
module DramWork {
  import opened DelayQueue
  import opened Options
  import opened DramModel
  import opened DramTiming
  import opened DramBurst
  import opened DramRuns
  import opened DramService
  import FrFcfs

  // ----- the work left

  /** Bytes not yet sent. */
  function Unsent(r: Request): nat
  {
    if r.txbytes < r.nbytes then r.nbytes - r.txbytes else 0
  }

  /** Row commands before the next transfer: a precharge and an activation, an activation, or none. */
  function RowCommands(b: BankState, r: Request): nat
  {
    if !b.active then 1 else if b.currRow == r.row then 0 else 2
  }

  ghost function BankWork(b: BankState, reqs: map<nat, Request>): nat
  {
    if b.mrq.Some? && b.mrq.value in reqs
    then 1 + RowCommands(b, reqs[b.mrq.value]) + Unsent(reqs[b.mrq.value]) else 0
  }

  ghost function BanksWork(banks: seq<BankState>, reqs: map<nat, Request>): nat
  {
    if banks == [] then 0 else BanksWork(banks[..|banks| - 1], reqs) + BankWork(banks[|banks| - 1], reqs)
  }

  /** A waiting request: more than it can be worth at its bank. */
  ghost function RequestWork(sizes: map<nat, nat>, id: nat): nat
  {
    4 + if id in sizes then sizes[id] else 0
  }

  ghost function CellsWork(cells: seq<Option<nat>>, sizes: map<nat, nat>): nat
  {
    if cells == [] then 0
    else (if cells[0].Some? then RequestWork(sizes, cells[0].value) else 0) + CellsWork(cells[1..], sizes)
  }

  ghost function QueueWork(q: seq<FrFcfs.Req>, sizes: map<nat, nat>): nat
  {
    if q == [] then 0 else RequestWork(sizes, q[0].id) + QueueWork(q[1..], sizes)
  }

  ghost function SchedWork(sched: seq<FrFcfs.Bank>, sizes: map<nat, nat>): nat
  {
    if sched == [] then 0
    else SchedWork(sched[..|sched| - 1], sizes) + QueueWork(sched[|sched| - 1].queue, sizes)
  }

  ghost function Work(s: State, log: Log): nat
  {
    CellsWork(s.mrqq.cells, log.sizes) + SchedWork(s.sched, log.sizes) + BanksWork(s.banks, s.reqs)
  }

  // ----- sums with one part changed

  lemma {:induction false} BanksWorkWithOneChanged(banks: seq<BankState>, j: nat, b: BankState,
                                                   reqs: map<nat, Request>)
    requires j < |banks|
    ensures BanksWork(banks[j := b], reqs) + BankWork(banks[j], reqs) == BanksWork(banks, reqs) + BankWork(b, reqs)
  {
    hide BankWork;
    var n := |banks| - 1;
    if j == n {
      assert banks[j := b][..n] == banks[..n];
    } else {
      assert banks[j := b][..n] == banks[..n][j := b];
      BanksWorkWithOneChanged(banks[..n], j, b, reqs);
    }
  }

  lemma {:induction false} SameBanksWork(a: seq<BankState>, b: seq<BankState>, reqs: map<nat, Request>,
                                         reqs': map<nat, Request>)
    requires |a| == |b| && forall i :: 0 <= i < |a| ==> BankWork(a[i], reqs) == BankWork(b[i], reqs')
    ensures BanksWork(a, reqs) == BanksWork(b, reqs')
  {
    hide BankWork;
    if a != [] {
      SameBanksWork(a[..|a| - 1], b[..|b| - 1], reqs, reqs');
    }
  }

  lemma {:induction false} SchedWorkWithOneChanged(sched: seq<FrFcfs.Bank>, j: nat, b: FrFcfs.Bank,
                                                   sizes: map<nat, nat>)
    requires j < |sched|
    ensures SchedWork(sched[j := b], sizes) + QueueWork(sched[j].queue, sizes)
         == SchedWork(sched, sizes) + QueueWork(b.queue, sizes)
  {
    hide QueueWork;
    var n := |sched| - 1;
    if j == n {
      assert sched[j := b][..n] == sched[..n];
    } else {
      assert sched[j := b][..n] == sched[..n][j := b];
      SchedWorkWithOneChanged(sched[..n], j, b, sizes);
    }
  }

  lemma QueueWorkAdded(q: seq<FrFcfs.Req>, req: FrFcfs.Req, sizes: map<nat, nat>)
    ensures QueueWork([req] + q, sizes) == RequestWork(sizes, req.id) + QueueWork(q, sizes)
  {
    assert ([req] + q)[1..] == q;
  }

  lemma {:induction false} QueueWorkWithout(q: seq<FrFcfs.Req>, i: nat, sizes: map<nat, nat>)
    requires i < |q|
    ensures QueueWork(FrFcfs.Without(q, i), sizes) + RequestWork(sizes, q[i].id) == QueueWork(q, sizes)
  {
    if i == 0 {
      assert FrFcfs.Without(q, 0) == q[1..];
    } else {
      QueueWorkWithout(q[1..], i - 1, sizes);
      assert FrFcfs.Without(q, i) == [q[0]] + FrFcfs.Without(q[1..], i - 1);
      QueueWorkAdded(FrFcfs.Without(q[1..], i - 1), q[0], sizes);
    }
  }

  // ----- the schedulers

  lemma SizeOfLive(c: Config, s: State, log: Log, id: nat)
    requires Consistent(c, s, log) && id in s.reqs
    ensures id in log.sizes && log.sizes[id] == s.reqs[id].nbytes
  {
    assert IdOk(c, s, log, id);
  }

  /** A request at its bank is less work than one that waits. */
  lemma GivingLowersWork(c: Config, s: State, log: Log, b: nat, id: nat)
    requires Consistent(c, s, log) && id in s.reqs && b < |s.banks| && s.banks[b].mrq.None?
    ensures BanksWork(GivenTo(s, b, id).banks, s.reqs) < BanksWork(s.banks, s.reqs) + RequestWork(log.sizes, id)
  {
    SizeOfLive(c, s, log, id);
    hide Consistent;
    BanksWorkWithOneChanged(s.banks, b, s.banks[b].(mrq := Some(id)), s.reqs);
  }

  lemma FifoLowersWork(c: Config, s: State, log: Log)
    requires Consistent(c, s, log)
    ensures s.mrqq.Front().Some? ==> s.mrqq.Front().value in s.reqs && s.reqs[s.mrqq.Front().value].bk < c.nbk
    ensures Work(FifoScheduled(c, s), log) <= Work(s, log)
  {
    FifoKeepsConsistent(c, s, log);
    ConsistentIsShaped(c, s, log);
    if s.mrqq.Front().Some? {
      var id := s.mrqq.Front().value;
      var bkn := s.reqs[id].bk;
      if s.banks[bkn].mrq.None? {
        assert s.mrqq.Pop().cells == s.mrqq.cells[1..];
        GivingLowersWork(c, s, log, bkn, id);
      }
    }
  }

  lemma AdmittingOneKeepsWork(c: Config, s: State, log: Log)
    requires s.Shaped(c) && CanAdmit(c, s) && s.mrqq.cells != []
    ensures Work(AdmittedOne(c, s), log) == Work(s, log)
  {
    var id := s.mrqq.cells[0].value;
    var req := FrFcfs.Req(id, s.reqs[id].bk, s.reqs[id].row);
    var q := FrFcfs.Added(s.sched[req.bk], req);
    SchedWorkWithOneChanged(s.sched, req.bk, q, log.sizes);
    QueueWorkAdded(s.sched[req.bk].queue, req, log.sizes);
    assert s.mrqq.Pop().cells == s.mrqq.cells[1..];
  }

  lemma {:induction false} AdmittingKeepsWork(c: Config, s: State, log: Log)
    requires s.Shaped(c) && CanAdmit(c, s)
    ensures Work(Admitted(c, s), log) == Work(s, log)
    decreases |s.mrqq.cells|
  {
    hide Work, State.Shaped;
    if !(s.mrqq.cells == [] || (c.schedQueueSize > 0 && Pending(s.sched) >= c.schedQueueSize)) {
      AdmittingOneKeepsWork(c, s, log);
      AdmittingKeepsWork(c, AdmittedOne(c, s), log);
    }
  }

  lemma PickingLowersWork(c: Config, s: State, log: Log, b: nat)
    requires Consistent(c, s, log) && b < c.nbk && s.sched[b].queue != [] && s.banks[b].mrq.None?
    ensures Work(Picked(c, s, b), log) < Work(s, log)
  {
    var bank, row := s.sched[b], s.banks[b].currRow;
    var i := FrFcfs.OldestOf(bank.queue, FrFcfs.RowServed(bank, row));
    var id := bank.queue[i].id;
    InSchedHas(s.sched, b, i);
    NothingDangles(c, s, log, id);
    SchedWorkWithOneChanged(s.sched, b, FrFcfs.Scheduled(bank, row), log.sizes);
    QueueWorkWithout(bank.queue, i, log.sizes);
    GivingLowersWork(c, s, log, b, id);
  }

  lemma FrfcfsLowersWork(c: Config, s: State, log: Log)
    requires Consistent(c, s, log)
    ensures CanAdmit(c, s) && Work(FrfcfsScheduled(c, s), log) <= Work(s, log)
  {
    hide Work, Picked;
    FrfcfsKeepsConsistent(c, s, log);
    AdmittingKeepsConsistent(c, s, log);
    ConsistentIsShaped(c, s, log);
    AdmittingKeepsWork(c, s, log);
    var admitted := Admitted(c, s);
    if FirstServable(c, admitted, 0).Some? {
      ServableIsABank(c, admitted, 0);
      PickingLowersWork(c, admitted, log, FirstServable(c, admitted, 0).value);
    }
  }

  // ----- the data phase

  lemma ReturningKeepsWork(c: Config, s: State, log: Log)
    requires Consistent(c, s, log)
    ensures s.rwq.Front().Some? ==> s.rwq.Front().value in s.reqs
    ensures Work(Returned(c, s), LogReturned(c, s, log)) == Work(s, log)
  {
    ReturningKeepsConsistent(c, s, log);
    ConsistentIsShaped(c, s, log);
    ConsistentIsShaped(c, Returned(c, s), LogReturned(c, s, log));
    hide Consistent, Queue<nat>.Pop, Queue<nat>.Push;
    var after := Returned(c, s);
    forall b | 0 <= b < |s.banks|
      ensures BankWork(after.banks[b], after.reqs) == BankWork(s.banks[b], s.reqs)
    {
    }
    SameBanksWork(s.banks, after.banks, s.reqs, after.reqs);
  }

  // ----- a command

  lemma TickingKeepsWork(s: State, log: Log)
    ensures Work(Ticked(s), log) == Work(s, log)
  {
    forall b | 0 <= b < |s.banks|
      ensures BankWork(Ticked(s).banks[b], s.reqs) == BankWork(s.banks[b], s.reqs)
    {
    }
    SameBanksWork(s.banks, Ticked(s).banks, s.reqs, s.reqs);
  }

  lemma RowCommandLowersWork(c: Config, s: State, log: Log, cmd: Command)
    requires s.Shaped(c) && (cmd.Act? || cmd.Pre?) && ServesItsRequest(s, cmd) && cmd.bank < c.nbk
    ensures Work(Issued(c, s, cmd), log) < Work(s, log)
  {
    var after := Issued(c, s, cmd);
    assert after.banks == s.banks[cmd.bank := after.banks[cmd.bank]];
    BanksWorkWithOneChanged(s.banks, cmd.bank, after.banks[cmd.bank], s.reqs);
  }

  /** A request is at one bank only. */
  lemma OneBank(c: Config, s: State, log: Log, j: nat, k: nat, id: nat)
    requires Consistent(c, s, log) && j < |s.banks| && k < |s.banks|
    requires s.banks[j].mrq == Some(id) && s.banks[k].mrq == Some(id)
    ensures j == k
  {
    hide AtBanks, InSched, DataOf;
    assert IdOk(c, s, log, id);
    if j != k {
      var without := s.banks[j := s.banks[j].(mrq := None)];
      AtBanksWithOneChanged(s.banks, j, s.banks[j].(mrq := None), id);
      AtBanksHas(without, k, id);
      assert false;
    }
  }

  lemma ColumnLowersWork(c: Config, s: State, log: Log, cmd: Command)
    requires Consistent(c, s, log) && IsColumn(cmd) && ServesItsRequest(s, cmd) && cmd.bank < c.nbk
    ensures Work(Issued(c, s, cmd), LogIssued(s, log, cmd)) < Work(s, log)
  {
    ConsistentIsShaped(c, s, log);
    GroupInRange(c, cmd.bank);
    var j, after := cmd.bank, Issued(c, s, cmd);
    var id := s.banks[j].mrq.value;
    forall b: nat | b < |s.banks| && b != j
      ensures BankWork(s.banks[b], after.reqs) == BankWork(s.banks[b], s.reqs)
    {
      if s.banks[b].mrq == Some(id) {
        OneBank(c, s, log, b, j, id);
      }
    }
    hide Consistent, Queue<nat>.Push, Queue<nat>.SetMinLength;
    var empty := s.banks[j].(mrq := None);
    var others := s.banks[j := empty];
    SameBanksWork(others, others, s.reqs, after.reqs);
    assert after.banks == others[j := after.banks[j]];
    BanksWorkWithOneChanged(s.banks, j, empty, s.reqs);
    BanksWorkWithOneChanged(others, j, after.banks[j], after.reqs);
  }
}
