/** Burst conservation: how often each request passes through the data pipeline, and that it is
    answered and freed once, when nothing refers to it any more. */
module DramBurst {
  import opened Blocks
  import opened DelayQueue
  import opened Options
  import opened DramModel
  import FrFcfs

  /** What has happened so far: requests pushed into and popped out of the data pipeline, requests
      answered, and the size of every request ever accepted. */
  datatype Log = Log(pushed: seq<nat>, popped: seq<nat>, answered: seq<nat>, sizes: map<nat, nat>)

  ghost function Times(s: seq<nat>, id: nat): nat
  {
    multiset(s)[id]
  }

  // ----- where requests wait: how often a request is in each kind of place

  ghost function AtBank(b: BankState, id: nat): nat
  {
    if b.mrq == Some(id) then 1 else 0
  }

  ghost function AtBanks(banks: seq<BankState>, id: nat): nat
  {
    if banks == [] then 0 else AtBanks(banks[..|banks| - 1], id) + AtBank(banks[|banks| - 1], id)
  }

  ghost function InQueue(q: seq<FrFcfs.Req>, id: nat): nat
  {
    if q == [] then 0 else InQueue(q[..|q| - 1], id) + if q[|q| - 1].id == id then 1 else 0
  }

  ghost function InSched(sched: seq<FrFcfs.Bank>, id: nat): nat
  {
    if sched == [] then 0 else InSched(sched[..|sched| - 1], id) + InQueue(sched[|sched| - 1].queue, id)
  }

  ghost function Queued(s: State, id: nat): nat
  {
    Times(s.mrqq.Data(), id) + InSched(s.sched, id)
  }

  ghost function Waiting(s: State, id: nat): nat
  {
    Queued(s, id) + AtBanks(s.banks, id)
  }

  lemma {:induction false} AtBanksWithOneChanged(banks: seq<BankState>, j: nat, b: BankState, id: nat)
    requires j < |banks|
    ensures AtBanks(banks[j := b], id) + AtBank(banks[j], id) == AtBanks(banks, id) + AtBank(b, id)
  {
    var n := |banks| - 1;
    if j == n {
      assert banks[j := b][..n] == banks[..n];
    } else {
      assert banks[j := b][..n] == banks[..n][j := b];
      AtBanksWithOneChanged(banks[..n], j, b, id);
    }
  }

  lemma {:induction false} InQueueWithout(q: seq<FrFcfs.Req>, i: nat, id: nat)
    requires i < |q|
    ensures InQueue(FrFcfs.Without(q, i), id) + (if q[i].id == id then 1 else 0) == InQueue(q, id)
  {
    var n := |q| - 1;
    if i == n {
      assert FrFcfs.Without(q, i) == q[..n];
    } else {
      InQueueWithout(q[..n], i, id);
      FrFcfs.WithoutEarlier(q, i);
      InQueueByLast(q, id);
      InQueueByLast(FrFcfs.Without(q, i), id);
    }
  }

  lemma InQueueByLast(q: seq<FrFcfs.Req>, id: nat)
    requires q != []
    ensures InQueue(q, id) == InQueue(q[..|q| - 1], id) + if q[|q| - 1].id == id then 1 else 0
  {
  }

  lemma {:induction false} InQueueAdded(q: seq<FrFcfs.Req>, req: FrFcfs.Req, id: nat)
    ensures InQueue([req] + q, id) == (if req.id == id then 1 else 0) + InQueue(q, id)
  {
    if q == [] {
      assert ([req] + q)[..0] == [];
    } else {
      assert ([req] + q)[..|q|] == [req] + q[..|q| - 1];
      InQueueAdded(q[..|q| - 1], req, id);
    }
  }

  lemma {:induction false} InSchedWithOneChanged(sched: seq<FrFcfs.Bank>, j: nat, b: FrFcfs.Bank, id: nat)
    requires j < |sched|
    ensures InSched(sched[j := b], id) + InQueue(sched[j].queue, id) == InSched(sched, id) + InQueue(b.queue, id)
  {
    var n := |sched| - 1;
    if j == n {
      assert sched[j := b][..n] == sched[..n];
    } else {
      assert sched[j := b][..n] == sched[..n][j := b];
      InSchedWithOneChanged(sched[..n], j, b, id);
    }
  }

  // ----- what holds of one request

  /** The number of bursts of a request: one for each started atom, at least one. */
  ghost predicate IsBurstCount(c: Config, nbytes: nat, n: nat)
  {
    n >= 1 && Base(n, c.atomSize) >= nbytes && (n == 1 || Base(n - 1, c.atomSize) < nbytes)
  }

  /** waiting and queued: how often the request is in some waiting place, and in one before its
      bank; pushed and popped: how often it went into and came out of the pipeline. */
  ghost predicate LiveOk(c: Config, r: Request, waiting: nat, queued: nat, pushed: nat, popped: nat)
  {
    && r.txbytes == Base(pushed, c.atomSize) && r.dqbytes == Base(popped, c.atomSize) && popped <= pushed
    && queued <= waiting <= 1 && (queued == 1 ==> pushed == 0)
    && (waiting == 1 ==> pushed == 0 || Base(pushed, c.atomSize) < r.nbytes)
    && (waiting == 0 ==> IsBurstCount(c, r.nbytes, pushed))
    && (popped == 0 || Base(popped, c.atomSize) < r.nbytes)
  }

  /** All that is recorded of one id. */
  datatype Record = Record(live: Option<Request>, size: Option<nat>, waiting: nat, queued: nat,
                           pushed: nat, popped: nat, answered: nat)

  ghost function RecordOf(s: State, log: Log, id: nat): Record
  {
    Record(if id in s.reqs then Some(s.reqs[id]) else None, if id in log.sizes then Some(log.sizes[id]) else None,
           Waiting(s, id), Queued(s, id), Times(log.pushed, id), Times(log.popped, id), Times(log.answered, id))
  }

  ghost predicate Fate(c: Config, r: Record)
  {
    match r.live
    case Some(req) =>
      && r.size == Some(req.nbytes) && req.bk < c.nbk && r.answered == 0
      && LiveOk(c, req, r.waiting, r.queued, r.pushed, r.popped)
    case None =>
      && r.waiting == 0 && r.pushed == r.popped
      && match r.size
         case Some(nbytes) => IsBurstCount(c, nbytes, r.popped) && r.answered == 1
         case None => r.popped == 0 && r.answered == 0
  }

  ghost predicate IdOk(c: Config, s: State, log: Log, id: nat)
  {
    Fate(c, RecordOf(s, log, id))
  }

  ghost predicate QueuesOk(s: State, log: Log)
  {
    && s.mrqq.minLen == 0 && (forall i :: 0 <= i < |s.mrqq.cells| ==> s.mrqq.cells[i].Some?)
    && s.rwq.Valid() && log.popped + s.rwq.Data() == log.pushed
  }

  ghost predicate Consistent(c: Config, s: State, log: Log)
  {
    && s.Shaped(c) && QueuesOk(s, log)
    && forall id: nat :: IdOk(c, s, log, id)
  }

  lemma ConsistentIsShaped(c: Config, s: State, log: Log)
    requires Consistent(c, s, log)
    ensures s.Shaped(c)
  {
  }

  // ----- what that means

  lemma BurstCountIsUnique(c: Config, nbytes: nat, n: nat, m: nat)
    requires IsBurstCount(c, nbytes, n) && IsBurstCount(c, nbytes, m)
    ensures n == m
  {
    if n < m {
      BaseGrows(n, m - 1, c.atomSize);
      assert false;
    } else if m < n {
      BaseGrows(m, n - 1, c.atomSize);
      assert false;
    }
  }

  /** The bytes in whole atoms, rounded up, and at least one. */
  function AtomsFor(nbytes: nat, atom: nat): nat
    requires atom > 0
  {
    if nbytes == 0 then 1 else (nbytes + atom - 1) / atom
  }

  /** The loop's count in closed form. */
  lemma BurstCountIsCeiling(c: Config, nbytes: nat, n: nat)
    requires c.atomSize > 0
    ensures IsBurstCount(c, nbytes, n) <==> n == AtomsFor(nbytes, c.atomSize)
  {
    hide Base;
    var q := AtomsFor(nbytes, c.atomSize);
    NextBlock(c.atomSize, 0);
    if nbytes > 0 {
      assert q == BlockNo(nbytes + c.atomSize - 1, c.atomSize);
      assert q > 0;
      NextBlock(c.atomSize, q - 1);
    }
    assert IsBurstCount(c, nbytes, q);
    if IsBurstCount(c, nbytes, n) {
      BurstCountIsUnique(c, nbytes, n, q);
    }
  }

  /** For every request ever accepted, in every consistent state: it is still live and has not been
      answered, or it has been answered once and went in and out of the pipeline exactly as often as
      it has bursts; and then no queue and no bank holds it. */
  lemma EachRequestOnce(c: Config, s: State, log: Log, id: nat)
    requires Consistent(c, s, log) && id in log.sizes
    ensures if id in s.reqs then Times(log.answered, id) == 0
            else && Times(log.answered, id) == 1
                 && Times(log.pushed, id) == Times(log.popped, id) == AtomsFor(log.sizes[id], c.atomSize)
                 && id !in s.rwq.Data() && Waiting(s, id) == 0
  {
    assert IdOk(c, s, log, id);
    InFlight(s, log, id);
    BurstCountIsCeiling(c, log.sizes[id], Times(log.pushed, id));
  }

  lemma InFlight(s: State, log: Log, id: nat)
    requires QueuesOk(s, log)
    ensures Times(log.pushed, id) == Times(log.popped, id) + Times(s.rwq.Data(), id)
    ensures id in s.rwq.Data() <==> Times(s.rwq.Data(), id) > 0
  {
    assert multiset(log.popped + s.rwq.Data()) == multiset(log.popped) + multiset(s.rwq.Data());
  }

  /** Whatever the pipeline or a queue holds is a live request. */
  lemma NothingDangles(c: Config, s: State, log: Log, id: nat)
    requires Consistent(c, s, log) && (id in s.rwq.Data() || Waiting(s, id) > 0)
    ensures id in s.reqs && s.reqs[id].bk < c.nbk
  {
    assert IdOk(c, s, log, id);
    InFlight(s, log, id);
  }

  lemma {:induction false} CellsAreData(cells: seq<Option<nat>>, i: nat)
    requires i < |cells| && cells[i].Some?
    ensures cells[i].value in DataOf(cells)
  {
    var n := |cells| - 1;
    if i < n {
      CellsAreData(cells[..n], i);
    }
  }

  lemma ConsistentCanAdmit(c: Config, s: State, log: Log)
    requires Consistent(c, s, log)
    ensures CanAdmit(c, s)
    ensures s.rwq.Front().Some? ==> s.rwq.Front().value in s.reqs
  {
    forall i | 0 <= i < |s.mrqq.cells|
      ensures s.mrqq.cells[i].value in s.reqs
    {
      CellsAreData(s.mrqq.cells, i);
      assert Waiting(s, s.mrqq.cells[i].value) > 0;
      NothingDangles(c, s, log, s.mrqq.cells[i].value);
    }
    if s.rwq.Front().Some? {
      CellsAreData(s.rwq.cells, 0);
      NothingDangles(c, s, log, s.rwq.Front().value);
    }
    forall id | id in s.reqs
      ensures s.reqs[id].bk < c.nbk
    {
      assert IdOk(c, s, log, id);
    }
  }

  // ----- a new request

  ghost function Accepted(s: State, id: nat, r: Request): State
  {
    s.(reqs := s.reqs[id := r], mrqq := s.mrqq.Push(Some(id)))
  }

  lemma AcceptingKeepsConsistent(c: Config, s: State, log: Log, id: nat, r: Request)
    requires Consistent(c, s, log) && id !in log.sizes && r.txbytes == r.dqbytes == 0 && r.bk < c.nbk
    ensures Consistent(c, Accepted(s, id, r), log.(sizes := log.sizes[id := r.nbytes]))
  {
    hide DataOf, AtBanks, InSched;
    var after, log' := Accepted(s, id, r), log.(sizes := log.sizes[id := r.nbytes]);
    OneOperation(s.mrqq, PushData(id));
    forall k: nat
      ensures IdOk(c, after, log', k)
    {
      assert IdOk(c, s, log, k);
      RecordAfterAccept(s, log, id, r, k);
    }
    assert s.mrqq.cells != [] ==> s.mrqq.cells[|s.mrqq.cells| - 1].Some?;
  }

  lemma RecordAfterAccept(s: State, log: Log, id: nat, r: Request, k: nat)
    requires s.mrqq.Valid()
    ensures var was := RecordOf(s, log, k);
            RecordOf(Accepted(s, id, r), log.(sizes := log.sizes[id := r.nbytes]), k)
              == if k == id
                 then was.(live := Some(r), size := Some(r.nbytes), waiting := was.waiting + 1,
                           queued := was.queued + 1)
                 else was
  {
    OneOperation(s.mrqq, PushData(id));
    TimesOneMore(s.mrqq.Data(), id, k);
  }

  lemma TimesOneMore(a: seq<nat>, x: nat, id: nat)
    ensures Times(a + [x], id) == Times(a, id) + if x == id then 1 else 0
  {
    assert multiset(a + [x]) == multiset(a) + multiset{x};
  }

  lemma TimesOneFirst(a: seq<nat>, x: nat, id: nat)
    ensures Times([x] + a, id) == Times(a, id) + if x == id then 1 else 0
  {
    assert multiset([x] + a) == multiset{x} + multiset(a);
  }

  // ----- a column command

  ghost function LogIssued(s: State, log: Log, cmd: Command): Log
    requires cmd.Read? || cmd.Write? ==> cmd.bank < |s.banks| && s.banks[cmd.bank].mrq.Some?
  {
    if cmd.Read? || cmd.Write? then log.(pushed := log.pushed + [s.banks[cmd.bank].mrq.value]) else log
  }

  lemma AtBanksHas(banks: seq<BankState>, j: nat, id: nat)
    requires j < |banks| && banks[j].mrq == Some(id)
    ensures AtBanks(banks, id) >= 1
  {
    AtBanksWithOneChanged(banks, j, banks[j].(mrq := None), id);
  }

  /** Pushing one more burst of a request that waits at its bank. */
  lemma FateAfterPush(c: Config, r: Record)
    requires Fate(c, r) && r.live.Some? && r.waiting == 1 && r.queued == 0
    ensures var after := r.live.value.(txbytes := r.live.value.txbytes + c.atomSize);
            Fate(c, r.(live := Some(after), waiting := if after.txbytes < after.nbytes then 1 else 0,
                       pushed := r.pushed + 1))
  {
    assert Base(r.pushed + 1, c.atomSize) == Base(r.pushed, c.atomSize) + c.atomSize;
  }

  ghost predicate IsColumnStep(c: Config, s: State, after: State, j: nat, id: nat)
    requires id in s.reqs
  {
    && j < |s.banks| && s.banks[j].mrq == Some(id)
    && var r := s.reqs[id].(txbytes := s.reqs[id].txbytes + c.atomSize);
       && after.reqs == s.reqs[id := r]
       && (exists b :: after.banks == s.banks[j := b] && b.mrq == if r.txbytes < r.nbytes then Some(id) else None)
       && after.mrqq == s.mrqq && after.sched == s.sched
  }

  lemma ColumnKeepsIds(c: Config, s: State, log: Log, after: State, j: nat, id: nat, k: nat)
    requires Consistent(c, s, log) && id in s.reqs && IsColumnStep(c, s, after, j, id)
    ensures IdOk(c, after, log.(pushed := log.pushed + [id]), k)
  {
    hide DataOf, AtBanks, InSched, Base;
    assert IdOk(c, s, log, k);
    RecordAfterColumn(c, s, log, after, j, id, k);
    if k == id {
      AtBanksHas(s.banks, j, id);
      FateAfterPush(c, RecordOf(s, log, id));
    }
  }

  lemma RecordAfterColumn(c: Config, s: State, log: Log, after: State, j: nat, id: nat, k: nat)
    requires id in s.reqs && IsColumnStep(c, s, after, j, id)
    ensures var was, req := RecordOf(s, log, k), s.reqs[id].(txbytes := s.reqs[id].txbytes + c.atomSize);
            && (k == id ==> was.waiting > 0)
            && RecordOf(after, log.(pushed := log.pushed + [id]), k)
                 == if k == id then was.(live := Some(req), pushed := was.pushed + 1,
                                         waiting := was.waiting - if req.txbytes < req.nbytes then 0 else 1) else was
  {
    ColumnCounts(c, s, after, j, id, k);
    TimesOneMore(log.pushed, id, k);
    AtBanksHas(s.banks, j, id);
  }

  lemma ColumnCounts(c: Config, s: State, after: State, j: nat, id: nat, k: nat)
    requires id in s.reqs && IsColumnStep(c, s, after, j, id)
    ensures Queued(after, k) == Queued(s, k)
    ensures var stays := after.reqs[id].txbytes < after.reqs[id].nbytes;
            Waiting(after, k) == Waiting(s, k) - if k == id && !stays then 1 else 0
  {
    var b :| after.banks == s.banks[j := b]
             && b.mrq == if after.reqs[id].txbytes < after.reqs[id].nbytes then Some(id) else None;
    AtBanksWithOneChanged(s.banks, j, b, k);
    AtBanksHas(s.banks, j, id);
  }

  lemma PushedInOrder(s: State, log: Log, queue: Queue<nat>, id: nat, switching: bool, n: nat)
    requires s.rwq.Valid() && log.popped + s.rwq.Data() == log.pushed
    requires queue == if switching then s.rwq.SetMinLength(n) else s.rwq
    ensures queue.Push(Some(id)).Valid() && log.popped + queue.Push(Some(id)).Data() == log.pushed + [id]
  {
    OneOperation(s.rwq, SetMin(n));
    OneOperation(queue, PushData(id));
    assert log.popped + (queue.Data() + [id]) == log.popped + queue.Data() + [id];
  }

  lemma IssuingKeepsConsistent(c: Config, s: State, log: Log, cmd: Command)
    requires Consistent(c, s, log) && (cmd != Nop ==> cmd.bank < c.nbk)
    requires cmd.Read? || cmd.Write? ==> s.banks[cmd.bank].mrq.Some?
    ensures Consistent(c, Issued(c, s, cmd), LogIssued(s, log, cmd))
  {
    if cmd.Read? || cmd.Write? {
      ColumnKeepsConsistent(c, s, log, cmd);
    } else if cmd != Nop {
      hide DataOf, AtBanks, InSched, Fate;
      var after := Issued(c, s, cmd);
      forall k: nat
        ensures IdOk(c, after, log, k)
      {
        assert IdOk(c, s, log, k);
        RowCommandMovesNobody(c, s, log, cmd, k);
      }
    }
  }

  lemma RowCommandMovesNobody(c: Config, s: State, log: Log, cmd: Command, k: nat)
    requires s.Shaped(c) && (cmd.Act? || cmd.Pre?) && cmd.bank < c.nbk
    ensures RecordOf(Issued(c, s, cmd), log, k) == RecordOf(s, log, k)
  {
    hide DataOf, InSched;
    AtBanksWithOneChanged(s.banks, cmd.bank, Issued(c, s, cmd).banks[cmd.bank], k);
  }

  lemma ColumnKeepsConsistent(c: Config, s: State, log: Log, cmd: Command)
    requires Consistent(c, s, log) && (cmd.Read? || cmd.Write?) && cmd.bank < c.nbk && s.banks[cmd.bank].mrq.Some?
    ensures Consistent(c, Issued(c, s, cmd), LogIssued(s, log, cmd))
  {
    hide Fate, RecordOf, DataOf, AtBanks, InSched, Queue<nat>.Push, Queue<nat>.SetMinLength, Config.GroupOf;
    var j := cmd.bank;
    var id := s.banks[j].mrq.value;
    var after := Issued(c, s, cmd);
    GroupInRange(c, j);
    var minLen := if cmd.Read? then c.CL else c.WL;
    var switching := if cmd.Read? then s.writeMode else !s.writeMode;
    var queue := if switching then s.rwq.SetMinLength(minLen) else s.rwq;
    assert after.rwq == queue.Push(Some(id));
    PushedInOrder(s, log, queue, id, switching, minLen);
    assert after.banks == s.banks[j := after.banks[j]];
    assert IsColumnStep(c, s, after, j, id);
    forall k: nat
      ensures IdOk(c, after, LogIssued(s, log, cmd), k)
    {
      ColumnKeepsIds(c, s, log, after, j, id, k);
    }
  }

  // ----- a burst leaves

  ghost function LogReturned(c: Config, s: State, log: Log): Log
  {
    match Leaving(c, s)
    case None => log
    case Some(id) =>
      log.(popped := log.popped + [id],
           answered := if id in s.reqs && IsLastBurst(c, s.reqs[id]) then log.answered + [id] else log.answered)
  }

  /** One more burst of a request leaves; with the last one nothing of it is left anywhere. */
  lemma FateAfterPop(c: Config, r: Record)
    requires Fate(c, r) && r.live.Some? && r.popped < r.pushed
    ensures var req := r.live.value;
            if IsLastBurst(c, req)
            then r.waiting == 0 && Fate(c, r.(live := None, popped := r.popped + 1, answered := r.answered + 1))
            else Fate(c, r.(live := Some(req.(dqbytes := req.dqbytes + c.atomSize)), popped := r.popped + 1))
  {
    assert Base(r.popped + 1, c.atomSize) == Base(r.popped, c.atomSize) + c.atomSize;
    if IsLastBurst(c, r.live.value) {
      BaseGrows(r.popped + 1, r.pushed, c.atomSize);
      if r.popped + 1 < r.pushed {
        BaseGrows(r.popped + 1, r.pushed - 1, c.atomSize);
      }
    }
  }

  lemma RecordAfterPop(c: Config, s: State, log: Log, id: nat, k: nat)
    requires Leaving(c, s) == Some(id) && id in s.reqs
    ensures var was, req := RecordOf(s, log, k), s.reqs[id];
            RecordOf(Returned(c, s), LogReturned(c, s, log), k)
              == if k != id then was
                 else if IsLastBurst(c, req)
                 then was.(live := None, popped := was.popped + 1, answered := was.answered + 1)
                 else was.(live := Some(req.(dqbytes := req.dqbytes + c.atomSize)), popped := was.popped + 1)
  {
    hide DataOf, AtBanks, InSched, Base;
    TimesOneMore(log.popped, id, k);
    TimesOneMore(log.answered, id, k);
    var after := Returned(c, s);
    assert after.mrqq == s.mrqq && after.sched == s.sched && after.banks == s.banks;
  }

  lemma FrontIsInFlight(c: Config, s: State, log: Log, id: nat)
    requires Consistent(c, s, log) && s.rwq.Front() == Some(id)
    ensures id in s.reqs && Times(log.popped, id) < Times(log.pushed, id)
  {
    CellsAreData(s.rwq.cells, 0);
    InFlight(s, log, id);
    NothingDangles(c, s, log, id);
  }

  lemma PoppingKeepsIds(c: Config, s: State, log: Log, id: nat, k: nat)
    requires Consistent(c, s, log) && Leaving(c, s) == Some(id) && id in s.reqs
    ensures IdOk(c, Returned(c, s), LogReturned(c, s, log), k)
  {
    hide DataOf, AtBanks, InSched, Base;
    assert IdOk(c, s, log, k);
    RecordAfterPop(c, s, log, id, k);
    if k == id {
      FrontIsInFlight(c, s, log, id);
      FateAfterPop(c, RecordOf(s, log, id));
    }
  }

  lemma DelayKeepsIds(c: Config, s: State, log: Log, k: nat)
    requires IdOk(c, s, log, k) && s.rwq.Front().None?
    ensures IdOk(c, Returned(c, s), LogReturned(c, s, log), k)
  {
    hide DataOf, AtBanks, InSched, Base;
    assert RecordOf(Returned(c, s), LogReturned(c, s, log), k) == RecordOf(s, log, k);
  }

  lemma PoppedInOrder(s: State, log: Log)
    requires QueuesOk(s, log)
    ensures s.rwq.Pop().Valid()
    ensures log.popped + (if s.rwq.Front().Some? then [s.rwq.Front().value] else []) + s.rwq.Pop().Data() == log.pushed
  {
    OneOperation(s.rwq, PopData);
    var out := if s.rwq.Front().Some? then [s.rwq.Front().value] else [];
    assert log.popped + out + s.rwq.Pop().Data() == log.popped + (out + s.rwq.Pop().Data());
  }

  lemma ReturningKeepsConsistent(c: Config, s: State, log: Log)
    requires Consistent(c, s, log)
    ensures s.rwq.Front().Some? ==> s.rwq.Front().value in s.reqs
    ensures Consistent(c, Returned(c, s), LogReturned(c, s, log))
  {
    hide DataOf, Fate, RecordOf, Queue<nat>.Push;
    ConsistentCanAdmit(c, s, log);
    if !QueueFull(s.returnq, c.ReturnLimit()) {
      PoppedInOrder(s, log);
      forall k: nat
        ensures IdOk(c, Returned(c, s), LogReturned(c, s, log), k)
      {
        assert IdOk(c, s, log, k);
        if s.rwq.Front().Some? {
          PoppingKeepsIds(c, s, log, s.rwq.Front().value, k);
        } else {
          DelayKeepsIds(c, s, log, k);
        }
      }
      ReturningKeepsShape(c, s, log);
    }
  }

  lemma ReturningKeepsShape(c: Config, s: State, log: Log)
    requires Consistent(c, s, log) && (s.rwq.Front().Some? ==> s.rwq.Front().value in s.reqs)
    ensures Returned(c, s).Shaped(c)
  {
    forall b | 0 <= b < |s.banks| && s.banks[b].mrq.Some?
      ensures s.banks[b].mrq.value in Returned(c, s).reqs
    {
      var id := s.banks[b].mrq.value;
      AtBanksHas(s.banks, b, id);
      assert IdOk(c, s, log, id);
      if Leaving(c, s) == Some(id) {
        FrontIsInFlight(c, s, log, id);
        FateAfterPop(c, RecordOf(s, log, id));
      }
    }
  }

  // ----- the schedulers

  /** A request moves from a queue to a free bank. */
  lemma MovingKeepsIds(c: Config, s: State, log: Log, after: State, k: nat)
    requires Consistent(c, s, log) && after.reqs == s.reqs
    requires Waiting(after, k) == Waiting(s, k) && Queued(after, k) <= Queued(s, k)
    ensures IdOk(c, after, log, k)
  {
    assert IdOk(c, s, log, k);
    var was := RecordOf(s, log, k);
    assert RecordOf(after, log, k) == was.(queued := Queued(after, k));
  }

  lemma GivingCounts(s: State, b: nat, id: nat, x: nat)
    requires b < |s.banks| && s.banks[b].mrq.None?
    ensures AtBanks(GivenTo(s, b, id).banks, x) == AtBanks(s.banks, x) + if x == id then 1 else 0
  {
    AtBanksWithOneChanged(s.banks, b, s.banks[b].(mrq := Some(id)), x);
  }

  lemma FrontLeaves(q: Queue<nat>, x: nat)
    requires q.minLen == 0 && q.cells != [] && q.cells[0].Some?
    ensures Times(q.Data(), x) == Times(q.Pop().Data(), x) + if x == q.cells[0].value then 1 else 0
    ensures q.Pop().cells == q.cells[1..] && q.Pop().minLen == 0
  {
    OneOperation(q, PopData);
    TimesOneFirst(q.Pop().Data(), q.cells[0].value, x);
  }

  lemma FifoKeepsConsistent(c: Config, s: State, log: Log)
    requires Consistent(c, s, log)
    ensures s.mrqq.Front().Some? ==> s.mrqq.Front().value in s.reqs && s.reqs[s.mrqq.Front().value].bk < c.nbk
    ensures Consistent(c, FifoScheduled(c, s), log)
  {
    hide DataOf, AtBanks, InSched, Fate, RecordOf, Queue<nat>.Pop;
    ConsistentCanAdmit(c, s, log);
    var after := FifoScheduled(c, s);
    if s.mrqq.Front().Some? && s.banks[s.reqs[s.mrqq.Front().value].bk].mrq.None? {
      var id := s.mrqq.Front().value;
      forall k: nat
        ensures IdOk(c, after, log, k)
      {
        GivingCounts(s, s.reqs[id].bk, id, k);
        FrontLeaves(s.mrqq, k);
        MovingKeepsIds(c, s, log, after, k);
      }
      FrontLeaves(s.mrqq, 0);
    }
  }

  lemma AdmittingOneKeepsConsistent(c: Config, s: State, log: Log)
    requires Consistent(c, s, log) && CanAdmit(c, s) && s.mrqq.cells != []
    ensures Consistent(c, AdmittedOne(c, s), log)
  {
    var after := AdmittedOne(c, s);
    var id := s.mrqq.cells[0].value;
    var req := FrFcfs.Req(id, s.reqs[id].bk, s.reqs[id].row);
    forall k: nat
      ensures IdOk(c, after, log, k)
    {
      FrontLeaves(s.mrqq, k);
      InSchedWithOneChanged(s.sched, req.bk, FrFcfs.Added(s.sched[req.bk], req), k);
      InQueueAdded(s.sched[req.bk].queue, req, k);
      MovingKeepsIds(c, s, log, after, k);
    }
    FrontLeaves(s.mrqq, 0);
  }

  lemma {:induction false} AdmittingKeepsConsistent(c: Config, s: State, log: Log)
    requires Consistent(c, s, log) && CanAdmit(c, s)
    ensures Consistent(c, Admitted(c, s), log)
    decreases |s.mrqq.cells|
  {
    if !(s.mrqq.cells == [] || (c.schedQueueSize > 0 && Pending(s.sched) >= c.schedQueueSize)) {
      AdmittingOneKeepsConsistent(c, s, log);
      AdmittingKeepsConsistent(c, AdmittedOne(c, s), log);
    }
  }

  lemma PickingKeepsConsistent(c: Config, s: State, log: Log, b: nat)
    requires Consistent(c, s, log) && b < c.nbk && s.sched[b].queue != [] && s.banks[b].mrq.None?
    ensures Consistent(c, Picked(c, s, b), log)
  {
    var after := Picked(c, s, b);
    var bank, row := s.sched[b], s.banks[b].currRow;
    var i := FrFcfs.OldestOf(bank.queue, FrFcfs.RowServed(bank, row));
    var id := bank.queue[i].id;
    forall k: nat
      ensures IdOk(c, after, log, k)
    {
      GivingCounts(s, b, id, k);
      InSchedWithOneChanged(s.sched, b, FrFcfs.Scheduled(bank, row), k);
      InQueueWithout(bank.queue, i, k);
      MovingKeepsIds(c, s, log, after, k);
    }
    InQueueWithout(bank.queue, i, id);
    InSchedWithOneChanged(s.sched, b, FrFcfs.Scheduled(bank, row), id);
    NothingDangles(c, s, log, id);
  }

  lemma FrfcfsKeepsConsistent(c: Config, s: State, log: Log)
    requires Consistent(c, s, log)
    ensures CanAdmit(c, s) && Consistent(c, FrfcfsScheduled(c, s), log)
  {
    ConsistentCanAdmit(c, s, log);
    AdmittingKeepsConsistent(c, s, log);
    var admitted := Admitted(c, s);
    if FirstServable(c, admitted, 0).Some? {
      ServableIsABank(c, admitted, 0);
      PickingKeepsConsistent(c, admitted, log, FirstServable(c, admitted, 0).value);
    }
  }

  // ----- the counters

  lemma TickingKeepsConsistent(c: Config, s: State, log: Log)
    requires Consistent(c, s, log)
    ensures Consistent(c, Ticked(s), log)
  {
    hide DataOf, AtBanks, InSched, Base;
    forall k: nat
      ensures IdOk(c, Ticked(s), log, k)
    {
      assert IdOk(c, s, log, k);
      TickingMovesNobody(s.banks, Ticked(s).banks, k);
      assert RecordOf(Ticked(s), log, k) == RecordOf(s, log, k);
    }
  }

  lemma {:induction false} TickingMovesNobody(a: seq<BankState>, b: seq<BankState>, id: nat)
    requires |a| == |b| && forall i :: 0 <= i < |a| ==> a[i].mrq == b[i].mrq
    ensures AtBanks(a, id) == AtBanks(b, id)
  {
    if a != [] {
      TickingMovesNobody(a[..|a| - 1], b[..|b| - 1], id);
    }
  }
}
