/** The state of one DRAM partition and what each phase of a memory cycle does to it. */
module DramModel {
  import opened DelayQueue
  import opened Options
  import FrFcfs

  /** Timing parameters, in command cycles.  groupSpan is the number of banks that share a bank
      group, a power of two; readToPrecharge is the burst length over the data-command frequency
      ratio. */
  datatype Config = Config(nbk: nat, nbkgrp: nat, groupSpan: nat, CL: nat, WL: nat, atomSize: nat,
                           tCCD: nat, tCCDL: nat, tRRD: nat, tRCD: nat, tRCDWR: nat, tRAS: nat, tRP: nat, tRC: nat,
                           tWTP: nat, readToPrecharge: nat, tRTPL: nat, tRTW: nat, tWTR: nat,
                           frfcfs: bool, schedQueueSize: nat, returnQueueSize: nat)
  {
    ghost predicate Valid()
    {
      nbk > 0 && groupSpan > 0 && atomSize > 0 && (nbk - 1) / groupSpan < nbkgrp
    }

    /** The return queue's limit; an unset size means 1024. */
    function ReturnLimit(): nat
    {
      if returnQueueSize == 0 then 1024 else returnQueueSize
    }

    function GroupOf(bank: nat): nat
      requires groupSpan > 0
    {
      bank / groupSpan
    }
  }

  datatype Request = Request(bk: nat, row: nat, nbytes: nat, isWrite: bool, isWriteback: bool, txbytes: nat,
                             dqbytes: nat)

  datatype BankState = BankState(RCDc: nat, RCDWRc: nat, RASc: nat, RPc: nat, RCc: nat, WTPc: nat, RTPc: nat,
                                 active: bool, currRow: nat, mrq: Option<nat>)

  datatype BankGroup = BankGroup(CCDLc: nat, RTPLc: nat)

  /** Requests are named by ids; reqs holds those not yet freed. */
  datatype State = State(banks: seq<BankState>, groups: seq<BankGroup>, RRDc: nat, CCDc: nat, RTWc: nat, WTRc: nat,
                         writeMode: bool, prio: nat, reqs: map<nat, Request>,
                         rwq: Queue<nat>, mrqq: Queue<nat>, sched: seq<FrFcfs.Bank>, returnq: Queue<nat>)
  {
    ghost predicate Shaped(c: Config)
    {
      && c.Valid() && |banks| == c.nbk && |groups| == c.nbkgrp && |sched| == c.nbk && prio < c.nbk
      && (forall b :: 0 <= b < |sched| ==> FrFcfs.BankValid(sched[b]))
      && forall b :: 0 <= b < |banks| && banks[b].mrq.Some? ==> banks[b].mrq.value in reqs
    }
  }

  datatype Command =
    Nop | Act(bank: nat, row: nat) | Pre(bank: nat) | Read(bank: nat, row: nat) | Write(bank: nat, row: nat)

  // ----- choosing a command

  predicate QueueFull<T>(q: Queue<T>, maxLen: nat)
  {
    0 < maxLen <= |q.cells|
  }

  lemma GroupInRange(c: Config, b: nat)
    requires c.Valid() && b < c.nbk
    ensures c.GroupOf(b) < c.nbkgrp
  {
    Quotients(b, c.nbk - 1, c.groupSpan);
  }

  lemma Quotients(a: nat, b: nat, d: nat)
    requires a <= b && d > 0
    ensures a / d <= b / d
  {
    if a / d > b / d {
      ProductsGrow(d, b / d + 1, a / d);
      assert false;
    }
  }

  lemma ProductsGrow(d: nat, x: nat, y: nat)
    requires x <= y
    ensures d * x <= d * y
  {
  }

  /** The command bank j would issue now. */
  function CommandFor(c: Config, s: State, j: nat): Command
    requires s.Shaped(c) && j < c.nbk
  {
    GroupInRange(c, j);
    var b, g := s.banks[j], s.groups[c.GroupOf(j)];
    if b.mrq.None? then Nop
    else
      var r := s.reqs[b.mrq.value];
      var columnReady := s.CCDc == 0 && g.CCDLc == 0 && b.currRow == r.row && b.active && !QueueFull(s.rwq, c.CL + 1);
      if columnReady && b.RCDc == 0 && !r.isWrite && s.WTRc == 0 then Read(j, b.currRow)
      else if columnReady && b.RCDWRc == 0 && r.isWrite && s.RTWc == 0 then Write(j, b.currRow)
      else if s.RRDc == 0 && !b.active && b.RPc == 0 && b.RCc == 0 then Act(j, r.row)
      else if b.currRow != r.row && b.active && b.RASc == 0 && b.WTPc == 0 && b.RTPc == 0 && g.RTPLc == 0 then Pre(j)
      else Nop
  }

  /** Banks are asked from prio on, round the partition; the first that can issue does. */
  function Choice(c: Config, s: State, i: nat): Command
    requires s.Shaped(c) && i <= c.nbk
    decreases c.nbk - i
  {
    if i == c.nbk then Nop
    else
      var cmd := CommandFor(c, s, (i + s.prio) % c.nbk);
      if cmd != Nop then cmd else Choice(c, s, i + 1)
  }

  // ----- issuing it

  function ColumnDone(c: Config, s: State, j: nat, bank: BankState, group: BankGroup, minLen: nat,
                      switching: bool): State
    requires s.Shaped(c) && j < c.nbk && s.banks[j].mrq.Some? && c.GroupOf(j) < |s.groups|
  {
    var id := s.banks[j].mrq.value;
    var r := s.reqs[id].(txbytes := s.reqs[id].txbytes + c.atomSize);
    var queue := if switching then s.rwq.SetMinLength(minLen) else s.rwq;
    s.(banks := s.banks[j := bank.(mrq := if r.txbytes < r.nbytes then Some(id) else None)],
       groups := s.groups[c.GroupOf(j) := group],
       CCDc := c.tCCD, rwq := queue.Push(Some(id)), reqs := s.reqs[id := r])
  }

  function Issued(c: Config, s: State, cmd: Command): State
    requires s.Shaped(c) && (cmd != Nop ==> cmd.bank < c.nbk)
    requires cmd.Read? || cmd.Write? ==> s.banks[cmd.bank].mrq.Some?
  {
    match cmd
    case Nop => s
    case Read(j, _) =>
      GroupInRange(c, j);
      ColumnDone(c, s, j, s.banks[j].(RTPc := c.readToPrecharge), BankGroup(c.tCCDL, c.tRTPL), c.CL, s.writeMode)
        .(writeMode := false, RTWc := c.tRTW)
    case Write(j, _) =>
      GroupInRange(c, j);
      ColumnDone(c, s, j, s.banks[j].(WTPc := c.tWTP), s.groups[c.GroupOf(j)].(CCDLc := c.tCCDL), c.WL, !s.writeMode)
        .(writeMode := true, WTRc := c.tWTR)
    case Act(j, row) =>
      s.(banks := s.banks[j := s.banks[j].(currRow := row, active := true, RCDc := c.tRCD, RCDWRc := c.tRCDWR,
                                           RASc := c.tRAS, RCc := c.tRC)],
         RRDc := c.tRRD, prio := (j + 1) % c.nbk)
    case Pre(j) =>
      s.(banks := s.banks[j := s.banks[j].(active := false, RPc := c.tRP)], prio := (j + 1) % c.nbk)
  }

  // ----- the end of the cycle

  function Down(x: nat): nat
  {
    if x > 0 then x - 1 else 0
  }

  function BankTick(b: BankState): BankState
  {
    b.(RCDc := Down(b.RCDc), RASc := Down(b.RASc), RCc := Down(b.RCc), RPc := Down(b.RPc),
       RCDWRc := Down(b.RCDWRc), WTPc := Down(b.WTPc), RTPc := Down(b.RTPc))
  }

  function GroupTick(g: BankGroup): BankGroup
  {
    BankGroup(Down(g.CCDLc), Down(g.RTPLc))
  }

  function Ticked(s: State): State
  {
    s.(RRDc := Down(s.RRDc), CCDc := Down(s.CCDc), RTWc := Down(s.RTWc), WTRc := Down(s.WTRc),
       banks := seq(|s.banks|, i requires 0 <= i < |s.banks| => BankTick(s.banks[i])),
       groups := seq(|s.groups|, i requires 0 <= i < |s.groups| => GroupTick(s.groups[i])))
  }

  // ----- the start of the cycle: data leave the pipeline

  /** The request whose burst leaves this cycle, if any. */
  function Leaving(c: Config, s: State): Option<nat>
  {
    if QueueFull(s.returnq, c.ReturnLimit()) then None else s.rwq.Front()
  }

  /** A request is answered when its last burst leaves. */
  function IsLastBurst(c: Config, r: Request): bool
  {
    r.dqbytes + c.atomSize >= r.nbytes
  }

  /** A finished request is freed; its data go to the return queue unless it was a write-back. */
  function Returned(c: Config, s: State): State
    requires s.rwq.Front().Some? ==> s.rwq.Front().value in s.reqs
  {
    if QueueFull(s.returnq, c.ReturnLimit()) then s
    else
      var popped := s.(rwq := s.rwq.Pop());
      match s.rwq.Front()
      case None => popped
      case Some(id) =>
        var r := s.reqs[id];
        if IsLastBurst(c, r) then
          popped.(reqs := s.reqs - {id}, returnq := if r.isWriteback then s.returnq else s.returnq.Push(Some(id)))
        else popped.(reqs := s.reqs[id := r.(dqbytes := r.dqbytes + c.atomSize)])
  }

  // ----- the schedulers: requests move to idle banks

  function GivenTo(s: State, b: nat, id: nat): State
    requires b < |s.banks|
  {
    s.(banks := s.banks[b := s.banks[b].(mrq := Some(id))])
  }

  function FifoScheduled(c: Config, s: State): State
    requires s.Shaped(c)
    requires s.mrqq.Front().Some? ==> s.mrqq.Front().value in s.reqs && s.reqs[s.mrqq.Front().value].bk < c.nbk
  {
    match s.mrqq.Front()
    case None => s
    case Some(id) =>
      var bkn := s.reqs[id].bk;
      if s.banks[bkn].mrq.Some? then s else GivenTo(s, bkn, id).(mrqq := s.mrqq.Pop())
  }

  function Pending(sched: seq<FrFcfs.Bank>): nat
  {
    if sched == [] then 0 else Pending(sched[..|sched| - 1]) + |sched[|sched| - 1].queue|
  }

  ghost predicate CanAdmit(c: Config, s: State)
  {
    && (forall i :: 0 <= i < |s.mrqq.cells| ==> s.mrqq.cells[i].Some? && s.mrqq.cells[i].value in s.reqs)
    && (forall id :: id in s.reqs ==> s.reqs[id].bk < c.nbk)
    && s.mrqq.minLen == 0
  }

  /** Requests enter the scheduler while it has room. */
  function Admitted(c: Config, s: State): State
    requires s.Shaped(c) && CanAdmit(c, s)
    decreases |s.mrqq.cells|
  {
    if s.mrqq.cells == [] || (c.schedQueueSize > 0 && Pending(s.sched) >= c.schedQueueSize) then s
    else Admitted(c, AdmittedOne(c, s))
  }

  function AdmittedOne(c: Config, s: State): (after: State)
    requires s.Shaped(c) && CanAdmit(c, s) && s.mrqq.cells != []
    ensures after.Shaped(c) && CanAdmit(c, after)
  {
    var id := s.mrqq.cells[0].value;
    var req := FrFcfs.Req(id, s.reqs[id].bk, s.reqs[id].row);
    FrFcfs.AddingKeepsRows(s.sched[req.bk].queue, req);
    s.(mrqq := s.mrqq.Pop(), sched := s.sched[req.bk := FrFcfs.Added(s.sched[req.bk], req)])
  }

  /** The first bank from prio on that is free and has a request gets one. */
  function FirstServable(c: Config, s: State, i: nat): Option<nat>
    requires s.Shaped(c) && i <= c.nbk
    decreases c.nbk - i
  {
    if i == c.nbk then None
    else
      var b := (i + s.prio) % c.nbk;
      if s.banks[b].mrq.None? && s.sched[b].queue != [] then Some(b) else FirstServable(c, s, i + 1)
  }

  function Picked(c: Config, s: State, b: nat): State
    requires s.Shaped(c) && b < c.nbk && s.sched[b].queue != []
  {
    var row := s.banks[b].currRow;
    GivenTo(s, b, FrFcfs.Served(s.sched[b], row).value.id)
      .(prio := (s.prio + 1) % c.nbk, sched := s.sched[b := FrFcfs.Scheduled(s.sched[b], row)])
  }

  function FrfcfsScheduled(c: Config, s: State): State
    requires s.Shaped(c) && CanAdmit(c, s)
  {
    var admitted := Admitted(c, s);
    AdmittingKeepsShape(c, s);
    if FirstServable(c, admitted, 0).None? then admitted
    else
      ServableIsABank(c, admitted, 0);
      Picked(c, admitted, FirstServable(c, admitted, 0).value)
  }

  lemma {:induction false} AdmittingKeepsShape(c: Config, s: State)
    requires s.Shaped(c) && CanAdmit(c, s)
    ensures Admitted(c, s).Shaped(c) && CanAdmit(c, Admitted(c, s))
    ensures Admitted(c, s) == s.(mrqq := Admitted(c, s).mrqq, sched := Admitted(c, s).sched)
    decreases |s.mrqq.cells|
  {
    if !(s.mrqq.cells == [] || (c.schedQueueSize > 0 && Pending(s.sched) >= c.schedQueueSize)) {
      AdmittingKeepsShape(c, AdmittedOne(c, s));
    }
  }

  lemma {:induction false} ServableIsABank(c: Config, s: State, i: nat)
    requires s.Shaped(c) && i <= c.nbk && FirstServable(c, s, i).Some?
    ensures var b := FirstServable(c, s, i).value; b < c.nbk && s.banks[b].mrq.None? && s.sched[b].queue != []
    decreases c.nbk - i
  {
    var b := (i + s.prio) % c.nbk;
    if !(s.banks[b].mrq.None? && s.sched[b].queue != []) {
      ServableIsABank(c, s, i + 1);
    }
  }
}
