/** A DRAM partition as the program keeps it: counters, bank records and queues changed in place. */
module Dram {
  import opened DelayQueue
  import opened Options
  import opened DramModel
  import opened DramTiming
  import opened DramBurst
  import opened DramRuns
  import FrFcfs

  class DramPartition {
    const config: Config
    const banks: array<BankState>
    const groups: array<BankGroup>
    var RRDc: nat
    var CCDc: nat
    var RTWc: nat
    var WTRc: nat
    var writeMode: bool
    var prio: nat
    var reqs: map<nat, Request>
    var rwq: Queue<nat>
    var mrqq: Queue<nat>
    var sched: seq<FrFcfs.Bank>
    var returnq: Queue<nat>
    ghost var log: Log

    ghost function View(): State
      reads this, banks, groups
    {
      State(banks[..], groups[..], RRDc, CCDc, RTWc, WTRc, writeMode, prio, reqs, rwq, mrqq, sched, returnq)
    }

    ghost predicate Shaped()
      reads this, banks, groups
    {
      View().Shaped(config)
    }

    ghost predicate Valid()
      reads this, banks, groups
    {
      Consistent(config, View(), log)
    }

    ghost function Now(): Moment
      reads this, banks, groups
    {
      Moment(View(), log)
    }

    constructor (c: Config)
      requires c.Valid()
      ensures Valid() && fresh(banks) && fresh(groups) && config == c
      ensures Some(Now()) == DramRuns.Run(c, [])
    {
      config := c;
      banks := new BankState[c.nbk](_ => BankState(0, 0, 0, 0, 0, 0, 0, false, 0, None));
      groups := new BankGroup[c.nbkgrp](_ => BankGroup(0, 0));
      RRDc, CCDc, RTWc, WTRc, writeMode, prio := 0, 0, 0, 0, false, 0;
      reqs, mrqq, returnq := map[], Queue([], 0), Queue([], 0);
      rwq := Queue<nat>.Queue([], 0).SetMinLength(c.CL);
      sched := seq(c.nbk, _ => FrFcfs.Bank([], None));
      log := Log([], [], [], map[]);
      new;
      InitialIsConsistent(c);
      assert banks[..] == Initial(c).banks;
      assert groups[..] == Initial(c).groups;
      assert View() == Initial(c);
    }

    // ----- the phases of a cycle

    method ReturnData()
      requires rwq.Front().Some? ==> rwq.Front().value in reqs
      modifies this`reqs, this`rwq, this`returnq
      ensures View() == Returned(config, old(View()))
    {
      if !QueueFull(returnq, config.ReturnLimit()) {
        var cmd := rwq.Front();
        rwq := rwq.Pop();
        if cmd.Some? {
          var r := reqs[cmd.value];
          r := r.(dqbytes := r.dqbytes + config.atomSize);
          if r.dqbytes >= r.nbytes {
            if !r.isWriteback {
              returnq := returnq.Push(cmd);
            }
            reqs := reqs - {cmd.value};
          } else {
            reqs := reqs[cmd.value := r];
          }
        }
      }
    }

    method SchedulerFifo()
      requires Shaped() && (mrqq.Front().Some?
                            ==> mrqq.Front().value in reqs && reqs[mrqq.Front().value].bk < config.nbk)
      modifies this`mrqq, banks
      ensures View() == FifoScheduled(config, old(View()))
    {
      var head := mrqq.Front();
      if head.Some? {
        var bkn := reqs[head.value].bk;
        if banks[bkn].mrq.None? {
          banks[bkn] := banks[bkn].(mrq := head);
          mrqq := mrqq.Pop();
          assert View().banks == FifoScheduled(config, old(View())).banks;
        }
      }
    }

    method SchedulerFrfcfs()
      requires Shaped() && CanAdmit(config, View())
      modifies this`mrqq, this`sched, this`prio, banks
      ensures View() == FrfcfsScheduled(config, old(View()))
    {
      AdmittingKeepsShape(config, View());
      AdmitRequests();
      ServeOneBank();
    }

    /** Requests enter the scheduler while it has room. */
    method AdmitRequests()
      requires Shaped() && CanAdmit(config, View())
      modifies this`mrqq, this`sched
      ensures View() == Admitted(config, old(View()))
    {
      while mrqq.cells != [] && (config.schedQueueSize == 0 || Pending(sched) < config.schedQueueSize)
        invariant Shaped() && CanAdmit(config, View())
        invariant Admitted(config, View()) == Admitted(config, old(View()))
        decreases |mrqq.cells|
      {
        ghost var s := View();
        var id := mrqq.cells[0].value;
        var req := FrFcfs.Req(id, reqs[id].bk, reqs[id].row);
        mrqq := mrqq.Pop();
        sched := sched[req.bk := FrFcfs.Added(sched[req.bk], req)];
        assert View() == AdmittedOne(config, s);
      }
    }

    /** The first bank from prio on that is free and has a request gets one. */
    method ServeOneBank()
      requires Shaped()
      modifies this`sched, this`prio, banks
      ensures var s := old(View());
              View() == if FirstServable(config, s, 0).None? then s
                        else (ServableIsABank(config, s, 0); Picked(config, s, FirstServable(config, s, 0).value))
    {
      hide Picked;
      ghost var s := View();
      for i := 0 to config.nbk
        invariant View() == s
        invariant FirstServable(config, s, i) == FirstServable(config, s, 0)
      {
        var b := (i + prio) % config.nbk;
        if banks[b].mrq.None? {
          var req := FrFcfs.Served(sched[b], banks[b].currRow);
          if req.Some? {
            Give(b, req.value.id);
            return;
          }
        }
      }
    }

    method Give(b: nat, id: nat)
      requires Shaped() && b < config.nbk && sched[b].queue != []
      requires id == FrFcfs.Served(sched[b], banks[b].currRow).value.id
      modifies this`sched, this`prio, banks
      ensures View() == Picked(config, old(View()), b)
    {
      sched := sched[b := FrFcfs.Scheduled(sched[b], banks[b].currRow)];
      prio := (prio + 1) % config.nbk;
      banks[b] := banks[b].(mrq := Some(id));
      assert banks[..] == Picked(config, old(View()), b).banks;
    }

    // ----- the four commands

    method Activate(j: nat, row: nat)
      requires Shaped() && j < config.nbk
      modifies this`RRDc, this`prio, banks
      ensures View() == Issued(config, old(View()), Act(j, row))
    {
      banks[j] := banks[j].(currRow := row, active := true, RCDc := config.tRCD, RCDWRc := config.tRCDWR,
                            RASc := config.tRAS, RCc := config.tRC);
      RRDc := config.tRRD;
      prio := (j + 1) % config.nbk;
      assert banks[..] == Issued(config, old(View()), Act(j, row)).banks;
    }

    method Precharge(j: nat)
      requires Shaped() && j < config.nbk
      modifies this`prio, banks
      ensures View() == Issued(config, old(View()), Pre(j))
    {
      banks[j] := banks[j].(active := false, RPc := config.tRP);
      prio := (j + 1) % config.nbk;
      assert banks[..] == Issued(config, old(View()), Pre(j)).banks;
    }

    method SetBank(j: nat, b: BankState)
      requires j < banks.Length
      modifies banks
      ensures banks[..] == old(banks[..])[j := b]
    {
      banks[j] := b;
    }

    method SetGroup(g: nat, group: BankGroup)
      requires g < groups.Length
      modifies groups
      ensures groups[..] == old(groups[..])[g := group]
    {
      groups[g] := group;
    }

    /** What reads and writes have in common: the delay of the pipeline is switched to the kind of
        access, and a burst enters it. */
    method StartColumn(j: nat, toWrite: bool, minLen: nat)
      requires j < banks.Length && banks[j].mrq.Some? && banks[j].mrq.value in reqs
      modifies this`writeMode, this`rwq, this`reqs, this`CCDc, banks
      ensures writeMode == toWrite && CCDc == config.tCCD
      ensures var id := old(banks[j].mrq.value);
              var r := old(reqs)[id].(txbytes := old(reqs)[id].txbytes + config.atomSize);
              var bank := old(banks[j]).(mrq := if r.txbytes < r.nbytes then Some(id) else None);
              && reqs == old(reqs)[id := r] && banks[..] == old(banks[..])[j := bank] && banks[j] == bank
              && rwq == (if old(writeMode) != toWrite then old(rwq).SetMinLength(minLen) else old(rwq)).Push(Some(id))
    {
      hide Queue<nat>.Push, Queue<nat>.SetMinLength;
      if writeMode != toWrite {
        writeMode := toWrite;
        rwq := rwq.SetMinLength(minLen);
      }
      Transfer(j, banks[j].mrq.value);
      assert banks[j] == banks[..][j];
    }

    method IssueRead(j: nat)
      requires Shaped() && j < config.nbk && banks[j].mrq.Some?
      modifies this`writeMode, this`rwq, this`reqs, this`CCDc, this`RTWc, banks, groups
      ensures View() == Issued(config, old(View()), Read(j, old(banks[j].currRow)))
    {
      ShapedAt(config, View(), j);
      hide Issued, Queue<nat>.Push, Queue<nat>.SetMinLength, State.Shaped, Config.Valid, Config.GroupOf;
      var grp := config.GroupOf(j);
      StartColumn(j, false, config.CL);
      SetGroup(grp, BankGroup(config.tCCDL, config.tRTPL));
      RTWc := config.tRTW;
      SetBank(j, banks[j].(RTPc := config.readToPrecharge));
      assert ColumnChanges(config, old(View()), j, View(), old(banks[j]).(RTPc := config.readToPrecharge),
                           BankGroup(config.tCCDL, config.tRTPL),
                           if old(writeMode) then old(rwq).SetMinLength(config.CL) else old(rwq));
      hide ColumnChanges;
      ReadChanges(config, old(View()), j, View());
    }

    method IssueWrite(j: nat)
      requires Shaped() && j < config.nbk && banks[j].mrq.Some?
      modifies this`writeMode, this`rwq, this`reqs, this`CCDc, this`WTRc, banks, groups
      ensures View() == Issued(config, old(View()), Write(j, old(banks[j].currRow)))
    {
      ShapedAt(config, View(), j);
      hide Issued, Queue<nat>.Push, Queue<nat>.SetMinLength, State.Shaped, Config.Valid, Config.GroupOf;
      var grp := config.GroupOf(j);
      var group := groups[grp].(CCDLc := config.tCCDL);
      StartColumn(j, true, config.WL);
      SetGroup(grp, group);
      WTRc := config.tWTR;
      SetBank(j, banks[j].(WTPc := config.tWTP));
      assert ColumnChanges(config, old(View()), j, View(), old(banks[j]).(WTPc := config.tWTP), group,
                           if !old(writeMode) then old(rwq).SetMinLength(config.WL) else old(rwq));
      hide ColumnChanges;
      WriteChanges(config, old(View()), j, View());
    }

    /** One burst of the bank's request enters the data pipeline; after the last the bank is free. */
    method Transfer(j: nat, id: nat)
      requires j < banks.Length && banks[j].mrq == Some(id) && id in reqs
      modifies this`rwq, this`reqs, this`CCDc, banks
      ensures rwq == old(rwq).Push(Some(id)) && CCDc == config.tCCD
      ensures var r := old(reqs)[id].(txbytes := old(reqs)[id].txbytes + config.atomSize);
              && reqs == old(reqs)[id := r]
              && var bank := old(banks[j]).(mrq := if r.txbytes < r.nbytes then Some(id) else None);
                 banks[..] == old(banks[..])[j := bank]
    {
      rwq := rwq.Push(Some(id));
      var r := reqs[id];
      r := r.(txbytes := r.txbytes + config.atomSize);
      reqs := reqs[id := r];
      CCDc := config.tCCD;
      if !(r.txbytes < r.nbytes) {
        banks[j] := banks[j].(mrq := None);
      }
      assert banks[..] == old(banks[..])[j := banks[j]];
    }

    /** What bank j does with its turn. */
    method IssueAt(j: nat) returns (issued: bool)
      requires Shaped() && j < config.nbk
      modifies this, banks, groups
      ensures log == old(log)
      ensures issued == (CommandFor(config, old(View()), j) != Nop)
      ensures CommandFor(config, old(View()), j) != Nop
              ==> old(banks[j].mrq).Some? && CommandFor(config, old(View()), j).bank == j
      ensures View() == Issued(config, old(View()), CommandFor(config, old(View()), j))
    {
      hide Issued;
      GroupInRange(config, j);
      NopChangesNothing(config, View());
      var b, grp := banks[j], config.GroupOf(j);
      if b.mrq.None? {
        return false;
      }
      var r := reqs[b.mrq.value];
      if CCDc == 0 && b.RCDc == 0 && groups[grp].CCDLc == 0 && b.currRow == r.row && !r.isWrite && WTRc == 0 && b.active
         && !QueueFull(rwq, config.CL + 1) {
        IssueRead(j);
        return true;
      } else if CCDc == 0 && b.RCDWRc == 0 && groups[grp].CCDLc == 0 && b.currRow == r.row && r.isWrite && RTWc == 0
        && b.active
                && !QueueFull(rwq, config.CL + 1) {
        IssueWrite(j);
        return true;
      } else if RRDc == 0 && !b.active && b.RPc == 0 && b.RCc == 0 {
        Activate(j, r.row);
        return true;
      } else if b.currRow != r.row && b.active && b.RASc == 0 && b.WTPc == 0 && b.RTPc == 0 && groups[grp].RTPLc == 0 {
        Precharge(j);
        return true;
      }
      return false;
    }

    /** The banks take turns from prio on; only one command is issued. */
    method IssueCommands()
      requires Shaped()
      modifies this, banks, groups
      ensures log == old(log)
      ensures var cmd := Choice(config, old(View()), 0);
              && (cmd != Nop ==> cmd.bank < config.nbk && old(View()).banks[cmd.bank].mrq.Some?)
              && View() == Issued(config, old(View()), cmd)
    {
      ghost var s := View();
      ChoiceIsReady(config, s, 0);
      var issued := false;
      for i := 0 to config.nbk
        invariant log == old(log)
        invariant !issued ==> View() == s && Choice(config, s, i) == Choice(config, s, 0)
        invariant issued ==> View() == Issued(config, s, Choice(config, s, 0))
      {
        var j := (i + prio) % config.nbk;
        if !issued {
          issued := IssueAt(j);
        }
      }
    }

    /** Every counter goes down towards zero. */
    method Tick()
      modifies this`RRDc, this`CCDc, this`RTWc, this`WTRc, banks, groups
      ensures View() == Ticked(old(View()))
    {
      RRDc, CCDc, RTWc, WTRc := Down(RRDc), Down(CCDc), Down(RTWc), Down(WTRc);
      for j := 0 to banks.Length
        invariant forall k :: 0 <= k < banks.Length ==>
                    banks[k] == if k < j then BankTick(old(banks[k])) else old(banks[k])
        invariant groups[..] == old(groups[..])
        invariant RRDc == Down(old(RRDc)) && CCDc == Down(old(CCDc)) && RTWc == Down(old(RTWc))
                  && WTRc == Down(old(WTRc))
      {
        banks[j] := BankTick(banks[j]);
      }
      assert banks[..] == Ticked(old(View())).banks;
      for j := 0 to groups.Length
        invariant forall k :: 0 <= k < groups.Length ==>
                    groups[k] == if k < j then GroupTick(old(groups[k])) else old(groups[k])
        invariant banks[..] == Ticked(old(View())).banks
        invariant RRDc == Down(old(RRDc)) && CCDc == Down(old(CCDc)) && RTWc == Down(old(RTWc))
                  && WTRc == Down(old(WTRc))
      {
        groups[j] := GroupTick(groups[j]);
      }
      assert groups[..] == Ticked(old(View())).groups;
    }

    // ----- the events of a run

    method Cycle()
      requires Valid()
      modifies this, banks, groups
      ensures Valid() && Now() == Next(config, old(Now()), DramRuns.Cycle)
    {
      hide Consistent, Issued, Returned, FifoScheduled, FrfcfsScheduled, Ticked, LogIssued, LogReturned;
      ghost var s, l := View(), log;
      ReturningKeepsConsistent(config, s, l);
      ReturnData();
      ghost var returned := View();
      log := LogReturned(config, s, l);
      ConsistentCanSchedule(config, returned, log);
      if config.frfcfs {
        SchedulerFrfcfs();
      } else {
        SchedulerFifo();
      }
      ghost var chosen := View();
      assert chosen == BeforeIssue(config, s, l);
      ConsistentIsShaped(config, chosen, log);
      IssueCommands();
      log := LogIssued(chosen, log, Choice(config, chosen, 0));
      Tick();
      assert Now() == AfterCycle(config, Moment(s, l));
    }

    /** A new request object of a memory fetch. */
    method Push(id: nat, bk: nat, row: nat, nbytes: nat, isWrite: bool, isWriteback: bool)
      requires Valid() && Allowed(config, Now(), Accept(id, bk, row, nbytes, isWrite, isWriteback))
      modifies this`reqs, this`mrqq, this`log
      ensures Valid() && Now() == Next(config, old(Now()), Accept(id, bk, row, nbytes, isWrite, isWriteback))
    {
      ghost var before := Now();
      reqs := reqs[id := Request(bk, row, nbytes, isWrite, isWriteback, 0, 0)];
      mrqq := mrqq.Push(Some(id));
      log := log.(sizes := log.sizes[id := nbytes]);
      assert Now() == Next(config, before, Accept(id, bk, row, nbytes, isWrite, isWriteback));
    }

    method ReturnQueuePop() returns (data: Option<nat>)
      requires Valid()
      modifies this`returnq
      ensures data == old(returnq).Front()
      ensures Valid() && Now() == Next(config, old(Now()), TakeAnswer)
    {
      ghost var before := Now();
      data := returnq.Front();
      returnq := returnq.Pop();
      assert Now() == Next(config, before, TakeAnswer);
    }
  }

  lemma ShapedAt(c: Config, s: State, j: nat)
    requires s.Shaped(c) && j < c.nbk
    ensures |s.banks| == c.nbk && |s.groups| == c.nbkgrp && c.groupSpan > 0 && c.GroupOf(j) < |s.groups|
    ensures s.banks[j].mrq.Some? ==> s.banks[j].mrq.value in s.reqs
  {
    GroupInRange(c, j);
  }

  /** What a column command leaves behind, field by field. */
  ghost predicate ColumnChanges(c: Config, s: State, j: nat, after: State, bank: BankState, group: BankGroup,
                                queue: Queue<nat>)
    requires s.Shaped(c) && j < c.nbk && s.banks[j].mrq.Some?
  {
    var id := s.banks[j].mrq.value;
    var r := s.reqs[id].(txbytes := s.reqs[id].txbytes + c.atomSize);
    && after.banks == s.banks[j := bank.(mrq := if r.txbytes < r.nbytes then Some(id) else None)]
    && c.GroupOf(j) < |s.groups| && after.groups == s.groups[c.GroupOf(j) := group]
    && after.reqs == s.reqs[id := r] && after.rwq == queue.Push(Some(id)) && after.CCDc == c.tCCD
       && after.RRDc == s.RRDc
    && after.prio == s.prio && after.mrqq == s.mrqq && after.sched == s.sched && after.returnq == s.returnq
  }

  lemma ReadChanges(c: Config, s: State, j: nat, after: State)
    requires s.Shaped(c) && j < c.nbk && s.banks[j].mrq.Some?
    requires ColumnChanges(c, s, j, after, s.banks[j].(RTPc := c.readToPrecharge), BankGroup(c.tCCDL, c.tRTPL),
                           if s.writeMode then s.rwq.SetMinLength(c.CL) else s.rwq)
    requires !after.writeMode && after.RTWc == c.tRTW && after.WTRc == s.WTRc
    ensures after == Issued(c, s, Read(j, s.banks[j].currRow))
  {
    GroupInRange(c, j);
  }

  lemma WriteChanges(c: Config, s: State, j: nat, after: State)
    requires s.Shaped(c) && j < c.nbk && s.banks[j].mrq.Some? && c.GroupOf(j) < |s.groups|
    requires ColumnChanges(c, s, j, after, s.banks[j].(WTPc := c.tWTP), s.groups[c.GroupOf(j)].(CCDLc := c.tCCDL),
                           if !s.writeMode then s.rwq.SetMinLength(c.WL) else s.rwq)
    requires after.writeMode && after.WTRc == c.tWTR && after.RTWc == s.RTWc
    ensures after == Issued(c, s, Write(j, s.banks[j].currRow))
  {
    GroupInRange(c, j);
  }

  lemma NopChangesNothing(c: Config, s: State)
    requires s.Shaped(c)
    ensures Issued(c, s, Nop) == s
  {
  }

  lemma ConsistentCanSchedule(c: Config, s: State, log: Log)
    requires Consistent(c, s, log)
    ensures s.Shaped(c) && CanAdmit(c, s)
    ensures s.mrqq.Front().Some? ==> s.mrqq.Front().value in s.reqs && s.reqs[s.mrqq.Front().value].bk < c.nbk
  {
    FrfcfsKeepsConsistent(c, s, log);
    FifoKeepsConsistent(c, s, log);
  }
}
