/** Timing safety of the command stream of a DRAM partition, over every run and whatever the
    schedulers feed it. */
module DramTiming {
  import opened Options
  import opened DramModel

  // ----- the counters by name

  datatype Timer = RRD | CCD | RTW | WTR | RCD(b: nat) | RCDWR(b: nat) | RAS(b: nat) | RP(b: nat) | RC(b: nat)
                 | WTP(b: nat) | RTP(b: nat) | CCDL(g: nat) | RTPL(g: nat)

  function Value(s: State, x: Timer): nat
  {
    match x
    case RRD => s.RRDc
    case CCD => s.CCDc
    case RTW => s.RTWc
    case WTR => s.WTRc
    case RCD(b) => if b < |s.banks| then s.banks[b].RCDc else 0
    case RCDWR(b) => if b < |s.banks| then s.banks[b].RCDWRc else 0
    case RAS(b) => if b < |s.banks| then s.banks[b].RASc else 0
    case RP(b) => if b < |s.banks| then s.banks[b].RPc else 0
    case RC(b) => if b < |s.banks| then s.banks[b].RCc else 0
    case WTP(b) => if b < |s.banks| then s.banks[b].WTPc else 0
    case RTP(b) => if b < |s.banks| then s.banks[b].RTPc else 0
    case CCDL(g) => if g < |s.groups| then s.groups[g].CCDLc else 0
    case RTPL(g) => if g < |s.groups| then s.groups[g].RTPLc else 0
  }

  function Duration(c: Config, x: Timer): nat
  {
    match x
    case RRD => c.tRRD
    case CCD => c.tCCD
    case RTW => c.tRTW
    case WTR => c.tWTR
    case RCD(_) => c.tRCD
    case RCDWR(_) => c.tRCDWR
    case RAS(_) => c.tRAS
    case RP(_) => c.tRP
    case RC(_) => c.tRC
    case WTP(_) => c.tWTP
    case RTP(_) => c.readToPrecharge
    case CCDL(_) => c.tCCDL
    case RTPL(_) => c.tRTPL
  }

  /** What must be waited for after a command. */
  predicate Starts(c: Config, cmd: Command, x: Timer)
    requires c.groupSpan > 0
  {
    match cmd
    case Nop => false
    case Act(b, _) => x == RRD || x == RCD(b) || x == RCDWR(b) || x == RAS(b) || x == RC(b)
    case Pre(b) => x == RP(b)
    case Read(b, _) => x == CCD || x == RTW || x == RTP(b) || x == CCDL(c.GroupOf(b)) || x == RTPL(c.GroupOf(b))
    case Write(b, _) => x == CCD || x == WTR || x == WTP(b) || x == CCDL(c.GroupOf(b))
  }

  /** What a command has to wait for. */
  predicate Needs(c: Config, cmd: Command, x: Timer)
    requires c.groupSpan > 0
  {
    match cmd
    case Nop => false
    case Act(b, _) => x == RRD || x == RP(b) || x == RC(b)
    case Pre(b) => x == RAS(b) || x == WTP(b) || x == RTP(b) || x == RTPL(c.GroupOf(b))
    case Read(b, _) => x == CCD || x == WTR || x == RCD(b) || x == CCDL(c.GroupOf(b))
    case Write(b, _) => x == CCD || x == RTW || x == RCDWR(b) || x == CCDL(c.GroupOf(b))
  }

  // ----- one cycle

  lemma {:induction false} ChoiceIsReady(c: Config, s: State, i: nat)
    requires s.Shaped(c) && i <= c.nbk
    ensures var cmd := Choice(c, s, i);
            cmd != Nop ==> cmd.bank < c.nbk && cmd == CommandFor(c, s, cmd.bank) && s.banks[cmd.bank].mrq.Some?
    decreases c.nbk - i
  {
    if i < c.nbk && CommandFor(c, s, (i + s.prio) % c.nbk) == Nop {
      ChoiceIsReady(c, s, i + 1);
    }
  }

  /** The k-th bank in turn can issue a command. */
  ghost predicate CanIssue(c: Config, s: State, k: nat)
    requires s.Shaped(c)
  {
    CommandFor(c, s, (k + s.prio) % c.nbk) != Nop
  }

  /** A command is issued whenever some bank could issue one, and the first such bank in turn, from
      prio on, issues it. */
  lemma {:induction false} FirstBankInTurnIssues(c: Config, s: State, i: nat, k: nat)
    requires s.Shaped(c) && i <= k < c.nbk && CanIssue(c, s, k)
    requires forall m: nat :: i <= m < k ==> !CanIssue(c, s, m)
    ensures Choice(c, s, i) == CommandFor(c, s, (k + s.prio) % c.nbk) != Nop
    decreases k - i
  {
    if i < k {
      assert !CanIssue(c, s, i);
      FirstBankInTurnIssues(c, s, i + 1, k);
    }
  }

  lemma ReadyMeansZero(c: Config, s: State, j: nat, x: Timer)
    requires s.Shaped(c) && j < c.nbk && Needs(c, CommandFor(c, s, j), x)
    ensures Value(s, x) == 0
  {
    GroupInRange(c, j);
  }

  ghost function AfterIssue(c: Config, s: State): (after: State)
    requires s.Shaped(c)
  {
    ChoiceIsReady(c, s, 0);
    Ticked(Issued(c, s, Choice(c, s, 0)))
  }

  /** A cycle restarts exactly the counters of its command and counts all of them down. */
  lemma CounterAfterIssue(c: Config, s: State, x: Timer)
    requires s.Shaped(c)
    ensures var cmd := Choice(c, s, 0);
            Value(AfterIssue(c, s), x) == Down(if Starts(c, cmd, x) then Duration(c, x) else Value(s, x))
  {
    ChoiceIsReady(c, s, 0);
    CounterAfterCommand(c, s, Choice(c, s, 0), x);
    CounterAfterTick(Issued(c, s, Choice(c, s, 0)), x);
  }

  lemma CounterAfterTick(s: State, x: Timer)
    ensures Value(Ticked(s), x) == Down(Value(s, x))
  {
  }

  lemma CounterAfterCommand(c: Config, s: State, cmd: Command, x: Timer)
    requires s.Shaped(c) && (cmd != Nop ==> cmd.bank < c.nbk)
    requires cmd.Read? || cmd.Write? ==> s.banks[cmd.bank].mrq.Some?
    ensures Value(Issued(c, s, cmd), x) == if Starts(c, cmd, x) then Duration(c, x) else Value(s, x)
  {
    match cmd
    case Nop =>
    case Read(j, row) => CounterAfterRead(c, s, j, row, x);
    case Write(j, row) => CounterAfterWrite(c, s, j, row, x);
    case Act(_, _) =>
    case Pre(_) =>
  }

  lemma CounterAfterRead(c: Config, s: State, j: nat, row: nat, x: Timer)
    requires s.Shaped(c) && j < c.nbk && s.banks[j].mrq.Some?
    ensures Value(Issued(c, s, Read(j, row)), x) == if Starts(c, Read(j, row), x) then Duration(c, x) else Value(s, x)
  {
    GroupInRange(c, j);
  }

  lemma CounterAfterWrite(c: Config, s: State, j: nat, row: nat, x: Timer)
    requires s.Shaped(c) && j < c.nbk && s.banks[j].mrq.Some?
    ensures Value(Issued(c, s, Write(j, row)), x) == if Starts(c, Write(j, row), x) then Duration(c, x) else Value(s, x)
  {
    GroupInRange(c, j);
  }

  // ----- rows

  /** The row a device would hold open in the bank after the commands. */
  ghost function OpenRow(cmds: seq<Command>, b: nat): Option<nat>
  {
    if cmds == [] then None
    else match cmds[|cmds| - 1]
      case Act(j, row) => if j == b then Some(row) else OpenRow(cmds[..|cmds| - 1], b)
      case Pre(j) => if j == b then None else OpenRow(cmds[..|cmds| - 1], b)
      case _ => OpenRow(cmds[..|cmds| - 1], b)
  }

  ghost function RowOf(b: BankState): Option<nat>
  {
    if b.active then Some(b.currRow) else None
  }

  /** A command the device accepts: rows are opened only when closed, and read, written or closed
      only when open. */
  ghost predicate RowLegal(cmd: Command, open: Option<nat>)
  {
    match cmd
    case Nop => true
    case Act(_, _) => open == None
    case Pre(_) => open.Some?
    case Read(_, row) => open == Some(row)
    case Write(_, row) => open == Some(row)
  }

  lemma ReadyMeansRowLegal(c: Config, s: State, j: nat)
    requires s.Shaped(c) && j < c.nbk
    ensures RowLegal(CommandFor(c, s, j), RowOf(s.banks[j]))
  {
  }

  lemma RowAfterIssue(c: Config, s: State, b: nat)
    requires s.Shaped(c) && b < c.nbk
    ensures |AfterIssue(c, s).banks| == c.nbk
    ensures RowOf(AfterIssue(c, s).banks[b]) == match Choice(c, s, 0)
            case Act(j, row) => if j == b then Some(row) else RowOf(s.banks[b])
            case Pre(j) => if j == b then None else RowOf(s.banks[b])
            case _ => RowOf(s.banks[b])
  {
    ChoiceIsReady(c, s, 0);
  }

  // ----- runs

  /** What happens between two cycles may move requests but no counter and no row. */
  ghost predicate SameTiming(a: State, b: State)
  {
    && (forall x :: Value(a, x) == Value(b, x))
    && |a.banks| == |b.banks|
    && forall k :: 0 <= k < |a.banks| ==>
         a.banks[k].active == b.banks[k].active && a.banks[k].currRow == b.banks[k].currRow
  }

  /** The states in which the commands of successive cycles are chosen. */
  ghost predicate IsRun(c: Config, states: seq<State>)
  {
    && states != [] && (forall k :: 0 <= k < |states| ==> states[k].Shaped(c))
    && (forall x :: Value(states[0], x) == 0) && (forall b :: 0 <= b < c.nbk ==> !states[0].banks[b].active)
    && forall k :: 0 <= k < |states| - 1 ==> IsStep(c, states, k)
  }

  ghost predicate IsStep(c: Config, states: seq<State>, k: nat)
  {
    k + 1 < |states| && states[k].Shaped(c) && SameTiming(AfterIssue(c, states[k]), states[k + 1])
  }

  /** One command for each cycle before the last state. */
  ghost function Commands(c: Config, states: seq<State>): (cmds: seq<Command>)
    requires IsRun(c, states)
    ensures |cmds| == |states| - 1
  {
    seq(|states| - 1, k requires 0 <= k < |states| - 1 => Choice(c, states[k], 0))
  }

  lemma CounterInNextState(c: Config, states: seq<State>, n: nat, x: Timer)
    requires IsRun(c, states) && 0 < n < |states|
    ensures var cmd := Commands(c, states)[n - 1];
            Value(states[n], x) == Down(if Starts(c, cmd, x) then Duration(c, x) else Value(states[n - 1], x))
  {
    CounterAfterIssue(c, states[n - 1], x);
    assert IsStep(c, states, n - 1);
  }

  lemma {:induction false} CountersRemember(c: Config, states: seq<State>, x: Timer, k: nat, n: nat)
    requires IsRun(c, states) && k < n < |states| && Starts(c, Commands(c, states)[k], x)
    ensures Value(states[n], x) + (n - k) >= Duration(c, x)
    decreases n
  {
    CounterInNextState(c, states, n, x);
    if k < n - 1 {
      CountersRemember(c, states, x, k, n - 1);
    }
  }

  /** Whatever one command starts and a later one needs keeps them the whole duration apart. */
  lemma CommandsAreSpaced(c: Config, states: seq<State>, x: Timer, k: nat, m: nat)
    requires IsRun(c, states) && k < m < |states| - 1
    requires Starts(c, Commands(c, states)[k], x) && Needs(c, Commands(c, states)[m], x)
    ensures m - k >= Duration(c, x)
  {
    ChoiceIsReady(c, states[m], 0);
    ReadyMeansZero(c, states[m], Commands(c, states)[m].bank, x);
    CountersRemember(c, states, x, k, m);
  }

  lemma {:induction false} RowsAreTracked(c: Config, states: seq<State>, b: nat, n: nat)
    requires IsRun(c, states) && b < c.nbk && n < |states|
    ensures OpenRow(Commands(c, states)[..n], b) == RowOf(states[n].banks[b])
    decreases n
  {
    if n > 0 {
      RowsAreTracked(c, states, b, n - 1);
      RowAfterIssue(c, states[n - 1], b);
      assert IsStep(c, states, n - 1);
      assert Commands(c, states)[..n][..n - 1] == Commands(c, states)[..n - 1];
    }
  }

  /** Every command finds the row state it assumes: column commands hit the open, matching row. */
  lemma CommandsHitOpenRows(c: Config, states: seq<State>, m: nat)
    requires IsRun(c, states) && m < |states| - 1
    ensures var cmds := Commands(c, states);
            cmds[m] != Nop ==> cmds[m].bank < c.nbk && RowLegal(cmds[m], OpenRow(cmds[..m], cmds[m].bank))
  {
    var cmd := Commands(c, states)[m];
    ChoiceIsReady(c, states[m], 0);
    if cmd != Nop {
      ReadyMeansRowLegal(c, states[m], cmd.bank);
      RowsAreTracked(c, states, cmd.bank, m);
    }
  }

  lemma {:induction false} ClosedSince(cmds: seq<Command>, b: nat, k: nat) returns (p: nat)
    requires k < |cmds| && cmds[k].Act? && cmds[k].bank == b && OpenRow(cmds, b) == None
    ensures k < p < |cmds| && cmds[p] == Pre(b)
  {
    var n := |cmds| - 1;
    if cmds[n] == Pre(b) {
      p := n;
    } else {
      p := ClosedSince(cmds[..n], b, k);
    }
  }

  /** Two activations of one bank are at least tRC and at least tRAS + tRP apart. */
  lemma ActivationsOfOneBank(c: Config, states: seq<State>, k: nat, m: nat)
    requires IsRun(c, states) && k < m < |states| - 1
    requires var cmds := Commands(c, states); cmds[k].Act? && cmds[m].Act? && cmds[k].bank == cmds[m].bank
    ensures m - k >= c.tRC && m - k >= c.tRAS + c.tRP
  {
    var cmds := Commands(c, states);
    var b := cmds[k].bank;
    CommandsAreSpaced(c, states, RC(b), k, m);
    CommandsHitOpenRows(c, states, m);
    var p := ClosedSince(cmds[..m], b, k);
    assert cmds[p] == Pre(b);
    CommandsAreSpaced(c, states, RAS(b), k, p);
    CommandsAreSpaced(c, states, RP(b), p, m);
  }

  // ----- the constraints by name

  lemma RowCommandsAreSpaced(c: Config, states: seq<State>, k: nat, m: nat)
    requires IsRun(c, states) && k < m < |states| - 1
    ensures var a, z := Commands(c, states)[k], Commands(c, states)[m];
            && (a.Act? && z.Act? ==> m - k >= c.tRRD)
            && (a.Act? && z.Read? && a.bank == z.bank ==> m - k >= c.tRCD)
            && (a.Act? && z.Write? && a.bank == z.bank ==> m - k >= c.tRCDWR)
            && (a.Act? && z.Pre? && a.bank == z.bank ==> m - k >= c.tRAS)
            && (a.Pre? && z.Act? && a.bank == z.bank ==> m - k >= c.tRP)
  {
    var a, z := Commands(c, states)[k], Commands(c, states)[m];
    if a.Act? && z.Act? {
      CommandsAreSpaced(c, states, RRD, k, m);
    } else if a.Act? && z.Read? && a.bank == z.bank {
      CommandsAreSpaced(c, states, RCD(a.bank), k, m);
    } else if a.Act? && z.Write? && a.bank == z.bank {
      CommandsAreSpaced(c, states, RCDWR(a.bank), k, m);
    } else if a.Act? && z.Pre? && a.bank == z.bank {
      CommandsAreSpaced(c, states, RAS(a.bank), k, m);
    } else if a.Pre? && z.Act? && a.bank == z.bank {
      CommandsAreSpaced(c, states, RP(a.bank), k, m);
    }
  }

  ghost predicate IsColumn(cmd: Command)
  {
    cmd.Read? || cmd.Write?
  }

  lemma ColumnCommandsAreSpaced(c: Config, states: seq<State>, k: nat, m: nat)
    requires IsRun(c, states) && k < m < |states| - 1
    ensures var a, z := Commands(c, states)[k], Commands(c, states)[m];
            IsColumn(a) && IsColumn(z) ==>
              && m - k >= c.tCCD
              && (c.GroupOf(a.bank) == c.GroupOf(z.bank) ==> m - k >= c.tCCDL)
              && (a.Write? && z.Read? ==> m - k >= c.tWTR)
              && (a.Read? && z.Write? ==> m - k >= c.tRTW)
  {
    var a, z := Commands(c, states)[k], Commands(c, states)[m];
    if IsColumn(a) && IsColumn(z) {
      CommandsAreSpaced(c, states, CCD, k, m);
      if c.GroupOf(a.bank) == c.GroupOf(z.bank) {
        CommandsAreSpaced(c, states, CCDL(c.GroupOf(a.bank)), k, m);
      }
      if a.Write? && z.Read? {
        CommandsAreSpaced(c, states, WTR, k, m);
      } else if a.Read? && z.Write? {
        CommandsAreSpaced(c, states, RTW, k, m);
      }
    }
  }

  lemma PrechargesWaitForColumns(c: Config, states: seq<State>, k: nat, m: nat)
    requires IsRun(c, states) && k < m < |states| - 1
    ensures var a, z := Commands(c, states)[k], Commands(c, states)[m];
            IsColumn(a) && z.Pre? ==>
              && (a.Write? && a.bank == z.bank ==> m - k >= c.tWTP)
              && (a.Read? && a.bank == z.bank ==> m - k >= c.readToPrecharge)
              && (a.Read? && c.GroupOf(a.bank) == c.GroupOf(z.bank) ==> m - k >= c.tRTPL)
  {
    var a, z := Commands(c, states)[k], Commands(c, states)[m];
    if IsColumn(a) && z.Pre? {
      if a.Write? && a.bank == z.bank {
        CommandsAreSpaced(c, states, WTP(a.bank), k, m);
      }
      if a.Read? && a.bank == z.bank {
        CommandsAreSpaced(c, states, RTP(a.bank), k, m);
      }
      if a.Read? && c.GroupOf(a.bank) == c.GroupOf(z.bank) {
        CommandsAreSpaced(c, states, RTPL(c.GroupOf(a.bank)), k, m);
      }
    }
  }

  // ----- the other phases move no counter

  ghost predicate OnlyRequestsMoved(a: State, b: State)
  {
    && a.groups == b.groups && a.RRDc == b.RRDc && a.CCDc == b.CCDc && a.RTWc == b.RTWc && a.WTRc == b.WTRc
    && |a.banks| == |b.banks|
    && forall k :: 0 <= k < |a.banks| ==> a.banks[k] == b.banks[k].(mrq := a.banks[k].mrq)
  }

  lemma MovingRequestsKeepsTiming(a: State, b: State)
    requires OnlyRequestsMoved(a, b)
    ensures SameTiming(a, b)
  {
  }

  lemma FrfcfsKeepsTiming(c: Config, s: State)
    requires s.Shaped(c) && CanAdmit(c, s)
    ensures SameTiming(s, FrfcfsScheduled(c, s))
  {
    AdmittingKeepsShape(c, s);
    var admitted := Admitted(c, s);
    assert OnlyRequestsMoved(s, admitted);
    if FirstServable(c, admitted, 0).Some? {
      ServableIsABank(c, admitted, 0);
      assert OnlyRequestsMoved(s, Picked(c, admitted, FirstServable(c, admitted, 0).value));
    }
    MovingRequestsKeepsTiming(s, FrfcfsScheduled(c, s));
  }

  lemma FifoKeepsTiming(c: Config, s: State)
    requires s.Shaped(c)
    requires s.mrqq.Front().Some? ==> s.mrqq.Front().value in s.reqs && s.reqs[s.mrqq.Front().value].bk < c.nbk
    ensures SameTiming(s, FifoScheduled(c, s))
  {
    MovingRequestsKeepsTiming(s, FifoScheduled(c, s));
  }

  lemma ReturningKeepsTiming(c: Config, s: State)
    requires s.rwq.Front().Some? ==> s.rwq.Front().value in s.reqs
    ensures SameTiming(s, Returned(c, s))
  {
    MovingRequestsKeepsTiming(s, Returned(c, s));
  }
}
