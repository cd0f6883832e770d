/** The FR-FCFS memory scheduler: one queue for each bank, indexed a second time by row. */
module FrFcfs {
  import opened Options

  /** A request in a scheduler list; id tells list nodes apart. */
  datatype Req = Req(id: nat, bk: nat, row: nat)

  // ----- one bank as a value: newest request first

  datatype Bank = Bank(queue: seq<Req>, lastRow: Option<nat>)

  ghost function OfRow(q: seq<Req>, row: nat): seq<Req>
  {
    if q == [] then []
    else OfRow(q[..|q| - 1], row) + if q[|q| - 1].row == row then [q[|q| - 1]] else []
  }

  predicate HasRow(q: seq<Req>, row: nat)
  {
    exists r :: r in q && r.row == row
  }

  /** The place of the oldest request to the row. */
  function OldestOf(q: seq<Req>, row: nat): (i: nat)
    requires HasRow(q, row)
    ensures i < |q| && q[i].row == row && forall k :: i < k < |q| ==> q[k].row != row
  {
    var n := |q| - 1;
    if q[n].row == row then n
    else
      assert HasRow(q[..n], row) by {
        var r :| r in q && r.row == row;
        assert r in q[..n];
      }
      OldestOf(q[..n], row)
  }

  function Without(q: seq<Req>, i: nat): seq<Req>
    requires i < |q|
  {
    q[..i] + q[i + 1..]
  }

  predicate BankValid(b: Bank)
  {
    b.lastRow.Some? ==> HasRow(b.queue, b.lastRow.value)
  }

  function Added(b: Bank, req: Req): Bank
  {
    b.(queue := [req] + b.queue)
  }

  /** The row to serve: the open streak's, else the open row if it is wanted, else the row of the
      bank's oldest request. */
  function RowServed(b: Bank, currRow: nat): (row: nat)
    requires BankValid(b) && b.queue != []
    ensures HasRow(b.queue, row)
  {
    if b.lastRow.Some? then b.lastRow.value
    else if HasRow(b.queue, currRow) then currRow
    else
      assert b.queue[|b.queue| - 1] in b.queue;
      b.queue[|b.queue| - 1].row
  }

  function Served(b: Bank, currRow: nat): Option<Req>
    requires BankValid(b)
  {
    if b.queue == [] then None else Some(b.queue[OldestOf(b.queue, RowServed(b, currRow))])
  }

  function Scheduled(b: Bank, currRow: nat): (after: Bank)
    requires BankValid(b)
    ensures BankValid(after)
  {
    if b.queue == [] then b
    else
      var row := RowServed(b, currRow);
      var rest := Without(b.queue, OldestOf(b.queue, row));
      Bank(rest, if HasRow(rest, row) then Some(row) else None)
  }

  // ----- first ready, first come first served

  ghost predicate Wanted(q: seq<Req>, row: nat)
  {
    exists k :: 0 <= k < |q| && q[k].row == row
  }

  ghost predicate IsOldestOfItsRow(q: seq<Req>, i: nat)
    requires i < |q|
  {
    forall k :: i < k < |q| ==> q[k].row != q[i].row
  }

  /** The i-th request of the queue is the one to serve: the oldest of its row, which is the streak's
      if there is one, else the open row if a request wants it, else that of the oldest of all. */
  ghost predicate IsFirstReady(q: seq<Req>, streak: Option<nat>, currRow: nat, i: nat)
  {
    && i < |q| && IsOldestOfItsRow(q, i)
    && if streak.Some? then q[i].row == streak.value
       else if Wanted(q, currRow) then q[i].row == currRow
       else i == |q| - 1
  }

  ghost predicate ServesFirstReady(q: seq<Req>, streak: Option<nat>, currRow: nat, result: Option<Req>)
  {
    if result == None then q == []
    else exists i: nat :: IsFirstReady(q, streak, currRow, i) && q[i] == result.value
  }

  lemma FirstReadyIsServed(b: Bank, currRow: nat)
    requires BankValid(b)
    ensures ServesFirstReady(b.queue, b.lastRow, currRow, Served(b, currRow))
    ensures b.queue != [] ==> exists i: nat :: && IsFirstReady(b.queue, b.lastRow, currRow, i)
                                               && Scheduled(b, currRow).queue == b.queue[..i] + b.queue[i + 1..]
  {
    if b.queue != [] {
      var i := OldestOf(b.queue, RowServed(b, currRow));
      assert Wanted(b.queue, currRow) <==> HasRow(b.queue, currRow) by {
        MembersWant(b.queue, currRow);
      }
      assert IsFirstReady(b.queue, b.lastRow, currRow, i);
    }
  }

  lemma MembersWant(q: seq<Req>, row: nat)
    ensures Wanted(q, row) <==> HasRow(q, row)
  {
    if HasRow(q, row) {
      var r :| r in q && r.row == row;
      var k :| 0 <= k < |q| && q[k] == r;
    }
    if Wanted(q, row) {
      var k :| 0 <= k < |q| && q[k].row == row;
      assert q[k] in q;
    }
  }

  // ----- the row index and the queue

  lemma {:induction false} RowOfNewest(q: seq<Req>, req: Req, row: nat)
    ensures OfRow([req] + q, row) == (if req.row == row then [req] else []) + OfRow(q, row)
  {
    if q == [] {
      assert ([req] + q)[..0] == [];
    } else {
      var n := |q| - 1;
      assert ([req] + q)[..n + 1] == [req] + q[..n];
      RowOfNewest(q[..n], req, row);
    }
  }

  lemma {:induction false} RowsAndMembers(q: seq<Req>, row: nat)
    ensures forall r :: r in OfRow(q, row) <==> r in q && r.row == row
    ensures HasRow(q, row) <==> OfRow(q, row) != []
  {
    if q != [] {
      RowsAndMembers(q[..|q| - 1], row);
      assert q == q[..|q| - 1] + [q[|q| - 1]];
    }
    if OfRow(q, row) != [] {
      assert OfRow(q, row)[0] in OfRow(q, row);
    }
  }

  lemma OldestEarlier(q: seq<Req>, row: nat)
    requires HasRow(q, row)
    ensures q != []
    ensures var n, i := |q| - 1, OldestOf(q, row);
            if i == n then Without(q, i) == q[..n] && q[n].row == row
            else HasRow(q[..n], row) && OldestOf(q[..n], row) == i && q[n].row != row
  {
    var n, i := |q| - 1, OldestOf(q, row);
    if i != n {
      assert q[i] in q[..n];
    }
  }

  lemma WithoutEarlier(q: seq<Req>, i: nat)
    requires i < |q| - 1
    ensures var rest := Without(q, i);
            rest[..|rest| - 1] == Without(q[..|q| - 1], i) && rest[|rest| - 1] == q[|q| - 1]
  {
  }

  lemma OfRowByLast(q: seq<Req>, row: nat)
    requires q != []
    ensures OfRow(q, row) == OfRow(q[..|q| - 1], row) + if q[|q| - 1].row == row then [q[|q| - 1]] else []
  {
  }

  /** What is left of a row when the last request of the queue is one of it, or is not. */
  lemma OfRowWithoutLast(q: seq<Req>, row: nat)
    requires q != []
    ensures var n := |q| - 1;
            if q[n].row == row
            then OfRow(q, row) != [] && OfRow(q, row)[|OfRow(q, row)| - 1] == q[n]
                 && OfRow(q, row)[..|OfRow(q, row)| - 1] == OfRow(q[..n], row)
            else OfRow(q, row) == OfRow(q[..n], row)
  {
    hide OfRow;
    OfRowByLast(q, row);
    var before, all := OfRow(q[..|q| - 1], row), OfRow(q, row);
    if q[|q| - 1].row == row {
      assert all[..|before|] == before;
    }
  }

  /** The oldest request of a row is the last of its bin; taking it out leaves the other bins alone. */
  lemma {:induction false} TakingTheOldest(q: seq<Req>, row: nat, other: nat)
    requires HasRow(q, row)
    ensures OfRow(q, row) != [] && OfRow(q, row)[|OfRow(q, row)| - 1] == q[OldestOf(q, row)]
    ensures OfRow(Without(q, OldestOf(q, row)), other)
         == if other == row then OfRow(q, row)[..|OfRow(q, row)| - 1] else OfRow(q, other)
    decreases |q|
  {
    var n, i := |q| - 1, OldestOf(q, row);
    OldestEarlier(q, row);
    hide OfRow, OldestOf, Without, HasRow;
    OfRowWithoutLast(q, row);
    OfRowWithoutLast(q, other);
    if i < n {
      TakingTheOldest(q[..n], row, other);
      WithoutEarlier(q, i);
      if q[n].row == other {
        SameLast(Without(q, i), q, other);
      } else {
        OfRowWithoutLast(Without(q, i), other);
      }
    }
  }

  lemma SameLast(a: seq<Req>, b: seq<Req>, row: nat)
    requires a != [] && b != [] && a[|a| - 1] == b[|b| - 1]
    requires OfRow(a[..|a| - 1], row) == OfRow(b[..|b| - 1], row)
    ensures OfRow(a, row) == OfRow(b, row)
  {
    hide OfRow;
    OfRowByLast(a, row);
    OfRowByLast(b, row);
  }

  ghost predicate RowAgrees(q: seq<Req>, bins: map<nat, seq<Req>>, row: nat)
  {
    (row in bins <==> HasRow(q, row)) && (row in bins ==> bins[row] == OfRow(q, row))
  }

  /** Both lists of a bank hold the same requests in the same order of age. */
  ghost predicate IndexAgrees(q: seq<Req>, bins: map<nat, seq<Req>>)
  {
    forall row: nat :: RowAgrees(q, bins, row)
  }

  ghost predicate Distinct(q: seq<Req>)
  {
    forall i, j :: 0 <= i < j < |q| ==> q[i] != q[j]
  }

  function AddedBins(bins: map<nat, seq<Req>>, req: Req): map<nat, seq<Req>>
  {
    bins[req.row := [req] + if req.row in bins then bins[req.row] else []]
  }

  function TakenBins(bins: map<nat, seq<Req>>, row: nat): map<nat, seq<Req>>
    requires row in bins && bins[row] != []
  {
    if |bins[row]| == 1 then bins - {row} else bins[row := bins[row][..|bins[row]| - 1]]
  }

  lemma AddingKeepsIndex(q: seq<Req>, bins: map<nat, seq<Req>>, req: Req)
    requires IndexAgrees(q, bins)
    ensures IndexAgrees([req] + q, AddedBins(bins, req))
    ensures forall row :: HasRow(q, row) ==> HasRow([req] + q, row)
  {
    forall row: nat
      ensures RowAgrees([req] + q, AddedBins(bins, req), row)
      ensures HasRow(q, row) ==> HasRow([req] + q, row)
    {
      assert RowAgrees(q, bins, row);
      RowOfNewest(q, req, row);
      RowsAndMembers(q, row);
      RowsAndMembers([req] + q, row);
    }
  }

  lemma RowAfterTaking(q: seq<Req>, bins: map<nat, seq<Req>>, row: nat, other: nat)
    requires IndexAgrees(q, bins) && HasRow(q, row)
    ensures row in bins && bins[row] != []
    ensures RowAgrees(Without(q, OldestOf(q, row)), TakenBins(bins, row), other)
  {
    assert RowAgrees(q, bins, row) && RowAgrees(q, bins, other);
    NonEmptyRow(q, row, OfRow(q, row));
    NonEmptyRow(q, other, OfRow(q, other));
    hide OfRow, OldestOf, Without, HasRow, IndexAgrees, TakenBins;
    var rest := Without(q, OldestOf(q, row));
    TakingTheOldest(q, row, other);
    NonEmptyRow(rest, other, OfRow(rest, other));
    BinAfterTaking(bins, row, other, OfRow(rest, other));
  }

  lemma BinAfterTaking(bins: map<nat, seq<Req>>, row: nat, other: nat, left: seq<Req>)
    requires row in bins && bins[row] != [] && (other in bins ==> bins[other] != [])
    requires left == if other == row then bins[row][..|bins[row]| - 1] else if other in bins then bins[other] else []
    ensures other in TakenBins(bins, row) <==> |left| > 0
    ensures other in TakenBins(bins, row) ==> TakenBins(bins, row)[other] == left
  {
  }

  lemma NonEmptyRow(q: seq<Req>, row: nat, bin: seq<Req>)
    requires bin == OfRow(q, row)
    ensures HasRow(q, row) <==> |bin| > 0
  {
    RowsAndMembers(q, row);
  }

  lemma TakingKeepsIndex(q: seq<Req>, bins: map<nat, seq<Req>>, row: nat)
    requires IndexAgrees(q, bins) && HasRow(q, row)
    ensures row in bins && bins[row] != [] && bins[row][|bins[row]| - 1] == q[OldestOf(q, row)]
    ensures IndexAgrees(Without(q, OldestOf(q, row)), TakenBins(bins, row))
    ensures HasRow(Without(q, OldestOf(q, row)), row) <==> |bins[row]| > 1
  {
    assert RowAgrees(q, bins, row);
    RowsAndMembers(q, row);
    TakingTheOldest(q, row, row);
    forall other: nat
      ensures RowAgrees(Without(q, OldestOf(q, row)), TakenBins(bins, row), other)
    {
      RowAfterTaking(q, bins, row, other);
    }
    assert RowAgrees(Without(q, OldestOf(q, row)), TakenBins(bins, row), row);
  }

  lemma TakingKeepsDistinct(q: seq<Req>, i: nat)
    requires Distinct(q) && i < |q|
    ensures Distinct(Without(q, i)) && forall k :: 0 <= k < |q| && q[k] == q[i] ==> k == i
  {
  }

  ghost function Lengths(queues: seq<seq<Req>>): nat
  {
    if queues == [] then 0 else Lengths(queues[..|queues| - 1]) + |queues[|queues| - 1]|
  }

  lemma {:induction false} LengthsWithOneChanged(queues: seq<seq<Req>>, b: nat, q: seq<Req>)
    requires b < |queues|
    ensures Lengths(queues[b := q]) == Lengths(queues) - |queues[b]| + |q|
    ensures Lengths(queues) >= |queues[b]|
  {
    var n := |queues| - 1;
    if b == n {
      assert queues[b := q][..n] == queues[..n];
    } else {
      assert queues[b := q][..n] == queues[..n][b := q];
      LengthsWithOneChanged(queues[..n], b, q);
    }
  }

  class FrfcfsScheduler {
    const nbk: nat
    var numPending: nat
    const queue: array<seq<Req>>
    const bins: array<map<nat, seq<Req>>>
    const lastRow: array<Option<nat>>

    ghost predicate Shaped()
    {
      queue.Length == bins.Length == lastRow.Length == nbk
    }

    ghost function BankOf(b: nat): Bank
      requires Shaped() && b < nbk
      reads queue, lastRow
    {
      Bank(queue[b], lastRow[b])
    }

    ghost predicate BankOk(b: nat)
      requires Shaped() && b < nbk
      reads queue, bins, lastRow
    {
      BankValid(BankOf(b)) && IndexAgrees(queue[b], bins[b]) && Distinct(queue[b])
    }

    /** The row bins of each bank partition its queue in the same order of age, an open streak has a
        non-empty bin, and the count is the total length of the queues. */
    ghost predicate Valid()
      reads this, queue, bins, lastRow
    {
      && Shaped() && numPending == Lengths(queue[..])
      && forall b :: 0 <= b < nbk ==> BankOk(b)
    }

    constructor (banks: nat)
      ensures Valid() && nbk == banks && numPending == 0 && fresh(queue) && fresh(bins) && fresh(lastRow)
      ensures Banks() == seq(banks, _ => Bank([], None))
    {
      nbk, numPending := banks, 0;
      queue := new seq<Req>[banks](_ => []);
      bins := new map<nat, seq<Req>>[banks](_ => map[]);
      lastRow := new Option<nat>[banks](_ => None);
      new;
      hide Lengths, OfRow, BankValid, IndexAgrees, Distinct;
      EmptyLengths(queue[..]);
      EmptyBankIsOk();
    }

    static lemma EmptyBankIsOk()
      ensures BankValid(Bank([], None)) && IndexAgrees([], map[]) && Distinct([])
    {
    }

    static lemma {:induction false} EmptyLengths(queues: seq<seq<Req>>)
      requires forall i :: 0 <= i < |queues| ==> queues[i] == []
      ensures Lengths(queues) == 0
    {
      if queues != [] {
        EmptyLengths(queues[..|queues| - 1]);
      }
    }

    ghost function Banks(): seq<Bank>
      requires Shaped()
      reads queue, lastRow
    {
      seq(nbk, b requires 0 <= b < nbk reads queue, lastRow => BankOf(b))
    }

    /** A request object is added once. */
    method AddReq(req: Req)
      requires Valid() && req.bk < nbk && req !in queue[req.bk]
      modifies this, queue, bins
      ensures Valid() && numPending == old(numPending) + 1
      ensures Banks() == old(Banks())[req.bk := Added(old(BankOf(req.bk)), req)]
    {
      assert BankOk(req.bk);
      AddingKeepsIndex(queue[req.bk], bins[req.bk], req);
      LengthsWithOneChanged(queue[..], req.bk, [req] + queue[req.bk]);
      ghost var queues := queue[..];
      numPending := numPending + 1;
      queue[req.bk] := [req] + queue[req.bk];
      assert queue[..] == queues[req.bk := [req] + queues[req.bk]];
      bins[req.bk] := AddedBins(bins[req.bk], req);
      assert BankOk(req.bk);
      forall b | 0 <= b < nbk && b != req.bk
        ensures BankOk(b)
      {
        assert old(BankOk(b));
      }
    }

    method Schedule(bank: nat, currRow: nat) returns (req: Option<Req>)
      requires Valid() && bank < nbk
      modifies this, queue, bins, lastRow
      ensures Valid() && BankValid(old(BankOf(bank)))
      ensures req == Served(old(BankOf(bank)), currRow)
      ensures ServesFirstReady(old(queue[bank]), old(lastRow[bank]), currRow, req)
      ensures Banks() == old(Banks())[bank := Scheduled(old(BankOf(bank)), currRow)]
      ensures numPending == old(numPending) - if req.Some? then 1 else 0
    {
      hide ServesFirstReady;
      assert BankOk(bank);
      ghost var before := BankOf(bank);
      FirstReadyIsServed(before, currRow);
      if lastRow[bank] == None {
        if queue[bank] == [] {
          return None;
        }
        assert RowAgrees(queue[bank], bins[bank], currRow);
        if currRow !in bins[bank] {
          var oldest := queue[bank][|queue[bank]| - 1];
          lastRow[bank] := Some(oldest.row);
        } else {
          lastRow[bank] := Some(currRow);
        }
      }
      assert before.queue != [] && lastRow[bank].value == RowServed(before, currRow);
      req := TakeFrom(bank, lastRow[bank].value);
      forall b | 0 <= b < nbk && b != bank
        ensures BankOk(b)
      {
        assert old(BankOk(b));
      }
    }

    /** Takes the last request of a bin out of both lists; an emptied bin ends the streak. */
    method TakeFrom(bank: nat, row: nat) returns (req: Option<Req>)
      requires Shaped() && bank < nbk && lastRow[bank] == Some(row) && HasRow(queue[bank], row)
      requires IndexAgrees(queue[bank], bins[bank]) && Distinct(queue[bank]) && numPending == Lengths(queue[..])
      modifies this, queue, bins, lastRow
      ensures req == Some(old(queue[bank])[OldestOf(old(queue[bank]), row)])
      ensures queue[bank] == Without(old(queue[bank]), OldestOf(old(queue[bank]), row))
      ensures lastRow[bank] == if HasRow(queue[bank], row) then Some(row) else None
      ensures BankOk(bank) && numPending == Lengths(queue[..]) && numPending == old(numPending) - 1
      ensures forall b :: 0 <= b < nbk && b != bank ==>
                queue[b] == old(queue[b]) && bins[b] == old(bins[b]) && lastRow[b] == old(lastRow[b])
    {
      TakingKeepsIndex(queue[bank], bins[bank], row);
      var bin := bins[bank][row];
      var next := bin[|bin| - 1];
      ghost var queues, place := queue[..], OldestOf(queue[bank], row);
      TakingKeepsDistinct(queue[bank], place);
      LengthsWithOneChanged(queues, bank, Without(queue[bank], place));
      var i: nat :| i < |queue[bank]| && queue[bank][i] == next;
      queue[bank] := queue[bank][..i] + queue[bank][i + 1..];
      assert queue[..] == queues[bank := Without(queues[bank], place)];
      bins[bank] := TakenBins(bins[bank], row);
      if |bin| == 1 {
        lastRow[bank] := None;
      }
      numPending := numPending - 1;
      req := Some(next);
    }
  }

  // ----- runs of one bank

  datatype BankOp = Add(req: Req) | Serve(currRow: nat)

  ghost function RunBank(b: Bank, ops: seq<BankOp>): (after: Bank)
    requires BankValid(b)
    ensures BankValid(after)
  {
    if ops == [] then b
    else
      var before := RunBank(b, ops[..|ops| - 1]);
      match ops[|ops| - 1]
      case Add(req) =>
        AddingKeepsRows(before.queue, req);
        Added(before, req)
      case Serve(currRow) => Scheduled(before, currRow)
  }

  lemma AddingKeepsRows(q: seq<Req>, req: Req)
    ensures forall row :: HasRow(q, row) ==> HasRow([req] + q, row)
  {
    forall row: nat | HasRow(q, row)
      ensures HasRow([req] + q, row)
    {
      var r :| r in q && r.row == row;
      assert r in [req] + q;
    }
  }

  /** The requests added and the requests served, newest first. */
  ghost function AddedLog(ops: seq<BankOp>): seq<Req>
  {
    if ops == [] then []
    else (match ops[|ops| - 1] case Add(req) => [req] case Serve(_) => []) + AddedLog(ops[..|ops| - 1])
  }

  ghost function ServedLog(b: Bank, ops: seq<BankOp>): seq<Req>
    requires BankValid(b)
  {
    if ops == [] then []
    else
      var earlier := ServedLog(b, ops[..|ops| - 1]);
      match ops[|ops| - 1]
      case Add(_) => earlier
      case Serve(currRow) =>
        match Served(RunBank(b, ops[..|ops| - 1]), currRow)
        case None => earlier
        case Some(req) => [req] + earlier
  }

  lemma ServingOne(b: Bank, currRow: nat, row: nat)
    requires BankValid(b) && b.queue != []
    ensures Served(b, currRow).Some?
    ensures var req := Served(b, currRow).value;
            OfRow(b.queue, row) == OfRow(Scheduled(b, currRow).queue, row) + if req.row == row then [req] else []
  {
    var served := RowServed(b, currRow);
    TakenFromOneRow(b.queue, served, row, OfRow(b.queue, row));
  }

  lemma TakenFromOneRow(q: seq<Req>, served: nat, row: nat, bin: seq<Req>)
    requires HasRow(q, served) && bin == OfRow(q, row)
    ensures var i := OldestOf(q, served);
            bin == OfRow(Without(q, i), row) + if served == row then [q[i]] else []
  {
    hide OfRow, OldestOf, Without, HasRow;
    TakingTheOldest(q, served, row);
    if served == row {
      assert bin == bin[..|bin| - 1] + [bin[|bin| - 1]];
    }
  }

  lemma JoinedInFront(own: seq<Req>, a: seq<Req>, b: seq<Req>, c: seq<Req>, d: seq<Req>)
    requires a + b == c + d
    ensures own + a + b == own + c + d
  {
    assert own + a + b == own + (a + b);
    assert own + c + d == own + (c + d);
  }

  /** Whatever rows are open and however requests arrive, the requests to one row are served in the
      order they arrived, each once and none lost. */
  lemma {:induction false} RowsAreServedInOrder(b: Bank, ops: seq<BankOp>, row: nat)
    requires BankValid(b)
    ensures OfRow(RunBank(b, ops).queue, row) + OfRow(ServedLog(b, ops), row)
            == OfRow(AddedLog(ops), row) + OfRow(b.queue, row)
  {
    if ops != [] {
      var n := |ops| - 1;
      RowsAreServedInOrder(b, ops[..n], row);
      match ops[n]
      case Add(req) => AfterAdd(b, ops, req, row);
      case Serve(currRow) => AfterServe(b, ops, currRow, row);
    }
  }

  lemma AfterAdd(b: Bank, ops: seq<BankOp>, req: Req, row: nat)
    requires BankValid(b) && ops != [] && ops[|ops| - 1] == Add(req)
    requires var before := ops[..|ops| - 1];
             OfRow(RunBank(b, before).queue, row) + OfRow(ServedLog(b, before), row)
               == OfRow(AddedLog(before), row) + OfRow(b.queue, row)
    ensures OfRow(RunBank(b, ops).queue, row) + OfRow(ServedLog(b, ops), row)
            == OfRow(AddedLog(ops), row) + OfRow(b.queue, row)
  {
    var before := ops[..|ops| - 1];
    var r, log, added := RunBank(b, before), ServedLog(b, before), AddedLog(before);
    assert RunBank(b, ops).queue == [req] + r.queue && ServedLog(b, ops) == log && AddedLog(ops) == [req] + added;
    RowOfNewest(r.queue, req, row);
    RowOfNewest(added, req, row);
    JoinedInFront(if req.row == row then [req] else [],
                  OfRow(r.queue, row), OfRow(log, row), OfRow(added, row), OfRow(b.queue, row));
  }

  lemma AfterServe(b: Bank, ops: seq<BankOp>, currRow: nat, row: nat)
    requires BankValid(b) && ops != [] && ops[|ops| - 1] == Serve(currRow)
    requires var before := ops[..|ops| - 1];
             OfRow(RunBank(b, before).queue, row) + OfRow(ServedLog(b, before), row)
               == OfRow(AddedLog(before), row) + OfRow(b.queue, row)
    ensures OfRow(RunBank(b, ops).queue, row) + OfRow(ServedLog(b, ops), row)
            == OfRow(AddedLog(ops), row) + OfRow(b.queue, row)
  {
    var before := ops[..|ops| - 1];
    var r, log := RunBank(b, before), ServedLog(b, before);
    assert AddedLog(ops) == AddedLog(before);
    if r.queue != [] {
      LogServed(r, currRow, log, row);
    }
  }

  lemma LogServed(r: Bank, currRow: nat, log: seq<Req>, row: nat)
    requires BankValid(r) && r.queue != []
    ensures OfRow(Scheduled(r, currRow).queue, row) + OfRow([Served(r, currRow).value] + log, row)
         == OfRow(r.queue, row) + OfRow(log, row)
  {
    ServingOne(r, currRow, row);
    MovedToLog(r.queue, Scheduled(r, currRow).queue, log, Served(r, currRow).value, row);
  }

  lemma MovedToLog(q: seq<Req>, rest: seq<Req>, log: seq<Req>, req: Req, row: nat)
    requires OfRow(q, row) == OfRow(rest, row) + if req.row == row then [req] else []
    ensures OfRow(rest, row) + OfRow([req] + log, row) == OfRow(q, row) + OfRow(log, row)
  {
    RowOfNewest(log, req, row);
    Regroup(OfRow(rest, row), if req.row == row then [req] else [], OfRow(log, row));
  }

  lemma Regroup(a: seq<Req>, b: seq<Req>, c: seq<Req>)
    ensures a + b + c == a + (b + c)
  {
  }

  // ----- streaks

  /** An addition leaves the streak alone. */
  lemma {:induction false} AddingKeepsStreak(b: Bank, ops: seq<BankOp>, n: nat)
    requires BankValid(b) && n <= |ops| && forall k :: n <= k < |ops| ==> ops[k].Add?
    ensures RunBank(b, ops).lastRow == RunBank(b, ops[..n]).lastRow
    ensures forall row: nat :: HasRow(RunBank(b, ops[..n]).queue, row) ==> HasRow(RunBank(b, ops).queue, row)
    decreases |ops|
  {
    if n < |ops| {
      var before := ops[..|ops| - 1];
      AddingKeepsStreak(b, before, n);
      assert before[..n] == ops[..n];
      assert ops[|ops| - 1].Add?;
      AddingKeepsRows(RunBank(b, before).queue, ops[|ops| - 1].req);
    } else {
      assert ops[..n] == ops;
    }
  }

  lemma ServingSetsStreak(b: Bank, currRow: nat)
    requires BankValid(b) && b.queue != []
    ensures Served(b, currRow).Some?
    ensures var row, after := Served(b, currRow).value.row, Scheduled(b, currRow);
            after.lastRow == if HasRow(after.queue, row) then Some(row) else None
  {
  }

  lemma StreakIsServed(b: Bank, currRow: nat)
    requires BankValid(b) && b.lastRow.Some?
    ensures Served(b, currRow).Some? && Served(b, currRow).value.row == b.lastRow.value
  {
    hide OldestOf;
    var r :| r in b.queue && r.row == b.lastRow.value;
  }

  lemma RunServes(b: Bank, ops: seq<BankOp>, n: nat)
    requires BankValid(b) && n < |ops| && ops[n].Serve?
    ensures RunBank(b, ops[..n + 1]) == Scheduled(RunBank(b, ops[..n]), ops[n].currRow)
  {
    assert ops[..n + 1][..n] == ops[..n];
  }

  /** Once a row is served the bank stays with it as long as requests to it are left, whatever arrives
      and whichever row is open: of two servings with only arrivals between, the second is of another
      row only if the first took the last request to its own. */
  lemma StreaksLast(b: Bank, ops: seq<BankOp>, n: nat, m: nat)
    requires BankValid(b) && n < m < |ops| && ops[n].Serve? && ops[m].Serve?
    requires forall k :: n < k < m ==> ops[k].Add?
    requires RunBank(b, ops[..n]).queue != []
    ensures var first := Served(RunBank(b, ops[..n]), ops[n].currRow);
            var second := Served(RunBank(b, ops[..m]), ops[m].currRow);
            && first.Some?
            && (second.Some? && second.value.row != first.value.row ==>
                  !Wanted(RunBank(b, ops[..n + 1]).queue, first.value.row))
  {
    hide RunBank, HasRow, Wanted, Served, Scheduled;
    var r, currRow := RunBank(b, ops[..n]), ops[n].currRow;
    RunServes(b, ops, n);
    ServingSetsStreak(r, currRow);
    AddingKeepsStreak(b, ops[..m], n + 1);
    assert ops[..m][..n + 1] == ops[..n + 1];
    MembersWant(Scheduled(r, currRow).queue, Served(r, currRow).value.row);
    if RunBank(b, ops[..m]).lastRow.Some? {
      StreakIsServed(RunBank(b, ops[..m]), ops[m].currRow);
    }
  }
}
