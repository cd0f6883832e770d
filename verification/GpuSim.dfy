/** The GPU as the stream manager sees it: slots for concurrent kernels and the queue of the kernels
    that are done. */
module GpuSim {
  import opened Options

  ghost function Occupied(slots: seq<Option<nat>>): set<nat>
  {
    set i | 0 <= i < |slots| && slots[i].Some? :: slots[i].value
  }

  ghost predicate EachOnce(slots: seq<Option<nat>>)
  {
    forall i, j :: 0 <= i < j < |slots| && slots[i].Some? ==> slots[i] != slots[j]
  }

  lemma LastSlot(slots: seq<Option<nat>>)
    requires slots != [] && EachOnce(slots)
    ensures var n := |slots| - 1;
            match slots[n]
            case None => Occupied(slots) == Occupied(slots[..n])
            case Some(uid) => Occupied(slots) == Occupied(slots[..n]) + {uid} && uid !in Occupied(slots[..n])
  {
    var n := |slots| - 1;
    forall uid | uid in Occupied(slots[..n])
      ensures uid in Occupied(slots)
    {
      var i :| 0 <= i < n && slots[..n][i] == Some(uid);
      assert slots[i] == Some(uid);
    }
    if slots[n].Some? {
      assert slots[n].value in Occupied(slots);
    }
    forall uid | uid in Occupied(slots) && slots[n] != Some(uid)
      ensures uid in Occupied(slots[..n])
    {
      var i :| 0 <= i < |slots| && slots[i] == Some(uid);
      assert slots[..n][i] == Some(uid);
    }
  }

  /** There is an empty slot exactly when fewer kernels than slots are in them. */
  lemma {:induction false} EmptySlot(slots: seq<Option<nat>>)
    requires EachOnce(slots)
    ensures |Occupied(slots)| <= |slots|
    ensures |Occupied(slots)| < |slots| <==> None in slots
  {
    if slots != [] {
      hide Occupied;
      var n := |slots| - 1;
      LastSlot(slots);
      EmptySlot(slots[..n]);
      assert slots == slots[..n] + [slots[n]];
    } else {
      assert Occupied(slots) == {};
    }
  }

  lemma SlotFilled(slots: seq<Option<nat>>, n: nat, uid: nat)
    requires n < |slots| && slots[n] == None && EachOnce(slots) && uid !in Occupied(slots)
    ensures EachOnce(slots[n := Some(uid)]) && Occupied(slots[n := Some(uid)]) == Occupied(slots) + {uid}
  {
    var after := slots[n := Some(uid)];
    assert after[n] == Some(uid);
    forall i | 0 <= i < |slots| && slots[i].Some?
      ensures after[i] == slots[i] && slots[i] != Some(uid)
    {
      assert slots[i].value in Occupied(slots);
    }
  }

  lemma SlotEmptied(slots: seq<Option<nat>>, n: nat)
    requires n < |slots| && slots[n].Some? && EachOnce(slots)
    ensures EachOnce(slots[n := None]) && Occupied(slots[n := None]) == Occupied(slots) - {slots[n].value}
  {
    var after := slots[n := None];
    forall i | 0 <= i < |slots| && i != n && slots[i].Some?
      ensures after[i] == slots[i] && slots[i] != slots[n]
    {
    }
  }

  class GpgpuSim {
    const runningKernels: array<Option<nat>>
    var finishedKernel: seq<nat>

    ghost function InSlots(): set<nat>
      reads runningKernels
    {
      Occupied(runningKernels[..])
    }

    /** A kernel is in one slot or, once done, at one place of the queue. */
    ghost predicate Valid()
      reads this, runningKernels
    {
      && EachOnce(runningKernels[..]) && (forall uid :: uid in finishedKernel ==> uid !in InSlots())
      && forall i, j :: 0 <= i < j < |finishedKernel| ==> finishedKernel[i] != finishedKernel[j]
    }

    constructor (maxConcurrentKernel: nat)
      ensures Valid() && runningKernels.Length == maxConcurrentKernel && InSlots() == {} && finishedKernel == []
      ensures fresh(runningKernels)
    {
      runningKernels := new Option<nat>[maxConcurrentKernel](_ => None);
      finishedKernel := [];
    }

    /** A slot is free when it is empty: a kernel that is done leaves its slot at once. */
    method CanStartKernel() returns (free: bool)
      requires Valid()
      ensures free <==> |InSlots()| < runningKernels.Length
    {
      EmptySlot(runningKernels[..]);
      for n := 0 to runningKernels.Length
        invariant None !in runningKernels[..n]
      {
        if runningKernels[n] == None {
          assert runningKernels[..][n] == None;
          return true;
        }
      }
      assert runningKernels[..runningKernels.Length] == runningKernels[..];
      return false;
    }

    /** The first free slot takes the kernel; false where the program's assertion fails. */
    method Launch(uid: nat) returns (launched: bool)
      requires Valid() && uid !in InSlots() && uid !in finishedKernel
      modifies runningKernels
      ensures launched <==> old(|InSlots()|) < runningKernels.Length
      ensures Valid() && InSlots() == if launched then old(InSlots()) + {uid} else old(InSlots())
    {
      EmptySlot(runningKernels[..]);
      for n := 0 to runningKernels.Length
        invariant None !in runningKernels[..n] && runningKernels[..] == old(runningKernels[..])
      {
        if runningKernels[n] == None {
          assert runningKernels[..][n] == None;
          SlotFilled(runningKernels[..], n, uid);
          runningKernels[n] := Some(uid);
          assert runningKernels[..] == old(runningKernels[..])[n := Some(uid)];
          return true;
        }
      }
      assert runningKernels[..runningKernels.Length] == runningKernels[..];
      return false;
    }

    /** The uid of the kernel that was done first and has not been reported, 0 if there is none. */
    method FinishedKernel() returns (result: nat)
      requires Valid()
      modifies this
      ensures Valid()
      ensures result == if old(finishedKernel) == [] then 0 else old(finishedKernel)[0]
      ensures finishedKernel == if old(finishedKernel) == [] then [] else old(finishedKernel)[1..]
    {
      if finishedKernel == [] {
        return 0;
      }
      result := finishedKernel[0];
      finishedKernel := finishedKernel[1..];
    }

    /** A kernel is done: it is queued and leaves its slot; false where the program's assertion fails. */
    method SetKernelDone(uid: nat) returns (found: bool)
      requires Valid()
      modifies this, runningKernels
      ensures found <==> uid in old(InSlots())
      ensures found ==> Valid()
      ensures InSlots() == old(InSlots()) - {uid} && finishedKernel == old(finishedKernel) + [uid]
    {
      finishedKernel := finishedKernel + [uid];
      for k := 0 to runningKernels.Length
        invariant Some(uid) !in runningKernels[..k] && runningKernels[..] == old(runningKernels[..])
      {
        if runningKernels[k] == Some(uid) {
          assert runningKernels[..][k] == Some(uid);
          SlotEmptied(runningKernels[..], k);
          runningKernels[k] := None;
          assert runningKernels[..] == old(runningKernels[..])[k := None];
          return true;
        }
      }
      assert runningKernels[..runningKernels.Length] == runningKernels[..];
      return false;
    }
  }
}
