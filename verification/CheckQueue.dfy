/**
The check queue object: its fields, and what the code does with them while it holds the mutex.
Each critical section is proved to be the one the steps in CheckQueueSteps are made of.
*/
module CheckQueue {
  import opened CheckQueueSteps

  class CCheckQueue {
    var queue: seq<bool>
    var nIdle: int
    var nTotal: int
    var fAllOk: bool
    var nTodo: int
    var fQuit: bool
    const nBatchSize: nat

    ghost function Sh(): Shared
      reads this
    {
      Shared(queue, nIdle, nTotal, fAllOk, nTodo, fQuit, nBatchSize)
    }

    constructor (nBatchSizeIn: nat)
      ensures Sh() == Init(0, nBatchSizeIn, false).sh
      ensures Init(0, nBatchSizeIn, false).sh == Shared([], 0, 0, true, 0, false, nBatchSizeIn)
    {
      queue, nIdle, nTotal, fAllOk, nTodo, fQuit := [], 0, 0, true, 0, false;
      nBatchSize := nBatchSizeIn;
    }

    /** Enqueue checks; says how many workers to notify: none, one or all of them. */
    method Add(vChecks: seq<bool>) returns (nNotify: nat)
      modifies this
      ensures Sh() == old(Sh()).(queue := old(queue) + vChecks, nTodo := old(nTodo) + |vChecks|)
      ensures nNotify == if |vChecks| == 0 then 0 else if |vChecks| == 1 then 1 else 2
    {
      ghost var before := queue;
      for i := 0 to |vChecks|
        invariant queue == before + vChecks[..i]
        invariant Sh() == old(Sh()).(queue := queue)
      {
        queue := queue + [vChecks[i]];
      }
      nTodo := nTodo + |vChecks|;
      nNotify := if |vChecks| == 1 then 1 else if |vChecks| > 1 then 2 else 0;
    }

    /** What a thread does first in its critical section; says whether condMaster is notified. */
    method Account(fMaster: bool, nNow: nat, fOk: bool) returns (fNotifyMaster: bool)
      modifies this
      ensures Sh() == CleanUp(old(Sh()), nNow, fOk)
      ensures fNotifyMaster == TellsMaster(old(Sh()), nNow, fMaster)
      ensures Sh() == if nNow == 0 then old(Sh()).(nTotal := old(nTotal) + 1)
                      else old(Sh()).(nTodo := old(nTodo) - nNow, fAllOk := old(fAllOk) && fOk)
      ensures fNotifyMaster <==> nNow > 0 && nTodo == 0 && !fMaster
    {
      fNotifyMaster := false;
      if nNow != 0 {
        fAllOk := fAllOk && fOk;
        nTodo := nTodo - nNow;
        if nTodo == 0 && !fMaster {
          fNotifyMaster := true;
        }
      } else {
        nTotal := nTotal + 1;
      }
    }

    /** From the test of the queue to the release of the mutex, by returning, waiting or taking work. */
    method TakeWork(fMaster: bool) returns (o: Outcome)
      requires nTotal + nIdle >= 0
      modifies this
      ensures (Sh(), o) == Proceed(old(Sh()), fMaster)
      ensures LeavesWith(old(Sh()), fMaster, Sh(), o)
    {
      ProceedExactly(Sh(), fMaster);
      if queue == [] {
        if (fMaster || fQuit) && nTodo == 0 {
          nTotal := nTotal - 1;
          var fRet := fAllOk;
          if fMaster {
            fAllOk := true;
          }
          return Returned(fRet);
        }
        nIdle := nIdle + 1;
        return Blocked;
      }
      var nNow := Max(1, Min(nBatchSize, |queue| / (nTotal + nIdle + 1)));
      assert nNow == BatchSize(Sh());
      var vChecks := PopBatch(nNow);
      o := Took(vChecks, fAllOk);
    }

    /** Take checks off the end of the queue, the last one first. */
    method PopBatch(nNow: nat) returns (vChecks: seq<bool>)
      requires nNow <= |queue|
      modifies this
      ensures Sh() == old(Sh().(queue := queue[..|queue| - nNow])) && vChecks == Reverse(old(queue)[|old(queue)| - nNow..])
    {
      ghost var before := queue;
      vChecks := [];
      for i := 0 to nNow
        invariant queue == before[..|before| - i]
        invariant vChecks == Reverse(before[|before| - i..])
        invariant Sh() == old(Sh()).(queue := queue)
      {
        ReverseFront(before[|before| - i - 1..]);
        assert before[|before| - i - 1..][1..] == before[|before| - i..];
        vChecks := vChecks + [queue[|queue| - 1]];
        queue := queue[..|queue| - 1];
      }
    }

    /** A blocked thread has the mutex again. */
    method Resume(fMaster: bool) returns (o: Outcome)
      requires nIdle > 0 && nTotal + nIdle >= 1
      modifies this
      ensures (Sh(), o) == Proceed(old(Sh()).(nIdle := old(nIdle) - 1), fMaster)
    {
      nIdle := nIdle - 1;
      o := TakeWork(fMaster);
    }

    method IsIdle() returns (r: bool)
      ensures r <==> nTotal == nIdle && nTodo == 0 && fAllOk
    {
      r := nTotal == nIdle && nTodo == 0 && fAllOk == true;
    }
  }

  lemma {:induction false} ReverseFront(s: seq<bool>)
    requires s != []
    ensures Reverse(s) == Reverse(s[1..]) + [s[0]]
  {
    if |s| > 1 {
      var n := |s| - 1;
      ReverseFront(s[..n]);
      assert s[..n][1..] == s[1..][..n - 1];
      assert s[1..][n - 1] == s[n];
    }
  }

  /** What a thread makes of its batch outside the mutex: nothing is called any more after a failure. */
  method ExecuteBatch(vChecks: seq<bool>, fAllOk: bool) returns (fOk: bool, ghost nCalled: nat)
    ensures fOk <==> fAllOk && All(vChecks)
    ensures nCalled <= |vChecks| && (fOk ==> nCalled == |vChecks|) && (!fAllOk ==> nCalled == 0)
    ensures fAllOk && !fOk ==> nCalled > 0 && !vChecks[nCalled - 1] && All(vChecks[..nCalled - 1])
  {
    fOk := fAllOk;
    nCalled := 0;
    for i := 0 to |vChecks|
      invariant fOk <==> fAllOk && All(vChecks[..i])
      invariant nCalled <= i && (fOk ==> nCalled == i) && (!fAllOk ==> nCalled == 0)
      invariant fAllOk && !fOk ==> nCalled > 0 && !vChecks[nCalled - 1] && All(vChecks[..nCalled - 1])
    {
      assert All(vChecks[..i + 1]) <==> All(vChecks[..i]) && vChecks[i] by {
        assert vChecks[..i + 1] == vChecks[..i] + [vChecks[i]];
      }
      if fOk {
        fOk := vChecks[i];
        nCalled := i + 1;
      }
    }
    assert vChecks[..|vChecks|] == vChecks;
  }
}
