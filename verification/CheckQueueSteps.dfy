/**
The check queue as a system of threads: one master, which adds checks and then waits for them,
and any number of workers.  A step is what one thread does while it holds the mutex, or the
execution of one check outside it; a run is any interleaving of such steps, spurious wakeups of
the condition variables included.

A check is represented by the boolean its call returns.
*/
module CheckQueueSteps {

  /** The fields the mutex protects. */
  datatype Shared = Shared(queue: seq<bool>, nIdle: int, nTotal: int, fAllOk: bool, nTodo: int, fQuit: bool, nBatchSize: nat)

  /** Where a thread is. */
  datatype Phase =
    | Unstarted                                       // a worker before Thread is called
    | Outside                                         // the master outside Wait, a worker that returned
    | Entering                                        // in Loop, before its first critical section
    | Running(rest: seq<bool>, nNow: nat, fOk: bool)  // with a batch of nNow checks, rest of which are still to be called
    | Waiting(signalled: bool)                        // blocked on its condition variable

  const MASTER := 0

  /** `added` are the checks added since Wait last returned; `log` pairs them with what Wait returned. */
  datatype System = System(sh: Shared, threads: seq<Phase>, added: seq<bool>, log: seq<(seq<bool>, bool)>)

  predicate All(checks: seq<bool>) {
    forall i | 0 <= i < |checks| :: checks[i]
  }

  //////////////////////////////////////////////////////////////////////////////
  //
  // Critical sections
  //
  //////////////////////////////////////////////////////////////////////////////

  datatype Outcome = Returned(ret: bool) | Blocked | Took(batch: seq<bool>, fOk: bool)

  function Min(a: nat, b: nat): nat { if a < b then a else b }

  function Max(a: nat, b: nat): nat { if a < b then b else a }

  /** How many checks to take: fewer as the queue runs empty and more threads are idle, but at least one. */
  function BatchSize(sh: Shared): (n: nat)
    requires sh.nTotal + sh.nIdle >= 0
    ensures sh.queue != [] ==> 1 <= n <= |sh.queue|
    ensures n <= Max(1, sh.nBatchSize)
  {
    Max(1, Min(sh.nBatchSize, |sh.queue| / (sh.nTotal + sh.nIdle + 1)))
  }

  function Reverse(s: seq<bool>): (r: seq<bool>)
    ensures |r| == |s|
  {
    if s == [] then [] else [s[|s| - 1]] + Reverse(s[..|s| - 1])
  }

  /** From the point where the queue is looked at to the point where the mutex is given up. */
  function Proceed(sh: Shared, fMaster: bool): (Shared, Outcome)
    requires sh.nTotal + sh.nIdle >= 0
  {
    if sh.queue == [] then
      if (fMaster || sh.fQuit) && sh.nTodo == 0 then
        (sh.(nTotal := sh.nTotal - 1, fAllOk := sh.fAllOk || fMaster), Returned(sh.fAllOk))
      else
        (sh.(nIdle := sh.nIdle + 1), Blocked)
    else
      var left := |sh.queue| - BatchSize(sh);
      (sh.(queue := sh.queue[..left]), Took(Reverse(sh.queue[left..]), sh.fAllOk))
  }

  /**
  What a thread leaves the critical section with.  If there is nothing in the queue, the master
  returns the verdict, and sets it anew, once nothing is left to do, as a worker does when the
  queue is closed; else the thread blocks.  Otherwise it takes as many checks as go into the queue
  for every thread, idle ones counted again, but no more than nBatchSize and at least one; it
  takes them from the end, the last one first.
  */
  ghost predicate LeavesWith(sh: Shared, fMaster: bool, sh': Shared, o: Outcome) {
    if sh.queue == [] then
      if sh.nTodo == 0 && (fMaster || sh.fQuit) then
        o == Returned(sh.fAllOk) && sh' == sh.(nTotal := sh.nTotal - 1, fAllOk := if fMaster then true else sh.fAllOk)
      else
        o == Blocked && sh' == sh.(nIdle := sh.nIdle + 1)
    else
      && o.Took? && o.fOk == sh.fAllOk
      && var n, threads := |o.batch|, sh.nTotal + sh.nIdle + 1;
      && 1 <= n <= |sh.queue| && sh' == sh.(queue := sh.queue[..|sh.queue| - n])
      && (n > 1 ==> n <= sh.nBatchSize && n * threads <= |sh.queue|)
      && (n >= sh.nBatchSize || (n + 1) * threads > |sh.queue|)
      && forall i | 0 <= i < n :: o.batch[i] == sh.queue[|sh.queue| - 1 - i]
  }

  lemma {:induction false} ReverseAt(s: seq<bool>, i: nat)
    requires i < |s|
    ensures Reverse(s)[i] == s[|s| - 1 - i]
  {
    if i > 0 {
      ReverseAt(s[..|s| - 1], i - 1);
    }
  }

  lemma {:induction false} ProceedExactly(sh: Shared, fMaster: bool)
    requires sh.nTotal + sh.nIdle >= 0
    ensures var (sh', o) := Proceed(sh, fMaster); LeavesWith(sh, fMaster, sh', o)
  {
    if sh.queue != [] {
      var n, threads := BatchSize(sh), sh.nTotal + sh.nIdle + 1;
      var left := |sh.queue| - n;
      Largest(|sh.queue|, threads, n);
      forall i | 0 <= i < n ensures Reverse(sh.queue[left..])[i] == sh.queue[|sh.queue| - 1 - i] {
        ReverseAt(sh.queue[left..], i);
      }
    }
  }

  /** The quotient is the largest number of times the divisor goes into the dividend. */
  lemma {:induction false} Largest(x: nat, d: nat, n: nat)
    requires d > 0
    ensures n <= x / d ==> n * d <= x
    ensures n >= x / d ==> (n + 1) * d > x
  {
    var q := x / d;
    assert q * d <= x < (q + 1) * d;
    if n <= q {
      assert (q - n) * d >= 0;
    } else {
      assert (n - q) * d >= 0;
    }
  }

  /** Account for the batch just done (nNow checks, with verdict fOk), or for a thread coming in. */
  function CleanUp(sh: Shared, nNow: nat, fOk: bool): Shared {
    if nNow > 0 then sh.(fAllOk := sh.fAllOk && fOk, nTodo := sh.nTodo - nNow)
    else sh.(nTotal := sh.nTotal + 1)
  }

  /** Does a worker that accounts for nNow checks wake the master? */
  predicate TellsMaster(sh: Shared, nNow: nat, fMaster: bool) {
    nNow > 0 && sh.nTodo == nNow && !fMaster
  }

  //////////////////////////////////////////////////////////////////////////////
  //
  // Steps
  //
  //////////////////////////////////////////////////////////////////////////////

  datatype Step =
    | Start(t: nat)                        // a worker thread is started
    | Add(checks: seq<bool>, woken: nat)   // the master adds checks; `woken` is the worker notify_one picks
    | CallWait                             // the master enters Wait
    | Call(t: nat)                         // a thread deals with the next check of its batch
    | Lock(t: nat)                         // a thread takes the mutex, coming in or with its batch done
    | Wake(t: nat)                         // a blocked thread wakes up, notified or not

  predicate Enabled(s: System, step: Step) {
    match step
    case Start(t) => t < |s.threads| && s.threads[t].Unstarted?
    case Add(_, _) => |s.threads| > 0 && s.threads[MASTER].Outside?
    case CallWait => |s.threads| > 0 && s.threads[MASTER].Outside?
    case Call(t) => t < |s.threads| && s.threads[t].Running? && s.threads[t].rest != []
    case Lock(t) => t < |s.threads| && (s.threads[t].Entering? || (s.threads[t].Running? && s.threads[t].rest == []))
    case Wake(t) => t < |s.threads| && s.threads[t].Waiting?
  }

  function Notified(p: Phase): Phase {
    if p.Waiting? then Waiting(true) else p
  }

  /** condWorker.notify_all() */
  function NotifyWorkers(ts: seq<Phase>): (us: seq<Phase>)
    ensures |us| == |ts| && forall i | 0 <= i < |ts| :: us[i] == if i == MASTER then ts[i] else Notified(ts[i])
  {
    seq(|ts|, i requires 0 <= i < |ts| => if i == MASTER then ts[i] else Notified(ts[i]))
  }

  /** condWorker.notify_one() picking `t`; a notification that wakes nobody is allowed for, too. */
  function NotifyWorker(ts: seq<Phase>, t: nat): seq<Phase> {
    if t != MASTER && t < |ts| then ts[t := Notified(ts[t])] else ts
  }

  function PhaseAfter(o: Outcome): Phase {
    match o
    case Returned(_) => Outside
    case Blocked => Waiting(false)
    case Took(batch, fOk) => Running(batch, |batch|, fOk)
  }

  /** Thread `t` leaves its critical section with outcome `o`. */
  function Leave(s: System, t: nat, sh: Shared, o: Outcome): System
    requires t < |s.threads|
  {
    var u := s.(sh := sh, threads := s.threads[t := PhaseAfter(o)]);
    if t == MASTER && o.Returned? then u.(added := [], log := s.log + [(s.added, o.ret)]) else u
  }

  function Next(s: System, step: Step): System
    requires Enabled(s, step) && 0 <= s.sh.nIdle <= s.sh.nTotal && (step.Wake? ==> s.sh.nIdle > 0)
  {
    match step
    case Start(t) => s.(threads := s.threads[t := Entering])
    case CallWait => s.(threads := s.threads[MASTER := Entering])
    case Add(checks, woken) =>
      s.(sh := s.sh.(queue := s.sh.queue + checks, nTodo := s.sh.nTodo + |checks|),
         added := s.added + checks,
         threads := if |checks| == 0 then s.threads
                    else if |checks| == 1 then NotifyWorker(s.threads, woken)
                    else NotifyWorkers(s.threads))
    case Call(t) =>
      var p := s.threads[t];
      s.(threads := s.threads[t := Running(p.rest[1..], p.nNow, p.fOk && p.rest[0])])
    case Lock(t) =>
      var p := s.threads[t];
      var (nNow, fOk) := if p.Running? then (p.nNow, p.fOk) else (0, true);
      var (sh, o) := Proceed(CleanUp(s.sh, nNow, fOk), t == MASTER);
      var threads := if TellsMaster(s.sh, nNow, t == MASTER) then s.threads[MASTER := Notified(s.threads[MASTER])] else s.threads;
      Leave(s.(threads := threads), t, sh, o)
    case Wake(t) =>
      var (sh, o) := Proceed(s.sh.(nIdle := s.sh.nIdle - 1), t == MASTER);
      Leave(s, t, sh, o)
  }

  /** A master outside Wait and workers that have yet to start. */
  function Init(nWorkers: nat, nBatchSize: nat, fQuit: bool): System {
    System(Shared([], 0, 0, true, 0, fQuit, nBatchSize), [Outside] + seq(nWorkers, _ => Unstarted), [], [])
  }
}
