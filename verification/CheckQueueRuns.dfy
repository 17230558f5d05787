/**
What every step of the check queue keeps, and what follows for every run: Wait returns the
conjunction of the checks added since it last returned, nobody waits for work that nobody has,
and Wait does return.
*/
module CheckQueueRuns {
  import opened CheckQueueSteps

  //////////////////////////////////////////////////////////////////////////////
  //
  // Sums over the threads
  //
  //////////////////////////////////////////////////////////////////////////////

  /** The number of checks in the batch of a thread that has not accounted for it yet. */
  function Load(p: Phase): int { if p.Running? then p.nNow else 0 }

  /** 1 for a thread counted in nTotal. */
  function InLoop(p: Phase): int { if p.Running? || p.Waiting? then 1 else 0 }

  /** 1 for a thread counted in nIdle. */
  function Idle(p: Phase): int { if p.Waiting? then 1 else 0 }

  ghost function Total(ts: seq<Phase>, f: Phase -> int): int {
    if ts == [] then 0 else Total(ts[..|ts| - 1], f) + f(ts[|ts| - 1])
  }

  lemma {:induction false} TotalUpdate(ts: seq<Phase>, t: nat, p: Phase, f: Phase -> int)
    requires t < |ts|
    ensures Total(ts[t := p], f) == Total(ts, f) - f(ts[t]) + f(p)
  {
    var us, n := ts[t := p], |ts| - 1;
    if t == n {
      assert us[..n] == ts[..n];
    } else {
      TotalUpdate(ts[..n], t, p, f);
      assert us[..n] == ts[..n][t := p];
    }
  }

  lemma {:induction false} TotalSame(ts: seq<Phase>, us: seq<Phase>, f: Phase -> int)
    requires |us| == |ts| && forall i | 0 <= i < |ts| :: f(us[i]) == f(ts[i])
    ensures Total(us, f) == Total(ts, f)
  {
    if ts != [] {
      TotalSame(ts[..|ts| - 1], us[..|ts| - 1], f);
    }
  }

  /** A sum of natural numbers is at least each of them, and positive only if one of them is. */
  lemma {:induction false} TotalBounds(ts: seq<Phase>, f: Phase -> int)
    requires forall p :: f(p) >= 0
    ensures Total(ts, f) >= 0
    ensures forall t | 0 <= t < |ts| :: Total(ts, f) >= f(ts[t])
    ensures Total(ts, f) > 0 ==> exists t :: 0 <= t < |ts| && f(ts[t]) > 0
  {
    if ts != [] {
      var n := |ts| - 1;
      TotalBounds(ts[..n], f);
      forall t | 0 <= t < |ts| ensures Total(ts, f) >= f(ts[t]) {
        assert t < n ==> ts[..n][t] == ts[t];
      }
      if Total(ts, f) > 0 && f(ts[n]) <= 0 {
        var t :| 0 <= t < n && f(ts[..n][t]) > 0;
        assert f(ts[t]) > 0;
      }
    }
  }

  //////////////////////////////////////////////////////////////////////////////
  //
  // The invariant
  //
  //////////////////////////////////////////////////////////////////////////////

  /** A batch is never empty, and what is left to call is part of it. */
  ghost predicate BatchOk(p: Phase) {
    p.Running? ==> p.nNow > 0 && |p.rest| <= p.nNow
  }

  /** What a thread still contributes to the verdict. */
  ghost predicate Verdict(p: Phase) {
    p.Running? ==> p.fOk && All(p.rest)
  }

  ghost predicate Verdicts(ts: seq<Phase>) {
    forall t | 0 <= t < |ts| :: Verdict(ts[t])
  }

  /** The counters count: work not accounted for, threads in the loop, threads that wait. */
  ghost predicate Counted(s: System) {
    && s.sh.nTodo == |s.sh.queue| + Total(s.threads, Load)
    && s.sh.nTotal == Total(s.threads, InLoop)
    && s.sh.nIdle == Total(s.threads, Idle)
    && s.sh.nTodo <= |s.added|
  }

  /** The checks added are all true exactly if nothing said otherwise yet and nothing left will. */
  ghost predicate Accounted(s: System) {
    All(s.added) <==> s.sh.fAllOk && All(s.sh.queue) && Verdicts(s.threads)
  }

  /** The master waits only with the queue empty, and for work not accounted for unless it was notified. */
  ghost predicate MasterOk(s: System) {
    && |s.threads| > MASTER && !s.threads[MASTER].Unstarted?
    && (s.threads[MASTER].Waiting? ==> s.sh.queue == [])
    && (s.threads[MASTER] == Waiting(false) ==> s.sh.nTodo > 0)
  }

  /** Every Wait so far returned whether all checks added since the one before are true. */
  ghost predicate LogOk(s: System) {
    forall i | 0 <= i < |s.log| :: s.log[i].1 == All(s.log[i].0)
  }

  ghost predicate Inv(s: System) {
    && (forall t | 0 <= t < |s.threads| :: BatchOk(s.threads[t]))
    && Counted(s) && Accounted(s) && MasterOk(s) && LogOk(s)
  }

  lemma {:induction false} TotalZero(ts: seq<Phase>, f: Phase -> int)
    requires forall i | 0 <= i < |ts| :: f(ts[i]) == 0
    ensures Total(ts, f) == 0
  {
    if ts != [] {
      TotalZero(ts[..|ts| - 1], f);
    }
  }

  lemma {:induction false} InitInv(nWorkers: nat, nBatchSize: nat, fQuit: bool)
    ensures Inv(Init(nWorkers, nBatchSize, fQuit))
  {
    var s := Init(nWorkers, nBatchSize, fQuit);
    TotalZero(s.threads, Load);
    TotalZero(s.threads, InLoop);
    TotalZero(s.threads, Idle);
  }

  lemma {:induction false} Counts(s: System, t: nat)
    requires Counted(s) && t < |s.threads|
    requires forall u | 0 <= u < |s.threads| :: BatchOk(s.threads[u])
    ensures 0 <= s.sh.nIdle <= s.sh.nTotal
    ensures s.threads[t].Waiting? ==> s.sh.nIdle > 0
    ensures s.sh.nTodo >= |s.sh.queue| + Load(s.threads[t])
  {
    TotalBounds(s.threads, Idle);
    TotalBounds(s.threads, Load);
    TotalLess(s.threads);
  }

  lemma {:induction false} TotalLess(ts: seq<Phase>)
    ensures Total(ts, Idle) <= Total(ts, InLoop)
  {
    if ts != [] {
      TotalLess(ts[..|ts| - 1]);
    }
  }

  //////////////////////////////////////////////////////////////////////////////
  //
  // What each step keeps
  //
  //////////////////////////////////////////////////////////////////////////////

  lemma {:induction false} AllReverse(s: seq<bool>)
    ensures All(Reverse(s)) <==> All(s)
  {
    if s != [] {
      var n, r := |s| - 1, Reverse(s);
      AllReverse(s[..n]);
      assert r[0] == s[n] && r[1..] == Reverse(s[..n]);
      assert All(s) <==> All(s[..n]) && s[n];
      assert All(r) <==> All(r[1..]) && r[0] by {
        if All(r[1..]) && r[0] {
          forall i | 0 <= i < |r| ensures r[i] {
            assert i > 0 ==> r[1..][i - 1];
          }
        }
      }
    }
  }

  lemma {:induction false} AllSplit(s: seq<bool>, k: nat)
    requires k <= |s|
    ensures All(s) <==> All(s[..k]) && All(s[k..])
  {
    if All(s[..k]) && All(s[k..]) {
      forall i | 0 <= i < |s| ensures s[i] {
        assert if i < k then s[..k][i] else s[k..][i - k];
      }
    }
  }

  /** Thread `t`, shown as Outside, holds the mutex; it is counted in nTotal and in nothing else. */
  ghost predicate Holding(h: System, t: nat) {
    && t < |h.threads| && h.threads[t] == Outside
    && (forall u | 0 <= u < |h.threads| :: BatchOk(h.threads[u]))
    && Counted(h.(sh := h.sh.(nTotal := h.sh.nTotal - 1)))
    && Accounted(h) && MasterOk(h) && LogOk(h)
  }

  lemma {:induction false} LeaveKeeps(h: System, t: nat)
    requires Holding(h, t) && h.sh.nTotal + h.sh.nIdle >= 0
    ensures var (sh, o) := Proceed(h.sh, t == MASTER); Inv(Leave(h, t, sh, o))
  {
    LeaveCounts(h, t);
    LeaveAccounts(h, t);
  }

  lemma {:induction false} LeaveCounts(h: System, t: nat)
    requires Holding(h, t) && h.sh.nTotal + h.sh.nIdle >= 0
    ensures var (sh, o) := Proceed(h.sh, t == MASTER); var s := Leave(h, t, sh, o);
            Counted(s) && MasterOk(s) && forall u | 0 <= u < |s.threads| :: BatchOk(s.threads[u])
  {
    var (sh, o) := Proceed(h.sh, t == MASTER);
    TotalUpdate(h.threads, t, PhaseAfter(o), Load);
    TotalUpdate(h.threads, t, PhaseAfter(o), InLoop);
    TotalUpdate(h.threads, t, PhaseAfter(o), Idle);
    TotalBounds(h.threads, Load);
  }

  lemma {:induction false} LeaveAccounts(h: System, t: nat)
    requires Holding(h, t) && h.sh.nTotal + h.sh.nIdle >= 0
    ensures var (sh, o) := Proceed(h.sh, t == MASTER); var s := Leave(h, t, sh, o);
            Accounted(s) && LogOk(s)
  {
    var (sh, o) := Proceed(h.sh, t == MASTER);
    match o
    case Returned(ret) =>
      TotalBounds(h.threads, Load);
      forall u | 0 <= u < |h.threads| ensures !h.threads[u].Running? {
        assert BatchOk(h.threads[u]) && Total(h.threads, Load) >= Load(h.threads[u]);
      }
      assert Verdicts(h.threads);
    case Blocked =>
      VerdictsAfter(h.threads, t, Waiting(false));
    case Took(batch, fOk) =>
      var left := |h.sh.queue| - BatchSize(h.sh);
      AllReverse(h.sh.queue[left..]);
      AllSplit(h.sh.queue, left);
      VerdictsAfter(h.threads, t, PhaseAfter(o));
  }

  /** Putting phase `p` in the place of one without a batch adds its verdict to the others. */
  lemma {:induction false} VerdictsAfter(ts: seq<Phase>, t: nat, p: Phase)
    requires t < |ts| && !ts[t].Running?
    ensures Verdicts(ts[t := p]) <==> Verdicts(ts) && Verdict(p)
  {
    var us := ts[t := p];
    if Verdicts(us) {
      assert Verdict(us[t]);
      forall u | 0 <= u < |ts| ensures Verdict(ts[u]) {
        assert u != t ==> us[u] == ts[u];
      }
    }
  }

  /** The phases of two states differ at most in who has been notified. */
  ghost predicate SameButNotified(ts: seq<Phase>, us: seq<Phase>) {
    |us| == |ts| && forall u | 0 <= u < |ts| :: us[u] == ts[u] || us[u] == Notified(ts[u])
  }

  lemma {:induction false} NotifiedIsFree(ts: seq<Phase>, us: seq<Phase>)
    requires SameButNotified(ts, us)
    ensures Total(us, Load) == Total(ts, Load) && Total(us, InLoop) == Total(ts, InLoop) && Total(us, Idle) == Total(ts, Idle)
    ensures Verdicts(us) <==> Verdicts(ts)
    ensures (forall u | 0 <= u < |ts| :: BatchOk(ts[u])) ==> forall u | 0 <= u < |us| :: BatchOk(us[u])
  {
    TotalSame(ts, us, Load);
    TotalSame(ts, us, InLoop);
    TotalSame(ts, us, Idle);
    forall u | 0 <= u < |ts| ensures Verdict(us[u]) == Verdict(ts[u]) {}
  }

  /** The verdict and size of the batch a thread comes to account for. */
  function BatchOf(p: Phase): (nat, bool) {
    if p.Running? then (p.nNow, p.fOk) else (0, true)
  }

  /** The phases once the thread has told the master, if it does. */
  function Told(s: System, t: nat): (ts: seq<Phase>)
    requires |s.threads| > MASTER && t < |s.threads|
    ensures |ts| == |s.threads|
  {
    if TellsMaster(s.sh, BatchOf(s.threads[t]).0, t == MASTER) then s.threads[MASTER := Notified(s.threads[MASTER])]
    else s.threads
  }

  /** The state in which thread `t` has the mutex and has accounted for its batch. */
  function Locked(s: System, t: nat): System
    requires |s.threads| > MASTER && t < |s.threads|
  {
    s.(sh := CleanUp(s.sh, BatchOf(s.threads[t]).0, BatchOf(s.threads[t]).1), threads := Told(s, t)[t := Outside])
  }

  lemma {:induction false} LockedIsHolding(s: System, t: nat)
    requires Inv(s) && Enabled(s, Lock(t))
    ensures Holding(Locked(s, t), t)
  {
    Counts(s, t);
    var p, ts, h := s.threads[t], Told(s, t), Locked(s, t);
    NotifiedIsFree(s.threads, ts);
    TotalUpdate(ts, t, Outside, Load);
    TotalUpdate(ts, t, Outside, InLoop);
    TotalUpdate(ts, t, Outside, Idle);
    VerdictsAfter(h.threads, t, p);
    assert h.threads[t := p] == ts;
    assert BatchOk(p);
  }

  lemma {:induction false} LockKeeps(s: System, t: nat)
    requires Inv(s) && Enabled(s, Lock(t))
    ensures 0 <= s.sh.nIdle <= s.sh.nTotal && Inv(Next(s, Lock(t)))
  {
    Counts(s, t);
    LockedIsHolding(s, t);
    var h := Locked(s, t);
    LeaveKeeps(h, t);
    var (sh, o) := Proceed(h.sh, t == MASTER);
    assert Told(s, t)[t := PhaseAfter(o)] == h.threads[t := PhaseAfter(o)];
    assert Next(s, Lock(t)) == Leave(h, t, sh, o);
  }

  lemma {:induction false} WakeKeeps(s: System, t: nat)
    requires Inv(s) && Enabled(s, Wake(t))
    ensures 0 < s.sh.nIdle <= s.sh.nTotal && Inv(Next(s, Wake(t)))
  {
    Counts(s, t);
    var h := s.(sh := s.sh.(nIdle := s.sh.nIdle - 1), threads := s.threads[t := Outside]);
    TotalUpdate(s.threads, t, Outside, Load);
    TotalUpdate(s.threads, t, Outside, InLoop);
    TotalUpdate(s.threads, t, Outside, Idle);
    VerdictsAfter(s.threads, t, Outside);
    assert Holding(h, t);
    LeaveKeeps(h, t);
    var (sh, o) := Proceed(h.sh, t == MASTER);
    assert s.threads[t := PhaseAfter(o)] == h.threads[t := PhaseAfter(o)];
  }

  lemma {:induction false} CallKeeps(s: System, t: nat)
    requires Inv(s) && Enabled(s, Call(t))
    ensures 0 <= s.sh.nIdle <= s.sh.nTotal && Inv(Next(s, Call(t)))
  {
    Counts(s, t);
    var p := s.threads[t];
    var q := Running(p.rest[1..], p.nNow, p.fOk && p.rest[0]);
    TotalUpdate(s.threads, t, q, Load);
    TotalUpdate(s.threads, t, q, InLoop);
    TotalUpdate(s.threads, t, q, Idle);
    AllSplit(p.rest, 1);
    assert Verdict(q) <==> Verdict(p) by {
      assert All(p.rest[..1]) <==> p.rest[..1][0];
    }
    var hs := s.threads[t := Outside];
    VerdictsAfter(hs, t, p);
    VerdictsAfter(hs, t, q);
    assert hs[t := p] == s.threads && hs[t := q] == s.threads[t := q];
    assert BatchOk(p) && BatchOk(q);
  }

  lemma {:induction false} AddKeeps(s: System, checks: seq<bool>, woken: nat)
    requires Inv(s) && Enabled(s, Add(checks, woken))
    ensures 0 <= s.sh.nIdle <= s.sh.nTotal && Inv(Next(s, Add(checks, woken)))
  {
    Counts(s, MASTER);
    var u := Next(s, Add(checks, woken));
    NotifiedIsFree(s.threads, u.threads);
    AllSplit(u.sh.queue, |s.sh.queue|);
    assert u.sh.queue[..|s.sh.queue|] == s.sh.queue && u.sh.queue[|s.sh.queue|..] == checks;
    AllSplit(u.added, |s.added|);
    assert u.added[..|s.added|] == s.added && u.added[|s.added|..] == checks;
  }

  /** A thread that comes in or gets ready to changes no counter and has no verdict. */
  lemma {:induction false} EnteringKeeps(s: System, t: nat)
    requires Inv(s) && t < |s.threads| && (s.threads[t].Unstarted? || s.threads[t].Outside?)
    ensures Inv(s.(threads := s.threads[t := Entering]))
  {
    TotalUpdate(s.threads, t, Entering, Load);
    TotalUpdate(s.threads, t, Entering, InLoop);
    TotalUpdate(s.threads, t, Entering, Idle);
    VerdictsAfter(s.threads, t, Entering);
  }

  /** Every step keeps the invariant, and finds the counters as it needs them. */
  lemma {:induction false} NextKeeps(s: System, step: Step)
    requires Inv(s) && Enabled(s, step)
    ensures 0 <= s.sh.nIdle <= s.sh.nTotal && (step.Wake? ==> s.sh.nIdle > 0)
    ensures Inv(Next(s, step))
  {
    Counts(s, MASTER);
    match step
    case Start(t) => EnteringKeeps(s, t);
    case CallWait => EnteringKeeps(s, MASTER);
    case Add(checks, woken) => AddKeeps(s, checks, woken);
    case Call(t) => CallKeeps(s, t);
    case Lock(t) => LockKeeps(s, t);
    case Wake(t) => WakeKeeps(s, t);
  }

  //////////////////////////////////////////////////////////////////////////////
  //
  // Whole runs
  //
  //////////////////////////////////////////////////////////////////////////////

  /** The state after the steps of any interleaving; a step whose thread is not ready for it is skipped. */
  ghost function Run(s: System, steps: seq<Step>): (r: System)
    requires Inv(s)
    ensures Inv(r)
    decreases |steps|
  {
    if steps == [] then s
    else if !Enabled(s, steps[0]) then Run(s, steps[1..])
    else
      NextKeeps(s, steps[0]);
      Run(Next(s, steps[0]), steps[1..])
  }

  /**
  In every interleaving, every Wait returned true exactly when all checks added since the Wait
  before it are true, although checks are skipped once one has failed.
  */
  lemma {:induction false} WaitReturnsConjunction(nWorkers: nat, nBatchSize: nat, fQuit: bool, steps: seq<Step>)
    ensures Inv(Init(nWorkers, nBatchSize, fQuit))
    ensures var s := Run(Init(nWorkers, nBatchSize, fQuit), steps);
            forall i | 0 <= i < |s.log| :: s.log[i].1 <==> All(s.log[i].0)
  {
    InitInv(nWorkers, nBatchSize, fQuit);
  }

  predicate IsIdle(sh: Shared) {
    sh.nTotal == sh.nIdle && sh.nTodo == 0 && sh.fAllOk
  }

  /** Between a return of Wait and the next checks the queue is idle, as the control object asserts. */
  lemma {:induction false} IdleBetweenWaits(s: System)
    requires Inv(s) && s.added == []
    ensures s.sh.queue == [] && s.sh.nTodo == 0 && s.sh.fAllOk
    ensures IsIdle(s.sh)
  {
    Counts(s, MASTER);
    TotalBounds(s.threads, Load);
    forall t | 0 <= t < |s.threads| ensures InLoop(s.threads[t]) == Idle(s.threads[t]) {
      assert BatchOk(s.threads[t]) && Total(s.threads, Load) >= Load(s.threads[t]);
    }
    TotalAgree(s.threads);
  }

  lemma {:induction false} TotalAgree(ts: seq<Phase>)
    requires forall t | 0 <= t < |ts| :: InLoop(ts[t]) == Idle(ts[t])
    ensures Total(ts, InLoop) == Total(ts, Idle)
  {
    if ts != [] {
      TotalAgree(ts[..|ts| - 1]);
    }
  }

  /** When Wait returns, the checks it is about are accounted for and the queue is ready for more. */
  lemma {:induction false} WaitLeavesIdle(s: System, step: Step)
    requires Inv(s) && Enabled(s, step) && 0 <= s.sh.nIdle <= s.sh.nTotal && (step.Wake? ==> s.sh.nIdle > 0)
    requires |Next(s, step).log| > |s.log|
    ensures IsIdle(Next(s, step).sh) && Next(s, step).log == s.log + [(s.added, All(s.added))]
  {
    NextKeeps(s, step);
    var u := Next(s, step);
    IdleBetweenWaits(u);
    assert u.log[|s.log|].1 == All(u.log[|s.log|].0);
  }

  /** A master blocked without having been notified waits for a worker that holds work. */
  lemma {:induction false} BlockedMasterHasWorker(s: System)
    requires Inv(s) && s.threads[MASTER] == Waiting(false)
    ensures exists t :: MASTER < t < |s.threads| && s.threads[t].Running?
  {
    TotalBounds(s.threads, Load);
    var t :| 0 <= t < |s.threads| && Load(s.threads[t]) > 0;
  }

  /** Add wakes no worker for no checks, one for one, and all that are blocked for more. */
  lemma {:induction false} AddWakes(s: System, checks: seq<bool>, woken: nat)
    requires Inv(s) && Enabled(s, Add(checks, woken))
    ensures 0 <= s.sh.nIdle <= s.sh.nTotal
    ensures var u := Next(s, Add(checks, woken));
            && |u.threads| == |s.threads| && u.threads[MASTER] == s.threads[MASTER]
            && u.sh.queue == s.sh.queue + checks && u.added == s.added + checks
            && forall t | MASTER < t < |s.threads| ::
                 u.threads[t] == if s.threads[t].Waiting? && (|checks| > 1 || (|checks| == 1 && t == woken)) then Waiting(true)
                                 else s.threads[t]
  {
    Counts(s, MASTER);
  }

  /** A worker that accounts for all that is left to do wakes a master that is blocked. */
  lemma {:induction false} LastWorkerWakesMaster(s: System, t: nat)
    requires Inv(s) && t != MASTER && Enabled(s, Lock(t)) && s.threads[t].Running? && s.threads[t].nNow == s.sh.nTodo
    ensures 0 <= s.sh.nIdle <= s.sh.nTotal
    ensures s.threads[MASTER].Waiting? ==> Next(s, Lock(t)).threads[MASTER] == Waiting(true)
    ensures s.sh.queue == [] && Next(s, Lock(t)).sh.nTodo == 0
    ensures Next(s, Lock(t)).sh.fAllOk <==> s.sh.fAllOk && s.threads[t].fOk
  {
    Counts(s, t);
    assert BatchOk(s.threads[t]);
  }

  /** A step that is not a wakeup without notification, nor one the program takes from outside. */
  predicate Productive(s: System, step: Step)
  {
    Enabled(s, step) && (step.Call? || step.Lock? || step.Start? || (step.Wake? && s.threads[step.t].signalled))
  }

  /** While the master is in Wait, some thread can go on. */
  lemma {:induction false} WaitIsNotStuck(s: System)
    requires Inv(s) && !s.threads[MASTER].Outside?
    ensures exists step :: Productive(s, step)
  {
    if s.threads[MASTER] == Waiting(false) {
      BlockedMasterHasWorker(s);
      var t :| MASTER < t < |s.threads| && s.threads[t].Running?;
      assert Productive(s, Call(t)) || Productive(s, Lock(t));
    } else {
      assert Productive(s, Call(MASTER)) || Productive(s, Lock(MASTER)) || Productive(s, Wake(MASTER));
    }
  }

  /** An upper bound on what a thread can still do by itself. */
  function Weight(p: Phase): int {
    match p
    case Unstarted => 5
    case Outside => 0
    case Entering => 4
    case Running(rest, _, _) => 4 + |rest|
    case Waiting(signalled) => if signalled then 2 else 0
  }

  ghost function Measure(s: System): int {
    4 * |s.sh.queue| + Total(s.threads, Weight)
  }

  /** What a thread leaves a critical section with is paid for by what it takes from the queue. */
  lemma {:induction false} ProceedWeight(sh: Shared, fMaster: bool)
    requires sh.nTotal + sh.nIdle >= 0
    ensures var (sh', o) := Proceed(sh, fMaster);
            4 * |sh'.queue| + Weight(PhaseAfter(o)) <= 4 * |sh.queue| + (if sh.queue == [] then 0 else 1)
  {
  }

  lemma {:induction false} LockRunsOut(s: System, t: nat)
    requires Inv(s) && Enabled(s, Lock(t)) && 0 <= s.sh.nIdle <= s.sh.nTotal
    ensures Measure(Next(s, Lock(t))) < Measure(s)
  {
    Counts(s, t);
    var u, ts := Next(s, Lock(t)), Told(s, t);
    ProceedWeight(Locked(s, t).sh, t == MASTER);
    ToldWeight(s, t);
    TotalUpdate(ts, t, u.threads[t], Weight);
    assert ts[t := u.threads[t]] == u.threads;
  }

  /** Notifying the master weighs less than the batch that is cleaned up. */
  lemma {:induction false} ToldWeight(s: System, t: nat)
    requires Inv(s) && Enabled(s, Lock(t))
    ensures var ts := Told(s, t); |ts| == |s.threads| && ts[t] == s.threads[t] && Total(ts, Weight) <= Total(s.threads, Weight) + 2
  {
    TotalUpdate(s.threads, MASTER, Notified(s.threads[MASTER]), Weight);
  }

  /**
  Every productive step uses up some of a finite supply, so however the threads are scheduled,
  only finitely many of them can be taken before the master adds more checks; as one is always
  possible while it is in Wait, Wait returns.
  */
  lemma {:induction false} ProductiveStepsRunOut(s: System, step: Step)
    requires Inv(s) && Productive(s, step)
    ensures 0 <= s.sh.nIdle <= s.sh.nTotal && (step.Wake? ==> s.sh.nIdle > 0)
    ensures 0 <= Measure(Next(s, step)) < Measure(s)
  {
    NextKeeps(s, step);
    var u := Next(s, step);
    TotalBounds(u.threads, Weight);
    match step
    case Start(t) => TotalUpdate(s.threads, t, Entering, Weight);
    case Call(t) => TotalUpdate(s.threads, t, u.threads[t], Weight);
    case Wake(t) =>
      ProceedWeight(s.sh.(nIdle := s.sh.nIdle - 1), t == MASTER);
      TotalUpdate(s.threads, t, u.threads[t], Weight);
    case Lock(t) => LockRunsOut(s, t);
  }

  ghost function After(s: System, step: Step): (u: System)
    requires Inv(s) && Enabled(s, step)
    ensures Inv(u)
  {
    NextKeeps(s, step);
    Next(s, step)
  }

  /** `steps` can be taken one after the other and are all productive. */
  ghost predicate ProductiveRun(s: System, steps: seq<Step>)
    requires Inv(s)
    decreases |steps|
  {
    steps != [] ==> Productive(s, steps[0]) && ProductiveRun(After(s, steps[0]), steps[1..])
  }

  /** No schedule keeps the threads busy for ever without new checks. */
  lemma {:induction false} ProductiveRunsAreShort(s: System, steps: seq<Step>)
    requires Inv(s) && ProductiveRun(s, steps)
    ensures |steps| <= Measure(s)
    decreases |steps|
  {
    if steps == [] {
      TotalBounds(s.threads, Weight);
    } else {
      ProductiveStepsRunOut(s, steps[0]);
      ProductiveRunsAreShort(After(s, steps[0]), steps[1..]);
    }
  }

  /** Any productive run that cannot be continued has brought the master out of Wait. */
  lemma {:induction false} StuckOnlyOutside(s: System, steps: seq<Step>)
    requires Inv(s) && ProductiveRun(s, steps)
    requires forall step :: !ProductiveRun(s, steps + [step])
    ensures Run(s, steps).threads[MASTER].Outside?
    decreases |steps|
  {
    if steps == [] {
      forall step ensures !Productive(s, step) {
        var one := steps + [step];
        assert one[0] == step && one[1..] == [];
        assert Productive(s, step) ==> ProductiveRun(s, one);
      }
      if !s.threads[MASTER].Outside? {
        WaitIsNotStuck(s);
      }
    } else {
      var u := After(s, steps[0]);
      forall step ensures !ProductiveRun(u, steps[1..] + [step]) {
        assert (steps + [step])[1..] == steps[1..] + [step] && (steps + [step])[0] == steps[0];
        assert !ProductiveRun(s, steps + [step]);
      }
      StuckOnlyOutside(u, steps[1..]);
    }
  }
}
