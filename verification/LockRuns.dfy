/** Coroutines that share a lock, as lualib/lock.lua and Skynet.wait/wakeup schedule them:
    any coroutine may take the next step, and what cannot happen changes nothing. */
module LockRuns {
  import opened CoLock
  import opened LockBodies
  import opened Wrappers

  datatype Phase = Running | Waiting | Woken

  /** The lock, what each coroutine is doing, and how many lock_func bodies (or locks not
      yet undone) it is in. */
  datatype System = System(lock: LockState, phase: map<Co, Phase>, frames: map<Co, nat>)

  function PhaseOf(s: System, co: Co): Phase {
    if co in s.phase then s.phase[co] else Running
  }

  function Frames(s: System, co: Co): nat {
    if co in s.frames then s.frames[co] else 0
  }

  const INIT := System(LockState(None, 0, []), map[], map[])

  /** `lock`; the return from its wait; `unlock`. */
  datatype Step = Enter(co: Co) | Resume(co: Co) | Leave(co: Co)

  function Next(s: System, step: Step): System {
    match step
    case Enter(co) =>
      if PhaseOf(s, co) != Running then s
      else if Waits(s.lock, co) then s.(lock := Locking(s.lock, co), phase := s.phase[co := Waiting])
      else s.(lock := Locking(s.lock, co), frames := s.frames[co := Frames(s, co) + 1])
    case Resume(co) =>
      if PhaseOf(s, co) != Woken then s
      else s.(phase := s.phase[co := Running], frames := s.frames[co := Frames(s, co) + 1])
    case Leave(co) =>
      // the assertion of unlock fails for others than the owner
      if PhaseOf(s, co) != Running || s.lock.locked != Some(co) || Frames(s, co) == 0 then s
      else
        var woken := Wakes(s.lock);
        var phase := if woken == None then s.phase else s.phase[woken.value := Woken];
        System(Unlocking(s.lock), phase, s.frames[co := (Frames(s, co) - 1) as nat])
  }

  function Run(s: System, steps: seq<Step>): System
  {
    if steps == [] then s else Next(Run(s, steps[..|steps| - 1]), steps[|steps| - 1])
  }

  // ----- safety -----

  ghost predicate Distinct(q: seq<Co>) {
    forall i, j :: 0 <= i < j < |q| ==> q[i] != q[j]
  }

  /** What every run keeps. */
  ghost predicate Safe(s: System) {
    && Shape(s.lock)
    && Distinct(s.lock.waiter)
    && (forall co: Co :: CoOk(s, co))
    && (s.lock.locked != None ==> OwnerOk(s, s.lock.locked.value))
  }

  /** Whoever waits is queued, and only the owner is in a body or woken. */
  ghost predicate CoOk(s: System, co: Co) {
    && (PhaseOf(s, co) == Waiting <==> co in s.lock.waiter)
    && (s.lock.locked != Some(co) ==> Frames(s, co) == 0 && PhaseOf(s, co) != Woken)
  }

  /** The owner is not waiting, and the count is the number of bodies it is in; one that
      has been woken and not gone on yet will be in one. */
  ghost predicate OwnerOk(s: System, co: Co) {
    && co !in s.lock.waiter
    && s.lock.count == Frames(s, co) + (if PhaseOf(s, co) == Woken then 1 else 0)
    && (PhaseOf(s, co) == Woken ==> Frames(s, co) == 0)
  }

  lemma InitIsSafe()
    ensures Safe(INIT)
  {
    forall co: Co ensures CoOk(INIT, co) {}
  }

  lemma QueueOneMore(q: seq<Co>, co: Co)
    requires Distinct(q) && co !in q
    ensures Distinct(q + [co]) && forall c :: c in q + [co] <==> c in q || c == co
  {
  }

  lemma QueueOneLess(q: seq<Co>)
    requires Distinct(q) && q != []
    ensures Distinct(q[1..]) && forall c :: c in q[1..] <==> c in q && c != q[0]
  {
    assert q == [q[0]] + q[1..];
  }

  lemma EnterIsSafe(s: System, co: Co)
    requires Safe(s)
    ensures Safe(Next(s, Enter(co)))
  {
    assert CoOk(s, co);
    if PhaseOf(s, co) == Running { QueueOneMore(s.lock.waiter, co); }
    forall c: Co ensures CoOk(Next(s, Enter(co)), c) { assert CoOk(s, c); }
  }

  lemma ResumeIsSafe(s: System, co: Co)
    requires Safe(s)
    ensures Safe(Next(s, Resume(co)))
  {
    forall c: Co ensures CoOk(Next(s, Resume(co)), c) { assert CoOk(s, c) && CoOk(s, co); }
  }

  lemma LeaveIsSafe(s: System, co: Co)
    requires Safe(s)
    ensures Safe(Next(s, Leave(co)))
  {
    if s.lock.waiter != [] {
      QueueOneLess(s.lock.waiter);
      var h := s.lock.waiter[0];
      assert CoOk(s, h);
    }
    forall c: Co ensures CoOk(Next(s, Leave(co)), c) { assert CoOk(s, c); }
  }

  lemma StepIsSafe(s: System, step: Step)
    requires Safe(s)
    ensures Safe(Next(s, step))
  {
    match step
    case Enter(co) => EnterIsSafe(s, co);
    case Resume(co) => ResumeIsSafe(s, co);
    case Leave(co) => LeaveIsSafe(s, co);
  }

  lemma {:induction false} RunIsSafe(s: System, steps: seq<Step>)
    requires Safe(s)
    ensures Safe(Run(s, steps))
  {
    if steps != [] {
      RunIsSafe(s, steps[..|steps| - 1]);
      StepIsSafe(Run(s, steps[..|steps| - 1]), steps[|steps| - 1]);
    }
  }

  /** At most one coroutine is in a body, and it owns the lock. */
  lemma MutualExclusion(s: System, a: Co, b: Co)
    requires Safe(s) && Frames(s, a) > 0 && Frames(s, b) > 0
    ensures a == b && s.lock.locked == Some(a) && PhaseOf(s, a) == Running && s.lock.count == Frames(s, a)
  {
    assert CoOk(s, a) && CoOk(s, b);
  }

  /** The assertion behind the wait: whoever has been woken owns the lock, and nobody
      took it in between. */
  lemma WokenOwns(s: System, co: Co)
    requires Safe(s) && PhaseOf(s, co) == Woken
    ensures s.lock.locked == Some(co) && s.lock.count == 1
  {
    assert CoOk(s, co);
  }

  /** Whoever waits, waits for another coroutine that can go on: it runs in a body or
      has been woken. */
  lemma NobodyIsForgotten(s: System, co: Co) returns (owner: Co)
    requires Safe(s) && PhaseOf(s, co) == Waiting
    ensures s.lock.locked == Some(owner) && owner != co
    ensures (PhaseOf(s, owner) == Running && Frames(s, owner) > 0) || PhaseOf(s, owner) == Woken
  {
    assert CoOk(s, co);
    owner := s.lock.locked.value;
    assert CoOk(s, owner);
  }

  // ----- fairness -----

  /** The unlock that gives up the lock. */
  predicate FullRelease(s: System, step: Step) {
    step.Leave? && PhaseOf(s, step.co) == Running && s.lock.locked == Some(step.co) && Frames(s, step.co) > 0
    && s.lock.count == 1
  }

  function Releases(s: System, steps: seq<Step>): nat {
    if steps == [] then 0
    else
      var front := steps[..|steps| - 1];
      Releases(s, front) + (if FullRelease(Run(s, front), steps[|steps| - 1]) then 1 else 0)
  }

  /** What a step does to the queue: a full release takes its head, which owns the lock
      from then on; else at most one coroutine joins at the end. */
  lemma QueueStep(s: System, step: Step)
    requires Safe(s)
    ensures var q, q' := s.lock.waiter, Next(s, step).lock.waiter;
      if FullRelease(s, step) && q != [] then q' == q[1..] && Next(s, step).lock.locked == Some(q[0])
      else q <= q'
  {
    assert step.Leave? ==> CoOk(s, step.co);
  }

  /** A coroutine behind `k` others moves up with every full release and with nothing
      else, and owns the lock right after the one that follows the first `k`. */
  lemma {:induction false} FirstComeFirstServed(s: System, steps: seq<Step>, k: nat)
    requires Safe(s) && k < |s.lock.waiter|
    ensures var n, t := Releases(s, steps), Run(s, steps);
      && (n <= k ==> k - n < |t.lock.waiter| && t.lock.waiter[k - n] == s.lock.waiter[k] && t.lock.locked != Some(s.lock.waiter[k]))
      && (n == k + 1 && FullRelease(Run(s, steps[..|steps| - 1]), steps[|steps| - 1]) ==>
            t.lock.locked == Some(s.lock.waiter[k]))
  {
    var c := s.lock.waiter[k];
    if steps == [] {
      assert CoOk(s, c);
    } else {
      var front, last := steps[..|steps| - 1], steps[|steps| - 1];
      FirstComeFirstServed(s, front, k);
      RunIsSafe(s, front);
      QueueStep(Run(s, front), last);
      RunIsSafe(s, steps);
      assert CoOk(Run(s, steps), c);
    }
  }

  /** A free lock has no queue: nobody can get it before those that wait. */
  lemma NoBarging(s: System, step: Step, co: Co)
    requires Safe(s) && s.lock.locked != Some(co) && Next(s, step).lock.locked == Some(co)
    ensures s.lock.waiter == [] || s.lock.waiter[0] == co
  {
  }

  /** The class Lock goes through the same states. */
  method Play(steps: seq<Step>) returns (lock: Lock)
    ensures fresh(lock) && lock.State() == Run(INIT, steps).lock
  {
    lock := new Lock();
    var s := INIT;
    InitIsSafe();
    for i := 0 to |steps|
      invariant fresh(lock) && lock.State() == s.lock && s == Run(INIT, steps[..i]) && Safe(s)
    {
      var step := steps[i];
      if PhaseOf(s, step.co) == Running {
        assert CoOk(s, step.co);
        match step {
          case Enter(co) =>
            var waits := lock.Acquire(co);
          case Leave(co) =>
            var ok, woken := lock.Release(co);
          case Resume(_) =>
        }
      }
      assert steps[..i + 1][..i] == steps[..i];
      StepIsSafe(s, step);
      s := Next(s, step);
    }
    assert steps[..|steps|] == steps;
  }
}
