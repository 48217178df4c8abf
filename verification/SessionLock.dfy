/** lualib/session_lock.lua: sessions run under one lock until a coroutine quits. */
module SessionLock {
  import opened CoLock
  import opened LockBodies
  import opened LockRuns
  import opened Wrappers

  datatype Kind = Session | Quit

  /** The fields of the session lock and the coroutines: what each one that waits wants,
      and in how many session bodies each one is. */
  datatype Sessions = Sessions(quit: bool, pending: map<Co, string>, sys: System, want: map<Co, Kind>, bodies: map<Co, nat>)

  function WantOf(s: Sessions, co: Co): Kind {
    if co in s.want then s.want[co] else Session
  }

  function Bodies(s: Sessions, co: Co): nat {
    if co in s.bodies then s.bodies[co] else 0
  }

  const START := Sessions(false, map[], INIT, map[], map[])

  /** lock_session up to its body; the end of the body; lock_quit; the return from a wait. */
  datatype Action = Open(co: Co, reason: string) | Close(co: Co, raised: bool) | QuitBy(co: Co) | Wake(co: Co)

  function Act(s: Sessions, a: Action): Sessions {
    match a
    case Open(co, reason) =>
      if PhaseOf(s.sys, co) != Running || s.quit then s
      else
        var t := s.(pending := s.pending[co := reason], sys := Next(s.sys, Enter(co)));
        if Waits(s.sys.lock, co) then t.(want := t.want[co := Session])
        else t.(bodies := t.bodies[co := Bodies(s, co) + 1])
    case Close(co, raised) =>
      if PhaseOf(s.sys, co) != Running || Bodies(s, co) == 0 then s
      else s.(sys := Next(s.sys, Leave(co)), bodies := s.bodies[co := (Bodies(s, co) - 1) as nat],
              pending := if raised then s.pending else s.pending - {co})
    case QuitBy(co) =>
      if PhaseOf(s.sys, co) != Running then s
      else
        var t := s.(quit := true, sys := Next(s.sys, Enter(co)));
        if Waits(s.sys.lock, co) then t.(want := t.want[co := Quit]) else t
    case Wake(co) =>
      if PhaseOf(s.sys, co) != Woken then s
      else
        var t := s.(sys := Next(s.sys, Resume(co)));
        if WantOf(s, co) == Session then t.(bodies := t.bodies[co := Bodies(s, co) + 1]) else t
  }

  function Acts(s: Sessions, actions: seq<Action>): Sessions {
    if actions == [] then s else Act(Acts(s, actions[..|actions| - 1]), actions[|actions| - 1])
  }

  // ----- the invariant -----

  /** Whoever has a lock of its own from lock_quit. */
  predicate HasQuit(s: Sessions, co: Co) {
    Frames(s.sys, co) > Bodies(s, co)
  }

  ghost predicate MemberOk(s: Sessions, co: Co) {
    && Bodies(s, co) <= Frames(s.sys, co)
    && (!s.quit ==> Bodies(s, co) == Frames(s.sys, co) && (PhaseOf(s.sys, co) != Running ==> WantOf(s, co) == Session))
    && (PhaseOf(s.sys, co) != Running && WantOf(s, co) == Session ==> co in s.pending)
  }

  /** Behind one that quits only such wait, for no session is accepted any more. */
  ghost predicate QuittersLast(s: Sessions) {
    var q := s.sys.lock.waiter;
    && (forall i, j :: 0 <= i < j < |q| && WantOf(s, q[i]) == Quit ==> WantOf(s, q[j]) == Quit)
    && (s.sys.lock.locked != None ==> OwnerQuits(s, s.sys.lock.locked.value))
  }

  ghost predicate OwnerQuits(s: Sessions, co: Co) {
    PhaseOf(s.sys, co) == Woken && WantOf(s, co) == Quit ==> OnlyQuitters(s)
  }

  ghost predicate OnlyQuitters(s: Sessions) {
    forall co :: co in s.sys.lock.waiter ==> WantOf(s, co) == Quit
  }

  ghost predicate Good(s: Sessions) {
    Safe(s.sys) && (forall co: Co :: MemberOk(s, co)) && QuittersLast(s)
  }

  lemma StartIsGood()
    ensures Good(START)
  {
    InitIsSafe();
    forall co: Co ensures MemberOk(START, co) {}
  }

  lemma MemberAfterOpen(s: Sessions, co: Co, reason: string, c: Co)
    requires Good(s)
    ensures MemberOk(Act(s, Open(co, reason)), c)
  {
    assert CoOk(s.sys, co) && MemberOk(s, c) && CoOk(s.sys, c);
  }

  lemma OpenIsGood(s: Sessions, co: Co, reason: string)
    requires Good(s)
    ensures Good(Act(s, Open(co, reason)))
  {
    var t := Act(s, Open(co, reason));
    StepIsSafe(s.sys, Enter(co));
    assert CoOk(s.sys, co);
    forall c: Co ensures MemberOk(t, c) { MemberAfterOpen(s, co, reason, c); }
    if t != s {
      forall c | c in t.sys.lock.waiter ensures WantOf(t, c) == Session {
        assert MemberOk(t, c) && CoOk(t.sys, c);
      }
      if s.sys.lock.locked != None { assert MemberOk(s, s.sys.lock.locked.value); }
    }
  }

  lemma QuitIsGood(s: Sessions, co: Co)
    requires Good(s)
    ensures Good(Act(s, QuitBy(co)))
  {
    var t := Act(s, QuitBy(co));
    StepIsSafe(s.sys, Enter(co));
    assert CoOk(s.sys, co);
    forall c: Co ensures MemberOk(t, c) { assert MemberOk(s, c) && CoOk(s.sys, c); }
  }

  lemma MemberAfterWake(s: Sessions, co: Co, c: Co)
    requires Good(s)
    ensures MemberOk(Act(s, Wake(co)), c)
  {
    assert MemberOk(s, c) && CoOk(s.sys, c);
  }

  lemma WakeIsGood(s: Sessions, co: Co)
    requires Good(s)
    ensures Good(Act(s, Wake(co)))
  {
    var t := Act(s, Wake(co));
    StepIsSafe(s.sys, Resume(co));
    forall c: Co ensures MemberOk(t, c) { MemberAfterWake(s, co, c); }
  }

  lemma CloseIsGood(s: Sessions, co: Co, raised: bool)
    requires Good(s)
    ensures Good(Act(s, Close(co, raised)))
  {
    var t := Act(s, Close(co, raised));
    StepIsSafe(s.sys, Leave(co));
    assert CoOk(s.sys, co) && MemberOk(s, co);
    forall c: Co ensures MemberOk(t, c) { assert MemberOk(s, c) && CoOk(s.sys, c); }
  }

  lemma ActIsGood(s: Sessions, a: Action)
    requires Good(s)
    ensures Good(Act(s, a))
  {
    match a
    case Open(co, reason) => OpenIsGood(s, co, reason);
    case Close(co, raised) => CloseIsGood(s, co, raised);
    case QuitBy(co) => QuitIsGood(s, co);
    case Wake(co) => WakeIsGood(s, co);
  }

  lemma {:induction false} RunIsGood(s: Sessions, actions: seq<Action>)
    requires Good(s)
    ensures Good(Acts(s, actions))
  {
    if actions != [] {
      RunIsGood(s, actions[..|actions| - 1]);
      ActIsGood(Acts(s, actions[..|actions| - 1]), actions[|actions| - 1]);
    }
  }

  // ----- the drain -----

  /** The coroutine has a session that was accepted and is not finished. */
  predicate InSession(s: Sessions, co: Co) {
    Bodies(s, co) > 0 || (PhaseOf(s.sys, co) != Running && WantOf(s, co) == Session)
  }

  /** All sessions of coroutines other than `co` are finished. */
  ghost predicate Drained(s: Sessions, co: Co) {
    forall d: Co :: d != co ==> !InSession(s, d)
  }

  /** lock_quit that has had to wait: when it returns, the others' sessions are finished. */
  lemma QuitDrains(s: Sessions, co: Co)
    requires Good(s) && PhaseOf(s.sys, co) == Woken && WantOf(s, co) == Quit
    ensures HasQuit(Act(s, Wake(co)), co) && Drained(Act(s, Wake(co)), co)
  {
    var t := Act(s, Wake(co));
    WokenOwns(s.sys, co);
    assert MemberOk(s, co) && CoOk(s.sys, co);
    forall d: Co | d != co ensures !InSession(t, d) {
      assert MemberOk(s, d) && CoOk(s.sys, d);
    }
  }

  /** lock_quit that returns at once: the others' sessions are finished if and only if no
      session waits for the lock. One can only wait when the caller owns the lock already. */
  lemma QuitAtOnce(s: Sessions, co: Co)
    requires Good(s) && PhaseOf(s.sys, co) == Running && !Waits(s.sys.lock, co)
    ensures HasQuit(Act(s, QuitBy(co)), co)
    ensures Drained(Act(s, QuitBy(co)), co) <==> OnlyQuitters(s)
    ensures s.sys.lock.locked == None ==> OnlyQuitters(s)
  {
    var t := Act(s, QuitBy(co));
    assert MemberOk(s, co) && CoOk(s.sys, co);
    if OnlyQuitters(s) {
      forall d: Co | d != co ensures !InSession(t, d) { assert MemberOk(s, d) && CoOk(s.sys, d); }
    }
    if Drained(t, co) {
      forall d | d in s.sys.lock.waiter ensures WantOf(s, d) == Quit {
        assert CoOk(s.sys, d) && !InSession(t, d);
      }
    }
  }

  /** A coroutine that quits inside its own session leaves a waiting session behind. */
  lemma QuitInsideSession()
    ensures var s := Acts(START, [Open(1, "a"), Open(2, "b"), QuitBy(1)]);
      Good(s) && HasQuit(s, 1) && InSession(s, 2)
  {
    var actions := [Open(1, "a"), Open(2, "b"), QuitBy(1)];
    StartIsGood();
    RunIsGood(START, actions);
    assert actions[..2] == [Open(1, "a"), Open(2, "b")] && [Open(1, "a"), Open(2, "b")][..1] == [Open(1, "a")];
    assert [Open(1, "a")][..0] == [];
    var s1 := Act(START, Open(1, "a"));
    var s2 := Act(s1, Open(2, "b"));
    assert Acts(START, [Open(1, "a")]) == s1 && Acts(START, [Open(1, "a"), Open(2, "b")]) == s2;
    assert Acts(START, actions) == Act(s2, QuitBy(1));
  }

  lemma QuitStays(s: Sessions, a: Action, co: Co)
    requires Good(s) && s.quit && HasQuit(s, co)
    ensures Act(s, a).quit && HasQuit(Act(s, a), co)
    ensures forall d: Co :: d != co ==> Bodies(Act(s, a), d) == 0 && (InSession(Act(s, a), d) ==> InSession(s, d))
  {
    assert MemberOk(s, co) && CoOk(s.sys, co);
    var t := Act(s, a);
    ActIsGood(s, a);
    assert MemberOk(s, a.co) && CoOk(s.sys, a.co);
    assert HasQuit(t, co);
    forall d: Co | d != co ensures Bodies(t, d) == 0 && (InSession(t, d) ==> InSession(s, d)) {
      assert MemberOk(s, d) && CoOk(s.sys, d) && MemberOk(t, d) && CoOk(t.sys, d) && CoOk(t.sys, co);
    }
  }

  /** Once lock_quit has returned, no other coroutine ever runs a session body again, and
      no new session is accepted. */
  lemma {:induction false} QuitForever(s: Sessions, actions: seq<Action>, co: Co)
    requires Good(s) && s.quit && HasQuit(s, co)
    ensures var t := Acts(s, actions);
      && t.quit && HasQuit(t, co)
      && (forall d: Co :: d != co ==> Bodies(t, d) == 0 && (InSession(t, d) ==> InSession(s, d)))
  {
    if actions == [] {
      forall d: Co | d != co ensures Bodies(s, d) == 0 {
        assert MemberOk(s, d) && CoOk(s.sys, d) && MemberOk(s, co) && CoOk(s.sys, co);
      }
    } else {
      var front := actions[..|actions| - 1];
      QuitForever(s, front, co);
      RunIsGood(s, front);
      QuitStays(Acts(s, front), actions[|actions| - 1], co);
    }
  }

  /** From the call of lock_quit on, no session is accepted. */
  lemma {:induction false} NothingAccepted(s: Sessions, actions: seq<Action>, d: Co)
    requires Good(s) && s.quit && !InSession(s, d)
    ensures Acts(s, actions).quit && !InSession(Acts(s, actions), d)
  {
    if actions != [] {
      var front := actions[..|actions| - 1];
      NothingAccepted(s, front, d);
      RunIsGood(s, front);
      var t, a := Acts(s, front), actions[|actions| - 1];
      assert CoOk(t.sys, d) && CoOk(t.sys, a.co);
    }
  }

  /** When a coroutine is pending behind a step: it has just been accepted, or it was pending
      and has not just finished without an error. */
  lemma PendingStep(s: Sessions, a: Action, d: Co)
    requires Good(s)
    ensures d in Act(s, a).pending <==>
      || (a.Open? && a.co == d && PhaseOf(s.sys, d) == Running && !s.quit)
      || (d in s.pending && !(a == Close(d, false) && PhaseOf(s.sys, d) == Running && Bodies(s, d) > 0))
  {
  }

  // ----- the class -----

  datatype Answer = Refused | Queued | Inside

  class SessionLock {
    var quit: bool
    const lock: Lock
    var pending: map<Co, string>

    constructor ()
      ensures !quit && pending == map[] && fresh(lock) && lock.State() == LockState(None, 0, [])
    {
      quit, pending := false, map[];
      lock := new Lock();
    }

    ghost predicate Shows(s: Sessions)
      reads this, lock
    {
      quit == s.quit && pending == s.pending && lock.State() == s.sys.lock
    }

    /** lock_session, up to the body or the wait. */
    method LockSession(co: Co, reason: string, ghost s: Sessions) returns (a: Answer)
      requires Shows(s) && PhaseOf(s.sys, co) == Running
      modifies this, lock
      ensures Shows(Act(s, Open(co, reason)))
      ensures old(quit) ==> a == Refused && pending == old(pending) && lock.State() == old(lock.State())
      ensures !old(quit) ==> a == if old(lock.locked) == None || old(lock.locked) == Some(co) then Inside else Queued
      ensures !old(quit) ==> !quit && pending == old(pending)[co := reason]
    {
      if quit { return Refused; }
      pending := pending[co := reason];
      var waits := lock.Acquire(co);
      a := if waits then Queued else Inside;
    }

    /** lock_session behind the body: an error of the body skips the filter. */
    method Finish(co: Co, raised: bool, ghost s: Sessions)
      requires Shows(s) && Good(s) && PhaseOf(s.sys, co) == Running && Bodies(s, co) > 0
      modifies this, lock
      ensures Shows(Act(s, Close(co, raised)))
      ensures quit == old(quit) && pending == if raised then old(pending) else old(pending) - {co}
    {
      assert MemberOk(s, co) && CoOk(s.sys, co);
      var ok, woken := lock.Release(co);
      assert ok;
      if !raised { pending := pending - {co}; }
    }

    /** lock_quit: `logged` is what it logs. */
    method LockQuit(co: Co, ghost s: Sessions) returns (waits: bool, logged: set<Co>)
      requires Shows(s) && Good(s) && PhaseOf(s.sys, co) == Running
      modifies this, lock
      ensures Shows(Act(s, QuitBy(co)))
      ensures quit && pending == old(pending) && logged == old(pending).Keys
      ensures waits <==> old(lock.locked) != None && old(lock.locked) != Some(co)
      ensures forall d: Co :: PhaseOf(s.sys, d) != Running && WantOf(s, d) == Session ==> d in logged
    {
      forall d: Co ensures PhaseOf(s.sys, d) != Running && WantOf(s, d) == Session ==> d in pending {
        assert MemberOk(s, d);
      }
      quit := true;
      logged := pending.Keys;
      waits := lock.Acquire(co);
    }
  }
}
