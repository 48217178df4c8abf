/** The re-entrant lock of lualib/lock.lua. Code between two yields is atomic, so `lock`
    is split at Skynet.wait. */
module CoLock {
  import opened LockBodies
  import opened Wrappers

  // ----- the fields -----

  /** The fields of a lock; `count` is 0 for a lock_count that is nil. */
  datatype LockState = LockState(locked: Option<Co>, count: nat, waiter: seq<Co>)

  /** Somebody waits only for a lock that is held. */
  predicate Shape(l: LockState) {
    if l.locked == None then l.waiter == [] else l.count > 0
  }

  /** lock, up to its return or its wait. */
  function Locking(l: LockState, co: Co): LockState {
    if l.locked == Some(co) then l.(count := l.count + 1)
    else if l.locked == None then l.(locked := Some(co), count := 1)
    else l.(waiter := l.waiter + [co])
  }

  function Waits(l: LockState, co: Co): bool {
    l.locked != None && l.locked != Some(co)
  }

  /** unlock of the owner. */
  function Unlocking(l: LockState): LockState {
    if l.count > 1 then l.(count := l.count - 1)
    else if l.waiter == [] then LockState(None, 0, [])
    else LockState(Some(l.waiter[0]), 1, l.waiter[1..])
  }

  /** The coroutine an unlock wakes. */
  function Wakes(l: LockState): Option<Co> {
    if l.count > 1 || l.waiter == [] then None else Some(l.waiter[0])
  }

  class Lock {
    var locked: Option<Co>
    var count: nat
    var waiter: seq<Co>

    ghost function State(): LockState
      reads this
    {
      LockState(locked, count, waiter)
    }

    constructor ()
      ensures State() == LockState(None, 0, [])
    {
      locked, count, waiter := None, 0, [];
    }

    /** _lock: its assertion never fails. */
    method Take(co: Co)
      requires locked == None
      modifies this`locked, this`count
      ensures locked == Some(co) && count == 1
    {
      locked := Some(co);
      count := 1;
    }

    method Acquire(co: Co) returns (waits: bool)
      modifies this
      ensures State() == Locking(old(State()), co) && waits == Waits(old(State()), co)
    {
      if locked == Some(co) {
        count := count + 1;
        return false;
      }
      if locked == None {
        Take(co);
        return false;
      }
      waiter := waiter + [co];
      return true;
    }

    /** unlock: `ok` is false when the caller is not the owner. */
    method Release(co: Co) returns (ok: bool, woken: Option<Co>)
      requires Shape(State())
      modifies this
      ensures ok == (old(locked) == Some(co))
      ensures ok ==> State() == Unlocking(old(State())) && woken == Wakes(old(State()))
      ensures !ok ==> State() == old(State()) && woken == None
    {
      if locked != Some(co) { return false, None; }
      count := count - 1;
      if count > 0 {
        return true, None;
      }
      locked := None;
      count := 0;
      if waiter == [] { return true, None; }
      var next := waiter[0];
      waiter := waiter[1..];
      Take(next);
      return true, Some(next);
    }

    /** lock_func in a coroutine that does not have to wait. An error of the body is
        raised again, but only after the unlock: the depth is what it was before. */
    method LockFunc(co: Co, b: Body) returns (raised: bool)
      requires Shape(State()) && (locked == None || locked == Some(co)) && !Comes(b, co)
      modifies this
      ensures raised == Raises(b) && (b.raises ==> raised)
      ensures raised <==> Fails(b)
      ensures old(locked) == Some(co) ==> State() == old(State()).(waiter := old(waiter) + Arrivals(b))
      ensures old(locked) == None ==> State() == Unlocking(LockState(Some(co), 1, Arrivals(b)))
      decreases b, 1
    {
      RaisesIffFails(b);
      var waits := Acquire(co);
      raised := RunBody(co, b);
      var ok, woken := Release(co);
      assert ok;
    }

    method RunBody(co: Co, b: Body) returns (raised: bool)
      requires locked == Some(co) && count > 0 && !Comes(b, co)
      modifies this
      ensures raised == Raises(b)
      ensures State() == old(State()).(waiter := old(waiter) + Arrivals(b))
      decreases b, 0
    {
      Others(co, b.others);
      raised := RunCalls(co, b.calls);
      raised := raised || b.raises;
    }

    method Others(co: Co, others: seq<Co>)
      requires locked == Some(co) && co !in others
      modifies this`waiter
      ensures waiter == old(waiter) + others
    {
      for i := 0 to |others|
        invariant waiter == old(waiter) + others[..i]
      {
        waiter := waiter + [others[i]];
      }
    }

    method RunCalls(co: Co, calls: seq<Body>) returns (raised: bool)
      requires locked == Some(co) && count > 0 && !ComesIn(calls, co)
      modifies this
      ensures raised == RaisesIn(calls)
      ensures State() == old(State()).(waiter := old(waiter) + ArrivalsIn(calls))
      decreases calls
    {
      if calls == [] { return false; }
      raised := LockFunc(co, calls[0]);
      if raised && !calls[0].caught { return true; }
      raised := RunCalls(co, calls[1..]);
    }
  }
}
