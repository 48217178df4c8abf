/** What functions under lock_func of lualib/lock.lua do: calls of lock_func inside, errors,
    and the arrival of other coroutines. */
module LockBodies {

  type Co = nat

  /** What a body under lock_func does: the coroutines that call lock meanwhile, the
      calls of lock_func inside, whether it raises in the end, and whether its caller
      catches an error of it. */
  datatype Body = Body(others: seq<Co>, calls: seq<Body>, raises: bool, caught: bool)

  function Raises(b: Body): bool {
    b.raises || RaisesIn(b.calls)
  }

  function RaisesIn(calls: seq<Body>): bool {
    calls != [] && ((Raises(calls[0]) && !calls[0].caught) || RaisesIn(calls[1..]))
  }

  /** Who is queued by the body; an error that is not caught ends it. */
  function Arrivals(b: Body): seq<Co> {
    b.others + ArrivalsIn(b.calls)
  }

  function ArrivalsIn(calls: seq<Body>): seq<Co> {
    if calls == [] then []
    else Arrivals(calls[0]) + (if Raises(calls[0]) && !calls[0].caught then [] else ArrivalsIn(calls[1..]))
  }

  predicate Comes(b: Body, co: Co) {
    co in b.others || ComesIn(b.calls, co)
  }

  predicate ComesIn(calls: seq<Body>, co: Co) {
    calls != [] && (Comes(calls[0], co) || ComesIn(calls[1..], co))
  }

  // ----- along the calls -----

  /** A body inside another one, as the positions of the calls that lead to it. */
  type Path = seq<nat>

  /** The body at the end of the path raises, and no call on the path is caught. */
  ghost predicate RaisesAlong(b: Body, p: Path) {
    if p == [] then b.raises
    else p[0] < |b.calls| && !b.calls[p[0]].caught && RaisesAlong(b.calls[p[0]], p[1..])
  }

  /** An error leaves the body: it is raised somewhere in it and caught nowhere on its way. */
  ghost predicate Fails(b: Body) {
    exists p :: RaisesAlong(b, p)
  }

  /** The call ends its caller. */
  ghost predicate Breaks(c: Body) {
    Fails(c) && !c.caught
  }

  /** No call before those on the path has ended a body on the path. */
  ghost predicate Reached(b: Body, p: Path) {
    p == [] ||
    (p[0] < |b.calls| && (forall j :: 0 <= j < p[0] ==> !Breaks(b.calls[j])) && Reached(b.calls[p[0]], p[1..]))
  }

  /** A body comes before those it calls, and what it calls first before what it calls then. */
  ghost predicate Earlier(p: Path, q: Path) {
    q != [] && (p == [] || p[0] < q[0] || (p[0] == q[0] && Earlier(p[1..], q[1..])))
  }

  ghost predicate InTurn(order: seq<Path>) {
    forall i, j :: 0 <= i < j < |order| ==> Earlier(order[i], order[j])
  }

  lemma {:induction false} RaisesIffFails(b: Body)
    ensures Raises(b) <==> Fails(b)
    decreases b, 1
  {
    RaisesInIff(b.calls, 0);
    assert b.calls[0..] == b.calls;
    if b.raises { assert RaisesAlong(b, []); }
    if n :| 0 <= n < |b.calls| && Breaks(b.calls[n]) {
      var q :| RaisesAlong(b.calls[n], q);
      assert ([n] + q)[1..] == q;
      assert RaisesAlong(b, [n] + q);
    }
    if p :| RaisesAlong(b, p) {
      if p != [] {
        assert RaisesAlong(b.calls[p[0]], p[1..]);
        assert Breaks(b.calls[p[0]]);
      }
    }
  }

  lemma {:induction false} RaisesInIff(calls: seq<Body>, n: nat)
    requires n <= |calls|
    ensures RaisesIn(calls[n..]) <==> exists k :: n <= k < |calls| && Breaks(calls[k])
    decreases calls, |calls| - n
  {
    if n < |calls| {
      BreaksIff(calls[n]);
      RaisesInIff(calls, n + 1);
      assert calls[n..][1..] == calls[n + 1..];
      assert RaisesIn(calls[n..]) <==> Breaks(calls[n]) || RaisesIn(calls[n + 1..]);
    }
  }

  lemma {:induction false} BreaksIff(c: Body)
    ensures Breaks(c) <==> Raises(c) && !c.caught
    decreases c, 2
  {
    RaisesIffFails(c);
  }

  // ----- who arrives -----

  function OthersAt(b: Body, p: Path): seq<Co> {
    if p == [] then b.others else if p[0] < |b.calls| then OthersAt(b.calls[p[0]], p[1..]) else []
  }

  function AllOthers(b: Body, order: seq<Path>): seq<Co> {
    if order == [] then [] else OthersAt(b, order[0]) + AllOthers(b, order[1..])
  }

  /** The bodies that are begun, in turn. */
  ghost predicate Begun(b: Body, order: seq<Path>) {
    InTurn(order) && forall p :: p in order <==> Reached(b, p)
  }

  /** Those behind call `n`. */
  ghost predicate BegunFrom(b: Body, n: nat, order: seq<Path>) {
    InTurn(order) && forall p :: p in order <==> p != [] && p[0] >= n && Reached(b, p)
  }

  function Under(n: nat, ps: seq<Path>): (qs: seq<Path>)
    ensures |qs| == |ps| && forall i :: 0 <= i < |ps| ==> qs[i] == [n] + ps[i]
  {
    seq(|ps|, i requires 0 <= i < |ps| => [n] + ps[i])
  }

  lemma UnderMeans(n: nat, ps: seq<Path>, p: Path)
    ensures p in Under(n, ps) <==> p != [] && p[0] == n && p[1..] in ps
  {
    var qs := Under(n, ps);
    if p in qs {
      var i :| 0 <= i < |qs| && qs[i] == p;
      assert p[1..] == ps[i];
    }
    if p != [] && p[0] == n && p[1..] in ps {
      var i :| 0 <= i < |ps| && ps[i] == p[1..];
      assert qs[i] == p;
    }
  }

  lemma {:induction false} OthersUnder(b: Body, n: nat, ps: seq<Path>)
    requires n < |b.calls|
    ensures AllOthers(b, Under(n, ps)) == AllOthers(b.calls[n], ps)
  {
    if ps != [] {
      OthersUnder(b, n, ps[1..]);
      assert Under(n, ps)[1..] == Under(n, ps[1..]);
      assert ([n] + ps[0])[1..] == ps[0];
    }
  }

  lemma {:induction false} OthersJoin(b: Body, x: seq<Path>, y: seq<Path>)
    ensures AllOthers(b, x + y) == AllOthers(b, x) + AllOthers(b, y)
  {
    if x == [] {
      assert x + y == y;
    } else {
      assert (x + y)[1..] == x[1..] + y;
      OthersJoin(b, x[1..], y);
    }
  }

  lemma UnderInTurn(n: nat, ps: seq<Path>)
    requires InTurn(ps)
    ensures InTurn(Under(n, ps))
  {
    var qs := Under(n, ps);
    forall i, j | 0 <= i < j < |qs| ensures Earlier(qs[i], qs[j]) {
      assert qs[i][1..] == ps[i] && qs[j][1..] == ps[j];
    }
  }

  /** The bodies of call `n` come before those of the later ones. */
  lemma BegunJoin(b: Body, n: nat, ps: seq<Path>, later: seq<Path>)
    requires n < |b.calls| && (forall j :: 0 <= j < n ==> !Breaks(b.calls[j])) && Begun(b.calls[n], ps)
    requires if Breaks(b.calls[n]) then later == [] else BegunFrom(b, n + 1, later)
    ensures BegunFrom(b, n, Under(n, ps) + later)
  {
    var qs := Under(n, ps);
    UnderInTurn(n, ps);
    forall i, j | 0 <= i < |qs| && 0 <= j < |later| ensures Earlier(qs[i], later[j]) {
      assert later[j] in later;
    }
    forall p ensures p in qs + later <==> p != [] && p[0] >= n && Reached(b, p) {
      UnderMeans(n, ps, p);
    }
  }

  /** Who is queued by a body: the coroutines that come in the bodies that are reached before
      an error has ended their caller, in the order of these. */
  lemma {:induction false} ArrivalsInTurn(b: Body) returns (order: seq<Path>)
    ensures Begun(b, order) && Arrivals(b) == AllOthers(b, order)
    decreases b, 1
  {
    var later := ArrivalsFrom(b, b.calls, 0);
    order := [[]] + later;
    assert order[1..] == later && b.calls[0..] == b.calls;
    forall i, j | 0 <= i < j < |order| ensures Earlier(order[i], order[j]) {
      assert order[j] in later;
    }
  }

  lemma {:induction false} ArrivalsFrom(b: Body, calls: seq<Body>, n: nat) returns (order: seq<Path>)
    requires calls == b.calls && n <= |calls| && forall j :: 0 <= j < n ==> !Breaks(calls[j])
    ensures BegunFrom(b, n, order) && ArrivalsIn(calls[n..]) == AllOthers(b, order)
    decreases calls, |calls| - n
  {
    order := [];
    if n < |calls| {
      var ps := ArrivalsInTurn(calls[n]);
      var later := [];
      BreaksIff(calls[n]);
      if !Breaks(calls[n]) { later := ArrivalsFrom(b, calls, n + 1); }
      order := Under(n, ps) + later;
      BegunJoin(b, n, ps, later);
      OthersUnder(b, n, ps);
      OthersJoin(b, Under(n, ps), later);
      assert calls[n..][1..] == calls[n + 1..];
    }
  }
}
