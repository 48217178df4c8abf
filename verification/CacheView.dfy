/** The cache of lualib/cache_mgr.lua seen from outside: for each id, in which maps it is,
    what is known of its item, and how far its gc task is. */
module CacheView {
  import opened Wrappers

  type Id = string

  /** How far a gc task is: listed by the round, with the item dumped and its request to the
      database under way, and asleep behind the answer. */
  datatype Stage = Listed | Dumped | Saved

  /** `dirty` says that the item has been used since it was dumped last: such a use is not in
      what the database has, or is about to get. */
  datatype Entry = Entry(hot: bool, cold: bool, gc: bool, refs: int, access: int, saved: int, dirty: bool, task: Option<Stage>)

  type View = map<Id, Entry>

  /** max_cnt, ttl and save_cd. */
  datatype Limits = Limits(maxCnt: int, ttl: int, saveCd: int)

  /** get_cache; the second half of get_item; update; a round of _gc; the three parts of
      gc_item, between its two yields and around them; exit; inc_ref and dec_ref. */
  datatype Action = Get(id: Id, now: int) | Load(id: Id, now: int) | Expire(now: int) | Round
    | Snapshot(id: Id) | Save(id: Id, now: int) | End(id: Id) | Stop | Ref(id: Id, up: bool)

  function HotIds(v: View): set<Id> {
    set id | id in v && v[id].hot
  }

  predicate Warm(e: Entry) {
    e.hot || e.cold
  }

  /** No reference, or no access for long: such an item does not stay cold at a swap. */
  predicate Unused(e: Entry, minAccess: int) {
    !(e.refs > 0 && e.access > minAccess)
  }

  /** What the swap of add_hot does to an entry. */
  function AgedEntry(e: Entry, minAccess: int): Entry {
    if e.hot then e.(hot := false, cold := true)
    else if e.cold && Unused(e, minAccess) then e.(cold := false, gc := true)
    else e
  }

  function Aged(v: View, minAccess: int): View {
    map id | id in v :: AgedEntry(v[id], minAccess)
  }

  /** An entry on its way to hot: an item that was only in gc leaves gc. */
  function Heated(e: Entry): Entry {
    e.(hot := true, cold := false, gc := e.cold && e.gc)
  }

  function MakeHot(v: View, id: Id, lim: Limits, now: int): View
    requires id in v
  {
    if v[id].hot then v
    else
      var w := v[id := Heated(v[id])];
      if |HotIds(w)| < lim.maxCnt then w else Aged(w, now - lim.ttl)
  }

  /** Whoever looks an item up goes on to use it. */
  function Touched(v: View, id: Id, now: int): View {
    if id in v then v[id := v[id].(access := now, dirty := true)] else v
  }

  function Found(v: View, id: Id, lim: Limits, now: int): View
    requires id in v
  {
    Touched(MakeHot(v, id, lim, now), id, now)
  }

  function NewEntry(now: int): Entry {
    Entry(false, false, false, 0, now, now, true, None)
  }

  function ExpiredEntry(e: Entry, minAccess: int, minSave: int): Entry {
    if !Warm(e) then e
    else if e.access < minAccess then e.(hot := false, cold := false, gc := true)
    else if e.saved < minSave then e.(gc := true)
    else e
  }

  predicate Idle(v: View) {
    forall id :: id in v ==> v[id].task == None
  }

  function Next(v: View, a: Action, lim: Limits): View {
    match a
    case Get(id, now) => if id in v then Found(v, id, lim, now) else v
    case Load(id, now) =>
      if id in v then Found(v, id, lim, now) else MakeHot(v[id := NewEntry(now)], id, lim, now)
    case Expire(now) => map id | id in v :: ExpiredEntry(v[id], now - lim.ttl, now - lim.saveCd)
    case Round => if Idle(v) then map id | id in v :: v[id].(task := if v[id].gc then Some(Listed) else None) else v
    case Snapshot(id) =>
      if id in v && v[id].task == Some(Listed) then v[id := v[id].(dirty := false, task := Some(Dumped))] else v
    case Save(id, now) =>
      if id in v && v[id].task == Some(Dumped) then v[id := v[id].(saved := now, task := Some(Saved))] else v
    case End(id) =>
      if id !in v || v[id].task != Some(Saved) then v
      else if Warm(v[id]) then v[id := v[id].(gc := false, task := None)] else v - {id}
    case Stop => map id | id in v :: if Warm(v[id]) then v[id].(hot := false, cold := false, gc := true) else v[id]
    case Ref(id, up) => if id in v then v[id := v[id].(refs := v[id].refs + if up then 1 else -1)] else v
  }

  function After(v: View, actions: seq<Action>, lim: Limits): View {
    if actions == [] then v else Next(After(v, actions[..|actions| - 1], lim), actions[|actions| - 1], lim)
  }

  // ----- the gc task and the use of an item behind its dump -----

  predicate Uses(a: Action, id: Id) {
    (a.Get? || a.Load?) && a.id == id
  }

  /** No step of the run uses `id`. */
  predicate NotUsed(actions: seq<Action>, id: Id) {
    forall a :: a in actions ==> !Uses(a, id)
  }

  /** The request to the database has been answered. */
  predicate Answered(actions: seq<Action>, id: Id) {
    exists a :: a in actions && a.Save? && a.id == id
  }

  /** The gc task has dumped the item and has not ended. */
  predicate UnderWay(e: Entry) {
    e.task == Some(Dumped) || e.task == Some(Saved)
  }

  lemma UnderWayStep(v: View, a: Action, id: Id, lim: Limits)
    requires id in v && UnderWay(v[id]) && a != End(id)
    ensures var w := Next(v, a, lim);
      && id in w && UnderWay(w[id])
      && w[id].dirty == (v[id].dirty || Uses(a, id))
      && (w[id].task == Some(Saved) <==> v[id].task == Some(Saved) || (a.Save? && a.id == id))
  {
  }

  lemma Split(actions: seq<Action>, id: Id)
    requires actions != []
    ensures var front, a := actions[..|actions| - 1], actions[|actions| - 1];
      && (NotUsed(actions, id) <==> NotUsed(front, id) && !Uses(a, id))
      && (Answered(actions, id) <==> Answered(front, id) || (a.Save? && a.id == id))
      && (End(id) in actions <==> End(id) in front || a == End(id))
  {
    var front, a := actions[..|actions| - 1], actions[|actions| - 1];
    assert actions == front + [a];
  }

  /** From a dump on, as long as the task does not end. */
  lemma {:induction false} UnderWayRun(v: View, actions: seq<Action>, id: Id, lim: Limits)
    requires id in v && UnderWay(v[id]) && End(id) !in actions
    ensures var w := After(v, actions, lim);
      && id in w && UnderWay(w[id])
      && w[id].dirty == (v[id].dirty || !NotUsed(actions, id))
      && (w[id].task == Some(Saved) <==> v[id].task == Some(Saved) || Answered(actions, id))
  {
    if actions != [] {
      var front, a := actions[..|actions| - 1], actions[|actions| - 1];
      Split(actions, id);
      UnderWayRun(v, front, id, lim);
      UnderWayStep(After(v, front, lim), a, id, lim);
    }
  }

  /** When the gc task ends, the item has a use that was not dumped if and only if some step
      behind the dump of the task has used it. */
  lemma DirtyIffUsed(v: View, actions: seq<Action>, id: Id, lim: Limits)
    requires id in v && v[id].task == Some(Listed) && End(id) !in actions
    ensures var w := After(Next(v, Snapshot(id), lim), actions, lim);
      id in w && w[id].dirty == !NotUsed(actions, id) && (w[id].task == Some(Saved) <==> Answered(actions, id))
  {
    UnderWayRun(Next(v, Snapshot(id), lim), actions, id, lim);
  }

  // ----- an item that was found again -----

  /** A step that makes room: hot has become full. */
  predicate Swaps(v: View, a: Action, lim: Limits) {
    && (a.Get? || a.Load?)
    && (if a.id in v then !v[a.id].hot else a.Load?)
    && |HotIds(v) + {a.id}| >= lim.maxCnt
  }

  /** When a step takes an id out of hot and cold: at exit, at an update after `ttl` without
      a use, and at a swap while it is cold and not in use. */
  predicate Cools(v: View, a: Action, id: Id, lim: Limits)
    requires id in v
  {
    || a.Stop?
    || (a.Expire? && v[id].access < a.now - lim.ttl)
    || (Swaps(v, a, lim) && !v[id].hot && a.id != id && !(v[id].refs > 0 && v[id].access > a.now - lim.ttl))
  }

  lemma HotIdsWith(v: View, id: Id, e: Entry)
    requires e.hot
    ensures HotIds(v[id := e]) == HotIds(v) + {id}
  {
  }

  /** What becomes of an entry when some id is made hot. */
  function EntryMadeHot(e: Entry, self: bool, hot: bool, full: bool, minAccess: int): Entry {
    if hot then e
    else
      var h := if self then Heated(e) else e;
      if full then AgedEntry(h, minAccess) else h
  }

  /** Where making an id hot leaves the ids. */
  lemma MadeHot(v: View, id: Id, lim: Limits, now: int, i: Id)
    requires id in v && i in v
    ensures i in MakeHot(v, id, lim, now)
    ensures var e := MakeHot(v, id, lim, now)[i];
      e == EntryMadeHot(v[i], i == id, v[id].hot, |HotIds(v) + {id}| >= lim.maxCnt, now - lim.ttl)
  {
    HotIdsWith(v, id, Heated(v[id]));
  }

  lemma MakeHotIds(v: View, id: Id, lim: Limits, now: int)
    requires id in v
    ensures MakeHot(v, id, lim, now).Keys == v.Keys
  {
  }

  lemma NewIdMadeHot(v: View, id: Id, lim: Limits, now: int, i: Id)
    requires id !in v && i in v
    ensures var w := MakeHot(v[id := NewEntry(now)], id, lim, now);
      i in w && w[i] == if |HotIds(v) + {id}| >= lim.maxCnt then AgedEntry(v[i], now - lim.ttl) else v[i]
  {
    var w := v[id := NewEntry(now)];
    assert HotIds(w) == HotIds(v);
    MadeHot(w, id, lim, now, i);
  }

  lemma WarmAfterFind(v: View, id: Id, lim: Limits, now: int, i: Id)
    requires id in v && i in v
    ensures i in Found(v, id, lim, now)
    ensures var swap := !v[id].hot && |HotIds(v) + {id}| >= lim.maxCnt;
      Warm(Found(v, id, lim, now)[i]) <==> i == id || (Warm(v[i]) && !(swap && !v[i].hot && Unused(v[i], now - lim.ttl)))
  {
    MadeHot(v, id, lim, now, i);
    var w := MakeHot(v, id, lim, now);
    assert Touched(w, id, now)[i] == if i == id then w[i].(access := now, dirty := true) else w[i];
  }

  lemma WarmAfterLookup(v: View, a: Action, id: Id, lim: Limits)
    requires id in v && (a.Get? || a.Load?)
    ensures id in Next(v, a, lim)
    ensures Warm(Next(v, a, lim)[id]) <==> a.id == id || (Warm(v[id]) && !Cools(v, a, id, lim))
  {
    var w := Next(v, a, lim);
    if a.id in v {
      WarmAfterFind(v, a.id, lim, a.now, id);
      assert w == Found(v, a.id, lim, a.now);
    } else if a.Load? {
      NewIdMadeHot(v, a.id, lim, a.now, id);
      assert w == MakeHot(v[a.id := NewEntry(a.now)], a.id, lim, a.now);
    }
  }

  /** The steps by which an item can leave hot and cold, or come back. */
  lemma WarmStep(v: View, a: Action, id: Id, lim: Limits)
    requires id in v && a != End(id)
    ensures id in Next(v, a, lim)
    ensures Warm(Next(v, a, lim)[id]) <==> Uses(a, id) || (Warm(v[id]) && !Cools(v, a, id, lim))
  {
    if a.Get? || a.Load? {
      WarmAfterLookup(v, a, id, lim);
    }
  }

  // ----- one step, entry by entry -----

  /** An update finds that the item has not been used for `ttl`. */
  predicate Expires(a: Action, e: Entry, lim: Limits) {
    a.Expire? && e.access < a.now - lim.ttl
  }

  /** A swap meets an item that is cold. */
  predicate StaysCold(a: Action, e: Entry, lim: Limits)
    requires a.Get? || a.Load?
  {
    e.refs > 0 && e.access > a.now - lim.ttl
  }

  /** Where a step leaves an item. By a use it becomes hot, and by a swap all that is hot
      becomes cold; exit and expiry take it out of both. */
  ghost predicate PlacedBy(v: View, a: Action, id: Id, lim: Limits, hot: bool, cold: bool)
    requires id in v
  {
    var e, swap := v[id], Swaps(v, a, lim);
    if a.Stop? || Expires(a, e, lim) then !hot && !cold
    else if swap then !hot && (cold <==> e.hot || a.id == id || (e.cold && StaysCold(a, e, lim)))
    else (hot <==> e.hot || Uses(a, id)) && (cold <==> e.cold && (e.hot || !Uses(a, id)))
  }

  /** When it is in gc behind the step: exit puts everything there, an update what has expired
      or has not been saved for `saveCd`, and a swap what does not stay cold; a use takes an
      item out of gc that is neither hot nor cold. */
  ghost predicate InGcBy(v: View, a: Action, id: Id, lim: Limits)
    requires id in v
  {
    var e := v[id];
    if Uses(a, id) then e.gc && Warm(e)
    else
      || e.gc
      || (a.Stop? && Warm(e))
      || (a.Expire? && Warm(e) && (e.access < a.now - lim.ttl || e.saved < a.now - lim.saveCd))
      || (Swaps(v, a, lim) && e.cold && !e.hot && !StaysCold(a, e, lim))
  }

  lemma EntryAfterFind(v: View, id: Id, lim: Limits, now: int, i: Id)
    requires id in v && i in v
    ensures i in Found(v, id, lim, now)
    ensures var full := |HotIds(v) + {id}| >= lim.maxCnt;
      var e := EntryMadeHot(v[i], i == id, v[id].hot, full, now - lim.ttl);
      Found(v, id, lim, now)[i] == if i == id then e.(access := now, dirty := true) else e
  {
    MadeHot(v, id, lim, now, i);
  }

  /** What a lookup or a load makes of an entry. */
  lemma EntryAfterLookup(v: View, a: Action, id: Id, lim: Limits) returns (e: Entry)
    requires id in v && (a.Get? || a.Load?)
    ensures id in Next(v, a, lim) && e == Next(v, a, lim)[id]
    ensures var full := |HotIds(v) + {a.id}| >= lim.maxCnt;
      e == if a.id in v then
             var h := EntryMadeHot(v[id], id == a.id, v[a.id].hot, full, a.now - lim.ttl);
             if id == a.id then h.(access := a.now, dirty := true) else h
           else if a.Load? && full then AgedEntry(v[id], a.now - lim.ttl) else v[id]
  {
    var w := Next(v, a, lim);
    if a.id in v {
      assert w == Found(v, a.id, lim, a.now);
      EntryAfterFind(v, a.id, lim, a.now, id);
    } else if a.Load? {
      assert w == MakeHot(v[a.id := NewEntry(a.now)], a.id, lim, a.now);
      NewIdMadeHot(v, a.id, lim, a.now, id);
    }
    e := w[id];
  }

  lemma PlaceStep(v: View, a: Action, id: Id, lim: Limits)
    requires id in v && a != End(id)
    ensures id in Next(v, a, lim)
    ensures PlacedBy(v, a, id, lim, Next(v, a, lim)[id].hot, Next(v, a, lim)[id].cold)
    ensures Next(v, a, lim)[id].gc <==> InGcBy(v, a, id, lim)
  {
    if a.Get? || a.Load? {
      var e := EntryAfterLookup(v, a, id, lim);
    }
  }

  /** What else a step changes of an entry: the counter of references, the times, whether there
      is a use that was not dumped, and the stage of its gc task. */
  ghost predicate FactsBy(v: View, a: Action, id: Id, f: Entry)
    requires id in v
  {
    var e := v[id];
    && f.refs == e.refs + (if a == Ref(id, true) then 1 else if a == Ref(id, false) then -1 else 0)
    && f.access == (if Uses(a, id) then a.now else e.access)
    && f.saved == (if a.Save? && a.id == id && e.task == Some(Dumped) then a.now else e.saved)
    && f.dirty == (Uses(a, id) || (e.dirty && !(a == Snapshot(id) && e.task == Some(Listed))))
    && f.task == if a.Round? && Idle(v) then (if e.gc then Some(Listed) else None)
                 else if a == Snapshot(id) && e.task == Some(Listed) then Some(Dumped)
                 else if a.Save? && a.id == id && e.task == Some(Dumped) then Some(Saved) else e.task
  }

  lemma FactsStep(v: View, a: Action, id: Id, lim: Limits)
    requires id in v && a != End(id)
    ensures id in Next(v, a, lim) && FactsBy(v, a, id, Next(v, a, lim)[id])
  {
    if a.Get? || a.Load? {
      var e := EntryAfterLookup(v, a, id, lim);
    }
  }

  /** A load brings an id in, in hot or, when that becomes full, in cold; the end of its gc task
      takes an id out that is neither hot nor cold, and takes others out of gc. */
  lemma IdStep(v: View, a: Action, id: Id, lim: Limits)
    ensures id !in v ==> (id in Next(v, a, lim) <==> a.Load? && a.id == id)
    ensures id !in v && a.Load? && a.id == id ==>
      var full := |HotIds(v) + {id}| >= lim.maxCnt;
      Next(v, a, lim)[id] == Entry(!full, full, false, 0, a.now, a.now, true, None)
    ensures id in v && a == End(id) && v[id].task != Some(Saved) ==> Next(v, a, lim) == v
    ensures id in v && a == End(id) && v[id].task == Some(Saved) ==>
      if v[id].hot || v[id].cold then Next(v, a, lim) == v[id := v[id].(gc := false, task := None)] else Next(v, a, lim) == v - {id}
  {
    if id !in v && a.Load? && a.id == id {
      assert HotIds(v[id := NewEntry(a.now)]) == HotIds(v);
      MadeHot(v[id := NewEntry(a.now)], id, lim, a.now, id);
    } else if (a.Get? || a.Load?) && id !in v {
      OtherIds(v, a, id, lim);
    }
  }

  lemma OtherIds(v: View, a: Action, id: Id, lim: Limits)
    requires id !in v && (a.Get? || (a.Load? && a.id != id))
    ensures id !in Next(v, a, lim)
  {
    if a.id in v {
      MakeHotIds(v, a.id, lim, a.now);
    } else if a.Load? {
      MakeHotIds(v[a.id := NewEntry(a.now)], a.id, lim, a.now);
    }
  }

  predicate CooledAt(v: View, actions: seq<Action>, i: nat, id: Id, lim: Limits)
    requires i < |actions|
  {
    var w := After(v, actions[..i], lim);
    id in w && Cools(w, actions[i], id, lim)
  }

  predicate NeverCooled(v: View, actions: seq<Action>, id: Id, lim: Limits) {
    forall i :: 0 <= i < |actions| ==> !CooledAt(v, actions, i, id, lim)
  }

  lemma CooledFront(v: View, actions: seq<Action>, id: Id, lim: Limits)
    requires actions != []
    ensures var n := |actions| - 1;
      NeverCooled(v, actions, id, lim) <==> NeverCooled(v, actions[..n], id, lim) && !CooledAt(v, actions, n, id, lim)
  {
    var n := |actions| - 1;
    forall i | 0 <= i < n ensures CooledAt(v, actions[..n], i, id, lim) == CooledAt(v, actions, i, id, lim) {
      assert actions[..n][..i] == actions[..i];
    }
  }

  lemma {:induction false} WarmRun(v: View, actions: seq<Action>, id: Id, lim: Limits)
    requires id in v && Warm(v[id]) && End(id) !in actions && NotUsed(actions, id)
    ensures var w := After(v, actions, lim);
      id in w && (Warm(w[id]) <==> NeverCooled(v, actions, id, lim))
  {
    if actions != [] {
      var n := |actions| - 1;
      Split(actions, id);
      WarmRun(v, actions[..n], id, lim);
      CooledFront(v, actions, id, lim);
      WarmStep(After(v, actions[..n], lim), actions[n], id, lim);
    }
  }

  /** An item that is found again while its gc task sleeps: it is still in the cache behind
      the end of that task if and only if no step since its last use has cooled it. */
  lemma FoundAgainSurvivesIff(v: View, use: Action, actions: seq<Action>, id: Id, lim: Limits)
    requires id in v && v[id].task == Some(Saved) && Uses(use, id) && End(id) !in actions && NotUsed(actions, id)
    ensures var w := Next(v, use, lim);
      id in Next(After(w, actions, lim), End(id), lim) <==> NeverCooled(w, actions, id, lim)
  {
    var w := Next(v, use, lim);
    UnderWayStep(v, use, id, lim);
    WarmStep(v, use, id, lim);
    WarmRun(w, actions, id, lim);
    UnderWayRun(w, actions, id, lim);
  }

  // ----- an item that is let go with a use that was not dumped -----

  predicate LastUse(actions: seq<Action>, k: nat, id: Id) {
    k < |actions| && Uses(actions[k], id) && forall j :: k < j < |actions| ==> !Uses(actions[j], id)
  }

  /** A step behind `k` cools the id. */
  predicate CooledBehind(v: View, actions: seq<Action>, k: nat, id: Id, lim: Limits) {
    exists i :: k < i < |actions| && CooledAt(v, actions, i, id, lim)
  }

  /** The run uses the id, and a step behind its last use cools it. */
  ghost predicate CooledAfterUse(v: View, actions: seq<Action>, id: Id, lim: Limits) {
    exists k: nat :: LastUse(actions, k, id) && CooledBehind(v, actions, k, id, lim)
  }

  lemma {:induction false} SomeLastUse(actions: seq<Action>, id: Id) returns (k: nat)
    requires !NotUsed(actions, id)
    ensures LastUse(actions, k, id)
  {
    var n := |actions| - 1;
    Split(actions, id);
    if Uses(actions[n], id) {
      k := n;
    } else {
      k := SomeLastUse(actions[..n], id);
    }
  }

  lemma CooledBehindFront(v: View, actions: seq<Action>, k: nat, id: Id, lim: Limits)
    requires k < |actions| - 1
    ensures var n := |actions| - 1;
      CooledBehind(v, actions, k, id, lim) <==> CooledBehind(v, actions[..n], k, id, lim) || CooledAt(v, actions, n, id, lim)
  {
    var n := |actions| - 1;
    forall i: nat | i < n ensures CooledAt(v, actions[..n], i, id, lim) == CooledAt(v, actions, i, id, lim) {
      assert actions[..n][..i] == actions[..i];
    }
  }

  lemma CooledAfterUseFront(v: View, actions: seq<Action>, id: Id, lim: Limits)
    requires actions != []
    ensures var n := |actions| - 1;
      CooledAfterUse(v, actions, id, lim) <==>
        !Uses(actions[n], id) &&
        (CooledAfterUse(v, actions[..n], id, lim) || (!NotUsed(actions[..n], id) && CooledAt(v, actions, n, id, lim)))
  {
    var n := |actions| - 1;
    var front := actions[..n];
    if CooledAfterUse(v, actions, id, lim) {
      var k: nat :| LastUse(actions, k, id) && CooledBehind(v, actions, k, id, lim);
      assert LastUse(front, k, id) && front[k] in front;
      CooledBehindFront(v, actions, k, id, lim);
    }
    if !Uses(actions[n], id) && !NotUsed(front, id) {
      var k := SomeLastUse(front, id);
      assert LastUse(actions, k, id);
      CooledBehindFront(v, actions, k, id, lim);
      if CooledAfterUse(v, front, id, lim) {
        var j: nat :| LastUse(front, j, id) && CooledBehind(v, front, j, id, lim);
        assert j == k;
      }
    }
  }

  lemma {:induction false} LostRun(v: View, actions: seq<Action>, id: Id, lim: Limits)
    requires id in v && UnderWay(v[id]) && !v[id].dirty && End(id) !in actions
    ensures var w := After(v, actions, lim);
      id in w && (w[id].dirty && !Warm(w[id]) <==> CooledAfterUse(v, actions, id, lim))
  {
    if actions != [] {
      var n := |actions| - 1;
      Split(actions, id);
      LostRun(v, actions[..n], id, lim);
      UnderWayRun(v, actions[..n], id, lim);
      UnderWayStep(After(v, actions[..n], lim), actions[n], id, lim);
      WarmStep(After(v, actions[..n], lim), actions[n], id, lim);
      CooledAfterUseFront(v, actions, id, lim);
    }
  }

  /** The end of a gc task lets a use go that was not dumped if and only if the item was used
      behind the dump of the task and a step behind its last use has cooled it. */
  lemma UseIsLostIff(v: View, actions: seq<Action>, id: Id, lim: Limits)
    requires id in v && v[id].task == Some(Listed) && End(id) !in actions && Answered(actions, id)
    ensures var u := Next(v, Snapshot(id), lim);
      var w := After(u, actions, lim);
      id in w && (w[id].dirty && id !in Next(w, End(id), lim) <==> CooledAfterUse(u, actions, id, lim))
  {
    var u := Next(v, Snapshot(id), lim);
    LostRun(u, actions, id, lim);
    UnderWayRun(u, actions, id, lim);
  }

  // ----- three runs that lose a use -----

  /** An item is loaded, expires and is dumped by its gc task. */
  const DUMP := [Load("a", 0), Expire(6), Round, Snapshot("a")]

  /** It is used behind its save, and expires again. */
  const USED_LATER := [Save("a", 6), Get("a", 7), Expire(13)]

  /** It is used in the second of its save, and the service exits. */
  const USED_AT_ONCE := [Save("a", 6), Get("a", 6), Stop]

  /** It is used while the database has not yet answered. */
  const USED_MEANWHILE := [Get("a", 6), Save("a", 6), Expire(12)]

  const EXAMPLE_LIMITS := Limits(10, 5, 5)

  lemma OneMore(v: View, actions: seq<Action>, i: nat, lim: Limits)
    requires i < |actions|
    ensures After(v, actions[..i + 1], lim) == Next(After(v, actions[..i], lim), actions[i], lim)
  {
    assert actions[..i + 1][..i] == actions[..i];
  }

  /** A run of three steps. */
  lemma ThreeSteps(v: View, a: Action, b: Action, c: Action, lim: Limits)
    ensures After(v, [a, b, c], lim) == Next(Next(Next(v, a, lim), b, lim), c, lim)
  {
    var actions := [a, b, c];
    assert actions[..0] == [] && actions[..3] == actions;
    OneMore(v, actions, 0, lim);
    OneMore(v, actions, 1, lim);
    OneMore(v, actions, 2, lim);
  }

  function Only(e: Entry): View {
    map["a" := e]
  }

  lemma ExampleLoaded()
    ensures Next(map[], Load("a", 0), EXAMPLE_LIMITS) == Only(Entry(true, false, false, 0, 0, 0, true, None))
  {
    var e := Entry(true, false, false, 0, 0, 0, true, None);
    assert HotIds(Only(e)) == {"a"};
    var empty: View := map[];
    assert empty["a" := NewEntry(0)]["a" := e] == Only(e);
  }

  const DUMPED := Entry(false, false, true, 0, 0, 0, false, Some(Dumped))

  lemma ExampleDumped()
    ensures After(map[], DUMP, EXAMPLE_LIMITS) == Only(DUMPED)
  {
    ExampleLoaded();
    var v := Only(Entry(true, false, false, 0, 0, 0, true, None));
    ThreeSteps(map[], Load("a", 0), Expire(6), Round, EXAMPLE_LIMITS);
    assert DUMP[..3] == [Load("a", 0), Expire(6), Round];
    assert Next(v, Expire(6), EXAMPLE_LIMITS) == Only(Entry(false, false, true, 0, 0, 0, true, None));
    assert Next(Only(Entry(false, false, true, 0, 0, 0, true, None)), Round, EXAMPLE_LIMITS)
      == Only(Entry(false, false, true, 0, 0, 0, true, Some(Listed)));
    OneMore(map[], DUMP, 3, EXAMPLE_LIMITS);
    assert DUMP[..4] == DUMP;
  }

  /** What a lookup makes of an item that is only in gc. */
  lemma ExampleFound(saved: int, dirty: bool, stage: Stage, now: int)
    ensures Next(Only(Entry(false, false, true, 0, 0, saved, dirty, Some(stage))), Get("a", now), EXAMPLE_LIMITS)
      == Only(Entry(true, false, false, 0, now, saved, true, Some(stage)))
  {
    var e := Entry(true, false, false, 0, 0, saved, dirty, Some(stage));
    assert HotIds(Only(e)) == {"a"};
    assert Only(Entry(false, false, true, 0, 0, saved, dirty, Some(stage)))["a" := e] == Only(e);
  }

  lemma ExampleSaved()
    ensures Next(Only(DUMPED), Save("a", 6), EXAMPLE_LIMITS) == Only(Entry(false, false, true, 0, 0, 6, false, Some(Saved)))
  {
  }

  lemma ExampleLetGo(access: int)
    ensures Next(Only(Entry(false, false, true, 0, access, 6, true, Some(Saved))), End("a"), EXAMPLE_LIMITS) == map[]
  {
  }

  /** The end of the task lets an item go that was saved at 6 and used at 7. */
  lemma UsedLater()
    ensures var w := After(After(map[], DUMP, EXAMPLE_LIMITS), USED_LATER, EXAMPLE_LIMITS);
      w == Only(Entry(false, false, true, 0, 7, 6, true, Some(Saved))) && Next(w, End("a"), EXAMPLE_LIMITS) == map[]
  {
    ExampleDumped();
    ThreeSteps(Only(DUMPED), Save("a", 6), Get("a", 7), Expire(13), EXAMPLE_LIMITS);
    ExampleFound(6, false, Saved, 7);
    ExampleSaved();
    ExampleLetGo(7);
  }

  /** The same with the use in the second of the save: the time of the last access is not
      later than that of the last save, and yet the use is not saved. */
  lemma UsedAtOnce()
    ensures var w := After(After(map[], DUMP, EXAMPLE_LIMITS), USED_AT_ONCE, EXAMPLE_LIMITS);
      w == Only(Entry(false, false, true, 0, 6, 6, true, Some(Saved))) && Next(w, End("a"), EXAMPLE_LIMITS) == map[]
  {
    ExampleDumped();
    ThreeSteps(Only(DUMPED), Save("a", 6), Get("a", 6), Stop, EXAMPLE_LIMITS);
    ExampleFound(6, false, Saved, 6);
    ExampleSaved();
    ExampleLetGo(6);
  }

  /** The same with the use between the dump and the save time. */
  lemma UsedMeanwhile()
    ensures var w := After(After(map[], DUMP, EXAMPLE_LIMITS), USED_MEANWHILE, EXAMPLE_LIMITS);
      w == Only(Entry(false, false, true, 0, 6, 6, true, Some(Saved))) && Next(w, End("a"), EXAMPLE_LIMITS) == map[]
  {
    ExampleDumped();
    ThreeSteps(Only(DUMPED), Get("a", 6), Save("a", 6), Expire(12), EXAMPLE_LIMITS);
    ExampleFound(0, false, Dumped, 6);
    ExampleLetGo(6);
  }

  lemma ExampleEnds(later: seq<Action>)
    requires later == USED_LATER || later == USED_AT_ONCE || later == USED_MEANWHILE
    ensures After(After(map[], DUMP, EXAMPLE_LIMITS), later, EXAMPLE_LIMITS)
      == Only(Entry(false, false, true, 0, if later == USED_LATER then 7 else 6, 6, true, Some(Saved)))
  {
    if later == USED_LATER {
      UsedLater();
    } else if later == USED_AT_ONCE {
      UsedAtOnce();
    } else {
      UsedMeanwhile();
    }
  }
}
