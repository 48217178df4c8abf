/** What the maps, the gc tasks and the items of the cache say about each id, and how the
    moves of the maps change that. */
module CacheEntries {
  import opened CacheMaps
  import opened CacheView
  import opened Hiding
  import opened Wrappers

  /** gc_item: its item, and how far it is. */
  datatype Task = Task(item: Item, stage: Stage)

  type Tasks = map<Id, Task>

  /** Every task is for the object of its id. */
  ghost predicate TasksHeld(tasks: Tasks, m: Maps) {
    forall x {:trigger Unfold((tasks, m), x)} :: Unfold((tasks, m), x) ==>
      forall id: Id {:trigger Held(m, id)} {:trigger id in tasks} :: id in tasks ==> Held(m, id) == Some(tasks[id].item)
  }

  lemma OpenTasks(tasks: Tasks, m: Maps)
    ensures TasksHeld(tasks, m) <==>
      forall id: Id {:trigger Held(m, id)} {:trigger id in tasks} :: id in tasks ==> Held(m, id) == Some(tasks[id].item)
  {
    assert Unfold((tasks, m), 0);
  }

  lemma TasksKept(tasks: Tasks, m: Maps, n: Maps)
    requires TasksHeld(tasks, m) && SameHeld(m, n)
    ensures TasksHeld(tasks, n)
  {
    OpenHeld(m, n);
    OpenTasks(tasks, m);
    OpenTasks(tasks, n);
  }

  lemma TasksWithout(tasks: Tasks, m: Maps, id: Id)
    requires TasksHeld(tasks, m) && Coherent(m) && m.rest == map[] && id in tasks
    ensures Held(m, id) == Some(tasks[id].item) && TasksHeld(tasks - {id}, m.(gc := m.gc - {id}))
  {
    GcGone(m, id);
    OpenTasks(tasks, m);
    OpenTasks(tasks - {id}, m.(gc := m.gc - {id}));
  }

  lemma HeldOverTwoSteps(tasks: Tasks, m: Maps, n: Maps, p: Maps)
    requires SameHeld(m, n) && SameHeld(n, p) && TasksHeld(tasks, m)
    ensures SameHeld(m, p) && TasksHeld(tasks, p)
  {
    SameHeldTrans(m, n, p);
    TasksKept(tasks, m, p);
  }

  lemma TasksWith(tasks: Tasks, m: Maps, n: Maps, x: Item)
    requires TasksHeld(tasks, m) && Held(m, x.id) == None && Adds(m, n, x)
    ensures TasksHeld(tasks, n)
  {
    OpenAdds(m, n, x);
    OpenTasks(tasks, m);
    OpenTasks(tasks, n);
  }

  // ----- which ids are in which map -----

  datatype Keys = Keys(hot: set<Id>, cold: set<Id>, gc: set<Id>)

  ghost function KeysOf(m: Maps): Keys {
    Keys(m.hot.Keys, m.cold.Keys, m.gc.Keys)
  }

  ghost predicate HasKeys(m: Maps, k: Keys) {
    forall x {:trigger Unfold((m, k), x)} :: Unfold((m, k), x) ==> KeysOf(m) == k
  }

  lemma OpenKeys(m: Maps, k: Keys)
    ensures HasKeys(m, k) <==> KeysOf(m) == k
  {
    assert Unfold((m, k), 0);
  }

  /** The loop of add_hot over ids that were cold: those in use are cold again, the others in gc. */
  ghost function Settled(k: Keys, was: set<Id>, unused: set<Id>): Keys {
    Keys(k.hot, k.cold + (was - unused), k.gc + was * unused)
  }

  /** The swap: hot becomes cold, and what was cold is settled. */
  ghost function Swapped(k: Keys, unused: set<Id>): Keys {
    Settled(Keys({}, k.hot, k.gc), k.cold, unused)
  }

  /** add_hot of an id that is in no map. */
  ghost function Put(k: Keys, id: Id, maxCnt: int, unused: set<Id>): Keys {
    var h := k.(hot := k.hot + {id});
    if |h.hot| < maxCnt then h else Swapped(h, unused)
  }

  /** get_cache of an id that is in some map. */
  ghost function Placed(k: Keys, id: Id, maxCnt: int, unused: set<Id>): Keys {
    if id in k.hot then k
    else if id in k.cold then Put(k.(cold := k.cold - {id}), id, maxCnt, unused)
    else Put(k.(gc := k.gc - {id}), id, maxCnt, unused)
  }

  /** One item of the loop of add_hot. */
  ghost function SettledOne(m: Maps, id: Id, used: bool): Maps
    requires id in m.rest
  {
    if used then m.(cold := m.cold[id := m.rest[id]], rest := m.rest - {id})
    else m.(gc := m.gc[id := m.rest[id]], rest := m.rest - {id})
  }

  /** The loop of add_hot, which began with the maps `start` and the ids `was`, has come to `m`. */
  ghost predicate Settling(start: Maps, m: Maps, was: set<Id>, unused: set<Id>) {
    Coherent(m) && SameHeld(start, m) && HasKeys(m, Settled(KeysOf(start), was - m.rest.Keys, unused))
  }

  ghost predicate HasSettled(start: Maps, m: Maps, was: set<Id>, unused: set<Id>) {
    forall x {:trigger Unfold((start, m, was, unused), x)} :: Unfold((start, m, was, unused), x) ==> Settling(start, m, was, unused)
  }

  lemma OpenSettling(start: Maps, m: Maps, was: set<Id>, unused: set<Id>)
    ensures HasSettled(start, m, was, unused) <==> Settling(start, m, was, unused)
  {
    assert Unfold((start, m, was, unused), 0);
  }

  lemma SettleStart(m: Maps, unused: set<Id>)
    requires Coherent(m)
    ensures HasSettled(m, m, m.rest.Keys, unused)
  {
    assert m.rest.Keys - m.rest.Keys == {};
    OpenKeys(m, Settled(KeysOf(m), {}, unused));
    SameHeldRefl(m);
    OpenSettling(m, m, m.rest.Keys, unused);
  }

  lemma SettleStep(start: Maps, m: Maps, id: Id, used: bool, was: set<Id>, unused: set<Id>)
    requires id in m.rest && id in was && HasSettled(start, m, was, unused) && used == (id !in unused)
    ensures HasSettled(start, SettledOne(m, id, used), was, unused)
  {
    var n := SettledOne(m, id, used);
    OpenSettling(start, m, was, unused);
    OpenSettling(start, n, was, unused);
    if used {
      RestToCold(m, id);
    } else {
      RestToGc(m, id);
    }
    SameHeldTrans(start, m, n);
    OpenKeys(m, Settled(KeysOf(start), was - m.rest.Keys, unused));
    OpenKeys(n, Settled(KeysOf(start), was - n.rest.Keys, unused));
    assert was - n.rest.Keys == was - m.rest.Keys + {id};
  }

  lemma SettleEnd(start: Maps, m: Maps, was: set<Id>, unused: set<Id>)
    requires m.rest == map[] && HasSettled(start, m, was, unused)
    ensures Coherent(m) && SameHeld(start, m) && HasKeys(m, Settled(KeysOf(start), was, unused))
  {
    OpenSettling(start, m, was, unused);
    assert was - m.rest.Keys == was;
  }

  lemma SwapKeys(m: Maps, n: Maps, unused: set<Id>)
    requires HasKeys(n, Settled(KeysOf(Maps(map[], m.hot, m.gc, map[])), m.cold.Keys, unused))
    ensures HasKeys(n, Swapped(KeysOf(m), unused))
  {
    assert KeysOf(Maps(map[], m.hot, m.gc, map[])) == Keys({}, m.hot.Keys, m.gc.Keys);
  }

  lemma KeysWithHot(m: Maps, id: Id, x: Item)
    ensures var h := KeysOf(m).(hot := KeysOf(m).hot + {id});
      HasKeys(m.(hot := m.hot[id := x]), h) && KeysOf(m.(hot := m.hot[id := x])) == h && |m.hot[id := x]| == |h.hot|
  {
    var n := m.(hot := m.hot[id := x]);
    assert n.hot.Keys == m.hot.Keys + {id} && |n.hot| == |n.hot.Keys|;
    OpenKeys(n, KeysOf(n));
  }

  lemma HotHeld(m: Maps, id: Id, x: Item)
    requires id !in m.hot && m.rest == map[] && Coherent(m.(rest := map[id := x]))
    ensures var n := m.(hot := m.hot[id := x]);
      Coherent(n) && SameHeld(m.(rest := map[id := x]), n) && |n.hot| == |m.hot| + 1
  {
    RestToHot(m.(rest := map[id := x]), id);
    assert map[id := x] - {id} == map[];
    SizeWith(m.hot, id, x);
  }

  /** The item is hot; with fewer than max_cnt items nothing else moves. */
  lemma PutSmall(m: Maps, id: Id, x: Item, maxCnt: int, unused: set<Id>)
    requires |m.hot[id := x]| < maxCnt
    ensures HasKeys(m.(hot := m.hot[id := x]), Put(KeysOf(m), id, maxCnt, unused))
  {
    KeysWithHot(m, id, x);
  }

  lemma PutFull(m: Maps, n: Maps, p: Maps, id: Id, x: Item, maxCnt: int, unused: set<Id>)
    requires n == m.(hot := m.hot[id := x]) && |n.hot| >= maxCnt && HasKeys(p, Swapped(KeysOf(n), unused))
    requires SameHeld(m.(rest := map[id := x]), n) && SameHeld(n, p)
    ensures HasKeys(p, Put(KeysOf(m), id, maxCnt, unused)) && SameHeld(m.(rest := map[id := x]), p)
  {
    KeysWithHot(m, id, x);
    SameHeldTrans(m.(rest := map[id := x]), n, p);
  }

  lemma PutIgnores(k: Keys, id: Id, maxCnt: int, unused: set<Id>, i: Id)
    requires i !in k.cold
    ensures Put(k, id, maxCnt, unused - {i}) == Put(k, id, maxCnt, unused)
  {
    assert k.cold - unused == k.cold - (unused - {i}) && k.cold * unused == k.cold * (unused - {i});
  }

  lemma PutCold(m: Maps, n: Maps, id: Id, maxCnt: int, unused: set<Id>)
    requires id !in m.hot && id in m.cold
    requires HasKeys(n, Put(KeysOf(m.(cold := m.cold - {id})), id, maxCnt, unused - {id}))
    ensures HasKeys(n, Placed(KeysOf(m), id, maxCnt, unused))
  {
    var k := KeysOf(m.(cold := m.cold - {id}));
    PutIgnores(k, id, maxCnt, unused, id);
    assert k == KeysOf(m).(cold := m.cold.Keys - {id});
  }

  lemma PutGc(m: Maps, n: Maps, id: Id, maxCnt: int, unused: set<Id>)
    requires id !in m.hot && id !in m.cold
    requires HasKeys(n, Put(KeysOf(m.(gc := m.gc - {id})), id, maxCnt, unused))
    ensures HasKeys(n, Placed(KeysOf(m), id, maxCnt, unused))
  {
    assert KeysOf(m.(gc := m.gc - {id})) == KeysOf(m).(gc := m.gc.Keys - {id});
  }

  // ----- the view -----

  datatype Info = Info(refs: int, access: int, saved: int, dirty: bool)

  type Facts = map<Item, Info>

  ghost function FactOf(f: Facts, x: Item): Info {
    if x in f then f[x] else Info(0, 0, 0, false)
  }

  ghost function TaskOf(tasks: Tasks, id: Id): Option<Stage> {
    if id in tasks then Some(tasks[id].stage) else None
  }

  ghost function EntryOf(k: Keys, i: Info, t: Option<Stage>, id: Id): Entry {
    Entry(id in k.hot, id in k.cold, id in k.gc, i.refs, i.access, i.saved, i.dirty, t)
  }

  /** The view of a cache with these keys, objects, tasks and items. */
  ghost function ViewOf(k: Keys, h: Items, tasks: Tasks, f: Facts): View {
    map id | id in h :: EntryOf(k, FactOf(f, h[id]), TaskOf(tasks, id), id)
  }

  lemma HotIdsAreHot(k: Keys, h: Items, tasks: Tasks, f: Facts)
    requires k.hot <= h.Keys
    ensures HotIds(ViewOf(k, h, tasks, f)) == k.hot
  {
  }

  /** `unused` has the ids of the cold items without a reference or without an access since then. */
  ghost predicate AreUnused(cold: set<Id>, h: Items, f: Facts, minAccess: int, unused: set<Id>) {
    forall id: Id :: id in cold && id in h ==>
      (id in unused <==> !(FactOf(f, h[id]).refs > 0 && FactOf(f, h[id]).access > minAccess))
  }

  /** `unused` are the items that a swap would take out of cold. */
  ghost predicate ColdUnused(m: Maps, f: Facts, minAccess: int, unused: set<Id>) {
    forall x {:trigger Unfold((m, f, unused), x)} :: Unfold((m, f, unused), x) ==>
      AreUnused(m.cold.Keys, HeldItems(m), f, minAccess, unused)
  }

  lemma OpenColdUnused(m: Maps, f: Facts, minAccess: int, unused: set<Id>)
    ensures ColdUnused(m, f, minAccess, unused) <==> AreUnused(m.cold.Keys, HeldItems(m), f, minAccess, unused)
  {
    assert Unfold((m, f, unused), 0);
  }

  /** The flags of an id after get_cache found `id`. */
  lemma PlacedFlags(k: Keys, n: Keys, id: Id, maxCnt: int, unused: set<Id>, i: Id, e: Entry, minAccess: int)
    requires n == Placed(k, id, maxCnt, unused) && k.hot !! k.cold
    requires e.hot == (i in k.hot) && e.cold == (i in k.cold) && e.gc == (i in k.gc)
    requires i in k.cold ==> (i in unused <==> Unused(e, minAccess))
    ensures var d := EntryMadeHot(e, i == id, id in k.hot, |k.hot + {id}| >= maxCnt, minAccess);
      d == e.(hot := i in n.hot, cold := i in n.cold, gc := i in n.gc)
  {
  }

  lemma EntryPlaced(k: Keys, n: Keys, h: Items, tasks: Tasks, f: Facts, id: Id, lim: Limits, now: int, unused: set<Id>, i: Id)
    requires id in h && i in h && k.hot !! k.cold && k.hot <= h.Keys && AreUnused(k.cold, h, f, now - lim.ttl, unused)
    requires n == Placed(k, id, lim.maxCnt, unused)
    ensures var w := MakeHot(ViewOf(k, h, tasks, f), id, lim, now);
      i in w && ViewOf(n, h, tasks, f)[i] == w[i]
  {
    var v := ViewOf(k, h, tasks, f);
    HotIdsAreHot(k, h, tasks, f);
    MadeHot(v, id, lim, now, i);
    PlacedFlags(k, n, id, lim.maxCnt, unused, i, v[i], now - lim.ttl);
  }

  lemma ViewPlaced(k: Keys, n: Keys, h: Items, tasks: Tasks, f: Facts, id: Id, lim: Limits, now: int, unused: set<Id>)
    requires id in h && k.hot !! k.cold && k.hot <= h.Keys && AreUnused(k.cold, h, f, now - lim.ttl, unused)
    requires n == Placed(k, id, lim.maxCnt, unused)
    ensures ViewOf(n, h, tasks, f) == MakeHot(ViewOf(k, h, tasks, f), id, lim, now)
  {
    MakeHotIds(ViewOf(k, h, tasks, f), id, lim, now);
    forall i | i in h ensures ViewOf(n, h, tasks, f)[i] == MakeHot(ViewOf(k, h, tasks, f), id, lim, now)[i] {
      EntryPlaced(k, n, h, tasks, f, id, lim, now, unused, i);
    }
  }

  /** The item of one id is changed. */
  lemma ViewChanged(k: Keys, h: Items, tasks: Tasks, f: Facts, id: Id, i: Info)
    requires id in h && Keyed(h)
    ensures var v := ViewOf(k, h, tasks, f);
      ViewOf(k, h, tasks, f[h[id] := i])
        == v[id := v[id].(refs := i.refs, access := i.access, saved := i.saved, dirty := i.dirty)]
  {
    forall j | j in h && j != id ensures h[j] != h[id] {
      assert h[j].id == j && h[id].id == id;
    }
  }

  ghost predicate DueIn(i: Info, minAccess: int, minSave: int) {
    i.access < minAccess || i.saved < minSave
  }

  ghost predicate AreStale(ids: set<Id>, h: Items, f: Facts, minAccess: int, stale: set<Id>) {
    && ids <= h.Keys && stale <= ids
    && forall id: Id :: id in ids ==> (id in stale <==> FactOf(f, h[id]).access < minAccess)
  }

  ghost predicate AreDue(ids: set<Id>, h: Items, f: Facts, minAccess: int, minSave: int, due: set<Id>) {
    && ids <= h.Keys && due <= ids
    && forall id: Id :: id in ids ==> (id in due <==> DueIn(FactOf(f, h[id]), minAccess, minSave))
  }

  lemma StaleInBoth(a: set<Id>, b: set<Id>, h: Items, f: Facts, minAccess: int, s: set<Id>, t: set<Id>)
    requires a !! b && AreStale(a, h, f, minAccess, s) && AreStale(b, h, f, minAccess, t)
    ensures AreStale(a + b, h, f, minAccess, s + t)
  {
  }

  lemma DueInBoth(a: set<Id>, b: set<Id>, h: Items, f: Facts, minAccess: int, minSave: int, s: set<Id>, t: set<Id>)
    requires a !! b && AreDue(a, h, f, minAccess, minSave, s) && AreDue(b, h, f, minAccess, minSave, t)
    ensures AreDue(a + b, h, f, minAccess, minSave, s + t)
  {
  }

  /** `stale` and `due` are what update finds in hot and cold. */
  ghost predicate Scanned(m: Maps, f: Facts, now: int, lim: Limits, stale: set<Id>, due: set<Id>) {
    forall x {:trigger Unfold((m, f, stale, due), x)} :: Unfold((m, f, stale, due), x) ==>
      && AreStale(m.hot.Keys + m.cold.Keys, HeldItems(m), f, now - lim.ttl, stale)
      && AreDue(m.hot.Keys + m.cold.Keys, HeldItems(m), f, now - lim.ttl, now - lim.saveCd, due)
  }

  lemma OpenScanned(m: Maps, f: Facts, now: int, lim: Limits, stale: set<Id>, due: set<Id>)
    ensures Scanned(m, f, now, lim, stale, due) <==>
      && AreStale(m.hot.Keys + m.cold.Keys, HeldItems(m), f, now - lim.ttl, stale)
      && AreDue(m.hot.Keys + m.cold.Keys, HeldItems(m), f, now - lim.ttl, now - lim.saveCd, due)
  {
    assert Unfold((m, f, stale, due), 0);
  }

  /** update: what is stale leaves hot and cold, and gc gets what is due. */
  ghost function Expired(k: Keys, stale: set<Id>, due: set<Id>): Keys {
    Keys(k.hot - stale, k.cold - stale, k.gc + due)
  }

  lemma EntryExpired(k: Keys, h: Items, tasks: Tasks, f: Facts, now: int, lim: Limits, stale: set<Id>, due: set<Id>, id: Id)
    requires AreStale(k.hot + k.cold, h, f, now - lim.ttl, stale) && id in h
    requires AreDue(k.hot + k.cold, h, f, now - lim.ttl, now - lim.saveCd, due)
    ensures var i, t := FactOf(f, h[id]), TaskOf(tasks, id);
      EntryOf(Expired(k, stale, due), i, t, id) == ExpiredEntry(EntryOf(k, i, t, id), now - lim.ttl, now - lim.saveCd)
  {
  }

  lemma ViewExpired(k: Keys, h: Items, tasks: Tasks, f: Facts, now: int, lim: Limits, stale: set<Id>, due: set<Id>)
    requires AreStale(k.hot + k.cold, h, f, now - lim.ttl, stale)
    requires AreDue(k.hot + k.cold, h, f, now - lim.ttl, now - lim.saveCd, due)
    ensures ViewOf(Expired(k, stale, due), h, tasks, f) == Next(ViewOf(k, h, tasks, f), Expire(now), lim)
  {
    var v, w := ViewOf(k, h, tasks, f), ViewOf(Expired(k, stale, due), h, tasks, f);
    forall id | id in h ensures w[id] == ExpiredEntry(v[id], now - lim.ttl, now - lim.saveCd) {
      EntryExpired(k, h, tasks, f, now, lim, stale, due, id);
    }
  }

  lemma ViewStopped(k: Keys, h: Items, tasks: Tasks, f: Facts, lim: Limits)
    ensures ViewOf(Keys({}, {}, k.hot + k.cold + k.gc), h, tasks, f) == Next(ViewOf(k, h, tasks, f), Stop, lim)
  {
  }

  /** One step leads from one view to another. */
  ghost predicate Leads(v: View, a: Action, w: View, lim: Limits) {
    forall x {:trigger Unfold((v, a, w, lim), x)} :: Unfold((v, a, w, lim), x) ==> w == Next(v, a, lim)
  }

  lemma OpenLeads(v: View, a: Action, w: View, lim: Limits)
    ensures Leads(v, a, w, lim) <==> w == Next(v, a, lim)
  {
    assert Unfold((v, a, w, lim), 0);
  }

  /** A run leads from one view to another. */
  ghost predicate Reaches(v: View, actions: seq<Action>, w: View, lim: Limits) {
    forall x {:trigger Unfold((v, actions, w, lim), x)} :: Unfold((v, actions, w, lim), x) ==> w == After(v, actions, lim)
  }

  lemma OpenReaches(v: View, actions: seq<Action>, w: View, lim: Limits)
    ensures Reaches(v, actions, w, lim) <==> w == After(v, actions, lim)
  {
    assert Unfold((v, actions, w, lim), 0);
  }

  lemma ReachesOn(v: View, actions: seq<Action>, w: View, a: Action, u: View, lim: Limits)
    requires Reaches(v, actions, w, lim) && Leads(w, a, u, lim)
    ensures Reaches(v, actions + [a], u, lim)
  {
    OpenReaches(v, actions, w, lim);
    OpenLeads(w, a, u, lim);
    OpenReaches(v, actions + [a], u, lim);
    assert (actions + [a])[..|actions|] == actions;
  }

  /** get_cache of an id that is found, and its update_access_time. */
  lemma ViewFound(k: Keys, n: Keys, h: Items, tasks: Tasks, f: Facts, id: Id, lim: Limits, now: int, unused: set<Id>)
    requires id in h && Keyed(h) && k.hot !! k.cold && k.hot <= h.Keys
    requires AreUnused(k.cold, h, f, now - lim.ttl, unused) && n == Placed(k, id, lim.maxCnt, unused)
    ensures var i := FactOf(f, h[id]);
      ViewOf(n, h, tasks, f[h[id] := i.(access := now, dirty := true)]) == Next(ViewOf(k, h, tasks, f), Get(id, now), lim)
  {
    ViewPlaced(k, n, h, tasks, f, id, lim, now, unused);
    ViewChanged(n, h, tasks, f, id, FactOf(f, h[id]).(access := now, dirty := true));
  }

  lemma ViewWithNew(k: Keys, h: Items, tasks: Tasks, f: Facts, x: Item, now: int)
    requires x.id !in h && x !in f && x.id !in k.hot && x.id !in k.cold && x.id !in k.gc && x.id !in tasks
    requires forall id: Id :: id in h ==> h[id] in f
    ensures ViewOf(k, h[x.id := x], tasks, f[x := Info(0, now, now, true)]) == ViewOf(k, h, tasks, f)[x.id := NewEntry(now)]
  {
    var h1, f1 := h[x.id := x], f[x := Info(0, now, now, true)];
    forall id | id in h ensures FactOf(f1, h1[id]) == FactOf(f, h[id]) {
    }
  }

  lemma UnusedWithNew(cold: set<Id>, h: Items, f: Facts, x: Item, i: Info, minAccess: int, unused: set<Id>)
    requires AreUnused(cold, h, f, minAccess, unused) && x.id !in cold && x !in f
    requires forall id: Id :: id in h ==> h[id] in f
    ensures AreUnused(cold, h[x.id := x], f[x := i], minAccess, unused)
  {
  }

  /** add_cache of a new item. */
  lemma ViewLoaded(k: Keys, n: Keys, h: Items, tasks: Tasks, f: Facts, x: Item, lim: Limits, now: int, unused: set<Id>)
    requires x.id !in h && x !in f && k.hot !! k.cold && k.hot + k.cold + k.gc <= h.Keys && x.id !in tasks
    requires AreUnused(k.cold, h, f, now - lim.ttl, unused) && n == Put(k, x.id, lim.maxCnt, unused)
    requires forall id: Id :: id in h ==> h[id] in f
    ensures ViewOf(n, h[x.id := x], tasks, f[x := Info(0, now, now, true)]) == Next(ViewOf(k, h, tasks, f), Load(x.id, now), lim)
  {
    ViewWithNew(k, h, tasks, f, x, now);
    UnusedWithNew(k.cold, h, f, x, Info(0, now, now, true), now - lim.ttl, unused);
    LoadedPlaced(k, n, h[x.id := x], tasks, f[x := Info(0, now, now, true)], x.id, lim, now, unused);
  }

  lemma LoadedPlaced(k: Keys, n: Keys, h: Items, tasks: Tasks, f: Facts, id: Id, lim: Limits, now: int, unused: set<Id>)
    requires id in h && k.hot !! k.cold && k.hot <= h.Keys && AreUnused(k.cold, h, f, now - lim.ttl, unused)
    requires n == Put(k, id, lim.maxCnt, unused) && id !in k.hot && id !in k.cold && id !in k.gc
    ensures ViewOf(n, h, tasks, f) == MakeHot(ViewOf(k, h, tasks, f), id, lim, now)
  {
    assert k.gc - {id} == k.gc;
    ViewPlaced(k, n, h, tasks, f, id, lim, now, unused);
  }

  // ----- tasks -----

  lemma IdleIsNoTask(k: Keys, h: Items, tasks: Tasks, f: Facts)
    requires tasks.Keys <= h.Keys
    ensures Idle(ViewOf(k, h, tasks, f)) <==> tasks == map[]
  {
    if id :| id in tasks {
      assert ViewOf(k, h, tasks, f)[id].task != None;
    }
  }

  lemma ViewListed(k: Keys, h: Items, tasks: Tasks, f: Facts, lim: Limits)
    requires tasks.Keys == k.gc && forall id: Id :: id in tasks ==> tasks[id].stage == Listed
    ensures ViewOf(k, h, tasks, f) == Next(ViewOf(k, h, map[], f), Round, lim)
  {
    IdleIsNoTask(k, h, map[], f);
  }

  lemma ViewStaged(k: Keys, h: Items, tasks: Tasks, f: Facts, id: Id, x: Item, stage: Stage)
    requires id in h
    ensures var v := ViewOf(k, h, tasks, f);
      ViewOf(k, h, tasks[id := Task(x, stage)], f) == v[id := v[id].(task := Some(stage))]
  {
  }

  /** A task ends for an id that is hot or cold. */
  lemma ViewEndedWarm(k: Keys, h: Items, tasks: Tasks, f: Facts, id: Id, lim: Limits)
    requires id in h && id in tasks && tasks[id].stage == Saved && id in k.hot + k.cold
    ensures ViewOf(k.(gc := k.gc - {id}), h, tasks - {id}, f) == Next(ViewOf(k, h, tasks, f), End(id), lim)
  {
  }

  lemma ViewEndedCool(k: Keys, h: Items, tasks: Tasks, f: Facts, id: Id, lim: Limits)
    requires id in h && id in tasks && tasks[id].stage == Saved && id !in k.hot + k.cold
    ensures ViewOf(k.(gc := k.gc - {id}), h - {id}, tasks - {id}, f) == Next(ViewOf(k, h, tasks, f), End(id), lim)
  {
  }

  // ----- lookup and load of the maps -----

  lemma KeysAreHeld(m: Maps, tasks: Tasks)
    requires Coherent(m) && (tasks == map[] || TasksHeld(tasks, m))
    ensures var k := KeysOf(m);
      k.hot !! k.cold && k.hot + k.cold + k.gc <= HeldItems(m).Keys && tasks.Keys <= HeldItems(m).Keys
  {
    OpenMaps(m);
    OpenTasks(tasks, m);
    OpenHolds(HeldItems(m), m);
  }

  lemma ValuesAreIn(h: Items, f: Facts)
    requires f.Keys == h.Values
    ensures forall id: Id :: id in h ==> h[id] in f
  {
  }

  lemma Looked(m: Maps, n: Maps, tasks: Tasks, f: Facts, id: Id, x: Item, now: int, unused: set<Id>, lim: Limits)
    requires Coherent(m) && m.rest == map[] && SameHeld(m, n) && Held(m, id) == Some(x)
    requires HasKeys(n, Placed(KeysOf(m), id, lim.maxCnt, unused)) && ColdUnused(m, f, now - lim.ttl, unused)
    ensures var w := ViewOf(KeysOf(n), HeldItems(n), tasks, f[x := FactOf(f, x).(access := now, dirty := true)]);
      Leads(ViewOf(KeysOf(m), HeldItems(m), tasks, f), Get(id, now), w, lim)
  {
    OpenKeys(n, Placed(KeysOf(m), id, lim.maxCnt, unused));
    OpenColdUnused(m, f, now - lim.ttl, unused);
    KeysAreHeld(m, map[]);
    HeldItemsKeyed(m);
    HeldItemsAt(m, id);
    SameHeldItems(m, n);
    ViewFound(KeysOf(m), KeysOf(n), HeldItems(m), tasks, f, id, lim, now, unused);
    OpenLeads(ViewOf(KeysOf(m), HeldItems(m), tasks, f), Get(id, now),
      ViewOf(KeysOf(n), HeldItems(n), tasks, f[x := FactOf(f, x).(access := now, dirty := true)]), lim);
  }

  lemma NotFound(m: Maps, tasks: Tasks, f: Facts, id: Id, now: int, lim: Limits)
    requires Held(m, id) == None
    ensures var v := ViewOf(KeysOf(m), HeldItems(m), tasks, f);
      Leads(v, Get(id, now), v, lim)
  {
    HeldItemsAt(m, id);
    OpenLeads(ViewOf(KeysOf(m), HeldItems(m), tasks, f), Get(id, now), ViewOf(KeysOf(m), HeldItems(m), tasks, f), lim);
  }

  lemma Loaded(m: Maps, n: Maps, tasks: Tasks, f: Facts, x: Item, now: int, unused: set<Id>, lim: Limits)
    requires Coherent(m) && m.rest == map[] && Held(m, x.id) == None && Adds(m, n, x) && TasksHeld(tasks, m)
    requires HasKeys(n, Put(KeysOf(m), x.id, lim.maxCnt, unused)) && ColdUnused(m, f, now - lim.ttl, unused)
    requires f.Keys == ObjectsOf(m) && x !in f
    ensures Leads(ViewOf(KeysOf(m), HeldItems(m), tasks, f), Load(x.id, now),
      ViewOf(KeysOf(n), HeldItems(n), tasks, f[x := Info(0, now, now, true)]), lim)
  {
    OpenKeys(n, Put(KeysOf(m), x.id, lim.maxCnt, unused));
    OpenColdUnused(m, f, now - lim.ttl, unused);
    KeysAreHeld(m, tasks);
    HeldItemsAt(m, x.id);
    ObjectsWith(m, n, x);
    ValuesAreIn(HeldItems(m), f);
    ViewLoaded(KeysOf(m), KeysOf(n), HeldItems(m), tasks, f, x, lim, now, unused);
    OpenLeads(ViewOf(KeysOf(m), HeldItems(m), tasks, f), Load(x.id, now),
      ViewOf(KeysOf(n), HeldItems(n), tasks, f[x := Info(0, now, now, true)]), lim);
  }

  lemma LoadIsGet(m: Maps, tasks: Tasks, f: Facts, id: Id, now: int, w: View, lim: Limits)
    requires Held(m, id).Some? && Leads(ViewOf(KeysOf(m), HeldItems(m), tasks, f), Get(id, now), w, lim)
    ensures Leads(ViewOf(KeysOf(m), HeldItems(m), tasks, f), Load(id, now), w, lim)
  {
    HeldItemsAt(m, id);
    OpenLeads(ViewOf(KeysOf(m), HeldItems(m), tasks, f), Get(id, now), w, lim);
    OpenLeads(ViewOf(KeysOf(m), HeldItems(m), tasks, f), Load(id, now), w, lim);
  }

  lemma NothingFound(m: Maps, tasks: Tasks, f: Facts, id: Id, now: int, w: View, lim: Limits)
    requires Held(m, id) == None && Leads(ViewOf(KeysOf(m), HeldItems(m), tasks, f), Get(id, now), w, lim)
    ensures w == ViewOf(KeysOf(m), HeldItems(m), tasks, f)
  {
    HeldItemsAt(m, id);
    OpenLeads(ViewOf(KeysOf(m), HeldItems(m), tasks, f), Get(id, now), w, lim);
  }

  lemma ExpiredLeads(m: Maps, n: Maps, tasks: Tasks, f: Facts, now: int, lim: Limits, stale: set<Id>, due: set<Id>)
    requires SameHeld(m, n) && HasKeys(n, Expired(KeysOf(m), stale, due))
    requires Scanned(m, f, now, lim, stale, due)
    ensures Leads(ViewOf(KeysOf(m), HeldItems(m), tasks, f), Expire(now), ViewOf(KeysOf(n), HeldItems(n), tasks, f), lim)
  {
    OpenKeys(n, Expired(KeysOf(m), stale, due));
    OpenScanned(m, f, now, lim, stale, due);
    SameHeldItems(m, n);
    ViewExpired(KeysOf(m), HeldItems(m), tasks, f, now, lim, stale, due);
    OpenLeads(ViewOf(KeysOf(m), HeldItems(m), tasks, f), Expire(now), ViewOf(KeysOf(n), HeldItems(n), tasks, f), lim);
  }

  /** The two parts of update together. */
  lemma ExpiredKeys(m: Maps, n: Maps, staleHot: set<Id>, staleCold: set<Id>, dueHot: set<Id>, dueCold: set<Id>)
    requires Coherent(m) && staleHot <= m.hot.Keys && staleCold <= m.cold.Keys
    requires forall id: Id :: id in n.hot <==> id in m.hot && id !in staleHot
    requires forall id: Id :: id in n.cold <==> id in m.cold && id !in staleCold
    requires forall id: Id :: id in n.gc <==> id in m.gc || id in dueHot || id in dueCold
    ensures HasKeys(n, Expired(KeysOf(m), staleHot + staleCold, dueHot + dueCold))
  {
    OpenMaps(m);
    OpenKeys(n, Expired(KeysOf(m), staleHot + staleCold, dueHot + dueCold));
  }

  lemma StoppedLeads(m: Maps, n: Maps, tasks: Tasks, f: Facts, lim: Limits)
    requires SameHeld(m, n) && n.hot == map[] && n.cold == map[]
    requires forall id: Id :: id in n.gc <==> id in m.hot || id in m.cold || id in m.gc
    ensures Leads(ViewOf(KeysOf(m), HeldItems(m), tasks, f), Stop, ViewOf(KeysOf(n), HeldItems(n), tasks, f), lim)
  {
    SameHeldItems(m, n);
    assert KeysOf(n) == Keys({}, {}, m.hot.Keys + m.cold.Keys + m.gc.Keys);
    ViewStopped(KeysOf(m), HeldItems(m), tasks, f, lim);
    OpenLeads(ViewOf(KeysOf(m), HeldItems(m), tasks, f), Stop, ViewOf(KeysOf(n), HeldItems(n), tasks, f), lim);
  }

  // ----- the steps of gc -----

  lemma ListedLeads(m: Maps, tasks: Tasks, f: Facts, lim: Limits)
    requires tasks.Keys == m.gc.Keys && forall id: Id :: id in tasks ==> tasks[id].stage == Listed
    ensures Leads(ViewOf(KeysOf(m), HeldItems(m), map[], f), Round, ViewOf(KeysOf(m), HeldItems(m), tasks, f), lim)
  {
    ViewListed(KeysOf(m), HeldItems(m), tasks, f, lim);
    OpenLeads(ViewOf(KeysOf(m), HeldItems(m), map[], f), Round, ViewOf(KeysOf(m), HeldItems(m), tasks, f), lim);
  }

  /** The task of an id comes to a new stage, and its item is changed. */
  lemma ViewTaskStep(k: Keys, h: Items, tasks: Tasks, f: Facts, id: Id, stage: Stage, i: Info)
    requires id in h && Keyed(h) && id in tasks
    ensures var v := ViewOf(k, h, tasks, f);
      var e := v[id].(refs := i.refs, access := i.access, saved := i.saved, dirty := i.dirty, task := Some(stage));
      ViewOf(k, h, tasks[id := Task(h[id], stage)], f[h[id] := i]) == v[id := e]
  {
    var v := ViewOf(k, h, tasks, f);
    ViewStaged(k, h, tasks, f, id, h[id], stage);
    ViewChanged(k, h, tasks[id := Task(h[id], stage)], f, id, i);
  }

  /** The task of an id has dumped its item. */
  lemma DumpedLeads(m: Maps, tasks: Tasks, f: Facts, id: Id, x: Item, lim: Limits)
    requires Coherent(m) && Held(m, id) == Some(x) && id in tasks && tasks[id].stage == Listed
    ensures Leads(ViewOf(KeysOf(m), HeldItems(m), tasks, f), Snapshot(id),
      ViewOf(KeysOf(m), HeldItems(m), tasks[id := Task(x, Dumped)], f[x := FactOf(f, x).(dirty := false)]), lim)
  {
    var k, h, g := KeysOf(m), HeldItems(m), f[x := FactOf(f, x).(dirty := false)];
    HeldItemsAt(m, id);
    HeldItemsKeyed(m);
    ViewTaskStep(k, h, tasks, f, id, Dumped, FactOf(f, x).(dirty := false));
    OpenLeads(ViewOf(k, h, tasks, f), Snapshot(id), ViewOf(k, h, tasks[id := Task(x, Dumped)], g), lim);
  }

  /** The database has answered the task of an id. */
  lemma SavedLeads(m: Maps, tasks: Tasks, f: Facts, id: Id, x: Item, now: int, lim: Limits)
    requires Coherent(m) && Held(m, id) == Some(x) && id in tasks && tasks[id].stage == Dumped
    ensures Leads(ViewOf(KeysOf(m), HeldItems(m), tasks, f), Save(id, now),
      ViewOf(KeysOf(m), HeldItems(m), tasks[id := Task(x, Saved)], f[x := FactOf(f, x).(saved := now)]), lim)
  {
    var k, h, g := KeysOf(m), HeldItems(m), f[x := FactOf(f, x).(saved := now)];
    HeldItemsAt(m, id);
    HeldItemsKeyed(m);
    ViewTaskStep(k, h, tasks, f, id, Saved, FactOf(f, x).(saved := now));
    OpenLeads(ViewOf(k, h, tasks, f), Save(id, now), ViewOf(k, h, tasks[id := Task(x, Saved)], g), lim);
  }

  lemma EndedLeads(m: Maps, n: Maps, tasks: Tasks, f: Facts, id: Id, lim: Limits)
    requires Coherent(m) && m.rest == map[] && n == m.(gc := m.gc - {id})
    requires Held(m, id).Some? && id in tasks && tasks[id].stage == Saved
    ensures HeldItems(n).Values <= HeldItems(m).Values
    ensures Leads(ViewOf(KeysOf(m), HeldItems(m), tasks, f), End(id), ViewOf(KeysOf(n), HeldItems(n), tasks - {id}, f), lim)
  {
    var k, h := KeysOf(m), HeldItems(m);
    HeldItemsAt(m, id);
    HeldWithoutGc(m, id);
    assert KeysOf(n) == k.(gc := k.gc - {id});
    if id in k.hot + k.cold {
      ViewEndedWarm(k, h, tasks, f, id, lim);
    } else {
      ViewEndedCool(k, h, tasks, f, id, lim);
    }
    OpenLeads(ViewOf(k, h, tasks, f), End(id), ViewOf(KeysOf(n), HeldItems(n), tasks - {id}, f), lim);
  }

  /** inc_ref or dec_ref of the item of an id. */
  lemma RefLeads(m: Maps, tasks: Tasks, f: Facts, id: Id, x: Item, up: bool, lim: Limits)
    requires Coherent(m) && Held(m, id) == Some(x)
    ensures var i := FactOf(f, x);
      Leads(ViewOf(KeysOf(m), HeldItems(m), tasks, f), Ref(id, up),
        ViewOf(KeysOf(m), HeldItems(m), tasks, f[x := i.(refs := i.refs + if up then 1 else -1)]), lim)
  {
    var i := FactOf(f, x);
    var j := i.(refs := i.refs + if up then 1 else -1);
    HeldItemsAt(m, id);
    HeldItemsKeyed(m);
    ViewChanged(KeysOf(m), HeldItems(m), tasks, f, id, j);
    OpenLeads(ViewOf(KeysOf(m), HeldItems(m), tasks, f), Ref(id, up), ViewOf(KeysOf(m), HeldItems(m), tasks, f[x := j]), lim);
  }

  /** A step of gc that cannot happen. */
  ghost predicate Blocked(a: Action, m: Maps, tasks: Tasks) {
    || (a.Round? && tasks != map[])
    || (a.Snapshot? && !(a.id in tasks && tasks[a.id].stage == Listed))
    || (a.Save? && !(a.id in tasks && tasks[a.id].stage == Dumped))
    || (a.End? && !(a.id in tasks && tasks[a.id].stage == Saved))
    || (a.Ref? && Held(m, a.id) == None)
  }

  lemma BlockedLeads(a: Action, m: Maps, tasks: Tasks, f: Facts, lim: Limits)
    requires Coherent(m) && TasksHeld(tasks, m) && Blocked(a, m, tasks)
    ensures var v := ViewOf(KeysOf(m), HeldItems(m), tasks, f);
      Leads(v, a, v, lim)
  {
    var v := ViewOf(KeysOf(m), HeldItems(m), tasks, f);
    KeysAreHeld(m, tasks);
    if a.Round? {
      IdleIsNoTask(KeysOf(m), HeldItems(m), tasks, f);
    } else if a.Ref? {
      HeldItemsAt(m, a.id);
    }
    OpenLeads(v, a, v, lim);
  }
}
