/** lualib/cache_mgr.lua, and get_item of service/mailbox/mailbox_mgr.lua: items move
    between hot, cold and gc, and gc tasks save them and let them go. */
module CacheMgr {
  import opened CacheEntries
  import opened CacheMaps
  import opened CacheView
  import opened Hiding
  import opened Wrappers

  lemma CoherentWithoutRest(m: Maps, id: Id, x: Item)
    requires m.rest == map[] && Coherent(m.(rest := map[id := x]))
    ensures Coherent(m)
  {
    OpenMaps(m);
    OpenMaps(m.(rest := map[id := x]));
  }

  /** When gc has everything, hot and cold can be emptied. */
  lemma AllInGc(m: Maps)
    requires Coherent(m) && m.rest == map[]
    requires forall id: Id :: id in m.hot || id in m.cold ==> id in m.gc
    ensures var n := Maps(map[], map[], m.gc, map[]);
      Coherent(n) && SameHeld(m, n)
  {
    OpenMaps(m);
    OpenMaps(Maps(map[], map[], m.gc, map[]));
    OpenHeld(m, Maps(map[], map[], m.gc, map[]));
  }

  lemma HeldWhenCold(m: Maps, id: Id)
    requires Coherent(m) && id in m.cold
    ensures id !in m.hot && Held(m, id) == Some(m.cold[id])
  {
    OpenMaps(m);
  }

  /** Not used, or not saved, for long. */
  predicate Due(x: Item, minAccess: int, minSave: int)
    reads x
  {
    x.access < minAccess || x.saved < minSave
  }

  /** In use, by a reference and an access since then. */
  predicate InUse(x: Item, minAccess: int)
    reads x
  {
    x.refs > 0 && x.access > minAccess
  }

  /** What update takes out of a map, and what it sends to gc. */
  ghost function StaleIds(items: Items, minAccess: int): set<Id>
    reads items.Values
  {
    set id: Id | id in items && items[id].access < minAccess
  }

  ghost function DueIds(items: Items, minAccess: int, minSave: int): set<Id>
    reads items.Values
  {
    set id: Id | id in items && Due(items[id], minAccess, minSave)
  }

  ghost function UnusedIds(items: Items, minAccess: int): set<Id>
    reads items.Values
  {
    set id: Id | id in items && !InUse(items[id], minAccess)
  }

  /** The items of hot or of cold, seen through the facts. */
  lemma StaleAndDueOf(items: Items, h: Items, minAccess: int, minSave: int)
    requires forall id: Id :: id in items ==> id in h && h[id] == items[id]
    ensures AreStale(items.Keys, h, FactsOf(h.Values), minAccess, StaleIds(items, minAccess))
    ensures AreDue(items.Keys, h, FactsOf(h.Values), minAccess, minSave, DueIds(items, minAccess, minSave))
  {
    forall id: Id | id in items ensures FactOf(FactsOf(h.Values), h[id]) == Info(h[id].refs, h[id].access, h[id].saved, h[id].dirty) {
      FactAt(h.Values, h[id]);
    }
  }

  lemma StaleAndDue(m: Maps, items: set<Item>, f: Facts, now: int, lim: Limits, staleHot: set<Id>, dueHot: set<Id>, staleCold: set<Id>, dueCold: set<Id>)
    requires Coherent(m) && items == ObjectsOf(m) && f == FactsOf(items)
    requires staleHot == StaleIds(m.hot, now - lim.ttl) && dueHot == DueIds(m.hot, now - lim.ttl, now - lim.saveCd)
    requires staleCold == StaleIds(m.cold, now - lim.ttl) && dueCold == DueIds(m.cold, now - lim.ttl, now - lim.saveCd)
    ensures Scanned(m, f, now, lim, staleHot + staleCold, dueHot + dueCold)
  {
    var h, minAccess, minSave := HeldItems(m), now - lim.ttl, now - lim.saveCd;
    HotAndColdItems(m);
    StaleAndDueOf(m.hot, h, minAccess, minSave);
    StaleAndDueOf(m.cold, h, minAccess, minSave);
    StaleInBoth(m.hot.Keys, m.cold.Keys, h, f, minAccess, staleHot, staleCold);
    DueInBoth(m.hot.Keys, m.cold.Keys, h, f, minAccess, minSave, dueHot, dueCold);
    OpenScanned(m, f, now, lim, staleHot + staleCold, dueHot + dueCold);
  }

  lemma UnusedWithout(items: Items, id: Id, minAccess: int)
    ensures UnusedIds(items - {id}, minAccess) == UnusedIds(items, minAccess) - {id}
  {
  }

  /** `f` says what is in the fields of the items. */
  ghost predicate AreFacts(f: Facts, items: set<Item>)
    reads items
  {
    forall y {:trigger Unfold((f, items), y)} :: Unfold((f, items), y) ==>
      f == map x: Item | x in items :: Info(x.refs, x.access, x.saved, x.dirty)
  }

  lemma OpenFacts(f: Facts, items: set<Item>)
    ensures AreFacts(f, items) <==> f == map x: Item | x in items :: Info(x.refs, x.access, x.saved, x.dirty)
  {
    assert Unfold((f, items), 0);
  }

  lemma SomeFacts(items: set<Item>)
    ensures exists f :: AreFacts(f, items)
  {
    OpenFacts(map x: Item | x in items :: Info(x.refs, x.access, x.saved, x.dirty), items);
  }

  ghost function FactsOf(items: set<Item>): (f: Facts)
    reads items
    ensures f.Keys == items
  {
    SomeFacts(items);
    var f :| AreFacts(f, items);
    OpenFacts(f, items);
    f
  }

  lemma FactAt(items: set<Item>, x: Item)
    requires x in items
    ensures FactOf(FactsOf(items), x) == Info(x.refs, x.access, x.saved, x.dirty)
  {
    OpenFacts(FactsOf(items), items);
  }

  lemma ColdIsUnused(m: Maps, minAccess: int)
    requires Coherent(m)
    ensures ColdUnused(m, FactsOf(ObjectsOf(m)), minAccess, UnusedIds(m.cold, minAccess))
  {
    HotAndColdItems(m);
    forall id: Id | id in m.cold
      ensures FactOf(FactsOf(ObjectsOf(m)), m.cold[id]) == Info(m.cold[id].refs, m.cold[id].access, m.cold[id].saved, m.cold[id].dirty)
    {
      FactAt(ObjectsOf(m), HeldItems(m)[id]);
    }
    OpenColdUnused(m, FactsOf(ObjectsOf(m)), minAccess, UnusedIds(m.cold, minAccess));
  }

  /** Only the facts of the objects count. */
  lemma LessFacts(k: Keys, h: Items, tasks: Tasks, items: set<Item>)
    requires h.Values <= items
    ensures ViewOf(k, h, tasks, FactsOf(h.Values)) == ViewOf(k, h, tasks, FactsOf(items))
  {
    forall id: Id | id in h ensures FactOf(FactsOf(h.Values), h[id]) == FactOf(FactsOf(items), h[id]) {
      FactAt(h.Values, h[id]);
      FactAt(items, h[id]);
    }
  }

  lemma FactsWith(items: set<Item>, x: Item)
    requires x !in items
    ensures FactsOf(items + {x}) == FactsOf(items)[x := Info(x.refs, x.access, x.saved, x.dirty)]
  {
    OpenFacts(FactsOf(items), items);
    OpenFacts(FactsOf(items + {x}), items + {x});
  }

  /** update_access_time of one of some items. */
  method TouchOne(x: Item, now: int, ghost items: set<Item>)
    requires x in items
    modifies x`access, x`dirty
    ensures x.access == now && FactsOf(items) == old(FactsOf(items))[x := Info(x.refs, now, x.saved, true)]
  {
    OpenFacts(FactsOf(items), items);
    x.Touch(now);
    OpenFacts(FactsOf(items), items);
  }

  /** The dump of one of some items. */
  ghost method DumpOne(x: Item, items: set<Item>)
    requires x in items
    modifies x`dirty
    ensures FactsOf(items) == old(FactsOf(items))[x := Info(x.refs, x.access, x.saved, false)] && !x.dirty
  {
    OpenFacts(FactsOf(items), items);
    x.dirty := false;
    OpenFacts(FactsOf(items), items);
  }

  /** update_save_time of one of some items. */
  method SaveOne(x: Item, now: int, ghost items: set<Item>)
    requires x in items
    modifies x`saved
    ensures x.saved == now && FactsOf(items) == old(FactsOf(items))[x := Info(x.refs, x.access, now, x.dirty)]
  {
    OpenFacts(FactsOf(items), items);
    x.saved := now;
    OpenFacts(FactsOf(items), items);
  }

  /** inc_ref or dec_ref of one of some items. */
  method RefOne(x: Item, up: bool, ghost items: set<Item>, ghost f: Facts)
    requires x in items && f == FactsOf(items)
    modifies x`refs
    ensures x.refs == old(x.refs) + if up then 1 else -1
    ensures FactsOf(items) == f[x := FactOf(f, x).(refs := FactOf(f, x).refs + if up then 1 else -1)]
  {
    OpenFacts(f, items);
    if up {
      x.IncRef();
    } else {
      x.DecRef();
    }
    OpenFacts(FactsOf(items), items);
  }

  /** What a step may do to the object of an id: only the end of a gc task that has saved the
      object lets the id go, and only a load can give an object to an id that has none. */
  ghost predicate MovedOne(m: Maps, a: Action, tasks: Tasks, n: Maps, id: Id) {
    || Held(n, id) == Held(m, id)
    || (Held(n, id) == None && a == End(id) && id in tasks && tasks[id].stage == Saved && Held(m, id) == Some(tasks[id].item))
    || (Held(m, id) == None && a.Load? && a.id == id)
  }

  ghost predicate Moved(m: Maps, a: Action, tasks: Tasks, n: Maps) {
    forall x {:trigger Unfold((m, a, tasks, n), x)} :: Unfold((m, a, tasks, n), x) ==> forall id: Id :: MovedOne(m, a, tasks, n, id)
  }

  lemma OpenMoved(m: Maps, a: Action, tasks: Tasks, n: Maps)
    ensures Moved(m, a, tasks, n) <==> forall id: Id :: MovedOne(m, a, tasks, n, id)
  {
    assert Unfold((m, a, tasks, n), 0);
  }

  lemma SameMoved(m: Maps, a: Action, tasks: Tasks, n: Maps)
    requires SameHeld(m, n)
    ensures Moved(m, a, tasks, n)
  {
    OpenHeld(m, n);
    OpenMoved(m, a, tasks, n);
  }

  lemma LoadMoved(m: Maps, a: Action, tasks: Tasks, n: Maps, x: Item)
    requires a.Load? && a.id == x.id && Held(m, x.id) == None && Adds(m, n, x)
    ensures Moved(m, a, tasks, n)
  {
    OpenAdds(m, n, x);
    OpenMoved(m, a, tasks, n);
  }

  lemma EndMoved(m: Maps, tasks: Tasks, n: Maps, id: Id)
    requires Coherent(m) && m.rest == map[] && TasksHeld(tasks, m) && id in tasks && tasks[id].stage == Saved && n == m.(gc := m.gc - {id})
    ensures Moved(m, End(id), tasks, n)
  {
    GcGone(m, id);
    OpenTasks(tasks, m);
    OpenMoved(m, End(id), tasks, n);
  }

  lemma MovedAt(m: Maps, a: Action, tasks: Tasks, n: Maps, id: Id)
    requires Moved(m, a, tasks, n) && a != End(id) && Held(m, id).Some?
    ensures Held(n, id) == Held(m, id)
  {
    OpenMoved(m, a, tasks, n);
    assert MovedOne(m, a, tasks, n, id);
  }

  class CacheMgr {
    var hot: Items
    var cold: Items
    var gc: Items
    var hotCnt: int
    var coldCnt: int
    var tasks: Tasks      // of the current round of _gc
    const maxCnt: int
    const ttl: int
    const saveCd: int

    ghost function M(): Maps
      reads this
    {
      Maps(hot, cold, gc, map[])
    }

    ghost predicate Counted()
      reads this
    {
      hotCnt == |hot| && coldCnt == |cold| && (hotCnt == 0 || hotCnt < maxCnt)
    }

    /** The counters are the sizes, the maps agree on every object, and every task is for
        the object of its id. */
    ghost predicate Valid()
      reads this
    {
      forall x {:trigger Unfold((M(), tasks, hotCnt, coldCnt), x)} :: Unfold((M(), tasks, hotCnt, coldCnt), x) ==>
        Coherent(M()) && Counted() && TasksHeld(tasks, M())
    }

    lemma OpenValid()
      ensures Valid() <==> Coherent(M()) && Counted() && TasksHeld(tasks, M())
    {
      assert Unfold((M(), tasks, hotCnt, coldCnt), 0);
    }

    constructor (maxCnt: int, ttl: int, saveCd: int)
      ensures Valid() && hot == cold == gc == map[] && tasks == map[]
      ensures this.maxCnt == maxCnt && this.ttl == ttl && this.saveCd == saveCd
    {
      hot, cold, gc, hotCnt, coldCnt, tasks := map[], map[], map[], 0, 0, map[];
      this.maxCnt, this.ttl, this.saveCd := maxCnt, ttl, saveCd;
      new;
      OpenValid();
    }

    // ----- the moves -----

    method AddCold(id: Id, x: Item)
      modifies this`cold, this`coldCnt
      ensures cold == if id in old(cold) then old(cold) else old(cold)[id := x]
      ensures old(coldCnt == |cold|) ==> coldCnt == |cold|
    {
      if id in cold { return; }
      SizeWith(cold, id, x);
      cold := cold[id := x];
      coldCnt := coldCnt + 1;
    }

    method DelCold(id: Id)
      modifies this`cold, this`coldCnt
      ensures cold == old(cold) - {id}
      ensures old(coldCnt == |cold|) ==> coldCnt == |cold|
    {
      if id !in cold {
        assert cold - {id} == cold;
        return;
      }
      SizeWithout(cold, id);
      cold := cold - {id};
      coldCnt := coldCnt - 1;
    }

    method DelHot(id: Id)
      modifies this`hot, this`hotCnt
      ensures hot == old(hot) - {id} && hotCnt <= old(hotCnt)
      ensures old(hotCnt == |hot|) ==> hotCnt == |hot|
    {
      if id !in hot {
        assert hot - {id} == hot;
        return;
      }
      SizeWithout(hot, id);
      hot := hot - {id};
      hotCnt := hotCnt - 1;
    }

    /** One item that was cold: it stays cold while it is in use, else it goes to gc. */
    method SettleOne(rest: Items, id: Id, minAccess: int)
      requires id in rest && Coherent(Maps(hot, cold, gc, rest)) && coldCnt == |cold|
      modifies this`cold, this`coldCnt, this`gc
      ensures coldCnt == |cold|
      ensures Maps(hot, cold, gc, rest - {id}) == SettledOne(old(Maps(hot, cold, gc, rest)), id, InUse(rest[id], minAccess))
    {
      OpenMaps(Maps(hot, cold, gc, rest));
      var x := rest[id];
      if x.refs > 0 && x.access > minAccess {
        AddCold(id, x);
      } else {
        gc := gc[id := x];
      }
    }

    /** The loop of add_hot over what was cold. */
    method Settle(was: Items, minAccess: int, ghost unused: set<Id>)
      requires Coherent(Maps(hot, cold, gc, was)) && coldCnt == |cold| && unused == UnusedIds(was, minAccess)
      modifies this`cold, this`coldCnt, this`gc
      ensures Coherent(M()) && SameHeld(old(Maps(hot, cold, gc, was)), M()) && coldCnt == |cold|
      ensures HasKeys(M(), Settled(old(KeysOf(M())), was.Keys, unused))
    {
      var rest := was;
      ghost var start := Maps(hot, cold, gc, was);
      SettleStart(start, unused);
      while rest != map[]
        invariant HasSettled(start, Maps(hot, cold, gc, rest), was.Keys, unused)
        invariant coldCnt == |cold| && forall id :: id in rest ==> id in was && rest[id] == was[id]
        decreases |rest|
      {
        var id :| id in rest;
        ghost var m := Maps(hot, cold, gc, rest);
        OpenSettling(start, m, was.Keys, unused);
        SettleOne(rest, id, minAccess);
        SettleStep(start, m, id, InUse(rest[id], minAccess), was.Keys, unused);
        SizeWithout(rest, id);
        rest := rest - {id};
      }
      SettleEnd(start, M(), was.Keys, unused);
    }

    /** Hot becomes cold, and what was cold finds another place. */
    method SwapHot(now: int, ghost unused: set<Id>)
      requires Coherent(M()) && hotCnt == |hot| && unused == UnusedIds(cold, now - ttl)
      modifies this`hot, this`hotCnt, this`cold, this`coldCnt, this`gc
      ensures Coherent(M()) && Counted() && SameHeld(old(M()), M())
      ensures HasKeys(M(), Swapped(old(KeysOf(M())), unused))
    {
      ghost var start := M();
      Swap(start);
      var was := cold;
      cold := hot;
      coldCnt := hotCnt;
      hot := map[];
      hotCnt := 0;
      ghost var mid := Maps(hot, cold, gc, was);
      assert mid == Maps(map[], start.hot, start.gc, start.cold);
      Settle(was, now - ttl, unused);
      SwapKeys(start, M(), unused);
      SameHeldTrans(start, mid, M());
    }

    /** The item gets its place in hot. */
    method IntoHot(id: Id, x: Item)
      requires id !in hot && Coherent(Maps(hot, cold, gc, map[id := x])) && hotCnt == |hot|
      modifies this`hot, this`hotCnt
      ensures M() == old(M()).(hot := old(hot)[id := x]) && hotCnt == |hot|
      ensures Coherent(M()) && SameHeld(old(Maps(hot, cold, gc, map[id := x])), M())
    {
      HotHeld(M(), id, x);
      hot := hot[id := x];
      hotCnt := hotCnt + 1;
    }

    /** add_hot of an id that is in no map: with max_cnt items, hot becomes cold. */
    method Admit(id: Id, x: Item, now: int, ghost unused: set<Id>)
      requires id !in hot && Coherent(Maps(hot, cold, gc, map[id := x]))
      requires Coherent(M()) && Counted() && unused == UnusedIds(cold, now - ttl)
      modifies this`hot, this`hotCnt, this`cold, this`coldCnt, this`gc
      ensures Coherent(M()) && Counted() && SameHeld(old(Maps(hot, cold, gc, map[id := x])), M())
      ensures HasKeys(M(), Put(old(KeysOf(M())), id, maxCnt, unused))
    {
      ghost var m := M();
      IntoHot(id, x);
      ghost var mid := M();
      if hotCnt < maxCnt {
        PutSmall(m, id, x, maxCnt, unused);
        return;
      }
      SwapHot(now, unused);
      PutFull(m, mid, M(), id, x, maxCnt, unused);
    }

    /** add_hot. */
    method AddHot(id: Id, x: Item, now: int, ghost unused: set<Id>)
      requires id in hot || Coherent(Maps(hot, cold, gc, map[id := x]))
      requires Coherent(M()) && Counted() && unused == UnusedIds(cold, now - ttl)
      modifies this`hot, this`hotCnt, this`cold, this`coldCnt, this`gc
      ensures Coherent(M()) && Counted()
      ensures old(id in hot) ==> M() == old(M())
      ensures old(id !in hot) ==>
        SameHeld(old(Maps(hot, cold, gc, map[id := x])), M()) && HasKeys(M(), Put(old(KeysOf(M())), id, maxCnt, unused))
    {
      if id in hot { return; }
      Admit(id, x, now, unused);
    }

    // ----- lookup -----

    /** get_cache of an item that is cold. */
    method FromCold(id: Id, now: int, ghost unused: set<Id>) returns (x: Item)
      requires Coherent(M()) && Counted() && id in cold && unused == UnusedIds(cold, now - ttl)
      modifies this`hot, this`hotCnt, this`cold, this`coldCnt, this`gc
      ensures Coherent(M()) && Counted() && SameHeld(old(M()), M()) && Some(x) == old(Held(M(), id))
      ensures HasKeys(M(), Placed(old(KeysOf(M())), id, maxCnt, unused))
    {
      ghost var m := M();
      HeldWhenCold(m, id);
      x := cold[id];
      ColdToRest(m, id);
      UnusedWithout(cold, id, now - ttl);
      DelCold(id);
      CoherentWithoutRest(M(), id, x);
      ghost var mid := Maps(hot, cold, gc, map[id := x]);
      assert mid == m.(cold := m.cold - {id}, rest := map[id := m.cold[id]]);
      AddHot(id, x, now, unused - {id});
      PutCold(m, M(), id, maxCnt, unused);
      SameHeldTrans(m, mid, M());
    }

    /** get_cache of an item that is only in gc. */
    method FromGc(id: Id, now: int, ghost unused: set<Id>) returns (x: Item)
      requires Coherent(M()) && Counted() && id !in hot && id !in cold && id in gc && unused == UnusedIds(cold, now - ttl)
      modifies this`hot, this`hotCnt, this`cold, this`coldCnt, this`gc
      ensures Coherent(M()) && Counted() && SameHeld(old(M()), M()) && Some(x) == old(Held(M(), id))
      ensures HasKeys(M(), Placed(old(KeysOf(M())), id, maxCnt, unused))
    {
      ghost var m := M();
      x := gc[id];
      GcToRest(m, id);
      gc := gc - {id};
      CoherentWithoutRest(M(), id, x);
      ghost var mid := Maps(hot, cold, gc, map[id := x]);
      assert mid == m.(gc := m.gc - {id}, rest := map[id := m.gc[id]]);
      AddHot(id, x, now, unused);
      PutGc(m, M(), id, maxCnt, unused);
      SameHeldTrans(m, mid, M());
    }

    /** get_cache up to the new access time. */
    method Find(id: Id, now: int, ghost unused: set<Id>) returns (r: Option<Item>)
      requires Coherent(M()) && Counted() && unused == UnusedIds(cold, now - ttl)
      modifies this`hot, this`hotCnt, this`cold, this`coldCnt, this`gc
      ensures Coherent(M()) && Counted() && SameHeld(old(M()), M()) && r == old(Held(M(), id))
      ensures r.Some? ==> HasKeys(M(), Placed(old(KeysOf(M())), id, maxCnt, unused))
      ensures r == None ==> M() == old(M())
    {
      if id in hot {
        SameHeldRefl(M());
        OpenKeys(M(), KeysOf(M()));
        r := Some(hot[id]);
      } else if id in cold {
        var x := FromCold(id, now, unused);
        r := Some(x);
      } else if id in gc {
        var x := FromGc(id, now, unused);
        r := Some(x);
      } else {
        SameHeldRefl(M());
        r := None;
      }
    }

    /** get_cache: an item that is found becomes hot, or cold by the swap that makes room. */
    method GetCache(id: Id, now: int) returns (r: Option<Item>)
      requires Valid()
      modifies this`hot, this`hotCnt, this`cold, this`coldCnt, this`gc, Objects()
      ensures Valid() && SameHeld(old(M()), M()) && r == old(Held(M(), id))
      ensures r == None ==> M() == old(M())
      ensures Leads(old(V()), Get(id, now), V(), Lim())
    {
      OpenValid();
      ghost var m, f := M(), FactsOf(Objects());
      ghost var unused := UnusedIds(cold, now - ttl);
      r := FindOnly(id, now, unused, Objects(), f);
      if r == None {
        assert M() == m && Objects() == ObjectsOf(m);
        NotFound(m, tasks, f, id, now, Lim());
        return;
      }
      SameHeldItems(m, M());
      HeldIsObject(m, id);
      Use(m, f, id, r.value, now, unused);
    }

    /** Up to here no item changes. */
    method FindOnly(id: Id, now: int, ghost unused: set<Id>, ghost items: set<Item>, ghost f: Facts) returns (r: Option<Item>)
      requires Valid() && unused == UnusedIds(cold, now - ttl) && f == FactsOf(items)
      modifies this`hot, this`hotCnt, this`cold, this`coldCnt, this`gc
      ensures Valid() && SameHeld(old(M()), M()) && r == old(Held(M(), id))
      ensures r.Some? ==> HasKeys(M(), Placed(old(KeysOf(M())), id, maxCnt, unused))
      ensures r == None ==> M() == old(M())
      ensures f == FactsOf(items) && unused == UnusedIds(old(cold), now - ttl)
    {
      ghost var m := M();
      OpenValid();
      r := Find(id, now, unused);
      TasksKept(tasks, m, M());
      OpenValid();
    }

    /** update_access_time of the item that get_cache has found, where `m` and `f` were the
        maps and the items before. */
    method Use(ghost m: Maps, ghost f: Facts, id: Id, x: Item, now: int, ghost unused: set<Id>)
      requires Coherent(m) && m.rest == map[] && SameHeld(m, M()) && Held(m, id) == Some(x)
      requires HasKeys(M(), Placed(KeysOf(m), id, maxCnt, unused))
      requires f == FactsOf(ObjectsOf(m)) && unused == UnusedIds(m.cold, now - ttl)
      modifies x`access, x`dirty
      ensures x.access == now && Leads(ViewOf(KeysOf(m), HeldItems(m), tasks, f), Get(id, now), V(), Lim())
    {
      SameHeldItems(m, M());
      ColdIsUnused(m, now - ttl);
      HeldIsObject(m, id);
      FactAt(ObjectsOf(m), x);
      TouchOne(x, now, ObjectsOf(m));
      Looked(m, M(), tasks, f, id, x, now, unused, Lim());
    }

    ghost function Lim(): Limits {
      Limits(maxCnt, ttl, saveCd)
    }

    /** Every object the cache has. */
    ghost function Objects(): set<Item>
      reads this
    {
      ObjectsOf(M())
    }

    ghost function V(): View
      reads this, Objects()
    {
      ViewOf(KeysOf(M()), HeldItems(M()), tasks, FactsOf(Objects()))
    }

    /** add_cache of an item whose id is not in the cache. */
    method AddCache(x: Item, now: int, ghost unused: set<Id>)
      requires Coherent(M()) && Counted() && Held(M(), x.id) == None && unused == UnusedIds(cold, now - ttl)
      modifies this`hot, this`hotCnt, this`cold, this`coldCnt, this`gc
      ensures Coherent(M()) && Counted() && Adds(old(M()), M(), x)
      ensures HasKeys(M(), Put(old(KeysOf(M())), x.id, maxCnt, unused))
    {
      ghost var m := M();
      NewInRest(m, x);
      AddHot(x.id, x, now, unused);
      NewHeld(m, M(), x);
    }

    /** Up to here no item changes. */
    method AddOnly(x: Item, now: int, ghost unused: set<Id>, ghost items: set<Item>, ghost f: Facts)
      requires Valid() && Held(M(), x.id) == None && unused == UnusedIds(cold, now - ttl) && f == FactsOf(items)
      modifies this`hot, this`hotCnt, this`cold, this`coldCnt, this`gc
      ensures Valid() && Adds(old(M()), M(), x) && f == FactsOf(items)
      ensures HasKeys(M(), Put(old(KeysOf(M())), x.id, maxCnt, unused))
    {
      ghost var m := M();
      OpenValid();
      AddCache(x, now, unused);
      TasksWith(tasks, m, M(), x);
      OpenValid();
    }

    /** get_item of an id that is not in the cache, behind the call to the database. */
    method LoadNew(id: Id, now: int) returns (x: Item)
      requires Valid() && Held(M(), id) == None
      modifies this`hot, this`hotCnt, this`cold, this`coldCnt, this`gc
      ensures Valid() && fresh(x) && x.id == id && x.access == x.saved == now && Adds(old(M()), M(), x)
      ensures Leads(old(V()), Load(id, now), V(), Lim())
    {
      ghost var items, f := Objects(), FactsOf(Objects());
      ghost var unused := UnusedIds(cold, now - Lim().ttl);
      OpenValid();
      ColdIsUnused(M(), now - Lim().ttl);
      x := NewItem(id, now, items, f);
      AddNew(x, now, unused, items, f);
    }

    /** A new item with an id that is not in the cache. */
    method NewItem(id: Id, now: int, ghost items: set<Item>, ghost f: Facts) returns (x: Item)
      requires f == FactsOf(items)
      ensures fresh(x) && x.id == id && x.access == x.saved == now && x.refs == 0 && x.dirty
      ensures f == FactsOf(items)
    {
      x := new Item(id, now);
    }

    method AddNew(x: Item, now: int, ghost unused: set<Id>, ghost items: set<Item>, ghost f: Facts)
      requires Valid() && Held(M(), x.id) == None && x.access == x.saved == now && x.refs == 0 && x.dirty
      requires items == ObjectsOf(M()) && f == FactsOf(items) && unused == UnusedIds(cold, now - ttl)
      requires ColdUnused(M(), f, now - Lim().ttl, unused)
      modifies this`hot, this`hotCnt, this`cold, this`coldCnt, this`gc
      ensures Valid() && Adds(old(M()), M(), x)
      ensures Leads(ViewOf(old(KeysOf(M())), old(HeldItems(M())), tasks, f), Load(x.id, now), V(), Lim())
    {
      ghost var m := M();
      OpenValid();
      ObjectsWithout(m, x.id, x);
      FactsWith(items, x);
      AddOnly(x, now, unused, items + {x}, f[x := Info(0, now, now, true)]);
      ObjectsWith(m, M(), x);
      Loaded(m, M(), tasks, f, x, now, unused, Lim());
    }

    /** get_item behind the call to the database: another coroutine may have loaded the
        same item meanwhile, and then that one is returned. */
    method FinishLoad(id: Id, now: int) returns (x: Item)
      requires Valid()
      modifies this`hot, this`hotCnt, this`cold, this`coldCnt, this`gc, Objects()
      ensures Valid()
      ensures old(Held(M(), id)).Some? ==> SameHeld(old(M()), M()) && old(Held(M(), id)) == Some(x)
      ensures old(Held(M(), id)) == None ==> Adds(old(M()), M(), x) && fresh(x) && x.id == id && x.access == x.saved == now
      ensures Leads(old(V()), Load(id, now), V(), Lim())
    {
      ghost var m, f := M(), FactsOf(Objects());
      var r := GetCache(id, now);
      if r.Some? {
        LoadIsGet(m, tasks, f, id, now, V(), Lim());
        return r.value;
      }
      NothingFound(m, tasks, f, id, now, V(), Lim());
      x := LoadNew(id, now);
    }

    // ----- eviction -----

    method ScanOne(id: Id, x: Item, minAccess: int, minSave: int) returns (unused: bool)
      requires Coherent(M()) && Held(M(), id) == Some(x)
      modifies this`gc
      ensures Coherent(M()) && SameHeld(old(M()), M())
      ensures unused == (x.access < minAccess)
      ensures gc == if Due(x, minAccess, minSave) then old(gc)[id := x] else old(gc)
    {
      AlsoGc(M(), id, x);
      SameHeldRefl(M());
      unused := x.access < minAccess;
      if x.access < minAccess {
        gc := gc[id := x];
      } else if x.saved < minSave {
        gc := gc[id := x];
      }
    }

    /** The first loop of update: what has not been used goes, what has not been saved
        goes through gc but stays. */
    method Scan(items: Items, minAccess: int, minSave: int, ghost stale: set<Id>, ghost due: set<Id>) returns (remove: set<Id>)
      requires Coherent(M()) && AllHeld(items, M())
      requires stale == StaleIds(items, minAccess) && due == DueIds(items, minAccess, minSave)
      modifies this`gc
      ensures Coherent(M()) && SameHeld(old(M()), M())
      ensures remove == stale && forall id: Id :: id in gc <==> id in old(gc) || id in due
    {
      remove := {};
      var rest := items.Keys;
      ghost var start := M();
      SameHeldRefl(start);
      while rest != {}
        invariant rest <= items.Keys && Coherent(M()) && SameHeld(start, M())
        invariant forall id: Id :: id in remove <==> id in stale && id !in rest
        invariant forall id: Id :: id in gc <==> id in start.gc || (id in due && id !in rest)
        decreases |rest|
      {
        var id :| id in rest;
        ghost var m := M();
        AllHeldAt(items, start, m, id);
        var unused := ScanOne(id, items[id], minAccess, minSave);
        if unused { remove := remove + {id}; }
        rest := rest - {id};
        SameHeldTrans(start, m, M());
      }
    }

    method HotOut(id: Id)
      requires Coherent(M()) && Counted() && id in gc
      modifies this`hot, this`hotCnt
      ensures Coherent(M()) && Counted() && SameHeld(old(M()), M())
      ensures forall i: Id :: i in hot <==> i in old(hot) && i != id
    {
      HotGone(M(), id);
      DelHot(id);
    }

    method RemoveHot(remove: set<Id>)
      requires Coherent(M()) && Counted() && forall id: Id :: id in remove ==> id in gc
      modifies this`hot, this`hotCnt
      ensures Coherent(M()) && Counted() && SameHeld(old(M()), M())
      ensures forall id: Id :: id in hot <==> id in old(hot) && id !in remove
    {
      var rest := remove;
      ghost var start := M();
      SameHeldRefl(start);
      while rest != {}
        invariant rest <= remove && Coherent(M()) && Counted() && SameHeld(start, M())
        invariant forall id: Id :: id in hot <==> id in start.hot && (id in rest || id !in remove)
        decreases |rest|
      {
        var id :| id in rest;
        ghost var m := M();
        HotOut(id);
        rest := rest - {id};
        SameHeldTrans(start, m, M());
      }
    }

    method ColdOut(id: Id)
      requires Coherent(M()) && Counted() && id in gc
      modifies this`cold, this`coldCnt
      ensures Coherent(M()) && Counted() && SameHeld(old(M()), M())
      ensures forall i: Id :: i in cold <==> i in old(cold) && i != id
    {
      ColdGone(M(), id);
      DelCold(id);
    }

    method RemoveCold(remove: set<Id>)
      requires Coherent(M()) && Counted() && forall id: Id :: id in remove ==> id in gc
      modifies this`cold, this`coldCnt
      ensures Coherent(M()) && Counted() && SameHeld(old(M()), M())
      ensures forall id: Id :: id in cold <==> id in old(cold) && id !in remove
    {
      var rest := remove;
      ghost var start := M();
      SameHeldRefl(start);
      while rest != {}
        invariant rest <= remove && Coherent(M()) && Counted() && SameHeld(start, M())
        invariant forall id: Id :: id in cold <==> id in start.cold && (id in rest || id !in remove)
        decreases |rest|
      {
        var id :| id in rest;
        ghost var m := M();
        ColdOut(id);
        rest := rest - {id};
        SameHeldTrans(start, m, M());
      }
    }

    /** The part of update for hot. */
    method UpdateHot(now: int, ghost stale: set<Id>, ghost due: set<Id>)
      requires Coherent(M()) && Counted()
      requires stale == StaleIds(hot, now - ttl) && due == DueIds(hot, now - ttl, now - saveCd)
      modifies this`hot, this`hotCnt, this`gc
      ensures Coherent(M()) && Counted() && SameHeld(old(M()), M())
      ensures forall id: Id :: id in hot <==> id in old(hot) && id !in stale
      ensures forall id: Id :: id in gc <==> id in old(gc) || id in due
    {
      ghost var m := M();
      HotAndColdAreHeld(m);
      var remove := Scan(hot, now - ttl, now - saveCd, stale, due);
      ghost var m1 := M();
      RemoveHot(remove);
      SameHeldTrans(m, m1, M());
    }

    /** The part of update for cold. */
    method UpdateCold(now: int, ghost stale: set<Id>, ghost due: set<Id>)
      requires Coherent(M()) && Counted()
      requires stale == StaleIds(cold, now - ttl) && due == DueIds(cold, now - ttl, now - saveCd)
      modifies this`cold, this`coldCnt, this`gc
      ensures Coherent(M()) && Counted() && SameHeld(old(M()), M())
      ensures forall id: Id :: id in cold <==> id in old(cold) && id !in stale
      ensures forall id: Id :: id in gc <==> id in old(gc) || id in due
    {
      ghost var m := M();
      HotAndColdAreHeld(m);
      var remove := Scan(cold, now - ttl, now - saveCd, stale, due);
      ghost var m1 := M();
      RemoveCold(remove);
      SameHeldTrans(m, m1, M());
    }

    /** Both parts. */
    method UpdateMaps(now: int, ghost staleHot: set<Id>, ghost dueHot: set<Id>, ghost staleCold: set<Id>, ghost dueCold: set<Id>)
      requires Coherent(M()) && Counted()
      requires staleHot == StaleIds(hot, now - ttl) && dueHot == DueIds(hot, now - ttl, now - saveCd)
      requires staleCold == StaleIds(cold, now - ttl) && dueCold == DueIds(cold, now - ttl, now - saveCd)
      modifies this`hot, this`hotCnt, this`cold, this`coldCnt, this`gc
      ensures Coherent(M()) && Counted() && SameHeld(old(M()), M())
      ensures HasKeys(M(), Expired(old(KeysOf(M())), staleHot + staleCold, dueHot + dueCold))
    {
      ghost var m := M();
      assert staleHot <= hot.Keys && staleCold <= cold.Keys;
      UpdateHot(now, staleHot, dueHot);
      ghost var m1 := M();
      UpdateCold(now, staleCold, dueCold);
      SameHeldTrans(m, m1, M());
      ExpiredKeys(m, M(), staleHot, staleCold, dueHot, dueCold);
    }

    /** update, up to its call of gc: what has not been used for `ttl` leaves hot and cold,
        and this and what has not been saved for `saveCd` goes to gc. */
    method Update(now: int)
      requires Valid()
      modifies this`hot, this`hotCnt, this`cold, this`coldCnt, this`gc
      ensures Valid() && SameHeld(old(M()), M()) && Leads(old(V()), Expire(now), V(), Lim())
    {
      ghost var items, f := Objects(), FactsOf(Objects());
      ghost var staleHot, dueHot := StaleIds(hot, now - Lim().ttl), DueIds(hot, now - Lim().ttl, now - Lim().saveCd);
      ghost var staleCold, dueCold := StaleIds(cold, now - Lim().ttl), DueIds(cold, now - Lim().ttl, now - Lim().saveCd);
      OpenValid();
      StaleAndDue(M(), items, f, now, Lim(), staleHot, dueHot, staleCold, dueCold);
      UpdateScanned(now, staleHot, dueHot, staleCold, dueCold, items, f);
    }

    /** No item changes. */
    method UpdateOnly(now: int, ghost staleHot: set<Id>, ghost dueHot: set<Id>, ghost staleCold: set<Id>, ghost dueCold: set<Id>,
        ghost items: set<Item>, ghost f: Facts)
      requires Valid() && f == FactsOf(items)
      requires staleHot == StaleIds(hot, now - ttl) && dueHot == DueIds(hot, now - ttl, now - saveCd)
      requires staleCold == StaleIds(cold, now - ttl) && dueCold == DueIds(cold, now - ttl, now - saveCd)
      modifies this`hot, this`hotCnt, this`cold, this`coldCnt, this`gc
      ensures Valid() && SameHeld(old(M()), M()) && f == FactsOf(items)
      ensures HasKeys(M(), Expired(old(KeysOf(M())), staleHot + staleCold, dueHot + dueCold))
    {
      ghost var m := M();
      OpenValid();
      UpdateMaps(now, staleHot, dueHot, staleCold, dueCold);
      TasksKept(tasks, m, M());
      OpenValid();
    }

    method UpdateScanned(now: int, ghost staleHot: set<Id>, ghost dueHot: set<Id>, ghost staleCold: set<Id>, ghost dueCold: set<Id>,
        ghost items: set<Item>, ghost f: Facts)
      requires Valid() && items == ObjectsOf(M()) && f == FactsOf(items)
      requires staleHot == StaleIds(hot, now - ttl) && dueHot == DueIds(hot, now - ttl, now - saveCd)
      requires staleCold == StaleIds(cold, now - ttl) && dueCold == DueIds(cold, now - ttl, now - saveCd)
      requires Scanned(M(), f, now, Lim(), staleHot + staleCold, dueHot + dueCold)
      modifies this`hot, this`hotCnt, this`cold, this`coldCnt, this`gc
      ensures Valid() && SameHeld(old(M()), M()) && Leads(old(V()), Expire(now), V(), Lim())
    {
      ghost var m := M();
      UpdateOnly(now, staleHot, dueHot, staleCold, dueCold, items, f);
      SameHeldItems(m, M());
      ExpiredLeads(m, M(), tasks, f, now, Lim(), staleHot + staleCold, dueHot + dueCold);
    }

    /** exit, up to its call of gc: everything goes through gc. */
    method Exit()
      requires Valid()
      modifies this`hot, this`hotCnt, this`cold, this`coldCnt, this`gc
      ensures Valid() && SameHeld(old(M()), M())
      ensures hot == map[] && cold == map[] && Leads(old(V()), Stop, V(), Lim())
    {
      ghost var m, f := M(), FactsOf(Objects());
      ExitOnly(Objects(), f);
      SameHeldItems(m, M());
      StoppedLeads(m, M(), tasks, f, Lim());
    }

    /** No item changes. */
    method ExitOnly(ghost items: set<Item>, ghost f: Facts)
      requires Valid() && f == FactsOf(items)
      modifies this`hot, this`hotCnt, this`cold, this`coldCnt, this`gc
      ensures Valid() && SameHeld(old(M()), M()) && f == FactsOf(items)
      ensures hot == map[] && cold == map[]
      ensures forall id: Id :: id in gc <==> id in old(hot) || id in old(cold) || id in old(gc)
    {
      ghost var m := M();
      OpenValid();
      AddBoth();
      ghost var n := M();
      EmptyBoth();
      HeldOverTwoSteps(tasks, m, n, M());
      OpenValid();
    }

    method AddBoth()
      requires Coherent(M())
      modifies this`gc
      ensures Coherent(M()) && SameHeld(old(M()), M())
      ensures forall id: Id :: id in gc <==> id in hot || id in cold || id in old(gc)
    {
      ghost var m := M();
      HotAndColdAreHeld(m);
      AddAllGc(hot);
      ghost var n := M();
      HotAndColdAreHeld(n);
      AddAllGc(cold);
      SameHeldTrans(m, n, M());
    }

    method EmptyBoth()
      requires Coherent(M()) && forall id: Id :: id in hot || id in cold ==> id in gc
      modifies this`hot, this`hotCnt, this`cold, this`coldCnt
      ensures hot == map[] && cold == map[] && Coherent(M()) && Counted() && SameHeld(old(M()), M())
    {
      AllInGc(M());
      hot, hotCnt, cold, coldCnt := map[], 0, map[], 0;
    }

    method AddAllGc(items: Items)
      requires Coherent(M()) && AllHeld(items, M())
      modifies this`gc
      ensures Coherent(M()) && SameHeld(old(M()), M())
      ensures forall id: Id :: id in gc <==> id in old(gc) || id in items
    {
      var rest := items.Keys;
      ghost var start := M();
      SameHeldRefl(start);
      while rest != {}
        invariant rest <= items.Keys && Coherent(M()) && SameHeld(start, M())
        invariant hot == start.hot && cold == start.cold
        invariant forall id: Id :: id in gc <==> id in start.gc || (id in items && id !in rest)
        decreases |rest|
      {
        var id :| id in rest;
        ghost var m := M();
        AllHeldAt(items, start, m, id);
        AlsoGc(m, id, items[id]);
        gc := gc[id := items[id]];
        rest := rest - {id};
        SameHeldTrans(start, m, M());
      }
    }

    // ----- gc tasks -----

    /** A round of _gc: a task for every item of gc. The rounds follow one another, for
        the lock lets one _gc run at a time and multi_fork waits for all its tasks. */
    method BeginRound()
      requires Valid() && tasks == map[]
      modifies this`tasks
      ensures Valid() && M() == old(M()) && tasks.Keys == gc.Keys
      ensures forall id: Id :: id in tasks ==> tasks[id] == Task(gc[id], Listed)
      ensures Leads(old(V()), Round, V(), Lim())
    {
      ghost var f := FactsOf(Objects());
      List(Objects(), f);
      ListedLeads(M(), tasks, f, Lim());
    }

    method List(ghost items: set<Item>, ghost f: Facts)
      requires Valid() && tasks == map[] && f == FactsOf(items)
      modifies this`tasks
      ensures Valid() && M() == old(M()) && tasks.Keys == gc.Keys && f == FactsOf(items)
      ensures forall id: Id :: id in tasks ==> tasks[id] == Task(gc[id], Listed)
    {
      OpenValid();
      OpenMaps(M());
      tasks := map id: Id | id in gc :: Task(gc[id], Listed);
      OpenTasks(tasks, M());
      OpenValid();
    }

    lemma TaskObject(id: Id)
      requires Valid() && id in tasks
      ensures Held(M(), id) == Some(tasks[id].item) && tasks[id].item in Objects()
    {
      OpenValid();
      OpenTasks(tasks, M());
      HeldIsObject(M(), id);
    }

    /** gc_item, up to the request of `_save` to the database: the item has been dumped. */
    method DumpItem(id: Id)
      requires Valid() && id in tasks && tasks[id].stage == Listed && tasks[id].item in Objects()
      modifies this`tasks, tasks[id].item`dirty
      ensures Valid() && M() == old(M()) && tasks == old(tasks)[id := Task(old(tasks)[id].item, Dumped)]
      ensures !old(tasks)[id].item.dirty && Leads(old(V()), Snapshot(id), V(), Lim())
    {
      ghost var f, t := FactsOf(Objects()), tasks;
      var x := tasks[id].item;
      TaskObject(id);
      OpenValid();
      FactAt(Objects(), x);
      DumpOne(x, Objects());
      MarkStage(id, x, Dumped, Objects(), f[x := FactOf(f, x).(dirty := false)]);
      DumpedLeads(M(), t, f, id, x, Lim());
    }

    /** gc_item behind that request, up to its sleep: the item has been saved. */
    method SaveItem(id: Id, now: int)
      requires Valid() && id in tasks && tasks[id].stage == Dumped && tasks[id].item in Objects()
      modifies this`tasks, tasks[id].item`saved
      ensures Valid() && M() == old(M()) && tasks == old(tasks)[id := Task(old(tasks)[id].item, Saved)]
      ensures old(tasks)[id].item.saved == now && Leads(old(V()), Save(id, now), V(), Lim())
    {
      ghost var f, t := FactsOf(Objects()), tasks;
      var x := tasks[id].item;
      TaskObject(id);
      OpenValid();
      FactAt(Objects(), x);
      SaveOne(x, now, Objects());
      MarkStage(id, x, Saved, Objects(), f[x := FactOf(f, x).(saved := now)]);
      SavedLeads(M(), t, f, id, x, now, Lim());
    }

    method MarkStage(id: Id, x: Item, stage: Stage, ghost items: set<Item>, ghost f: Facts)
      requires Valid() && id in tasks && x == tasks[id].item && f == FactsOf(items)
      modifies this`tasks
      ensures Valid() && M() == old(M()) && tasks == old(tasks)[id := Task(x, stage)] && f == FactsOf(items)
    {
      OpenValid();
      OpenTasks(tasks, M());
      tasks := tasks[id := Task(x, stage)];
      OpenTasks(tasks, M());
      OpenValid();
    }

    /** gc_item behind its sleep. */
    method EndTask(id: Id)
      requires Valid() && id in tasks && tasks[id].stage == Saved
      modifies this`gc, this`tasks
      ensures Valid() && tasks == old(tasks) - {id}
      ensures old(Held(M(), id)) == Some(old(tasks)[id].item)
      ensures Held(M(), id) == if id in hot || id in cold then old(Held(M(), id)) else None
      ensures Moved(old(M()), End(id), old(tasks), M()) && Objects() <= old(Objects())
      ensures Leads(old(V()), End(id), V(), Lim())
    {
      ghost var m, t, f := M(), tasks, FactsOf(Objects());
      OpenValid();
      OpenTasks(tasks, m);
      Forget(id, Objects(), f);
      GcGone(m, id);
      EndMoved(m, t, M(), id);
      EndedLeads(m, M(), t, f, id, Lim());
      LessFacts(KeysOf(M()), HeldItems(M()), tasks, ObjectsOf(m));
    }

    method Forget(id: Id, ghost items: set<Item>, ghost f: Facts)
      requires Valid() && id in tasks && tasks[id].stage == Saved && f == FactsOf(items)
      modifies this`gc, this`tasks
      ensures Valid() && tasks == old(tasks) - {id} && M() == old(M()).(gc := old(gc) - {id}) && f == FactsOf(items)
    {
      ghost var m := M();
      OpenValid();
      GcGone(m, id);
      TasksWithout(tasks, m, id);
      gc := gc - {id};
      tasks := tasks - {id};
      OpenValid();
    }

    /** inc_ref or dec_ref of the item of an id, by whoever uses it. */
    method ChangeRef(id: Id, x: Item, up: bool)
      requires Valid() && Held(M(), id) == Some(x)
      modifies x`refs
      ensures Leads(old(V()), Ref(id, up), V(), Lim())
    {
      ghost var f := FactsOf(Objects());
      OpenValid();
      HeldIsObject(M(), id);
      RefOne(x, up, Objects(), f);
      RefLeads(M(), tasks, f, id, x, up, Lim());
    }

    // ----- runs -----

    method DoTask(a: Action)
      requires Valid() && (a.Round? || a.Snapshot? || a.Save? || a.End?)
      modifies this`gc, this`tasks, Objects()
      ensures Valid() && Leads(old(V()), a, V(), Lim())
      ensures Moved(old(M()), a, old(tasks), M()) && Objects() <= old(Objects())
    {
      SameHeldRefl(M());
      SameMoved(M(), a, tasks, M());
      if a.Round? && tasks == map[] {
        BeginRound();
      } else if a.Snapshot? && a.id in tasks && tasks[a.id].stage == Listed {
        TaskObject(a.id);
        DumpItem(a.id);
      } else if a.Save? && a.id in tasks && tasks[a.id].stage == Dumped {
        TaskObject(a.id);
        SaveItem(a.id, a.now);
      } else if a.End? && a.id in tasks && tasks[a.id].stage == Saved {
        EndTask(a.id);
      } else {
        OpenValid();
        BlockedLeads(a, M(), tasks, FactsOf(Objects()), Lim());
      }
    }

    /** The users of the item of an id count their references. */
    method DoRef(id: Id, up: bool)
      requires Valid()
      modifies Objects()
      ensures Valid() && M() == old(M()) && Leads(old(V()), Ref(id, up), V(), Lim())
    {
      if id in hot || id in cold || id in gc {
        var x := if id in hot then hot[id] else if id in cold then cold[id] else gc[id];
        HeldIsObject(M(), id);
        ChangeRef(id, x, up);
      } else {
        OpenValid();
        BlockedLeads(Ref(id, up), M(), tasks, FactsOf(Objects()), Lim());
      }
    }

    method DoLookup(a: Action)
      requires Valid() && (a.Get? || a.Load?)
      modifies this, Objects()
      ensures Valid() && Leads(old(V()), a, V(), Lim())
      ensures Moved(old(M()), a, old(tasks), M()) && fresh(Objects() - old(Objects()))
    {
      ghost var m, t := M(), tasks;
      if a.Get? {
        var r := GetCache(a.id, a.now);
        SameMoved(m, a, t, M());
        SameHeldItems(m, M());
      } else {
        var x := FinishLoad(a.id, a.now);
        if Held(m, a.id).Some? {
          SameMoved(m, a, t, M());
          SameHeldItems(m, M());
        } else {
          LoadMoved(m, a, t, M(), x);
          ObjectsWith(m, M(), x);
        }
      }
    }

    method DoOther(a: Action)
      requires Valid() && !(a.Get? || a.Load?)
      modifies this, Objects()
      ensures Valid() && Leads(old(V()), a, V(), Lim())
      ensures Moved(old(M()), a, old(tasks), M()) && Objects() <= old(Objects())
    {
      ghost var m, t := M(), tasks;
      if a.Round? || a.Snapshot? || a.Save? || a.End? {
        DoTask(a);
        return;
      }
      if a.Expire? {
        Update(a.now);
      } else if a.Stop? {
        Exit();
      } else {
        SameHeldRefl(m);
        DoRef(a.id, a.up);
      }
      SameMoved(m, a, t, M());
      SameHeldItems(m, M());
    }

    method Step(a: Action)
      requires Valid()
      modifies this, Objects()
      ensures Valid() && Leads(old(V()), a, V(), Lim())
      ensures Moved(old(M()), a, old(tasks), M()) && fresh(Objects() - old(Objects()))
    {
      if a.Get? || a.Load? {
        DoLookup(a);
      } else {
        DoOther(a);
      }
    }

    /** What one step of any coroutine does; steps that cannot happen do nothing. */
    method Do(a: Action)
      requires Valid()
      modifies this, Objects()
      ensures Valid() && V() == Next(old(V()), a, Lim())
      ensures Moved(old(M()), a, old(tasks), M()) && fresh(Objects() - old(Objects()))
    {
      ghost var v := V();
      Step(a);
      OpenLeads(v, a, V(), Lim());
    }
  }

  /** An id keeps its object unless it ends. */
  ghost predicate Kept(m: Maps, actions: seq<Action>, n: Maps, id: Id) {
    forall x {:trigger Unfold((m, actions, n, id), x)} :: Unfold((m, actions, n, id), x) ==>
      (Held(m, id).Some? && End(id) !in actions ==> Held(n, id) == Held(m, id))
  }

  lemma OpenKept(m: Maps, actions: seq<Action>, n: Maps, id: Id)
    ensures Kept(m, actions, n, id) <==> (Held(m, id).Some? && End(id) !in actions ==> Held(n, id) == Held(m, id))
  {
    assert Unfold((m, actions, n, id), 0);
  }

  lemma KeptOn(m: Maps, front: seq<Action>, n: Maps, a: Action, tasks: Tasks, p: Maps, id: Id)
    requires Kept(m, front, n, id) && Moved(n, a, tasks, p)
    ensures Kept(m, front + [a], p, id)
  {
    OpenKept(m, front, n, id);
    OpenKept(m, front + [a], p, id);
    if Held(m, id).Some? && End(id) !in front + [a] {
      assert a in front + [a];
      MovedAt(n, a, tasks, p, id);
    }
  }

  method RunAll(c: CacheMgr, actions: seq<Action>, ghost id: Id)
    requires c.Valid()
    modifies c, c.Objects()
    ensures c.Valid() && fresh(c.Objects() - old(c.Objects()))
    ensures Reaches(old(c.V()), actions, c.V(), c.Lim()) && Kept(old(c.M()), actions, c.M(), id)
    decreases |actions|
  {
    if actions == [] {
      OpenReaches(c.V(), actions, c.V(), c.Lim());
      OpenKept(c.M(), actions, c.M(), id);
      return;
    }
    var n := |actions| - 1;
    assert actions[..n] + [actions[n]] == actions;
    ghost var v, m, before := c.V(), c.M(), c.Objects();
    RunAll(c, actions[..n], id);
    ghost var w, m1, t, mid := c.V(), c.M(), c.tasks, c.Objects();
    label L:
    c.Step(actions[n]);
    KeptOn(m, actions[..n], m1, actions[n], t, c.M(), id);
    ReachesOn(v, actions[..n], w, actions[n], c.V(), c.Lim());
    ghost var end := c.Objects();
    forall x: Item | x in end && x !in before ensures fresh(x) {
      if x in mid {
        assert x in mid - before;
      } else {
        assert x in end - mid && fresh@L(x);
      }
    }
  }

  /** In any run, from any state: the cache goes through the views of the step system, and
      an id that is in the cache keeps its object as long as no gc task for it ends. */
  method Run(c: CacheMgr, actions: seq<Action>, ghost id: Id)
    requires c.Valid()
    modifies c, c.Objects()
    ensures c.Valid() && c.V() == After(old(c.V()), actions, c.Lim()) && fresh(c.Objects() - old(c.Objects()))
    ensures old(Held(c.M(), id)).Some? && End(id) !in actions ==> Held(c.M(), id) == old(Held(c.M(), id))
  {
    ghost var v, m := c.V(), c.M();
    RunAll(c, actions, id);
    OpenKept(m, actions, c.M(), id);
    OpenReaches(v, actions, c.V(), c.Lim());
  }

  /** What the view says of an id is what its object, its task and the maps say. */
  lemma EntryOfItem(c: CacheMgr, id: Id, x: Item)
    requires Held(c.M(), id) == Some(x)
    ensures id in c.V()
    ensures c.V()[id] ==
      Entry(id in c.hot, id in c.cold, id in c.gc, x.refs, x.access, x.saved, x.dirty, TaskOf(c.tasks, id))
  {
    HeldItemsAt(c.M(), id);
    HeldIsObject(c.M(), id);
    FactAt(c.Objects(), x);
  }

  /** From the dump of an item by its gc task, through the answer of the database, up to the
      end of that task: the item stays the object of its id and of the task. At the end it has
      a use that was not dumped if and only if some step of the run has used it, and the end
      lets such a use go if and only if a step behind the last use has cooled the item. */
  method RunWhileUnderWay(c: CacheMgr, actions: seq<Action>, id: Id, ghost x: Item)
    requires c.Valid() && id in c.tasks && c.tasks[id] == Task(x, Listed)
    requires End(id) !in actions && Answered(actions, id)
    modifies c, c.Objects()
    ensures c.Valid() && Held(c.M(), id) == Some(x) && id in c.tasks && c.tasks[id] == Task(x, Saved)
    ensures x.dirty == !NotUsed(actions, id)
    ensures x.dirty && id !in c.hot && id !in c.cold <==>
      CooledAfterUse(old(Next(c.V(), Snapshot(id), c.Lim())), actions, id, c.Lim())
  {
    c.TaskObject(id);
    EntryOfItem(c, id, x);
    ghost var v := c.V();
    DirtyIffUsed(v, actions, id, c.Lim());
    LostRun(Next(v, Snapshot(id), c.Lim()), actions, id, c.Lim());
    c.DumpItem(id);
    OpenLeads(v, Snapshot(id), c.V(), c.Lim());
    Run(c, actions, id);
    EntryOfItem(c, id, x);
    c.TaskObject(id);
  }

  lemma EmptyView(c: CacheMgr)
    requires c.hot == map[] && c.cold == map[] && c.gc == map[] && c.tasks == map[]
    ensures c.V() == map[]
  {
    OpenHolds(HeldItems(c.M()), c.M());
  }

  /** The runs of the three examples up to the end of the task: the cache has the item in gc
      only, saved at 6, with a use that was not dumped. */
  method UsedBehindDump(later: seq<Action>) returns (c: CacheMgr, x: Item)
    requires later == USED_LATER || later == USED_AT_ONCE || later == USED_MEANWHILE
    ensures fresh(c) && c.Valid() && Held(c.M(), "a") == Some(x) && x.saved == 6 && x.dirty
    ensures x.access == if later == USED_LATER then 7 else 6
    ensures "a" in c.tasks && c.tasks["a"] == Task(x, Saved) && "a" !in c.hot && "a" !in c.cold
  {
    c := new CacheMgr(10, 5, 5);
    EmptyView(c);
    ExampleEnds(later);
    Run(c, DUMP, "a");
    Run(c, later, "a");
    HeldItemsAt(c.M(), "a");
    EntryOfItem(c, "a", Held(c.M(), "a").value);
    x := c.gc["a"];
    c.TaskObject("a");
  }

  /** Their task then lets the item go, with the use. */
  method LetGoDirty(later: seq<Action>) returns (c: CacheMgr, x: Item)
    requires later == USED_LATER || later == USED_AT_ONCE || later == USED_MEANWHILE
    ensures c.Valid() && Held(c.M(), "a") == None && x.dirty
  {
    c, x := UsedBehindDump(later);
    c.EndTask("a");
  }
}
