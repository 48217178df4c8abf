/** The three maps of lualib/cache_mgr.lua as values. */
module CacheMaps {
  import opened CacheView
  import opened Hiding
  import opened Wrappers

  /** lualib/cache.lua: an item as Cache:_init leaves it. */
  class Item {
    const id: Id
    var refs: int
    var access: int     // last_access_time
    var saved: int      // last_save_time
    ghost var dirty: bool   // used since it was dumped for the database

    constructor (id: Id, now: int)
      ensures this.id == id && refs == 0 && access == now && saved == now && dirty
    {
      this.id := id;
      refs, access, saved, dirty := 0, now, now, true;
    }

    /** update_access_time, for a caller who goes on to use the item. */
    method Touch(now: int)
      modifies this`access, this`dirty
      ensures access == now && dirty
    {
      access, dirty := now, true;
    }

    method IncRef()
      modifies this`refs
      ensures refs == old(refs) + 1
    {
      refs := refs + 1;
    }

    method DecRef()
      modifies this`refs
      ensures refs == old(refs) - 1
    {
      refs := refs - 1;
    }
  }

  type Items = map<Id, Item>

  /** The maps hot, cold and gc, and the items on their way from one to another. */
  datatype Maps = Maps(hot: Items, cold: Items, gc: Items, rest: Items)

  ghost predicate Same(a: Items, b: Items) {
    forall id: Id {:trigger id in a} :: id in a && id in b ==> a[id] == b[id]
  }

  /** Every item is stored under its own id. */
  ghost predicate Keyed(items: Items) {
    forall id: Id {:trigger items[id]} :: id in items ==> items[id].id == id
  }

  /** Hot and cold have no id in common, and gc agrees with both. */
  ghost predicate Disjoint(m: Maps) {
    && Keyed(m.hot) && Keyed(m.cold) && Keyed(m.gc) && Keyed(m.rest)
    && m.hot.Keys !! m.cold.Keys && m.hot.Keys !! m.rest.Keys && m.cold.Keys !! m.rest.Keys
    && Same(m.gc, m.hot) && Same(m.gc, m.cold) && Same(m.gc, m.rest)
  }

  /** The object the cache has for an id. */
  ghost function Held(m: Maps, id: Id): Option<Item> {
    if id in m.hot then Some(m.hot[id])
    else if id in m.cold then Some(m.cold[id])
    else if id in m.rest then Some(m.rest[id])
    else if id in m.gc then Some(m.gc[id]) else None
  }

  ghost predicate Coherent(m: Maps) {
    forall x {:trigger Unfold(m, x)} :: Unfold(m, x) ==> Disjoint(m)
  }

  /** The maps `n` have the objects of the maps `m`. */
  ghost predicate SameHeld(m: Maps, n: Maps) {
    forall x {:trigger Unfold((m, n), x)} :: Unfold((m, n), x) ==> forall id: Id :: Held(n, id) == Held(m, id)
  }

  lemma OpenMaps(m: Maps)
    ensures Coherent(m) <==> Disjoint(m)
  {
    assert Unfold(m, 0);
  }

  lemma OpenHeld(m: Maps, n: Maps)
    ensures SameHeld(m, n) <==> forall id: Id :: Held(n, id) == Held(m, id)
  {
    assert Unfold((m, n), 0);
  }

  lemma HeldAt(m: Maps, n: Maps, id: Id)
    requires SameHeld(m, n)
    ensures Held(n, id) == Held(m, id)
  {
    OpenHeld(m, n);
  }

  lemma SameHeldTrans(m: Maps, n: Maps, p: Maps)
    requires SameHeld(m, n) && SameHeld(n, p)
    ensures SameHeld(m, p)
  {
    OpenHeld(m, n);
    OpenHeld(n, p);
    OpenHeld(m, p);
  }

  lemma SameHeldRefl(m: Maps)
    ensures SameHeld(m, m)
  {
    OpenHeld(m, m);
  }

  /** The items are those the cache has for their ids. */
  ghost predicate AllHeld(items: Items, m: Maps) {
    forall x {:trigger Unfold((items, m), x)} :: Unfold((items, m), x) ==>
      forall id: Id :: id in items ==> Held(m, id) == Some(items[id])
  }

  lemma AllHeldAt(items: Items, m: Maps, n: Maps, id: Id)
    requires AllHeld(items, m) && SameHeld(m, n) && id in items
    ensures Held(n, id) == Some(items[id])
  {
    OpenHeld(m, n);
    assert Unfold((items, m), 0);
  }

  lemma HotAndColdAreHeld(m: Maps)
    requires Coherent(m)
    ensures AllHeld(m.hot, m) && AllHeld(m.cold, m)
  {
    OpenMaps(m);
  }

  lemma SizeWithout(m: Items, id: Id)
    ensures |m - {id}| == if id in m then |m| - 1 else |m|
  {
    assert (m - {id}).Keys == m.Keys - {id};
    assert |m| == |m.Keys|;
    assert |m - {id}| == |(m - {id}).Keys|;
  }

  lemma SizeWith(m: Items, id: Id, x: Item)
    ensures |m[id := x]| == if id in m then |m| else |m| + 1
  {
    assert m[id := x].Keys == m.Keys + {id};
    assert |m| == |m.Keys|;
    assert |m[id := x]| == |m[id := x].Keys|;
  }

  // ----- moves that keep the object of every id -----

  lemma RestToCold(m: Maps, id: Id)
    requires Coherent(m) && id in m.rest
    ensures var n := m.(cold := m.cold[id := m.rest[id]], rest := m.rest - {id});
      Coherent(n) && SameHeld(m, n)
  {
    var n := m.(cold := m.cold[id := m.rest[id]], rest := m.rest - {id});
    OpenMaps(m);
    OpenMaps(n);
    OpenHeld(m, n);
  }

  lemma RestToGc(m: Maps, id: Id)
    requires Coherent(m) && id in m.rest
    ensures var n := m.(gc := m.gc[id := m.rest[id]], rest := m.rest - {id});
      Coherent(n) && SameHeld(m, n)
  {
    var n := m.(gc := m.gc[id := m.rest[id]], rest := m.rest - {id});
    OpenMaps(m);
    OpenMaps(n);
    OpenHeld(m, n);
  }

  lemma RestToHot(m: Maps, id: Id)
    requires Coherent(m) && id in m.rest
    ensures var n := m.(hot := m.hot[id := m.rest[id]], rest := m.rest - {id});
      Coherent(n) && SameHeld(m, n)
  {
    var n := m.(hot := m.hot[id := m.rest[id]], rest := m.rest - {id});
    OpenMaps(m);
    OpenMaps(n);
    OpenHeld(m, n);
  }

  lemma ColdToRest(m: Maps, id: Id)
    requires Coherent(m) && id in m.cold && m.rest == map[]
    ensures var n := m.(cold := m.cold - {id}, rest := map[id := m.cold[id]]);
      Coherent(n) && SameHeld(m, n)
  {
    var n := m.(cold := m.cold - {id}, rest := map[id := m.cold[id]]);
    OpenMaps(m);
    OpenMaps(n);
    OpenHeld(m, n);
  }

  lemma GcToRest(m: Maps, id: Id)
    requires Coherent(m) && id in m.gc && id !in m.hot && id !in m.cold && m.rest == map[]
    ensures var n := m.(gc := m.gc - {id}, rest := map[id := m.gc[id]]);
      Coherent(n) && SameHeld(m, n)
  {
    var n := m.(gc := m.gc - {id}, rest := map[id := m.gc[id]]);
    OpenMaps(m);
    OpenMaps(n);
    OpenHeld(m, n);
  }

  /** The swap: hot becomes cold, and what was cold has to find another place. */
  lemma Swap(m: Maps)
    requires Coherent(m) && m.rest == map[]
    ensures var n := Maps(map[], m.hot, m.gc, m.cold);
      Coherent(n) && SameHeld(m, n)
  {
    var n := Maps(map[], m.hot, m.gc, m.cold);
    OpenMaps(m);
    OpenMaps(n);
    OpenHeld(m, n);
  }

  /** An item of hot or cold also goes into gc. */
  lemma AlsoGc(m: Maps, id: Id, x: Item)
    requires Coherent(m) && m.rest == map[] && Held(m, id) == Some(x)
    ensures var n := m.(gc := m.gc[id := x]);
      Coherent(n) && SameHeld(m, n)
  {
    var n := m.(gc := m.gc[id := x]);
    OpenMaps(m);
    OpenMaps(n);
    OpenHeld(m, n);
  }

  lemma HotGone(m: Maps, id: Id)
    requires Coherent(m) && m.rest == map[] && id in m.gc
    ensures var n := m.(hot := m.hot - {id});
      Coherent(n) && SameHeld(m, n)
  {
    var n := m.(hot := m.hot - {id});
    OpenMaps(m);
    OpenMaps(n);
    OpenHeld(m, n);
  }

  lemma ColdGone(m: Maps, id: Id)
    requires Coherent(m) && m.rest == map[] && id in m.gc
    ensures var n := m.(cold := m.cold - {id});
      Coherent(n) && SameHeld(m, n)
  {
    var n := m.(cold := m.cold - {id});
    OpenMaps(m);
    OpenMaps(n);
    OpenHeld(m, n);
  }

  /** The end of a gc task: only its id can leave, and only when it is neither hot nor cold. */
  lemma GcGone(m: Maps, id: Id)
    requires Coherent(m) && m.rest == map[]
    ensures var n := m.(gc := m.gc - {id});
      && Coherent(n)
      && (forall i: Id :: i != id ==> Held(n, i) == Held(m, i))
      && Held(n, id) == if id in m.hot || id in m.cold then Held(m, id) else None
  {
    var n := m.(gc := m.gc - {id});
    OpenMaps(m);
    OpenMaps(n);
  }

  lemma NewToRest(m: Maps, x: Item)
    requires Coherent(m) && m.rest == map[] && Held(m, x.id) == None
    ensures var n := m.(rest := map[x.id := x]);
      && Coherent(n) && Held(n, x.id) == Some(x)
      && forall i: Id :: i != x.id ==> Held(n, i) == Held(m, i)
  {
    var n := m.(rest := map[x.id := x]);
    OpenMaps(m);
    OpenMaps(n);
  }

  /** `h` has the object of every id. */
  ghost predicate Holds(h: Items, m: Maps) {
    forall x {:trigger Unfold((h, m), x)} :: Unfold((h, m), x) ==>
      forall id: Id :: Held(m, id) == if id in h then Some(h[id]) else None
  }

  lemma OpenHolds(h: Items, m: Maps)
    ensures Holds(h, m) <==> forall id: Id :: Held(m, id) == if id in h then Some(h[id]) else None
  {
    assert Unfold((h, m), 0);
  }

  lemma SomeHold(m: Maps)
    ensures exists h :: Holds(h, m)
  {
    var h := map id | id in m.hot.Keys + m.cold.Keys + m.rest.Keys + m.gc.Keys :: Held(m, id).value;
    OpenHolds(h, m);
  }

  /** The object of every id. */
  ghost function HeldItems(m: Maps): Items {
    SomeHold(m);
    var h :| Holds(h, m);
    h
  }

  lemma HeldItemsAt(m: Maps, id: Id)
    ensures id in HeldItems(m) <==> Held(m, id).Some?
    ensures id in HeldItems(m) ==> Held(m, id) == Some(HeldItems(m)[id])
  {
    OpenHolds(HeldItems(m), m);
  }

  lemma SameHeldItems(m: Maps, n: Maps)
    requires SameHeld(m, n)
    ensures HeldItems(m) == HeldItems(n)
  {
    forall id ensures id in HeldItems(m) <==> id in HeldItems(n) {
      HeldItemsAt(m, id);
      HeldItemsAt(n, id);
      HeldAt(m, n, id);
    }
    forall id | id in HeldItems(m) ensures HeldItems(m)[id] == HeldItems(n)[id] {
      HeldItemsAt(m, id);
      HeldItemsAt(n, id);
      HeldAt(m, n, id);
    }
  }

  ghost function ObjectsOf(m: Maps): set<Item> {
    HeldItems(m).Values
  }

  lemma HeldIsObject(m: Maps, id: Id)
    requires Held(m, id).Some?
    ensures Held(m, id).value in ObjectsOf(m)
  {
    HeldItemsAt(m, id);
  }

  /** Every object is the one of some id. */
  lemma ObjectIsHeld(m: Maps, x: Item) returns (id: Id)
    requires x in ObjectsOf(m)
    ensures Held(m, id) == Some(x)
  {
    id :| id in HeldItems(m) && HeldItems(m)[id] == x;
    HeldItemsAt(m, id);
  }

  /** The maps `n` have the object `x` in addition to those of `m`. */
  ghost predicate Adds(m: Maps, n: Maps, x: Item) {
    forall y {:trigger Unfold((m, n, x), y)} :: Unfold((m, n, x), y) ==>
      Held(n, x.id) == Some(x) && forall id: Id :: id != x.id ==> Held(n, id) == Held(m, id)
  }

  lemma OpenAdds(m: Maps, n: Maps, x: Item)
    ensures Adds(m, n, x) <==> Held(n, x.id) == Some(x) && forall id: Id :: id != x.id ==> Held(n, id) == Held(m, id)
  {
    assert Unfold((m, n, x), 0);
  }

  lemma NewInRest(m: Maps, x: Item)
    requires Coherent(m) && m.rest == map[] && Held(m, x.id) == None
    ensures Coherent(m.(rest := map[x.id := x])) && x.id !in m.hot
  {
    NewToRest(m, x);
  }

  lemma NewHeld(m: Maps, n: Maps, x: Item)
    requires Coherent(m) && m.rest == map[] && Held(m, x.id) == None && SameHeld(m.(rest := map[x.id := x]), n)
    ensures Adds(m, n, x)
  {
    NewToRest(m, x);
    OpenHeld(m.(rest := map[x.id := x]), n);
    OpenAdds(m, n, x);
  }

  /** An item with an id that is not in the cache is not in the cache. */
  lemma ObjectsWithout(m: Maps, id: Id, x: Item)
    requires Coherent(m) && Held(m, id) == None && x.id == id
    ensures x !in ObjectsOf(m)
  {
    if x in ObjectsOf(m) {
      var i := ObjectIsHeld(m, x);
      OpenMaps(m);
    }
  }

  lemma ObjectsWith(m: Maps, n: Maps, x: Item)
    requires Adds(m, n, x) && Held(m, x.id) == None
    ensures HeldItems(n) == HeldItems(m)[x.id := x] && ObjectsOf(n) == ObjectsOf(m) + {x}
  {
    OpenAdds(m, n, x);
    forall id ensures id in HeldItems(n) <==> id in HeldItems(m)[x.id := x] {
      HeldItemsAt(m, id);
      HeldItemsAt(n, id);
    }
    forall id | id in HeldItems(n) ensures HeldItems(n)[id] == HeldItems(m)[x.id := x][id] {
      HeldItemsAt(m, id);
      HeldItemsAt(n, id);
    }
    HeldItemsAt(m, x.id);
    ValuesWith(HeldItems(m), x.id, x);
  }

  lemma ValuesWith(h: Items, id: Id, x: Item)
    requires id !in h
    ensures h[id := x].Values == h.Values + {x}
  {
    var g := h[id := x];
    forall y | y in h.Values + {x} ensures y in g.Values {
      if y in h.Values {
        var i :| i in h && h[i] == y;
        assert i in g && g[i] == y;
      } else {
        assert id in g && g[id] == y;
      }
    }
  }

  lemma HotAndColdItems(m: Maps)
    requires Coherent(m)
    ensures m.hot.Keys !! m.cold.Keys
    ensures forall id: Id :: id in m.hot ==> id in HeldItems(m) && HeldItems(m)[id] == m.hot[id]
    ensures forall id: Id :: id in m.cold ==> id in HeldItems(m) && HeldItems(m)[id] == m.cold[id]
  {
    OpenMaps(m);
    OpenHolds(HeldItems(m), m);
  }

  /** The end of a gc task, by objects. */
  lemma HeldWithoutGc(m: Maps, id: Id)
    requires Coherent(m) && m.rest == map[]
    ensures var h, g := HeldItems(m), HeldItems(m.(gc := m.gc - {id}));
      g == (if id in m.hot || id in m.cold then h else h - {id}) && g.Values <= h.Values
  {
    var n := m.(gc := m.gc - {id});
    var h, g := HeldItems(m), HeldItems(n);
    GcGone(m, id);
    forall i ensures i in g <==> i in h && (i != id || id in m.hot || id in m.cold) {
      HeldItemsAt(m, i);
      HeldItemsAt(n, i);
    }
    forall i | i in g ensures g[i] == h[i] {
      HeldItemsAt(m, i);
      HeldItemsAt(n, i);
    }
  }

  lemma HeldItemsKeyed(m: Maps)
    requires Coherent(m)
    ensures Keyed(HeldItems(m))
  {
    OpenMaps(m);
    OpenHolds(HeldItems(m), m);
  }
}
