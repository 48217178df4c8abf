/** The hash table of 3rd/crab/crab.c: a chained scatter table with Brent's variation,
    as in Lua's own tables. A pointer to a slot is its index. */
module CrabTable {
  import opened CrabNodes
  import opened CrabContents
  import opened Powers

  type Slot = TableNode<Table?>

  /** The slots `N1` are those of `N`, rearranged so that slot `r` can take the key;
      `C'` will then be the chains. */
  ghost predicate RoomFor(N: seq<Slot>, N1: seq<Slot>, key: Rune, r: nat, f: nat, C': seq<seq<nat>>) {
    && |N1| == |N| && r < |N| && N1[r].value == null
    && Chained(WithKey(N1, r, key), C', null)
    && Placed(N, WithKey(N1, r, key), key, r, f, null)
  }

  function WithKey(N: seq<Slot>, r: nat, key: Rune): seq<Slot>
    requires r < |N|
  {
    N[r := N[r].(key := key, flag := NonTerminator)]
  }

  lemma UpdateTwice<K, V>(m: map<K, V>, k: K, a: V, b: V)
    ensures m[k := a][k := b] == m[k := b]
  {
  }

  class Table {
    var capacity: nat
    var node: array<Slot>
    var lastfree: int
    ghost var C: seq<seq<nat>>    // the chain of every main position

    ghost predicate Valid()
      reads this, node
    {
      && capacity == node.Length && IsPowerOfTwo(capacity)
      && Chained(node[..], C, null)
      && -1 <= lastfree < capacity
      && (forall i :: lastfree < i < capacity ==> Used(node[i]))
    }

    /** The finite map the table represents. */
    ghost function Entries(): map<Rune, Entry<Table?>>
      reads this, node
    {
      Contents(node[..])
    }

    ghost predicate Full()
      reads this, node
    {
      forall i :: 0 <= i < node.Length ==> Used(node[i])
    }

    /** table_new. */
    constructor ()
      ensures Valid() && Entries() == map[] && capacity == 1
      ensures fresh(node)
    {
      capacity := 1;
      node := new Slot[1](i => TableNode(0, -1, Empty, null));
      lastfree := 0;
      C := [[]];
      new;
      assert node[..] == [TableNode(0, -1, Empty, null)];
    }

    /** getfreenode: NULL, here -1, exactly when the table is full. */
    method GetFreeNode() returns (f: int)
      requires Valid()
      modifies this`lastfree
      ensures Valid()
      ensures f < 0 <==> Full()
      ensures f >= 0 ==> f < capacity && !Used(node[f])
    {
      while lastfree >= 0
        invariant Valid()
        decreases lastfree
      {
        if node[lastfree].flag == Empty { return lastfree; }
        lastfree := lastfree - 1;
      }
      return -1;
    }

    /** table_get: it walks the chain through the main position, which may be the
        chain of other keys. */
    method Get(key: Rune) returns (r: int)
      requires Valid()
      ensures r >= 0 <==> key in Entries()
      ensures r >= 0 ==> r < capacity && Used(node[r]) && node[r].key == key
      ensures r >= 0 ==> Entries()[key] == Entry(node[r].flag, node[r].value)
    {
      r := Walk(key);
      AbsentFromContents(node[..], key);
      if r >= 0 { ContentsAt(node[..], r); }
    }

    /** The loop of table_get. */
    method Walk(key: Rune) returns (r: int)
      requires Valid()
      ensures r >= 0 ==> r < capacity && Used(node[r]) && node[r].key == key
      ensures r < 0 ==> Absent(node[..], key)
    {
      ghost var N, m := node[..], MainPosition(key, capacity);
      var n: int := MainPosition(key, capacity);
      ghost var o: nat, a: nat := m, 0;
      if Used(node[n]) {
        o, a := OnChain(N, C, null, n);
      } else {
        NoChainAtFree(N, C, null, n);
      }
      while node[n].flag != Empty
        invariant 0 <= n < capacity && o < capacity
        invariant Used(N[n]) ==> a < |C[o]| && C[o][a] == n
        invariant o == m && Used(N[n]) ==> forall b {:trigger C[m][b]} :: 0 <= b < a ==> C[m][b] < |N| && N[C[m][b]].key != key
        invariant o != m || !Used(N[n]) ==> C[m] == []
        decreases |C[o]| - a
      {
        if node[n].key == key { return n; }
        NextOnChain(N, C, null, o, a);
        if node[n].next < 0 { break; }
        n := node[n].next;
        a := a + 1;
      }
      NotOnChain(N, C, null, key);
      return -1;
    }

    /** The predecessor search of table_newkey: from the main position of the key in
        slot `m` to the slot whose `next` is `m`. */
    method Predecessor(m: nat) returns (p: nat, ghost j: nat)
      requires Valid() && m < capacity && Used(node[m]) && MainPosition(node[m].key, capacity) != m
      ensures var o := MainPosition(node[m].key, capacity);
        0 < j < |C[o]| && C[o][j] == m && C[o][j - 1] == p && p < capacity
      ensures p < capacity && Used(node[p]) && node[p].next == m
    {
      ghost var N := node[..];
      ghost var o, k := OnChain(N, C, null, m);
      j := k;
      p := MainPosition(node[m].key, capacity);
      ghost var a: nat := 0;
      NextOnChain(N, C, null, o, 0);
      assert ChainOk(N, o, C[o]);
      while node[p].next != m
        invariant a < j && p < capacity && C[o][a] == p
        decreases j - a
      {
        NextOnChain(N, C, null, o, a);
        assert a + 1 != j;
        p := node[p].next;
        a := a + 1;
      }
      NextOnChain(N, C, null, o, a);
      assert a + 1 == j;
    }

    /** The colliding slot is not in its main position: it moves to the free slot `n`. */
    method MoveColliding(key: Rune, mp: nat, n: nat) returns (ghost C': seq<seq<nat>>)
      requires Valid() && Absent(node[..], key)
      requires mp == MainPosition(key, capacity) && Used(node[mp]) && n < capacity && !Used(node[n])
      requires MainPosition(node[mp].key, capacity) != mp
      modifies node
      ensures RoomFor(old(node[..]), node[..], key, mp, n, C')
    {
      ghost var N := node[..];
      var othern;
      ghost var j;
      othern, j := Predecessor(mp);
      PlaceByMoving(N, C, null, key, n, j);
      MoveIsPlaced(N, mp, key, n, othern, null);
      ghost var o := MainPosition(N[mp].key, capacity);
      C' := C[o := Moved(C[o], j, n)][mp := [mp]];
      Move(key, mp, n, othern);
    }

    /** The colliding slot `mp` is copied to `n`, and its predecessor linked to the copy. */
    method Move(key: Rune, mp: nat, n: nat, othern: nat)
      requires mp < node.Length && n < node.Length && othern < node.Length
      requires mp != n && mp != othern && othern != n
      modifies node
      ensures WithKey(node[..], mp, key) == AfterMove(old(node[..]), mp, key, n, othern, null)
    {
      node[othern] := node[othern].(next := n);
      node[n] := node[mp];
      node[mp] := TableNode(node[mp].key, -1, Empty, null);
    }

    /** The colliding slot is in its main position: the free slot `n` becomes the
        second on its chain. */
    method LinkSecond(key: Rune, mp: nat, n: nat) returns (ghost C': seq<seq<nat>>)
      requires Valid() && Absent(node[..], key)
      requires mp == MainPosition(key, capacity) && Used(node[mp]) && n < capacity && !Used(node[n])
      requires MainPosition(node[mp].key, capacity) == mp
      modifies node
      ensures RoomFor(old(node[..]), node[..], key, n, n, C')
    {
      ghost var N := node[..];
      PlaceSecond(N, C, null, key, n);
      SecondIsPlaced(N, mp, key, n, null);
      C' := C[mp := Second(C[mp], n)];
      node[n] := node[n].(next := node[mp].next);
      node[mp] := node[mp].(next := n);
      assert WithKey(node[..], n, key) == AfterSecond(N, mp, key, n, null);
    }

    /** The rest of table_newkey, when a slot is free wherever one is needed. */
    method TakeSlot(key: Rune, n: int) returns (r: nat)
      requires Valid() && Absent(node[..], key)
      requires Used(node[MainPosition(key, capacity)]) ==> 0 <= n < capacity && !Used(node[n])
      modifies node, this`C
      ensures Valid() && r < capacity && Used(node[r]) && node[r].key == key
      ensures Entries() == old(Entries())[key := Entry(NonTerminator, null)]
    {
      ghost var N := node[..];
      var mp := MainPosition(key, capacity);
      ghost var C', f;
      if node[mp].flag != Empty {
        if MainPosition(node[mp].key, capacity) != mp {
          C' := MoveColliding(key, mp, n);
          f := n;
        } else {
          C' := LinkSecond(key, mp, n);
          mp, f := n, n;
        }
      } else {
        PlaceAtMain(N, C, null, key);
        C', f := C[mp := [mp]], mp;
        assert WithKey(N, mp, key) == N[mp := TableNode(key, -1, NonTerminator, null)];
        assert RoomFor(N, N, key, mp, f, C');
      }
      WriteKey(N, mp, key, f, C');
      return mp;
    }

    /** The last two assignments of table_newkey. */
    method WriteKey(ghost N: seq<Slot>, mp: nat, key: Rune, ghost f: nat, ghost C': seq<seq<nat>>)
      requires capacity == node.Length == |N| && IsPowerOfTwo(capacity) && -1 <= lastfree < capacity
      requires RoomFor(N, node[..], key, mp, f, C') && KeysDistinct(N) && Absent(N, key)
      requires forall i :: lastfree < i < capacity ==> Used(N[i])
      modifies node, this`C
      ensures Valid() && mp < capacity && Used(node[mp]) && node[mp].key == key
      ensures Entries() == Contents(N)[key := Entry(NonTerminator, null)]
    {
      ghost var N1 := node[..];
      node[mp] := node[mp].(key := key);
      node[mp] := node[mp].(flag := NonTerminator);
      assert node[..] == WithKey(N1, mp, key);
      C := C';
      ContentsAfterPlace(N, node[..], key, mp, f, null);
    }

    lemma NotFull(O: seq<Slot>)
      requires Valid() && KeysDistinct(O) && Entries() == Contents(O) && |O| < capacity
      ensures !Full()
    {
      FewKeysNotFull(node[..], O);
    }

    /** table_expand. Reinsertion never expands again: the new array always has a
        free slot, which is also why the mutual recursion ends. */
    method Expand()
      requires Valid()
      modifies this
      ensures Valid() && fresh(node) && !Full()
      ensures capacity == 2 * old(capacity)
      ensures Entries() == old(Entries())
      decreases 1, 0
    {
      var array_, n := node, capacity;
      ghost var O := array_[..];
      StartEmpty(2 * capacity);
      assert O[..0] == [];
      for i := 0 to n
        invariant Valid() && fresh(node) && capacity == 2 * n
        invariant array_[..] == O && |O| == n && KeysDistinct(O)
        invariant Entries() == Contents(O[..i])
      {
        assert O[..i + 1] == O[..i] + [O[i]];
        if array_[i].flag == Empty {
          ContentsAppend(O[..i], O[i]);
          continue;
        }
        Reinsert(array_[i], O[..i]);
      }
      assert O[..n] == O;
      NotFull(O);
    }

    method Reinsert(x: Slot, ghost O: seq<Slot>)
      requires Valid() && Entries() == Contents(O) && KeysDistinct(O + [x]) && Used(x) && |O| < capacity
      modifies this, node
      ensures Valid() && node == old(node) && capacity == old(capacity)
      ensures Entries() == Contents(O + [x])
      decreases 0, 1
    {
      ContentsAppend(O, x);
      NotFull(O);
      UpdateTwice(Contents(O), x.key, Entry(NonTerminator, null), Entry(x.flag, x.value));
      var r := NewKey(x.key);
      SetSlot(r, x.flag, x.value);
    }

    /** The allocation part of table_expand. */
    method StartEmpty(size: nat)
      requires size > 0 && IsPowerOfTwo(size)
      modifies this
      ensures Valid() && fresh(node) && capacity == size && Entries() == map[]
    {
      capacity := size;
      node := new Slot[size](i => TableNode(0, -1, Empty, null));
      lastfree := size - 1;
      C := seq(size, i => []);
      assert forall m :: 0 <= m < size ==> C[m] == [];
    }

    /** Assignment of flag and value through a slot pointer. */
    method SetSlot(r: nat, flag: Flag, value: Table?)
      requires Valid() && r < capacity && Used(node[r]) && flag != Empty
      modifies node
      ensures Valid()
      ensures Entries() == old(Entries())[node[r].key := Entry(flag, value)]
      ensures node[r] == old(node[r]).(flag := flag, value := value)
      ensures forall i :: 0 <= i < capacity && i != r ==> node[i] == old(node[i])
    {
      ChainedAfterSet(node[..], C, null, r, flag, value);
      ContentsAfterSet(node[..], r, flag, value);
      ghost var N := node[..];
      node[r] := node[r].(flag := flag);
      node[r] := node[r].(value := value);
      assert node[..] == Set(N, r, flag, value);
    }

    /** table_newkey: the key must not be there. */
    method NewKey(key: Rune) returns (r: nat)
      requires Valid() && key !in Entries()
      modifies this, node
      ensures Valid() && r < capacity && Used(node[r]) && node[r].key == key
      ensures Entries() == old(Entries())[key := Entry(NonTerminator, null)]
      ensures node == old(node) || fresh(node)
      ensures !old(Full()) ==> node == old(node) && capacity == old(capacity)
      decreases if Full() then 2 else 0, 0
    {
      AbsentFromContents(node[..], key);
      var n := -1;
      if node[MainPosition(key, capacity)].flag != Empty {
        n := GetFreeNode();
        if n < 0 {
          Expand();
          r := NewKey(key);
          return;
        }
      }
      r := TakeSlot(key, n);
    }

    /** table_insert. */
    method Insert(key: Rune) returns (r: nat)
      requires Valid()
      modifies this, node
      ensures Valid() && r < capacity && Used(node[r]) && node[r].key == key
      ensures key in old(Entries()) ==> Entries() == old(Entries())
      ensures key !in old(Entries()) ==> Entries() == old(Entries())[key := Entry(NonTerminator, null)]
      ensures node == old(node) || fresh(node)
    {
      var n := Get(key);
      AbsentFromContents(node[..], key);
      if n >= 0 { return n; }
      r := NewKey(key);
    }
  }
}
