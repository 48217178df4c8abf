/** The slots of the hash table of 3rd/crab/crab.c as values: `N` is the node array
    and `C` lists, for every main position, the slots of the chain that starts there.
    The lemmas are the three ways in which table_newkey places a key. */
module CrabNodes {
  import opened Powers

  type Rune = x: int | 0 <= x < 0x1_0000_0000

  datatype Flag = Empty | NonTerminator | Terminator

  datatype TableNode<T> = TableNode(key: Rune, next: int, flag: Flag, value: T)

  /** What a key maps to. */
  datatype Entry<T> = Entry(flag: Flag, value: T)

  // ----- the main position -----

  function BitAnd(x: nat, y: nat): nat
    decreases y
  {
    if x == 0 || y == 0 then 0
    else (x % 2) * (y % 2) + 2 * BitAnd(x / 2, y / 2)
  }

  lemma {:induction false} BitAndInRange(x: nat, y: nat)
    ensures BitAnd(x, y) <= y
    decreases y
  {
    if x > 0 && y > 0 { BitAndInRange(x / 2, y / 2); }
  }

  function MainPosition(key: Rune, capacity: nat): (m: nat)
    requires capacity > 0
    ensures m < capacity
  {
    BitAndInRange(key, capacity - 1);
    BitAnd(key, capacity - 1)
  }

  lemma {:induction false} MaskIsModulo(x: nat, c: nat)
    requires IsPowerOfTwo(c)
    ensures BitAnd(x, c - 1) == x % c
    decreases c
  {
    if c > 1 {
      var h := c / 2;
      assert (c - 1) % 2 == 1 && (c - 1) / 2 == h - 1;
      MaskIsModulo(x / 2, h);
      ModuloByHalves(x, h);
    }
  }

  lemma ModuloByHalves(x: nat, h: nat)
    requires h > 0
    ensures x % (2 * h) == x % 2 + 2 * ((x / 2) % h)
  {
    var q, r := (x / 2) / h, (x / 2) % h;
    assert x / 2 == q * h + r;
    assert x == 2 * (x / 2) + x % 2;
    var s := x % 2 + 2 * r;
    assert 2 * (q * h) == (2 * h) * q;
    assert x == (2 * h) * q + s && 0 <= s < 2 * h;
    UniqueRemainder(x, 2 * h, q, s);
  }

  lemma UniqueRemainder(x: nat, d: nat, q: nat, s: nat)
    requires d > 0 && s < d && x == d * q + s
    ensures x % d == s
  {
    var q', s' := x / d, x % d;
    assert x == d * q' + s';
    Multiple(d, q - q');
    assert d * (q - q') == d * q - d * q';
  }

  lemma Multiple(d: nat, k: int)
    ensures k >= 1 ==> d * k >= d
    ensures k <= -1 ==> d * k + d <= 0
  {
    if k <= -1 { assert d * (-k) >= d; }
  }


  // ----- the invariant -----

  predicate Used<T>(n: TableNode<T>) {
    n.flag != Empty
  }

  ghost predicate Distinct(c: seq<nat>) {
    forall a, b :: 0 <= a < b < |c| ==> c[a] != c[b]
  }

  /** `c` is the chain of main position `m`: it starts there, its slots hold exactly
      keys with that main position, and `next` leads along it to -1. */
  ghost predicate ChainOk<T>(N: seq<TableNode<T>>, m: nat, c: seq<nat>) {
    && Distinct(c)
    && (c != [] ==> c[0] == m)
    && (forall a {:trigger c[a]} :: 0 <= a < |c| ==>
          c[a] < |N| && Used(N[c[a]]) && MainPosition(N[c[a]].key, |N|) == m)
    && (forall a, b {:trigger c[a], c[b]} :: 0 <= a < b < |c| && b == a + 1 ==> N[c[a]].next == c[b])
    && (c != [] ==> N[c[|c| - 1]].next == -1)
  }

  ghost predicate Chains<T>(N: seq<TableNode<T>>, C: seq<seq<nat>>) {
    && |C| == |N| > 0
    && (forall m {:trigger C[m]} :: 0 <= m < |C| ==> ChainOk(N, m, C[m]))
  }

  /** Every used slot is on the chain of its main position, so chains never meet;
      free slots are reset. */
  ghost predicate Covered<T>(N: seq<TableNode<T>>, C: seq<seq<nat>>, none: T)
    requires |C| == |N| > 0
  {
    forall i {:trigger N[i]} :: 0 <= i < |N| ==>
      if Used(N[i]) then i in C[MainPosition(N[i].key, |N|)] else N[i].next == -1 && N[i].value == none
  }

  ghost predicate Chained<T>(N: seq<TableNode<T>>, C: seq<seq<nat>>, none: T) {
    Chains(N, C) && Covered(N, C, none) && KeysDistinct(N)
  }

  ghost predicate KeysDistinct<T>(N: seq<TableNode<T>>) {
    forall i, j :: 0 <= i < j < |N| && Used(N[i]) && Used(N[j]) ==> N[i].key != N[j].key
  }

  /** No used slot holds `key`. */
  ghost predicate Absent<T>(N: seq<TableNode<T>>, key: Rune) {
    forall i {:trigger N[i]} :: 0 <= i < |N| && Used(N[i]) ==> N[i].key != key
  }

  lemma ChainUnaffected<T>(N: seq<TableNode<T>>, N': seq<TableNode<T>>, m: nat, c: seq<nat>)
    requires ChainOk(N, m, c) && |N'| == |N|
    requires forall a {:trigger c[a]} :: 0 <= a < |c| ==> N'[c[a]] == N[c[a]]
    ensures ChainOk(N', m, c)
  {
  }

  /** Slot `s` gets a new key, slot `f` the one that `s` had; the others keep theirs.
      With f == s nothing was moved. */
  lemma StillDistinct<T>(N: seq<TableNode<T>>, N': seq<TableNode<T>>, key: Rune, s: nat, f: nat)
    requires KeysDistinct(N) && Absent(N, key) && |N'| == |N| && s < |N| && f < |N|
    requires N'[s].key == key
    requires f != s ==> !Used(N[f]) && Used(N[s]) && N'[f].key == N[s].key
    requires forall i {:trigger N'[i]} :: 0 <= i < |N| && i != s && i != f && Used(N'[i]) ==>
      Used(N[i]) && N'[i].key == N[i].key
    ensures KeysDistinct(N')
  {
    forall i, j | 0 <= i < j < |N'| && Used(N'[i]) && Used(N'[j]) ensures N'[i].key != N'[j].key {
      var i', j' := if i == f then s else i, if j == f then s else j;
      assert i != s ==> N[i'].key == N'[i].key != key;
      assert j != s ==> N[j'].key == N'[j].key != key;
    }
  }

  /** A key that is not on the chain of its main position is nowhere. */
  lemma NotOnChain<T>(N: seq<TableNode<T>>, C: seq<seq<nat>>, none: T, key: Rune)
    requires Chained(N, C, none)
    requires var c := C[MainPosition(key, |N|)]; forall b {:trigger c[b]} :: 0 <= b < |c| ==> c[b] < |N| && N[c[b]].key != key
    ensures Absent(N, key)
  {
  }

  /** A slot is on exactly one chain, the one its key belongs to. */
  lemma OnChain<T>(N: seq<TableNode<T>>, C: seq<seq<nat>>, none: T, i: nat) returns (o: nat, a: nat)
    requires Chained(N, C, none) && i < |N| && Used(N[i])
    ensures o == MainPosition(N[i].key, |N|) && a < |C[o]| && C[o][a] == i
    ensures o != i ==> 0 < a && C[i] == []
    ensures o == i ==> a == 0
  {
    o := MainPosition(N[i].key, |N|);
    a :| 0 <= a < |C[o]| && C[o][a] == i;
    assert ChainOk(N, o, C[o]) && ChainOk(N, i, C[i]);
  }

  /** One step along a chain. */
  lemma NextOnChain<T>(N: seq<TableNode<T>>, C: seq<seq<nat>>, none: T, o: nat, a: nat)
    requires Chained(N, C, none) && o < |C| && a < |C[o]|
    ensures C[o][a] < |N| && Used(N[C[o][a]])
    ensures if a + 1 < |C[o]| then N[C[o][a]].next == C[o][a + 1] else N[C[o][a]].next == -1
  {
    assert ChainOk(N, o, C[o]);
    if a + 1 < |C[o]| { assert C[o][a + 1] == C[o][a + 1]; } else { assert a == |C[o]| - 1; }
  }

  /** Nothing has the free slot `m` as its main position. */
  lemma NoChainAtFree<T>(N: seq<TableNode<T>>, C: seq<seq<nat>>, none: T, m: nat)
    requires Chained(N, C, none) && m < |N| && !Used(N[m])
    ensures C[m] == []
  {
    assert ChainOk(N, m, C[m]);
  }

  // ----- placing a key -----

  /** The main position is free: nothing else has it, so a new chain starts there. */
  lemma PlaceAtMain<T>(N: seq<TableNode<T>>, C: seq<seq<nat>>, none: T, key: Rune)
    requires Chained(N, C, none) && Absent(N, key)
    requires !Used(N[MainPosition(key, |N|)])
    ensures var m := MainPosition(key, |N|);
      Chained(N[m := TableNode(key, -1, NonTerminator, none)], C[m := [m]], none)
  {
    var m := MainPosition(key, |N|);
    var N' := N[m := TableNode(key, -1, NonTerminator, none)];
    var C' := C[m := [m]];
    assert ChainOk(N, m, C[m]);
    assert C[m] == [];
    forall m' {:trigger C'[m']} | 0 <= m' < |C'| ensures ChainOk(N', m', C'[m']) {
      if m' != m {
        assert ChainOk(N, m', C[m']);
        ChainUnaffected(N, N', m', C[m']);
      }
    }
  }

  ghost function Second(c: seq<nat>, f: nat): (c': seq<nat>)
    requires c != []
    ensures |c'| == |c| + 1
    ensures forall a {:trigger c'[a]} :: 0 <= a < |c'| ==> c'[a] == if a == 0 then c[0] else if a == 1 then f else c[a - 1]
    ensures forall s :: s in c' <==> s == f || s in c
  {
    var c' := [c[0], f] + c[1..];
    assert forall a :: 1 <= a < |c| ==> c'[a + 1] == c[a];
    assert c'[1] == f && c'[0] == c[0];
    c'
  }

  lemma SecondChain<T>(N: seq<TableNode<T>>, N': seq<TableNode<T>>, m: nat, c: seq<nat>, f: nat)
    requires ChainOk(N, m, c) && c != [] && |N'| == |N| && f < |N| && f !in c
    requires N'[f].flag != Empty && MainPosition(N'[f].key, |N|) == m && N'[f].next == N[m].next
    requires N'[m] == N[m].(next := f)
    requires forall a {:trigger c[a]} :: 1 <= a < |c| ==> N'[c[a]] == N[c[a]]
    ensures ChainOk(N', m, Second(c, f))
  {
    var c' := Second(c, f);
    assert c[0] == m;
    forall a, b | 0 <= a < b < |c'| ensures c'[a] != c'[b] {
      if b != 1 { assert c[b - 1] != f; }
    }
  }

  function AfterSecond<T>(N: seq<TableNode<T>>, m: nat, key: Rune, f: nat, none: T): seq<TableNode<T>>
    requires m < |N| && f < |N|
  {
    N[f := TableNode(key, N[m].next, NonTerminator, none)][m := N[m].(next := f)]
  }

  lemma ChainsAfterSecond<T>(N: seq<TableNode<T>>, C: seq<seq<nat>>, none: T, key: Rune, f: nat)
    requires Chained(N, C, none) && f < |N| && !Used(N[f])
    requires var m := MainPosition(key, |N|); Used(N[m]) && MainPosition(N[m].key, |N|) == m
    ensures var m := MainPosition(key, |N|);
      C[m] != [] && Chains(AfterSecond(N, m, key, f, none), C[m := Second(C[m], f)])
  {
    var m := MainPosition(key, |N|);
    var N' := AfterSecond(N, m, key, f, none);
    assert m in C[m];
    var C' := C[m := Second(C[m], f)];
    assert ChainOk(N, m, C[m]);
    forall m' {:trigger C'[m']} | 0 <= m' < |C'| ensures ChainOk(N', m', C'[m']) {
      assert ChainOk(N, m', C[m']);
      if m' == m {
        SecondChain(N, N', m, C[m], f);
      } else {
        ChainUnaffected(N, N', m', C[m']);
      }
    }
  }

  /** The colliding slot is on the chain that starts at `m`: the new key goes to the
      free slot `f`, second on that chain. */
  lemma PlaceSecond<T>(N: seq<TableNode<T>>, C: seq<seq<nat>>, none: T, key: Rune, f: nat)
    requires Chained(N, C, none) && Absent(N, key) && f < |N| && !Used(N[f])
    requires var m := MainPosition(key, |N|); Used(N[m]) && MainPosition(N[m].key, |N|) == m
    ensures var m := MainPosition(key, |N|);
      C[m] != [] && Chained(AfterSecond(N, m, key, f, none), C[m := Second(C[m], f)], none)
  {
    ChainsAfterSecond(N, C, none, key, f);
    StillDistinct(N, AfterSecond(N, MainPosition(key, |N|), key, f, none), key, f, f);
  }

  ghost function Moved(c: seq<nat>, j: nat, f: nat): seq<nat>
    requires j < |c|
  {
    c[j := f]
  }

  lemma MovedKeeps(c: seq<nat>, j: nat, f: nat, s: nat)
    requires j < |c| && Distinct(c) && (s == f || (s in c && s != c[j]))
    ensures s in Moved(c, j, f)
  {
    if s == f {
      assert Moved(c, j, f)[j] == f;
    } else {
      var a :| 0 <= a < |c| && c[a] == s;
      assert Moved(c, j, f)[a] == s;
    }
  }

  /** The chain `c` with slot c[j] moved to `f`. */
  lemma MovedChain<T>(N: seq<TableNode<T>>, N': seq<TableNode<T>>, o: nat, c: seq<nat>, j: nat, f: nat)
    requires ChainOk(N, o, c) && 0 < j < |c| && |N'| == |N| && f < |N| && f !in c
    requires N'[f] == N[c[j]]
    requires N'[c[j - 1]] == N[c[j - 1]].(next := f)
    requires forall a {:trigger c[a]} :: 0 <= a < |c| && a != j && a != j - 1 ==> N'[c[a]] == N[c[a]]
    ensures ChainOk(N', o, Moved(c, j, f))
  {
  }

  function AfterMove<T>(N: seq<TableNode<T>>, m: nat, key: Rune, f: nat, p: nat, none: T): seq<TableNode<T>>
    requires m < |N| && f < |N| && p < |N|
  {
    N[p := N[p].(next := f)][f := N[m]][m := TableNode(key, -1, NonTerminator, none)]
  }

  /** The occupant of the main position `m` of `key` is at index `j` of its own chain. */
  ghost predicate Misplaced<T>(N: seq<TableNode<T>>, C: seq<seq<nat>>, key: Rune, j: nat)
    requires |C| == |N| > 0
  {
    var m := MainPosition(key, |N|);
    var o := MainPosition(N[m].key, |N|);
    Used(N[m]) && o != m && 0 < j < |C[o]| && C[o][j] == m && C[o][j - 1] < |N|
  }

  lemma ChainsAfterMove<T>(N: seq<TableNode<T>>, C: seq<seq<nat>>, none: T, key: Rune, f: nat, j: nat)
    requires Chained(N, C, none) && f < |N| && !Used(N[f]) && Misplaced(N, C, key, j)
    ensures var m := MainPosition(key, |N|);
      var o := MainPosition(N[m].key, |N|);
      C[m] == [] && Chains(AfterMove(N, m, key, f, C[o][j - 1], none), C[o := Moved(C[o], j, f)][m := [m]])
  {
    var m := MainPosition(key, |N|);
    var o := MainPosition(N[m].key, |N|);
    assert ChainOk(N, o, C[o]) && ChainOk(N, m, C[m]);
    var N', C' := AfterMove(N, m, key, f, C[o][j - 1], none), C[o := Moved(C[o], j, f)][m := [m]];
    forall m' {:trigger C'[m']} | 0 <= m' < |C'| ensures ChainOk(N', m', C'[m']) {
      if m' == o {
        MovedChain(N, N', o, C[o], j, f);
      } else if m' != m {
        OtherChainAfterMove(N, C, none, key, f, j, m');
      }
    }
  }

  lemma OtherChainAfterMove<T>(N: seq<TableNode<T>>, C: seq<seq<nat>>, none: T, key: Rune, f: nat, j: nat, m': nat)
    requires Chained(N, C, none) && f < |N| && !Used(N[f]) && Misplaced(N, C, key, j) && m' < |N|
    requires m' != MainPosition(key, |N|) && m' != MainPosition(N[MainPosition(key, |N|)].key, |N|)
    ensures var m := MainPosition(key, |N|);
      var o := MainPosition(N[m].key, |N|);
      ChainOk(AfterMove(N, m, key, f, C[o][j - 1], none), m', C[m'])
  {
    var m := MainPosition(key, |N|);
    var o := MainPosition(N[m].key, |N|);
    assert ChainOk(N, m', C[m']) && ChainOk(N, o, C[o]);
    ChainUnaffected(N, AfterMove(N, m, key, f, C[o][j - 1], none), m', C[m']);
  }

  lemma SlotCoveredAfterMove<T>(N: seq<TableNode<T>>, C: seq<seq<nat>>, none: T, key: Rune, f: nat, j: nat, i: nat)
    requires Chained(N, C, none) && f < |N| && !Used(N[f]) && Misplaced(N, C, key, j)
    requires C[MainPosition(key, |N|)] == [] && i < |N| && i != MainPosition(key, |N|)
    ensures var m := MainPosition(key, |N|);
      var o := MainPosition(N[m].key, |N|);
      var x := AfterMove(N, m, key, f, C[o][j - 1], none)[i];
      Used(x) ==> i in C[o := Moved(C[o], j, f)][m := [m]][MainPosition(x.key, |N|)]
  {
    var m := MainPosition(key, |N|);
    var o := MainPosition(N[m].key, |N|);
    assert ChainOk(N, o, C[o]);
    if i == f {
      MovedKeeps(C[o], j, f, i);
    } else if Used(N[i]) {
      assert i in C[MainPosition(N[i].key, |N|)];
      if MainPosition(N[i].key, |N|) == o { MovedKeeps(C[o], j, f, i); }
    }
  }

  lemma CoveredAfterMove<T>(N: seq<TableNode<T>>, C: seq<seq<nat>>, none: T, key: Rune, f: nat, j: nat)
    requires Chained(N, C, none) && f < |N| && !Used(N[f]) && Misplaced(N, C, key, j)
    requires C[MainPosition(key, |N|)] == []
    ensures var m := MainPosition(key, |N|);
      var o := MainPosition(N[m].key, |N|);
      Covered(AfterMove(N, m, key, f, C[o][j - 1], none), C[o := Moved(C[o], j, f)][m := [m]], none)
  {
    var m := MainPosition(key, |N|);
    var o := MainPosition(N[m].key, |N|);
    var N', C' := AfterMove(N, m, key, f, C[o][j - 1], none), C[o := Moved(C[o], j, f)][m := [m]];
    assert ChainOk(N, o, C[o]);
    forall i {:trigger N'[i]} | 0 <= i < |N| && Used(N'[i]) ensures i in C'[MainPosition(N'[i].key, |N|)] {
      if i != m { SlotCoveredAfterMove(N, C, none, key, f, j, i); }
    }
  }

  /** The colliding slot belongs to another chain: it moves to the free slot `f`, its
      predecessor is redirected, and the new key takes its main position. */
  lemma PlaceByMoving<T>(N: seq<TableNode<T>>, C: seq<seq<nat>>, none: T, key: Rune, f: nat, j: nat)
    requires Chained(N, C, none) && Absent(N, key) && f < |N| && !Used(N[f]) && Misplaced(N, C, key, j)
    ensures var m := MainPosition(key, |N|);
      var o := MainPosition(N[m].key, |N|);
      var p := C[o][j - 1];
      p != m && p != f &&
      Chained(AfterMove(N, m, key, f, p, none), C[o := Moved(C[o], j, f)][m := [m]], none)
  {
    var m := MainPosition(key, |N|);
    var o := MainPosition(N[m].key, |N|);
    assert ChainOk(N, o, C[o]);
    ChainsAfterMove(N, C, none, key, f, j);
    CoveredAfterMove(N, C, none, key, f, j);
    StillDistinct(N, AfterMove(N, m, key, f, C[o][j - 1], none), key, m, f);
  }
}
