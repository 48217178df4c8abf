/** The nodes of the skip list, and its links as values: `chain` lists the nodes by
    rank (the header is rank 0), `hs` their heights and `L` their level arrays. The
    lemmas say that what slInsert and slDeleteNode write into the slots of the
    predecessors keeps every level exactly linked. */
module SkipNodes {
  import opened SkipOrder
  import opened SkipTowers
  import opened Wrappers

  const MAXLEVEL := 32

  /** Assignment to an `unsigned int`. */
  function U32(x: int): nat {
    if 0 <= x < 0x1_0000_0000 then x else x % 0x1_0000_0000
  }

  datatype Level = Level(forward: Node?, span: nat)

  /** `level[]` is a flexible array of structs inside the node, updated one slot at
      a time. */
  class Node {
    const score: real
    const obj: Option<Obj>      // NULL in the header only
    var backward: Node?
    var lev: seq<Level>

    constructor (level: nat, score: real, obj: Option<Obj>)
      ensures this.score == score && this.obj == obj
      ensures |lev| == level && (forall i :: 0 <= i < level ==> lev[i] == Level(null, 0))
      ensures backward == null
    {
      this.score, this.obj := score, obj;
      backward := null;
      lev := seq(level, i => Level(null, 0));
    }

    /** Links `x` behind this node on level `i`; `d` ranks lie between the two. */
    method Link(x: Node, i: nat, d: nat)
      requires x != this && i < |lev| && i < |x.lev|
      requires d <= lev[i].span && d < 0xFFFF_FFFF && lev[i].span < 0x1_0000_0000
      modifies this`lev, x`lev
      ensures x.lev == old(x.lev[i := Level(lev[i].forward, lev[i].span - d)])
      ensures lev == old(lev)[i := Level(x, d + 1)]
    {
      x.lev := x.lev[i := x.lev[i].(forward := lev[i].forward)];
      lev := lev[i := lev[i].(forward := x)];
      x.lev := x.lev[i := x.lev[i].(span := U32(lev[i].span - d))];
      lev := lev[i := lev[i].(span := U32(d + 1))];
    }

    function Element(): Key {
      Key(score, if obj.Some? then obj.value else [])
    }
  }

  ghost predicate Distinct(chain: seq<Node>) {
    forall a, b :: 0 <= a < b < |chain| ==> chain[a] != chain[b]
  }

  ghost function KeysOf(chain: seq<Node>): (ks: seq<Key>)
    requires chain != []
    ensures |ks| == |chain| - 1
    ensures forall j {:trigger ks[j]} :: 0 <= j < |ks| ==> ks[j] == chain[j + 1].Element()
  {
    seq(|chain| - 1, j requires 0 <= j < |chain| - 1 => chain[j + 1].Element())
  }

  lemma KeysAfterOpen(chain: seq<Node>, q: nat, x: Node)
    requires q < |chain|
    ensures KeysOf(Open(chain, q, x)) == InsertAt(KeysOf(chain), q, x.Element())
  {
    var ks, ks' := KeysOf(chain), KeysOf(Open(chain, q, x));
    forall j | 0 <= j < |ks'| ensures ks'[j] == InsertAt(ks, q, x.Element())[j] {
      assert ks'[j] == Open(chain, q, x)[j + 1].Element();
    }
  }

  lemma KeysAfterClose(chain: seq<Node>, p: nat)
    requires 0 < p < |chain|
    ensures KeysOf(Close(chain, p)) == Cut(KeysOf(chain), p - 1, p)
  {
    var ks, ks' := KeysOf(chain), KeysOf(Close(chain, p));
    forall j | 0 <= j < |ks'| ensures ks'[j] == Cut(ks, p - 1, p)[j] {
      assert ks'[j] == Close(chain, p)[j + 1].Element();
    }
  }

  /** Among sorted nodes those before `k` are the ones up to its position. */
  lemma NodesSplit(chain: seq<Node>, k: Key)
    requires chain != [] && Sorted(KeysOf(chain))
    ensures forall s {:trigger chain[s].Element()} :: 0 < s < |chain| ==>
      (Before(chain[s].Element(), k) <==> s <= Position(KeysOf(chain), k))
  {
    PositionSplits(KeysOf(chain), k);
    forall s {:trigger chain[s].Element()} | 0 < s < |chain|
      ensures Before(chain[s].Element(), k) <==> s <= Position(KeysOf(chain), k)
    {
      assert KeysOf(chain)[s - 1] == chain[s].Element();
    }
  }

  lemma NodesSplitAfter(chain: seq<Node>, k: Key)
    requires chain != [] && Sorted(KeysOf(chain))
    ensures forall s {:trigger chain[s].Element()} :: 0 < s < |chain| ==>
      (BeforeOrAt(chain[s].Element(), k) <==> s <= PositionAfter(KeysOf(chain), k))
  {
    PositionAfterSplits(KeysOf(chain), k);
    forall s {:trigger chain[s].Element()} | 0 < s < |chain|
      ensures BeforeOrAt(chain[s].Element(), k) <==> s <= PositionAfter(KeysOf(chain), k)
    {
      assert KeysOf(chain)[s - 1] == chain[s].Element();
    }
  }

  // ----- the invariant of the links -----

  /** What slot (r, i) must hold: the next node taller than `i` and the exact rank
      distance to it, or NULL and the distance to the last node. */
  ghost predicate SlotOk(chain: seq<Node>, hs: seq<nat>, r: nat, i: nat, slot: Level) {
    && |hs| == |chain|
    && r < |chain|
    && (if slot.forward == null then slot.span == |chain| - 1 - r && IsNext(hs, r, i, |chain|)
        else 0 < slot.span < |chain| - r && chain[r + slot.span] == slot.forward
             && IsNext(hs, r, i, r + slot.span))
  }

  ghost predicate Columns(chain: seq<Node>, hs: seq<nat>, L: seq<seq<Level>>) {
    && |chain| == |hs| == |L|
    && (forall r {:trigger L[r]} :: 0 <= r < |chain| ==> |L[r]| == hs[r])
  }

  ghost predicate SlotAt(chain: seq<Node>, hs: seq<nat>, L: seq<seq<Level>>, r: nat, i: nat)
    requires Columns(chain, hs, L) && r < |chain| && i < hs[r]
  {
    SlotOk(chain, hs, r, i, L[r][i])
  }

  /** Every slot below `level` holds what it must. */
  ghost predicate Linked(chain: seq<Node>, hs: seq<nat>, L: seq<seq<Level>>, level: nat) {
    && Columns(chain, hs, L)
    && (forall r, i {:trigger SlotAt(chain, hs, L, r, i)} ::
          0 <= r < |chain| && 0 <= i < hs[r] && i < level ==> SlotAt(chain, hs, L, r, i))
  }

  // ----- writing one slot per level -----

  /** The column of rank `r` after the slots that `rank` names on the levels below
      `n` were set to the values `v`. */
  ghost function Column(s: seq<Level>, r: nat, rank: seq<nat>, n: nat, v: seq<Level>): (s': seq<Level>)
    requires n <= |rank| && n <= |v|
    ensures |s'| == |s|
    ensures forall j {:trigger s'[j]} :: 0 <= j < |s| ==> s'[j] == if j < n && rank[j] == r then v[j] else s[j]
  {
    seq(|s|, j requires 0 <= j < |s| => if j < n && rank[j] == r then v[j] else s[j])
  }

  ghost function AllColumns(L: seq<seq<Level>>, rank: seq<nat>, n: nat, v: seq<Level>): (L': seq<seq<Level>>)
    requires n <= |rank| && n <= |v|
    ensures |L'| == |L|
    ensures forall r {:trigger L'[r]} :: 0 <= r < |L| ==> L'[r] == Column(L[r], r, rank, n, v)
  {
    seq(|L|, r requires 0 <= r < |L| => Column(L[r], r, rank, n, v))
  }

  lemma ColumnStep(s: seq<Level>, r: nat, rank: seq<nat>, n: nat, v: seq<Level>)
    requires n < |rank| && n < |v|
    ensures rank[n] == r && n < |s| ==>
              Column(s, r, rank, n + 1, v) == Column(s, r, rank, n, v)[n := v[n]]
    ensures rank[n] != r || |s| <= n ==> Column(s, r, rank, n + 1, v) == Column(s, r, rank, n, v)
  {
  }

  /** The slots named by `rank` reach across rank `q`, and not past the end. */
  lemma SlotsReachAcross(chain: seq<Node>, hs: seq<nat>, L: seq<seq<Level>>, level: nat,
                         q: nat, rank: seq<nat>, i: nat)
    requires Linked(chain, hs, L, level) && LastRanks(hs, level, q, rank) && i < level
    ensures rank[i] <= q <= rank[i] + L[rank[i]][i].span < |chain|
  {
    assert SlotAt(chain, hs, L, rank[i], i);
  }

  // ----- inserting -----

  /** What slInsert leaves in the slot of the predecessor `p` on level `i`. */
  ghost function Inserted(was: Level, p: nat, q: nat, x: Node, height: nat, i: nat): Level
    requires p <= q
  {
    if i < height then Level(x, q - p + 1) else Level(was.forward, was.span + 1)
  }

  /** Slot (r, i) once the node `x` of the given height stands right behind rank
      `q`, when only the slot of the last rank `p` was changed, as slInsert does. */
  lemma SlotAfterOpen(chain: seq<Node>, hs: seq<nat>, q: nat, x: Node, height: nat, i: nat, p: nat,
                      r: nat, slot: Level)
    requires q < |hs| && r < |hs| && i < hs[r]
    requires SlotOk(chain, hs, r, i, slot) && IsLast(hs, q, i, p)
    ensures r == p ==> SlotOk(Open(chain, q, x), Open(hs, q, height), r, i, Inserted(slot, p, q, x, height, i))
    ensures r == p && i < height ==> slot.span >= q - p
    ensures r == p && i < height ==>
      SlotOk(Open(chain, q, x), Open(hs, q, height), q + 1, i, Level(slot.forward, slot.span - (q - p)))
    ensures r != p ==> SlotOk(Open(chain, q, x), Open(hs, q, height), if r <= q then r else r + 1, i, slot)
  {
    var t := if slot.forward == null then |chain| else r + slot.span;
    NextAfterOpen(hs, q, height, r, i, t);
    CrossingIsLast(hs, q, r, i, t, p);
  }

  /** All that is known when slInsert starts to link: the predecessors `rank` of the
      new node, and the values `v` that their slots will get. */
  ghost predicate InsertPlan(chain: seq<Node>, hs: seq<nat>, L: seq<seq<Level>>, level: nat,
                             x: Node, height: nat, rank: seq<nat>, v: seq<Level>)
  {
    && |v| == |rank| == MAXLEVEL && rank[0] < |chain| && height <= level <= MAXLEVEL
    && Linked(chain, hs, L, level)
    && LastRanks(hs, level, rank[0], rank)
    && (forall i {:trigger rank[i]} :: 0 <= i < level ==>
          rank[i] <= rank[0] <= rank[i] + L[rank[i]][i].span < 0xFFFF_FFFF)
    && (forall i {:trigger v[i]} :: 0 <= i < level ==>
          v[i] == Inserted(L[rank[i]][i], rank[i], rank[0], x, height, i))
  }

  lemma InsertPlanExists(chain: seq<Node>, hs: seq<nat>, L: seq<seq<Level>>, level: nat,
                         x: Node, height: nat, rank: seq<nat>) returns (v: seq<Level>)
    requires |rank| == MAXLEVEL && rank[0] < |chain| <= 0xFFFF_FFFF && height <= level <= MAXLEVEL
    requires Linked(chain, hs, L, level) && LastRanks(hs, level, rank[0], rank)
    ensures InsertPlan(chain, hs, L, level, x, height, rank, v)
  {
    v := seq(MAXLEVEL, i requires 0 <= i < MAXLEVEL =>
      if level <= i then Level(null, 0) else Inserted(L[rank[i]][i], rank[i], rank[0], x, height, i));
    forall i {:trigger rank[i]} | 0 <= i < level
      ensures rank[i] <= rank[0] <= rank[i] + L[rank[i]][i].span < 0xFFFF_FFFF
    {
      SlotsReachAcross(chain, hs, L, level, rank[0], rank, i);
    }
  }

  /** Slot `i` of the new node. */
  ghost predicate NewSlot(L: seq<seq<Level>>, rank: seq<nat>, i: nat, slot: Level)
    requires i < |rank| && rank[i] < |L| && i < |L[rank[i]]|
  {
    slot.forward == L[rank[i]][i].forward && slot.span + rank[0] == L[rank[i]][i].span + rank[i]
  }

  ghost function OpenLevels(L: seq<seq<Level>>, rank: seq<nat>, level: nat, v: seq<Level>, xl: seq<Level>): seq<seq<Level>>
    requires level <= |rank| && level <= |v| && 0 < |rank| && rank[0] < |L|
  {
    Open(AllColumns(L, rank, level, v), rank[0], xl)
  }

  lemma OpenedOldSlot(chain: seq<Node>, hs: seq<nat>, L: seq<seq<Level>>, level: nat,
                      x: Node, height: nat, rank: seq<nat>, v: seq<Level>, r: nat, i: nat)
    requires InsertPlan(chain, hs, L, level, x, height, rank, v)
    requires r < |chain| && i < level && i < hs[r]
    ensures SlotOk(Open(chain, rank[0], x), Open(hs, rank[0], height), if r <= rank[0] then r else r + 1, i,
                   Column(L[r], r, rank, level, v)[i])
  {
    assert SlotAt(chain, hs, L, r, i);
    SlotAfterOpen(chain, hs, rank[0], x, height, i, rank[i], r, L[r][i]);
    assert r == rank[i] ==> Column(L[r], r, rank, level, v)[i] == v[i];
  }

  lemma OpenedNewSlot(chain: seq<Node>, hs: seq<nat>, L: seq<seq<Level>>, level: nat,
                      x: Node, height: nat, rank: seq<nat>, v: seq<Level>, i: nat, slot: Level)
    requires InsertPlan(chain, hs, L, level, x, height, rank, v) && i < height
    requires NewSlot(L, rank, i, slot)
    ensures SlotOk(Open(chain, rank[0], x), Open(hs, rank[0], height), rank[0] + 1, i, slot)
  {
    var r := rank[i];
    assert SlotAt(chain, hs, L, r, i);
    SlotAfterOpen(chain, hs, rank[0], x, height, i, r, r, L[r][i]);
    assert slot == Level(L[r][i].forward, L[r][i].span - (rank[0] - r));
  }

  /** Every level stays correctly linked when `x` is put behind rank rank[0]. */
  lemma LinkedAfterOpen(chain: seq<Node>, hs: seq<nat>, L: seq<seq<Level>>, level: nat,
                        x: Node, rank: seq<nat>, v: seq<Level>, xl: seq<Level>)
    requires InsertPlan(chain, hs, L, level, x, |xl|, rank, v)
    requires forall i {:trigger xl[i]} :: 0 <= i < |xl| ==> NewSlot(L, rank, i, xl[i])
    ensures Linked(Open(chain, rank[0], x), Open(hs, rank[0], |xl|), OpenLevels(L, rank, level, v, xl), level)
  {
    var q, H := rank[0], Open(hs, rank[0], |xl|);
    var L' := OpenLevels(L, rank, level, v, xl);
    forall r' {:trigger L'[r']} | 0 <= r' <= |chain| ensures |L'[r']| == H[r'] {
      assert r' != q + 1 ==> L'[r'] == Column(L[if r' <= q then r' else r' - 1], if r' <= q then r' else r' - 1, rank, level, v);
    }
    forall r', i | 0 <= r' <= |chain| && 0 <= i < H[r'] && i < level
      ensures SlotAt(Open(chain, q, x), H, L', r', i)
    {
      if r' == q + 1 {
        OpenedNewSlot(chain, hs, L, level, x, |xl|, rank, v, i, xl[i]);
      } else {
        var r := if r' <= q then r' else r' - 1;
        OpenedOldSlot(chain, hs, L, level, x, |xl|, rank, v, r, i);
        assert L'[r'] == Column(L[r], r, rank, level, v);
      }
    }
  }

  /** New levels hold only the header, whose slots there lead to the end. */
  lemma LinkedAfterRaise(chain: seq<Node>, hs: seq<nat>, L: seq<seq<Level>>, level: nat,
                         height: nat, L': seq<seq<Level>>)
    requires Linked(chain, hs, L, level) && chain != [] && level < height <= hs[0]
    requires forall r :: 0 < r < |chain| ==> hs[r] <= level
    requires Columns(chain, hs, L') && (forall r {:trigger L'[r]} :: 0 < r < |L| ==> L'[r] == L[r])
    requires forall i {:trigger L'[0][i]} :: 0 <= i < hs[0] ==>
      L'[0][i] == if level <= i < height then Level(null, |chain| - 1) else L[0][i]
    ensures Linked(chain, hs, L', height)
  {
    forall r, i | 0 <= r < |chain| && 0 <= i < hs[r] && i < height
      ensures SlotAt(chain, hs, L', r, i)
    {
      assert i < level ==> SlotAt(chain, hs, L, r, i);
    }
  }

  /** Level 0 links neighbouring ranks. */
  lemma LevelZero(chain: seq<Node>, hs: seq<nat>, L: seq<seq<Level>>, level: nat, r: nat)
    requires Linked(chain, hs, L, level) && level > 0 && r < |chain|
    requires forall m :: 0 <= m < |hs| ==> hs[m] > 0
    ensures L[r][0] == if r + 1 < |chain| then Level(chain[r + 1], 1) else Level(null, 0)
  {
    assert SlotAt(chain, hs, L, r, 0);
    assert r + 1 < |hs| ==> hs[r + 1] > 0;
  }

  /** The header is linked on a level exactly if some node reaches up to it. */
  lemma HeaderInUse(chain: seq<Node>, hs: seq<nat>, L: seq<seq<Level>>, level: nat, i: nat)
    requires Linked(chain, hs, L, level) && chain != [] && i < level && i < hs[0]
    ensures L[0][i].forward != null <==> exists r :: 0 < r < |hs| && i < hs[r]
  {
    assert SlotAt(chain, hs, L, 0, i);
  }

  // ----- deleting -----

  /** What slDeleteNode leaves in the slot of the predecessor on level `i` when it
      unlinks the node `x` with level array `xl`. */
  ghost function Removed(was: Level, x: Node, xl: seq<Level>, i: nat): Level
    requires was.forward == x ==> i < |xl|
    requires was.span > 0
  {
    if was.forward == x then Level(xl[i].forward, was.span + xl[i].span - 1)
    else Level(was.forward, was.span - 1)
  }

  lemma SlotAfterClose(chain: seq<Node>, hs: seq<nat>, p: nat, i: nat, u: nat, r: nat, slot: Level, xl: seq<Level>)
    requires 0 < p < |chain| == |hs| && Distinct(chain) && r < |chain| && i < hs[r] && r != p
    requires SlotOk(chain, hs, r, i, slot) && IsLast(hs, p - 1, i, u)
    requires |xl| == hs[p] && (i < hs[p] ==> SlotOk(chain, hs, p, i, xl[i]))
    ensures r == u ==> slot.span > 0 && (slot.forward == chain[p] <==> i < hs[p])
    ensures r == u ==> SlotOk(Close(chain, p), Close(hs, p), r, i, Removed(slot, chain[p], xl, i))
    ensures r != u ==> SlotOk(Close(chain, p), Close(hs, p), if r < p then r else r - 1, i, slot)
  {
    var t := if slot.forward == null then |chain| else r + slot.span;
    NextAfterClose(hs, p, r, i, t);
    CrossingIsLast(hs, p - 1, r, i, t, u);
    assert slot.forward == chain[p] ==> t == p;
  }

  /** What slDeleteNode relies on: `rank` holds the predecessors of rank `p`, and `v`
      is what their slots will get. */
  ghost predicate DeletePlan(chain: seq<Node>, hs: seq<nat>, L: seq<seq<Level>>, level: nat,
                             p: nat, rank: seq<nat>, v: seq<Level>)
  {
    && |v| == |rank| == MAXLEVEL && 0 < p < |chain| <= 0x1_0000_0000 && level <= MAXLEVEL
    && Distinct(chain) && Linked(chain, hs, L, level) && hs[p] <= level
    && LastRanks(hs, level, p - 1, rank)
    && (forall i {:trigger rank[i]} :: 0 <= i < level ==>
          var was := L[rank[i]][i];
          && 0 < was.span && (was.forward == chain[p] <==> i < hs[p])
          && was.span + (if i < hs[p] then L[p][i].span else 0) - 1 < 0x1_0000_0000)
    && (forall i {:trigger v[i]} :: 0 <= i < level ==>
          v[i] == Removed(L[rank[i]][i], chain[p], L[p], i))
  }

  lemma DeletePlanExists(chain: seq<Node>, hs: seq<nat>, L: seq<seq<Level>>, level: nat, p: nat, rank: seq<nat>)
    returns (v: seq<Level>)
    requires |rank| == MAXLEVEL && 0 < p < |chain| <= 0x1_0000_0000 && level <= MAXLEVEL && Distinct(chain)
    requires Linked(chain, hs, L, level) && LastRanks(hs, level, p - 1, rank) && hs[p] <= level
    ensures DeletePlan(chain, hs, L, level, p, rank, v)
  {
    forall i {:trigger rank[i]} | 0 <= i < level
      ensures 0 < L[rank[i]][i].span && (L[rank[i]][i].forward == chain[p] <==> i < hs[p])
      ensures L[rank[i]][i].span + (if i < hs[p] then L[p][i].span else 0) - 1 < |chain|
    {
      assert SlotAt(chain, hs, L, rank[i], i);
      assert i < hs[p] ==> SlotAt(chain, hs, L, p, i);
      SlotAfterClose(chain, hs, p, i, rank[i], rank[i], L[rank[i]][i], L[p]);
    }
    v := seq(MAXLEVEL, i requires 0 <= i < MAXLEVEL =>
      if level <= i then Level(null, 0) else Removed(L[rank[i]][i], chain[p], L[p], i));
  }

  ghost function CloseLevels(L: seq<seq<Level>>, p: nat, rank: seq<nat>, level: nat, v: seq<Level>): seq<seq<Level>>
    requires level <= |rank| && level <= |v| && p < |L|
  {
    Close(AllColumns(L, rank, level, v), p)
  }

  lemma ClosedSlot(chain: seq<Node>, hs: seq<nat>, L: seq<seq<Level>>, level: nat,
                   p: nat, rank: seq<nat>, v: seq<Level>, r: nat, i: nat)
    requires DeletePlan(chain, hs, L, level, p, rank, v)
    requires r < |chain| && r != p && i < level && i < hs[r]
    ensures SlotOk(Close(chain, p), Close(hs, p), if r < p then r else r - 1, i, Column(L[r], r, rank, level, v)[i])
  {
    assert SlotAt(chain, hs, L, r, i);
    assert i < hs[p] ==> SlotAt(chain, hs, L, p, i);
    SlotAfterClose(chain, hs, p, i, rank[i], r, L[r][i], L[p]);
    assert r == rank[i] ==> Column(L[r], r, rank, level, v)[i] == v[i];
  }

  /** Every level stays correctly linked when the node of rank `p` is taken out. */
  lemma LinkedAfterClose(chain: seq<Node>, hs: seq<nat>, L: seq<seq<Level>>, level: nat,
                         p: nat, rank: seq<nat>, v: seq<Level>)
    requires DeletePlan(chain, hs, L, level, p, rank, v)
    ensures Linked(Close(chain, p), Close(hs, p), CloseLevels(L, p, rank, level, v), level)
  {
    var H, L' := Close(hs, p), CloseLevels(L, p, rank, level, v);
    forall r' {:trigger L'[r']} | 0 <= r' < |chain| - 1 ensures |L'[r']| == H[r'] {
      assert L'[r'] == Column(L[if r' < p then r' else r' + 1], if r' < p then r' else r' + 1, rank, level, v);
    }
    forall r', i | 0 <= r' < |chain| - 1 && 0 <= i < H[r'] && i < level
      ensures SlotAt(Close(chain, p), H, L', r', i)
    {
      var r := if r' < p then r' else r' + 1;
      ClosedSlot(chain, hs, L, level, p, rank, v, r, i);
      assert L'[r'] == Column(L[r], r, rank, level, v);
    }
  }
}
