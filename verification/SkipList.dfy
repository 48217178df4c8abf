/** The indexable skip list of lualib-src/lua-skiplist/skiplist.c. */
module SkipList {
  import opened SkipOrder
  import opened SkipTowers
  import opened SkipNodes
  import opened SkipRanges
  import opened Wrappers

  /** Cutting ranks start..end out of `n` elements: where the cut begins and ends. */
  function FirstCut(n: nat, start: nat): nat {
    if start == 0 then 0 else if start <= n then start - 1 else n
  }

  function LastCut(n: nat, start: nat, end: nat): nat {
    var lo := FirstCut(n, start);
    if end <= lo then lo else if end <= n then end else n
  }

  /** Where the run of deletions stops. */
  lemma CutEnds(n: nat, start: nat, end: nat, removed: nat, length: nat)
    requires n == length + removed && FirstCut(n, start) <= length
    requires FirstCut(n, start) >= length || end <= FirstCut(n, start) + removed
    requires removed > 0 ==> FirstCut(n, start) + removed <= end
    ensures FirstCut(n, start) + removed == LastCut(n, start, end)
  {
  }

  /** The elements left are those whose ranks are not from `start` to `end`. */
  lemma CutIsByRank(ks: seq<Key>, start: nat, end: nat, j: nat)
    requires Sorted(ks) && j < |ks|
    ensures ks[j] in Cut(ks, FirstCut(|ks|, start), LastCut(|ks|, start, end)) <==> !(start <= j + 1 <= end)
  {
    var lo, hi := FirstCut(|ks|, start), LastCut(|ks|, start, end);
    CutElements(ks, lo, hi, ks[j]);
    if lo <= j < hi { assert ks[lo..hi][j - lo] == ks[j]; }
    if ks[j] in ks[lo..hi] {
      var m :| 0 <= m < hi - lo && ks[lo..hi][m] == ks[j];
      SortedIsInjective(ks, lo + m, j);
    }
  }

  class SkipList {
    const header: Node
    var tail: Node?
    var length: nat
    var level: nat
    ghost var chain: seq<Node>       // the node of each rank, the header at 0
    ghost var hs: seq<nat>           // its height
    ghost var L: seq<seq<Level>>     // its level array

    /** The elements in order. */
    ghost function Keys(): seq<Key>
      reads this
      requires chain != []
    {
      KeysOf(chain)
    }

    /** The shape of the towers. */
    ghost predicate Shape()
      reads this
    {
      && |chain| == |hs| == |L| == length + 1 <= 0x1_0000_0000
      && chain[0] == header && header.obj == None
      && Distinct(chain)
      && 1 <= level <= MAXLEVEL == hs[0]
      && (forall r :: 0 < r < |chain| ==> chain[r].obj.Some? && 1 <= hs[r] <= level)
    }

    /** Every level links exactly the taller nodes, with exact spans. */
    ghost predicate Links()
      reads this, chain`lev
    {
      && Linked(chain, hs, L, level)
      && Synced(L)
    }

    /** The nodes hold the level arrays `l`. */
    ghost predicate Synced(l: seq<seq<Level>>)
      reads this, chain`lev
    {
      && |l| == |chain|
      && (forall r {:trigger chain[r].lev} :: 0 <= r < |chain| ==> chain[r].lev == l[r])
    }

    /** The header is free above the level of the list, and in use just below it. */
    ghost predicate Topped()
      reads this
      requires Shape() && Columns(chain, hs, L)
    {
      && TopFree()
      && (level > 1 ==> L[0][level - 1].forward != null)
    }

    ghost predicate TopFree()
      reads this
      requires Shape() && Columns(chain, hs, L)
    {
      forall i {:trigger L[0][i]} :: level <= i < MAXLEVEL ==> L[0][i].forward == null
    }

    /** The backward links and the tail mirror level 0. */
    ghost predicate Mirrored()
      reads this, chain`backward
      requires |chain| == length + 1
    {
      && (forall r {:trigger chain[r].backward} :: 0 <= r < |chain| ==>
            chain[r].backward == if r <= 1 then null else chain[r - 1])
      && tail == if length == 0 then null else chain[length]
    }

    ghost predicate Valid()
      reads this, chain
    {
      && Shape()
      && Links()
      && Topped()
      && Mirrored()
      && Sorted(Keys())
    }

    /** Every list is in the order of score and object, whatever has been done to it. */
    lemma ListIsAscending()
      requires Valid()
      ensures Ascending(Keys())
    {
      SortedIsAscending(Keys());
    }

    constructor ()
      ensures Valid() && Keys() == []
      ensures fresh(chain)
    {
      header := new Node(MAXLEVEL, 0.0, None);
      tail, length, level := null, 0, 1;
      new;
      chain, hs, L := [header], [MAXLEVEL], [header.lev];
      assert forall i :: 0 <= i < 1 ==> SlotAt(chain, hs, L, 0, i);
    }

    // ----- searching -----

    /** The slot update[i] of every live level, named by its rank. */
    ghost predicate Updates(update: seq<Node>, rank: seq<nat>)
      reads this
    {
      && |update| == |rank| == MAXLEVEL
      && |hs| == |chain| && level <= MAXLEVEL && Distinct(chain)
      && (forall i {:trigger rank[i]} {:trigger update[i]} :: 0 <= i < level ==>
            && rank[i] < |chain| && update[i] == chain[rank[i]] && i < hs[rank[i]])
    }

    /** The inner search loop of slInsert and slDelete: on level `i`, from the
        node of rank `r` to the last one before `k`. */
    method SearchLevel(x: Node, i: nat, k: Key, ghost r: nat, ghost q: nat) returns (y: Node, crossed: nat)
      requires Links() && r <= q < |chain| && x == chain[r] && i < level && i < hs[r]
      requires forall s {:trigger chain[s].Element()} :: 0 < s < |chain| ==> (Before(chain[s].Element(), k) <==> s <= q)
      ensures IsLast(hs, q, i, r + crossed) && y == chain[r + crossed]
    {
      y, crossed := x, 0;
      while y.lev[i].forward != null && Before(y.lev[i].forward.Element(), k)
        invariant r + crossed <= q && y == chain[r + crossed] && i < hs[r + crossed]
        decreases |chain| - crossed
      {
        assert SlotAt(chain, hs, L, r + crossed, i);
        crossed := crossed + y.lev[i].span;
        y := y.lev[i].forward;
      }
      assert SlotAt(chain, hs, L, r + crossed, i);
    }

    /** The search of slInsert and slDelete: on every live level the last node
        before `k`, and its rank. */
    method FindUpdate(k: Key, ghost q: nat) returns (update: seq<Node>, rank: seq<nat>)
      requires Shape() && Links() && q < |chain|
      requires forall s {:trigger chain[s].Element()} :: 0 < s < |chain| ==> (Before(chain[s].Element(), k) <==> s <= q)
      ensures LastRanks(hs, level, q, rank) && Updates(update, rank)
      ensures rank[0] == q
    {
      update := seq(MAXLEVEL, i => header);
      rank := seq(MAXLEVEL, i => 0);
      var x := header;
      for i := level downto 0
        invariant |update| == |rank| == MAXLEVEL
        invariant i == level ==> x == header
        invariant forall j {:trigger rank[j]} :: i <= j < level ==> IsLast(hs, q, j, rank[j])
        invariant forall j {:trigger update[j]} :: i <= j < level ==> update[j] == chain[rank[j]]
        invariant i < level ==> x == update[i]
      {
        rank := rank[i := if i == level - 1 then 0 else rank[i + 1]];
        var crossed;
        x, crossed := SearchLevel(x, i, k, rank[i], q);
        rank := rank[i := rank[i] + crossed];
        update := update[i := x];
      }
      assert hs[q] > 0;
    }

    // ----- slInsert -----

    /** The loop of slInsert over the new levels. */
    method RaiseSlots(height: nat, update: seq<Node>, rank: seq<nat>) returns (update': seq<Node>, rank': seq<nat>)
      requires |update| == |rank| == |header.lev| == MAXLEVEL && level < height <= MAXLEVEL && length < 0x1_0000_0000
      requires forall j {:trigger header.lev[j]} :: level <= j < MAXLEVEL ==> header.lev[j].forward == null
      modifies header`lev
      ensures |update'| == |rank'| == |header.lev| == MAXLEVEL
      ensures forall j :: 0 <= j < level ==> rank'[j] == rank[j] && update'[j] == update[j]
      ensures forall j :: level <= j < height ==> rank'[j] == 0 && update'[j] == header
      ensures forall j {:trigger header.lev[j]} :: 0 <= j < MAXLEVEL ==>
        header.lev[j] == if level <= j < height then Level(null, length) else old(header.lev)[j]
    {
      update', rank' := update, rank;
      ghost var h := header.lev;
      for i := level to height
        invariant |update'| == |rank'| == |header.lev| == MAXLEVEL
        invariant forall j :: 0 <= j < level ==> rank'[j] == rank[j] && update'[j] == update[j]
        invariant forall j :: level <= j < i ==> rank'[j] == 0 && update'[j] == header
        invariant forall j {:trigger header.lev[j]} :: 0 <= j < MAXLEVEL ==>
          header.lev[j] == if level <= j < i then Level(null, length) else h[j]
      {
        rank' := rank'[i := 0];
        update' := update'[i := header];
        header.lev := header.lev[i := header.lev[i].(span := U32(length))];
      }
    }

    /** The part of slInsert that raises the level of the list. */
    method RaiseLevel(height: nat, update: seq<Node>, rank: seq<nat>, ghost q: nat)
      returns (update': seq<Node>, rank': seq<nat>)
      requires Shape() && Links() && TopFree() && q < |hs|
      requires level < height <= MAXLEVEL
      requires LastRanks(hs, level, q, rank) && Updates(update, rank)
      modifies this`level, this`L, header`lev
      ensures level == height && Shape() && Links() && TopFree()
      ensures LastRanks(hs, level, q, rank') && Updates(update', rank')
      ensures rank'[0] == rank[0] && update'[0] == update[0]
    {
      update', rank' := RaiseSlots(height, update, rank);
      LinkedAfterRaise(chain, hs, L, level, height, L[0 := header.lev]);
      L := L[0 := header.lev];
      level := height;
    }

    /** The slots that `rank` names on the levels below `n` hold `v`, the others what
        `L` recorded. */
    ghost predicate Staged(rank: seq<nat>, n: nat, v: seq<Level>)
      reads this, chain`lev
    {
      && |L| == |hs| == |chain| && n <= level <= MAXLEVEL == |rank| == |v|
      && (forall r {:trigger chain[r].lev} :: 0 <= r < |chain| ==>
            && |L[r]| == hs[r]
            && chain[r].lev == Column(L[r], r, rank, n, v))
    }

    lemma StagedStep(i: nat, rank: seq<nat>, v: seq<Level>)
      requires i < level <= MAXLEVEL == |rank| == |v| && |L| == |hs| == |chain|
      requires rank[i] < |chain| && i < hs[rank[i]]
      requires forall r {:trigger L[r]} :: 0 <= r < |chain| ==> |L[r]| == hs[r]
      requires forall r {:trigger chain[r].lev} :: 0 <= r < |chain| ==>
        var was := Column(L[r], r, rank, i, v);
        chain[r].lev == if r == rank[i] then was[i := v[i]] else was
      ensures Staged(rank, i + 1, v)
    {
      forall r {:trigger chain[r].lev} | 0 <= r < |chain|
        ensures |L[r]| == hs[r] && chain[r].lev == Column(L[r], r, rank, i + 1, v)
      {
        ColumnStep(L[r], r, rank, i, v);
      }
    }

    /** One round of the first linking loop of slInsert. */
    method LinkLevel(i: nat, x: Node, update: seq<Node>, rank: seq<nat>, ghost v: seq<Level>)
      requires Updates(update, rank) && x !in chain && i < |x.lev| <= level
      requires InsertPlan(chain, hs, L, level, x, |x.lev|, rank, v) && Staged(rank, i, v)
      modifies x`lev, chain`lev
      ensures Staged(rank, i + 1, v)
      ensures |x.lev| == old(|x.lev|) && NewSlot(L, rank, i, x.lev[i])
      ensures forall j :: 0 <= j < |x.lev| && j != i ==> x.lev[j] == old(x.lev[j])
    {
      assert v[i] == Inserted(L[rank[i]][i], rank[i], rank[0], x, |x.lev|, i);
      update[i].Link(x, i, rank[0] - rank[i]);
      StagedStep(i, rank, v);
    }

    /** One round of the second loop: the levels above the new node. */
    method BumpLevel(i: nat, ghost x: Node, ghost height: nat, update: seq<Node>, rank: seq<nat>, ghost v: seq<Level>)
      requires Updates(update, rank) && height <= i < level
      requires InsertPlan(chain, hs, L, level, x, height, rank, v) && Staged(rank, i, v)
      modifies chain`lev
      ensures Staged(rank, i + 1, v)
    {
      assert v[i] == Inserted(L[rank[i]][i], rank[i], rank[0], x, height, i);
      update[i].lev := update[i].lev[i := update[i].lev[i].(span := U32(update[i].lev[i].span + 1))];
      StagedStep(i, rank, v);
    }

    /** The two linking loops of slInsert; the ghost fields still are the old ones. */
    method LinkNode(x: Node, update: seq<Node>, rank: seq<nat>, ghost v: seq<Level>)
      requires Updates(update, rank) && x !in chain && 1 <= |x.lev| <= level
      requires InsertPlan(chain, hs, L, level, x, |x.lev|, rank, v) && Synced(L)
      modifies x`lev, chain`lev
      ensures Staged(rank, level, v) && |x.lev| == old(|x.lev|)
      ensures forall i {:trigger x.lev[i]} :: 0 <= i < |x.lev| ==> NewSlot(L, rank, i, x.lev[i])
    {
      assert forall r {:trigger L[r]} :: 0 <= r < |chain| ==> Column(L[r], r, rank, 0, v) == L[r];
      for i := 0 to |x.lev|
        invariant Staged(rank, i, v) && |x.lev| == old(|x.lev|)
        invariant forall j {:trigger x.lev[j]} :: 0 <= j < i ==> NewSlot(L, rank, j, x.lev[j])
      {
        LinkLevel(i, x, update, rank, v);
      }
      for i := |x.lev| to level
        modifies chain`lev
        invariant Staged(rank, i, v)
      {
        BumpLevel(i, x, |x.lev|, update, rank, v);
      }
    }

    /** The last part of slInsert: the backward links, the tail and the length. */
    method MirrorNode(x: Node, prev: Node, ghost q: nat, ghost L': seq<seq<Level>>)
      requires |chain| == length + 1 && chain[0] == header && Distinct(chain) && Mirrored()
      requires q < |chain| == |hs| && prev == chain[q] && x !in chain
      requires |x.lev| > 0 && x.lev[0].forward == if q + 1 < |chain| then chain[q + 1] else null
      modifies this`chain, this`hs, this`L, this`tail, this`length, x`backward, chain`backward
      ensures chain == Open(old(chain), q, x) && hs == Open(old(hs), q, |x.lev|) && L == L'
      ensures length == old(length) + 1 && Distinct(chain) && Mirrored()
    {
      x.backward := if prev == header then null else prev;
      if x.lev[0].forward != null {
        x.lev[0].forward.backward := x;
      } else {
        tail := x;
      }
      length := length + 1;
      ghost var C := chain;
      chain, hs, L := Open(chain, q, x), Open(hs, q, |x.lev|), L';
      assert forall j :: 0 <= j < |C| ==> C[j] != x;
      assert chain[q + 1] == x;
      forall r {:trigger chain[r].backward} | 0 <= r < |chain|
        ensures chain[r].backward == if r <= 1 then null else chain[r - 1]
      {
        if r <= q {
          assert chain[r] == C[r] && (q + 1 < |C| ==> C[r] != C[q + 1]);
          assert r > 0 ==> chain[r - 1] == C[r - 1];
        } else if r == q + 1 {
          assert chain[q] == C[q] && (q > 0 ==> C[0] != C[q]);
        } else {
          assert chain[r] == C[r - 1];
          assert r > q + 2 ==> chain[r - 1] == C[r - 2] && C[q + 1] != C[r - 1];
        }
      }
    }

    lemma OpenedLevels(x: Node, rank: seq<nat>, v: seq<Level>)
      requires InsertPlan(chain, hs, L, level, x, |x.lev|, rank, v) && Staged(rank, level, v)
      requires forall i {:trigger x.lev[i]} :: 0 <= i < |x.lev| ==> NewSlot(L, rank, i, x.lev[i])
      requires forall r :: 0 <= r < |hs| ==> hs[r] > 0
      requires |x.lev| > 0
      ensures Linked(Open(chain, rank[0], x), Open(hs, rank[0], |x.lev|), OpenLevels(L, rank, level, v, x.lev), level)
      ensures forall r {:trigger Open(chain, rank[0], x)[r].lev} :: 0 <= r <= |chain| ==>
        Open(chain, rank[0], x)[r].lev == OpenLevels(L, rank, level, v, x.lev)[r]
      ensures x.lev[0].forward == if rank[0] + 1 < |chain| then chain[rank[0] + 1] else null
    {
      var q := rank[0];
      var C, H, L' := Open(chain, q, x), Open(hs, q, |x.lev|), OpenLevels(L, rank, level, v, x.lev);
      LinkedAfterOpen(chain, hs, L, level, x, rank, v, x.lev);
      LevelZero(C, H, L', level, q + 1);
      assert q + 1 < |chain| ==> C[q + 2] == chain[q + 1];
      forall r {:trigger C[r].lev} | 0 <= r < |C| ensures C[r].lev == L'[r] {
        assert L'[r] == if r == q + 1 then x.lev else AllColumns(L, rank, level, v)[if r <= q then r else r - 1];
      }
    }

    lemma OpenedShape(C: seq<Node>, H: seq<nat>, q: nat, x: Node, height: nat)
      requires |C| == |H| == length && q < |C| && C[0] == header && H[0] == MAXLEVEL
      requires forall r :: 0 < r < |C| ==> C[r].obj.Some? && 1 <= H[r] <= level
      requires chain == Open(C, q, x) && hs == Open(H, q, height) && |L| == |chain| && Distinct(chain)
      requires 1 <= height <= level <= MAXLEVEL
      requires header.obj == None && x.obj.Some? && length < 0x1_0000_0000
      ensures Shape()
    {
    }

    /** Links `x` in on all its levels; `L'` are the resulting level arrays. */
    method LinkAll(x: Node, update: seq<Node>, rank: seq<nat>) returns (ghost L': seq<seq<Level>>)
      requires Shape() && Links() && length < 0xFFFF_FFFF
      requires Updates(update, rank) && LastRanks(hs, level, rank[0], rank)
      requires x !in chain && 1 <= |x.lev| <= level
      modifies x`lev, chain`lev
      ensures |x.lev| == old(|x.lev|)
      ensures Linked(Open(chain, rank[0], x), Open(hs, rank[0], |x.lev|), L', level)
      ensures forall r {:trigger Open(chain, rank[0], x)[r].lev} :: 0 <= r <= |chain| ==>
        Open(chain, rank[0], x)[r].lev == L'[r]
      ensures x.lev[0].forward == if rank[0] + 1 < |chain| then chain[rank[0] + 1] else null
      ensures forall i {:trigger L'[0][i]} :: level <= i < MAXLEVEL ==> L'[0][i] == L[0][i]
    {
      ghost var v := InsertPlanExists(chain, hs, L, level, x, |x.lev|, rank);
      LinkNode(x, update, rank, v);
      OpenedLevels(x, rank, v);
      L' := OpenLevels(L, rank, level, v, x.lev);
    }

    /** The part of slInsert that puts a new node in its place. */
    method LinkIn(x: Node, update: seq<Node>, rank: seq<nat>)
      requires Shape() && Links() && TopFree() && Mirrored() && length < 0xFFFF_FFFF
      requires Updates(update, rank) && LastRanks(hs, level, rank[0], rank)
      requires x !in chain && 1 <= |x.lev| <= level && x.obj.Some?
      modifies this, x`lev, x`backward, chain
      ensures chain == Open(old(chain), rank[0], x) && hs == Open(old(hs), rank[0], old(|x.lev|))
      ensures Shape() && Links() && TopFree() && Mirrored()
      ensures length == old(length) + 1 && level == old(level)
    {
      ghost var L' := LinkAll(x, update, rank);
      ghost var C, H := chain, hs;
      MirrorNode(x, update[0], rank[0], L');
      OpenedShape(C, H, rank[0], x, |x.lev|);
    }

    /** slInsert once the place is known. */
    method PlaceNode(score: real, obj: Obj, height: nat, update: seq<Node>, rank: seq<nat>) returns (x: Node)
      requires Shape() && Links() && TopFree() && Mirrored() && length < 0xFFFF_FFFF
      requires 1 <= height <= level
      requires Updates(update, rank) && LastRanks(hs, level, rank[0], rank)
      modifies this, chain
      ensures fresh(x) && x.score == score && x.obj == Some(obj)
      ensures chain == Open(old(chain), rank[0], x) && hs == Open(old(hs), rank[0], height)
      ensures Shape() && Links() && TopFree() && Mirrored()
      ensures length == old(length) + 1 && level == old(level)
    {
      x := new Node(height, score, Some(obj));
      LinkIn(x, update, rank);
    }

    /** After an insertion some node reaches the top level. */
    lemma StillTopped(C: seq<Node>, H: seq<nat>, l: seq<seq<Level>>, was: nat, q: nat, x: Node, height: nat)
      requires Shape() && Links() && TopFree()
      requires Linked(C, H, l, was) && q < |C| && 1 <= was <= MAXLEVEL && H[0] == MAXLEVEL
      requires was > 1 ==> l[0][was - 1].forward != null
      requires hs == Open(H, q, height) && level == if height > was then height else was
      ensures Topped()
    {
      if level > 1 {
        HeaderInUse(chain, hs, L, level, level - 1);
        if height > was {
          assert hs[q + 1] == height;
        } else {
          HeaderInUse(C, H, l, was, was - 1);
          var r: nat :| 0 < r < |H| && was - 1 < H[r];
          assert hs[if r <= q then r else r + 1] == H[r];
        }
      }
    }

    /** All of slInsert but the order of the keys. */
    method InsertNode(score: real, obj: Obj, height: nat, ghost q: nat) returns (x: Node)
      requires Shape() && Links() && Topped() && Mirrored() && length < 0xFFFF_FFFF
      requires 1 <= height <= MAXLEVEL && q < |chain|
      requires forall s {:trigger chain[s].Element()} :: 0 < s < |chain| ==>
        (Before(chain[s].Element(), Key(score, obj)) <==> s <= q)
      modifies this, chain
      ensures fresh(x) && x.score == score && x.obj == Some(obj)
      ensures chain == Open(old(chain), q, x) && hs == Open(old(hs), q, height)
      ensures Shape() && Links() && Topped() && Mirrored() && length == old(length) + 1
    {
      ghost var C, H, l, was := chain, hs, L, level;
      var update, rank := FindUpdate(Key(score, obj), q);
      if height > level {
        update, rank := RaiseLevel(height, update, rank, q);
      }
      x := PlaceNode(score, obj, height, update, rank);
      StillTopped(C, H, l, was, q, x, height);
    }

    /** slInsert. `height` is the level drawn by slRandomLevel. */
    method Insert(score: real, obj: Obj, height: nat)
      requires Valid() && Key(score, obj) !in Keys()
      requires 1 <= height <= MAXLEVEL
      requires length < 0xFFFF_FFFF
      modifies this, chain
      ensures Valid()
      ensures Keys() == With(old(Keys()), Key(score, obj)) && Ascending(Keys())
      ensures length == old(length) + 1
      ensures hs == Open(old(hs), Position(old(Keys()), Key(score, obj)), height)
      ensures forall r :: 0 <= r < |chain| ==> chain[r] in old(chain) || fresh(chain[r])
    {
      ghost var ks, C := Keys(), chain;
      ghost var q := Position(ks, Key(score, obj));
      NodesSplit(chain, Key(score, obj));
      var x := InsertNode(score, obj, height, q);
      KeysAfterOpen(C, q, x);
      WithIsInsertion(ks, Key(score, obj));
      SortedIsAscending(Keys());
      OpenMembers(C, q, x);
    }

    // ----- slDeleteNode -----

    /** One round of the unlinking loop. */
    method UnlinkLevel(i: nat, x: Node, update: seq<Node>, ghost p: nat, ghost rank: seq<nat>, ghost v: seq<Level>)
      requires Updates(update, rank) && DeletePlan(chain, hs, L, level, p, rank, v) && Staged(rank, i, v)
      requires i < level && x == chain[p] && x.lev == L[p]
      modifies chain`lev
      ensures Staged(rank, i + 1, v) && x.lev == L[p]
    {
      var u := update[i];
      assert v[i] == Removed(L[rank[i]][i], chain[p], L[p], i);
      assert rank[i] != p;
      if u.lev[i].forward == x {
        u.lev := u.lev[i := u.lev[i].(span := U32(u.lev[i].span + x.lev[i].span - 1))];
        u.lev := u.lev[i := u.lev[i].(forward := x.lev[i].forward)];
      } else {
        u.lev := u.lev[i := u.lev[i].(span := U32(u.lev[i].span - 1))];
      }
      StagedStep(i, rank, v);
    }

    /** The unlinking loop; the ghost fields still are the old ones. */
    method UnlinkNode(x: Node, update: seq<Node>, ghost p: nat, ghost rank: seq<nat>) returns (ghost L': seq<seq<Level>>)
      requires Shape() && Links() && Updates(update, rank)
      requires 0 < p < |chain| && x == chain[p] && LastRanks(hs, level, p - 1, rank)
      modifies chain`lev
      ensures Linked(Close(chain, p), Close(hs, p), L', level)
      ensures forall r {:trigger Close(chain, p)[r].lev} :: 0 <= r < |chain| - 1 ==> Close(chain, p)[r].lev == L'[r]
      ensures x.lev == L[p]
      ensures forall i {:trigger L'[0][i]} :: level <= i < MAXLEVEL ==> L'[0][i] == L[0][i]
    {
      ghost var v := DeletePlanExists(chain, hs, L, level, p, rank);
      assert forall r {:trigger L[r]} :: 0 <= r < |chain| ==> Column(L[r], r, rank, 0, v) == L[r];
      for i := 0 to level
        invariant Staged(rank, i, v) && x.lev == L[p]
      {
        UnlinkLevel(i, x, update, p, rank, v);
      }
      LinkedAfterClose(chain, hs, L, level, p, rank, v);
      L' := CloseLevels(L, p, rank, level, v);
      forall r {:trigger Close(chain, p)[r].lev} | 0 <= r < |chain| - 1 ensures Close(chain, p)[r].lev == L'[r] {
        assert L'[r] == AllColumns(L, rank, level, v)[if r < p then r else r + 1];
      }
    }

    /** The backward links, the tail and the length. */
    method UnmirrorNode(x: Node, ghost p: nat, ghost L': seq<seq<Level>>)
      requires |chain| == length + 1 && chain[0] == header && Distinct(chain) && Mirrored()
      requires 0 < p < |chain| == |hs| && x == chain[p]
      requires |x.lev| > 0 && x.lev[0].forward == if p + 1 < |chain| then chain[p + 1] else null
      modifies this`chain, this`hs, this`L, this`tail, this`length, chain`backward
      ensures chain == Close(old(chain), p) && hs == Close(old(hs), p) && L == L'
      ensures length == old(length) - 1 && Distinct(chain) && Mirrored()
    {
      if x.lev[0].forward != null {
        x.lev[0].forward.backward := x.backward;
      } else {
        tail := x.backward;
      }
      length := length - 1;
      ghost var C := chain;
      chain, hs, L := Close(chain, p), Close(hs, p), L';
      forall r {:trigger chain[r].backward} | 0 <= r < |chain|
        ensures chain[r].backward == if r <= 1 then null else chain[r - 1]
      {
        if r < p {
          assert chain[r] == C[r] && (p + 1 < |C| ==> C[r] != C[p + 1]);
          assert r > 0 ==> chain[r - 1] == C[r - 1];
        } else {
          assert chain[r] == C[r + 1];
          assert chain[r - 1] == C[if r == p then r - 1 else r];
          assert r > p ==> C[r + 1] != C[p + 1];
        }
      }
    }

    /** The last loop of slDeleteNode. */
    method DropLevels()
      requires Shape() && Links() && TopFree()
      modifies this`level
      ensures Shape() && Links() && Topped() && level <= old(level)
    {
      while level > 1 && header.lev[level - 1].forward == null
        invariant Shape() && Links() && TopFree() && level <= old(level)
      {
        HeaderInUse(chain, hs, L, level, level - 1);
        level := level - 1;
        assert Linked(chain, hs, L, level) by {
          forall r, i | 0 <= r < |chain| && 0 <= i < hs[r] && i < level ensures SlotAt(chain, hs, L, r, i) {}
        }
      }
    }

    /** slDeleteNode: takes out the node `x` of rank `p`. Of `update` it only needs
        the last node before `x` on every live level. */
    method DeleteNode(x: Node, update: seq<Node>, ghost p: nat, ghost rank: seq<nat>)
      requires Shape() && Links() && Topped() && Mirrored() && Updates(update, rank)
      requires 0 < p < |chain| && x == chain[p] && LastRanks(hs, level, p - 1, rank)
      modifies this, chain
      ensures chain == Close(old(chain), p) && hs == Close(old(hs), p)
      ensures Shape() && Links() && Topped() && Mirrored()
      ensures length == old(length) - 1 && level <= old(level)
    {
      LevelZero(chain, hs, L, level, p);
      ghost var L' := UnlinkNode(x, update, p, rank);
      UnmirrorNode(x, p, L');
      DropLevels();
    }

    // ----- deleting -----

    /** slDeleteNode on the whole invariant. */
    method RemoveNode(x: Node, update: seq<Node>, ghost p: nat, ghost rank: seq<nat>)
      requires Valid() && Updates(update, rank)
      requires 0 < p < |chain| && x == chain[p] && LastRanks(hs, level, p - 1, rank)
      modifies this, chain
      ensures Valid() && level <= old(level)
      ensures chain == Close(old(chain), p) && hs == Close(old(hs), p)
      ensures Keys() == Cut(old(Keys()), p - 1, p)
      ensures forall n :: n in chain ==> n in old(chain)
    {
      KeysAfterClose(chain, p);
      CutKeepsSorted(Keys(), p - 1, p);
      CloseMembers(chain, p);
      DeleteNode(x, update, p, rank);
    }

    /** The search of slDelete: the first node not before `k`. */
    method Locate(k: Key) returns (x: Node?, update: seq<Node>, ghost rank: seq<nat>)
      requires Valid()
      ensures Updates(update, rank) && LastRanks(hs, level, Position(Keys(), k), rank)
      ensures var q := Position(Keys(), k);
        && x == (if q < length then chain[q + 1] else null)
        && (k in Keys() <==> x != null && x.Element() == k)
      ensures x != null ==> x.obj.Some?
    {
      ghost var q := Position(Keys(), k);
      NodesSplit(chain, k);
      FoundAtPosition(Keys(), k);
      update, rank := FindUpdate(k, q);
      LevelZero(chain, hs, L, level, q);
      x := update[0].lev[0].forward;
      assert q < length ==> Keys()[q] == x.Element();
    }

    /** slDelete. */
    method Delete(score: real, obj: Obj) returns (found: bool)
      requires Valid()
      modifies this, chain
      ensures Valid()
      ensures found <==> Key(score, obj) in old(Keys())
      ensures Keys() == Without(old(Keys()), Key(score, obj))
      ensures length == old(length) - if found then 1 else 0
      ensures forall r :: 0 <= r < |chain| ==> chain[r] in old(chain)
    {
      var x, update, rank := Locate(Key(score, obj));
      ghost var q := Position(Keys(), Key(score, obj));
      if x != null { EqualsIsEquality(x.obj.value, obj); }
      if x != null && score == x.score && EqualsObj(x.obj.value, obj) {
        assert Keys()[q] == x.Element();
        RemoveNode(x, update, q + 1, rank);
        return true;
      } else {
        return false;
      }
    }

    // ----- ranks -----

    /** The inner loop of the walks by rank: on level `i`, as far as the ranks stay
        below `bound`. */
    method SeekLevel(x: Node, i: nat, bound: nat, traversed: nat, ghost q: nat) returns (y: Node, t: nat)
      requires Links() && traversed <= q < |chain| && x == chain[traversed] && i < level && i < hs[traversed]
      requires (q == 0 || q < bound) && (q == |chain| - 1 || bound <= q + 1)
      ensures IsLast(hs, q, i, t) && y == chain[t]
    {
      y, t := x, traversed;
      while y.lev[i].forward != null && t + y.lev[i].span < bound
        invariant t <= q && y == chain[t] && i < hs[t]
        decreases |chain| - t
      {
        assert SlotAt(chain, hs, L, t, i);
        t := t + y.lev[i].span;
        y := y.lev[i].forward;
      }
      assert SlotAt(chain, hs, L, t, i);
    }

    /** slGetNodeByRank. */
    method GetNodeByRank(rank: nat) returns (x: Node?)
      requires Valid()
      ensures x == if 1 <= rank <= length then chain[rank] else null
    {
      x := null;
      if rank == 0 || rank > length { return; }
      var y: Node, traversed: nat := header, 0;
      for i := level downto 0
        invariant traversed <= rank && y == chain[traversed] && i <= hs[traversed]
        invariant x == null && (i == 0 ==> IsLast(hs, rank, 0, traversed) && traversed != rank)
      {
        y, traversed := SeekLevel(y, i, rank + 1, traversed, rank);
        if traversed == rank {
          x := y;
          break;
        }
      }
      assert hs[rank] > 0;
    }

    /** The search of slDeleteByRank. */
    method FindByRank(start: nat, ghost q: nat) returns (update: seq<Node>, traversed: nat, ghost rank: seq<nat>)
      requires Shape() && Links()
      requires q == FirstCut(length, start)
      ensures LastRanks(hs, level, q, rank) && Updates(update, rank) && traversed == q
      ensures update[0] == chain[q]
    {
      update := seq(MAXLEVEL, i => header);
      rank := seq(MAXLEVEL, i => 0);
      var x := header;
      traversed := 0;
      for i := level downto 0
        invariant |update| == |rank| == MAXLEVEL
        invariant traversed <= q && x == chain[traversed] && i <= hs[traversed]
        invariant i < level ==> rank[i] == traversed
        invariant forall j {:trigger rank[j]} :: i <= j < level ==> IsLast(hs, q, j, rank[j])
        invariant forall j {:trigger update[j]} :: i <= j < level ==> update[j] == chain[rank[j]]
      {
        x, traversed := SeekLevel(x, i, start, traversed, q);
        rank := rank[i := traversed];
        update := update[i := x];
      }
      assert hs[q] > 0;
    }

    /** One round of slDeleteByRank: the node behind rank `q` goes, and the same
        `update` still holds the predecessors of the next one. */
    method RemoveNext(x: Node, update: seq<Node>, ghost q: nat, ghost rank: seq<nat>) returns (next: Node?)
      requires Valid() && Updates(update, rank) && LastRanks(hs, level, q, rank)
      requires q + 1 < |chain| && x == chain[q + 1]
      modifies this, chain
      ensures Valid() && Updates(update, rank) && LastRanks(hs, level, q, rank)
      ensures length == old(length) - 1 && chain[..q + 1] == old(chain[..q + 1])
      ensures next == if q + 1 < |chain| then chain[q + 1] else null
      ensures Keys() == Cut(old(Keys()), q, q + 1)
      ensures forall n :: n in chain ==> n in old(chain)
    {
      ghost var C := chain;
      LevelZero(chain, hs, L, level, q + 1);
      next := x.lev[0].forward;
      LastRanksAfterClose(hs, level, level, q, rank);
      RemoveNode(x, update, q + 1, rank);
      assert q + 1 < |chain| ==> chain[q + 1] == C[q + 2];
      forall i {:trigger rank[i]} | 0 <= i < level
        ensures rank[i] < |chain| && update[i] == chain[rank[i]] && i < hs[rank[i]]
      {
        assert IsLast(hs, q, i, rank[i]);
        assert chain[rank[i]] == C[rank[i]];
      }
    }

    /** Ranks q+1 .. q+m of `ks` are gone, `called` are their objects, and `update`
        fits the node that is now at rank q+1. */
    ghost predicate CutSoFar(ks: seq<Key>, q: nat, m: nat, called: seq<Obj>, update: seq<Node>, rank: seq<nat>, x: Node?)
      reads this, chain
    {
      && Valid() && Updates(update, rank) && LastRanks(hs, level, q, rank)
      && q + m <= |ks| == length + m
      && x == (if q < length then chain[q + 1] else null)
      && Keys() == Cut(ks, q, q + m) && called == Objs(ks[q..q + m])
    }

    method StartDelete(start: nat, ghost q: nat) returns (x: Node?, update: seq<Node>, traversed: nat, ghost rank: seq<nat>)
      requires Valid()
      requires q == FirstCut(length, start)
      ensures CutSoFar(Keys(), q, 0, [], update, rank, x) && traversed == q
    {
      update, traversed, rank := FindByRank(start, q);
      LevelZero(chain, hs, L, level, q);
      x := update[0].lev[0].forward;
    }

    /** One round: unlink the node, then hand its object to the callback. */
    method DeleteStep(x: Node, update: seq<Node>, ghost q: nat, ghost rank: seq<nat>, called: seq<Obj>,
                      ghost ks: seq<Key>, ghost m: nat, ghost C: seq<Node>) returns (next: Node?, called': seq<Obj>)
      requires CutSoFar(ks, q, m, called, update, rank, x)
      requires forall r :: 0 <= r < |chain| ==> chain[r] in C
      modifies this, C
      ensures CutSoFar(ks, q, m + 1, called', update, rank, next)
      ensures forall r :: 0 <= r < |chain| ==> chain[r] in C
    {
      CutOneMore(ks, q, m);
      assert Keys()[q] == x.Element();
      next := RemoveNext(x, update, q, rank);
      called' := called + [x.obj.value];
      forall r | 0 <= r < |chain| ensures chain[r] in C {
        assert chain[r] in old(chain);
      }
    }

    /** The loop of slDeleteByRank. */
    method DeleteRun(x0: Node?, update: seq<Node>, from: nat, end: nat, ghost rank: seq<nat>, ghost ks: seq<Key>)
      returns (removed: nat, called: seq<Obj>, ghost x: Node?)
      requires CutSoFar(ks, from, 0, [], update, rank, x0)
      modifies this, chain
      ensures CutSoFar(ks, from, removed, called, update, rank, x)
      ensures x == null || end <= from + removed
      ensures removed > 0 ==> from + removed <= end
      ensures forall r :: 0 <= r < |chain| ==> chain[r] in old(chain)
    {
      removed, called := 0, [];
      var traversed, y := from + 1, x0;
      while y != null && traversed <= end
        invariant CutSoFar(ks, from, removed, called, update, rank, y)
        invariant traversed == from + 1 + removed && (removed > 0 ==> from + removed <= end)
        invariant forall r :: 0 <= r < |chain| ==> chain[r] in old(chain)
        decreases |ks| - removed
      {
        y, called := DeleteStep(y, update, from, rank, called, ks, removed, old(chain));
        removed := removed + 1;
        traversed := traversed + 1;
      }
      x := y;
    }

    /** The body of slDeleteByRank: `q` is the number of elements before the cut. */
    method CutRanks(start: nat, end: nat, ghost q: nat) returns (removed: nat, called: seq<Obj>)
      requires Valid() && q == FirstCut(length, start)
      modifies this, chain
      ensures Valid()
      ensures q + removed <= |old(Keys())| == length + removed
      ensures called == Objs(old(Keys())[q..q + removed]) && Keys() == Cut(old(Keys()), q, q + removed)
      ensures q >= length || end <= q + removed
      ensures removed > 0 ==> q + removed <= end
      ensures forall r :: 0 <= r < |chain| ==> chain[r] in old(chain)
    {
      ghost var ks := Keys();
      ghost var rank;
      var x, update, traversed;
      x, update, traversed, rank := StartDelete(start, q);
      ghost var y;
      removed, called, y := DeleteRun(x, update, traversed, end, rank, ks);
    }

    /** slDeleteByRank; `called` lists the objects in the order in which the callback
        gets them. */
    method DeleteByRank(start: nat, end: nat) returns (removed: nat, called: seq<Obj>)
      requires Valid()
      modifies this, chain
      ensures Valid()
      ensures var lo := FirstCut(|old(Keys())|, start); var hi := LastCut(|old(Keys())|, start, end);
        removed == hi - lo && called == Objs(old(Keys())[lo..hi]) && Keys() == Cut(old(Keys()), lo, hi)
      ensures length == old(length) - removed
      ensures forall r :: 0 <= r < |chain| ==> chain[r] in old(chain)
    {
      ghost var n, q := length, FirstCut(length, start);
      removed, called := CutRanks(start, end, q);
      CutEnds(n, start, end, removed, length);
    }

    /** The inner loop of slGetRank. */
    method RankLevel(x: Node, i: nat, k: Key, rank: nat, ghost c: nat) returns (y: Node, t: nat)
      requires Links() && rank <= c < |chain| && x == chain[rank] && i < level && i < hs[rank]
      requires forall s {:trigger chain[s].Element()} :: 0 < s < |chain| ==> (BeforeOrAt(chain[s].Element(), k) <==> s <= c)
      ensures IsLast(hs, c, i, t) && y == chain[t]
    {
      y, t := x, rank;
      while y.lev[i].forward != null && BeforeOrAt(y.lev[i].forward.Element(), k)
        invariant t <= c && y == chain[t] && i < hs[t]
        decreases |chain| - t
      {
        assert SlotAt(chain, hs, L, t, i);
        t := t + y.lev[i].span;
        y := y.lev[i].forward;
      }
      assert SlotAt(chain, hs, L, t, i);
    }

    /** slGetRank: it returns at the first level on which the last node up to
        (score, obj) has the object; the score is not compared again. */
    method GetRank(score: real, obj: Obj) returns (rank: nat)
      requires Valid()
      ensures FoundRank(Keys(), Key(score, obj), rank)
    {
      ghost var c := PositionAfter(Keys(), Key(score, obj));
      NodesSplitAfter(chain, Key(score, obj));
      assert c > 0 ==> Keys()[c - 1] == chain[c].Element();
      rank := 0;
      var x: Node, t: nat := header, 0;
      for i := level downto 0
        invariant rank == 0 && t <= c && x == chain[t] && i <= hs[t]
        invariant i == 0 ==> IsLast(hs, c, 0, t) && chain[t].obj != Some(obj)
      {
        x, t := RankLevel(x, i, Key(score, obj), t, c);
        if x.obj.Some? { EqualsIsEquality(x.obj.value, obj); }
        if x.obj.Some? && EqualsObj(x.obj.value, obj) {
          rank := t;
          break;
        }
      }
      assert hs[c] > 0;
    }

    // ----- ranges of scores -----

    /** slIsInRange. */
    method IsInRange(min: real, max: real) returns (r: bool)
      requires Valid()
      ensures r == SpansRange(Keys(), min, max)
    {
      if min > max { return false; }
      var x := tail;
      assert length > 0 ==> Keys()[length - 1] == chain[length].Element();
      if x == null || x.score < min { return false; }
      LevelZero(chain, hs, L, level, 0);
      x := header.lev[0].forward;
      assert Keys()[0] == chain[1].Element();
      if x == null || x.score > max { return false; }
      return true;
    }

    /** The inner loops of slFirstInRange and slLastInRange: on level `i`, as far as
        the scores stay below `bound`, or up to it when `inclusive`. */
    method ScoreLevel(x: Node, i: nat, bound: real, inclusive: bool, ghost r: nat, ghost q: nat)
      returns (y: Node, ghost t: nat)
      requires Links() && r <= q < |chain| && x == chain[r] && i < level && i < hs[r]
      requires forall s {:trigger chain[s].score} :: 0 < s < |chain| ==> (Below(chain[s].score, bound, inclusive) <==> s <= q)
      ensures IsLast(hs, q, i, t) && y == chain[t]
    {
      y, t := x, r;
      while y.lev[i].forward != null && Below(y.lev[i].forward.score, bound, inclusive)
        invariant t <= q && y == chain[t] && i < hs[t]
        decreases |chain| - t
      {
        assert SlotAt(chain, hs, L, t, i);
        t := t + y.lev[i].span;
        y := y.lev[i].forward;
      }
      assert SlotAt(chain, hs, L, t, i);
    }

    /** The descent of slFirstInRange and slLastInRange. */
    method ScoreSeek(bound: real, inclusive: bool) returns (x: Node)
      requires Valid()
      ensures x == chain[CountBelow(Keys(), bound, inclusive)]
    {
      ghost var q: nat := CountBelow(Keys(), bound, inclusive);
      CountBelowSplits(Keys(), bound, inclusive);
      forall s {:trigger chain[s].score} | 0 < s < |chain|
        ensures Below(chain[s].score, bound, inclusive) <==> s <= q
      {
        assert Keys()[s - 1] == chain[s].Element();
      }
      x := header;
      ghost var t: nat := 0;
      for i := level downto 0
        invariant t <= q && x == chain[t] && i <= hs[t]
        invariant i == 0 ==> IsLast(hs, q, 0, t)
      {
        x, t := ScoreLevel(x, i, bound, inclusive, t, q);
      }
      assert hs[q] > 0;
    }

    /** slFirstInRange: in a gap of the scores the node found is out of range. */
    method FirstInRange(min: real, max: real) returns (x: Node?)
      requires Valid()
      ensures SpansRange(Keys(), min, max) ==> CountBelow(Keys(), min, false) < length
      ensures x == if SpansRange(Keys(), min, max) then chain[CountBelow(Keys(), min, false) + 1] else null
    {
      var inRange := IsInRange(min, max);
      if !inRange { return null; }
      var y := ScoreSeek(min, false);
      CountBelowSplits(Keys(), min, false);
      LevelZero(chain, hs, L, level, CountBelow(Keys(), min, false));
      x := y.lev[0].forward;
    }

    /** slLastInRange. */
    method LastInRange(min: real, max: real) returns (x: Node?)
      requires Valid()
      ensures x == if SpansRange(Keys(), min, max) then chain[CountBelow(Keys(), max, true)] else null
      ensures SpansRange(Keys(), min, max) ==> CountBelow(Keys(), max, true) > 0
    {
      var inRange := IsInRange(min, max);
      if !inRange { return null; }
      x := ScoreSeek(max, true);
      CountBelowSplits(Keys(), max, true);
    }

    /** One step of the loops that collect a range, in either direction. */
    method Follow(node: Node, reverse: bool, ghost p: nat) returns (next: Node?)
      requires Valid() && 0 < p < |chain| && node == chain[p]
      ensures next == if reverse then (if p > 1 then chain[p - 1] else null)
                      else if p < length then chain[p + 1] else null
      ensures node.obj == Some(Keys()[p - 1].obj)
    {
      assert Keys()[p - 1] == node.Element();
      LevelZero(chain, hs, L, level, p);
      next := if reverse then node.backward else node.lev[0].forward;
    }
  }
}
