/** The sorted set of lualib/zset.lua: a skip list and a table member -> score that
    must hold the same pairs. */
module ZSet {
  import opened SkipOrder
  import opened SkipRanges
  import opened SkipNodes
  import opened SkipList
  import opened Wrappers
  import Lua = LuaSkipList

  type Table = map<Obj, real>

  /** The list and the table hold the same pairs. */
  ghost predicate Agree(ks: seq<Key>, tbl: Table) {
    Elements(ks) == Pairs(tbl)
  }

  ghost function Pairs(tbl: Table): set<Key> {
    set m | m in tbl :: Key(tbl[m], m)
  }

  ghost predicate Matches(ks: seq<Key>, tbl: Table) {
    && (forall k :: k in ks ==> k.obj in tbl && tbl[k.obj] == k.score)
    && (forall m :: m in tbl ==> Key(tbl[m], m) in ks)
  }

  lemma AgreeMeans(ks: seq<Key>, tbl: Table)
    ensures Agree(ks, tbl) <==> Matches(ks, tbl)
  {
    if Agree(ks, tbl) {
      forall k | k in ks ensures k.obj in tbl && tbl[k.obj] == k.score { assert k in Elements(ks); }
      forall m | m in tbl ensures Key(tbl[m], m) in ks { assert Key(tbl[m], m) in Pairs(tbl); }
    }
  }

  function KeyOf(tbl: Table, m: Obj): Key
    requires m in tbl
  {
    Key(tbl[m], m)
  }

  /** The members with a smaller (score, member) pair. */
  function Smaller(tbl: Table, k: Key): set<Obj> {
    set m | m in tbl && Before(KeyOf(tbl, m), k)
  }

  /** The rank of a member: one more than the number of smaller pairs. */
  function RankOf(tbl: Table, m: Obj): nat
    requires m in tbl
  {
    |Smaller(tbl, KeyOf(tbl, m))| + 1
  }

  /** In other words: the members with a smaller score, and those with the same score that
      are first in dictionary order, come before it. */
  lemma RankCountsThoseBefore(tbl: Table, m: Obj)
    requires m in tbl
    ensures var before := set o | o in tbl && (tbl[o] < tbl[m] || (tbl[o] == tbl[m] && LexLess(o, m)));
      RankOf(tbl, m) == |before| + 1
  {
    forall o | o in tbl ensures Before(KeyOf(tbl, o), KeyOf(tbl, m)) <==> Precedes(KeyOf(tbl, o), KeyOf(tbl, m)) {
      BeforeIsTotal(KeyOf(tbl, o), KeyOf(tbl, m));
    }
    assert Smaller(tbl, KeyOf(tbl, m)) == set o | o in tbl && (tbl[o] < tbl[m] || (tbl[o] == tbl[m] && LexLess(o, m)));
  }

  /** Of "a" and "b" with the same score, "a" has rank 1. */
  lemma TieExample(score: real)
    ensures var tbl: Table := map[[97] := score, [98] := score];
      RankOf(tbl, [97]) == 1 && RankOf(tbl, [98]) == 2
  {
    var tbl: Table := map[[97] := score, [98] := score];
    var ks := [Key(score, [97]), Key(score, [98])];
    assert LexLessAt([97], [98], 0);
    BeforeIsTotal(ks[0], ks[1]);
    RankIsIndex(ks, tbl, 0);
    RankIsIndex(ks, tbl, 1);
  }

  function Prefix(ks: seq<Key>, n: nat): set<Obj>
    requires n <= |ks|
  {
    set j | 0 <= j < n :: ks[j].obj
  }

  lemma AgreeHasUniqueMembers(ks: seq<Key>, tbl: Table)
    requires Sorted(ks) && Matches(ks, tbl)
    ensures UniqueObjects(ks)
  {
    forall a, b | 0 <= a < b < |ks| ensures ks[a].obj != ks[b].obj {
      assert ks[a] in ks && ks[b] in ks;
      SortedIsInjective(ks, a, b);
    }
  }

  lemma {:induction false} PrefixSize(ks: seq<Key>, n: nat)
    requires UniqueObjects(ks) && n <= |ks|
    ensures |Prefix(ks, n)| == n
  {
    if n > 0 {
      PrefixSize(ks, n - 1);
      assert ks[n - 1].obj !in Prefix(ks, n - 1);
      assert Prefix(ks, n) == Prefix(ks, n - 1) + {ks[n - 1].obj};
    }
  }

  /** The element at index j has rank j + 1. */
  lemma RankIsIndex(ks: seq<Key>, tbl: Table, j: nat)
    requires Sorted(ks) && Matches(ks, tbl) && j < |ks|
    ensures ks[j].obj in tbl && RankOf(tbl, ks[j].obj) == j + 1
  {
    assert ks[j] in ks;
    forall m ensures m in Smaller(tbl, ks[j]) <==> m in Prefix(ks, j) {
      if m in Smaller(tbl, ks[j]) {
        var i :| 0 <= i < |ks| && ks[i] == KeyOf(tbl, m);
        BeforeIsTotal(ks[j], ks[i]);
        assert i < j;
      }
      if m in Prefix(ks, j) {
        var i :| 0 <= i < j && ks[i].obj == m;
        assert ks[i] in ks;
      }
    }
    assert Smaller(tbl, ks[j]) == Prefix(ks, j);
    AgreeHasUniqueMembers(ks, tbl);
    PrefixSize(ks, j);
  }

  lemma MemberHasIndex(ks: seq<Key>, tbl: Table, m: Obj) returns (j: nat)
    requires Sorted(ks) && Matches(ks, tbl) && m in tbl
    ensures j < |ks| && ks[j] == KeyOf(tbl, m) && RankOf(tbl, m) == j + 1
  {
    j :| 0 <= j < |ks| && ks[j] == KeyOf(tbl, m);
    RankIsIndex(ks, tbl, j);
  }

  lemma RankIsBounded(ks: seq<Key>, tbl: Table, m: Obj)
    requires Sorted(ks) && Agree(ks, tbl) && m in tbl
    ensures 1 <= RankOf(tbl, m) <= |tbl|
  {
    AgreeMeans(ks, tbl);
    SameSize(ks, tbl);
    var j := MemberHasIndex(ks, tbl, m);
  }

  lemma SameSize(ks: seq<Key>, tbl: Table)
    requires Sorted(ks) && Matches(ks, tbl)
    ensures |ks| == |tbl|
  {
    AgreeHasUniqueMembers(ks, tbl);
    PrefixSize(ks, |ks|);
    forall m ensures m in tbl.Keys <==> m in Prefix(ks, |ks|) {
      if m in tbl {
        var j := MemberHasIndex(ks, tbl, m);
      }
      if m in Prefix(ks, |ks|) {
        var i :| 0 <= i < |ks| && ks[i].obj == m;
        assert ks[i] in ks;
      }
    }
    assert tbl.Keys == Prefix(ks, |ks|);
  }

  lemma SizesAgree(ks: seq<Key>, tbl: Table)
    requires Sorted(ks) && Agree(ks, tbl)
    ensures |ks| == |tbl|
  {
    AgreeMeans(ks, tbl);
    SameSize(ks, tbl);
  }

  /** The list is determined by the table. */
  lemma ListIsDetermined(ks: seq<Key>, ks': seq<Key>, tbl: Table)
    requires Sorted(ks) && Matches(ks, tbl) && Sorted(ks') && Matches(ks', tbl)
    ensures ks == ks'
  {
    forall k ensures k in ks <==> k in ks' {
      assert k in ks ==> k.obj in tbl && k == KeyOf(tbl, k.obj);
      assert k in ks' ==> k.obj in tbl && k == KeyOf(tbl, k.obj);
    }
    SortedIsDetermined(ks, ks');
  }

  // ----- what the operations do to the pairs -----

  lemma AgreeAfterCut(ks: seq<Key>, tbl: Table, lo: nat, hi: nat, tbl': Table)
    requires Sorted(ks) && Matches(ks, tbl) && lo <= hi <= |ks|
    requires tbl'.Keys == tbl.Keys - (set j | lo <= j < hi :: ks[j].obj)
    requires forall m :: m in tbl' ==> tbl'[m] == tbl[m]
    ensures Matches(Cut(ks, lo, hi), tbl')
  {
    var t := Cut(ks, lo, hi);
    forall k | k in t ensures k.obj in tbl' && tbl'[k.obj] == k.score {
      CutElements(ks, lo, hi, k);
      forall j | lo <= j < hi ensures ks[j].obj != k.obj {
        assert ks[j] in ks && ks[lo..hi][j - lo] == ks[j];
      }
    }
    forall m | m in tbl' ensures Key(tbl'[m], m) in t {
      var k := Key(tbl[m], m);
      CutElements(ks, lo, hi, k);
      forall j | 0 <= j < hi - lo ensures ks[lo..hi][j] != k {
        assert ks[lo..hi][j] == ks[lo + j];
      }
    }
  }

  lemma AgreeAfterInsert(ks: seq<Key>, tbl: Table, score: real, m: Obj)
    requires Sorted(ks) && Agree(ks, tbl) && m !in tbl
    ensures Key(score, m) !in ks && Agree(With(ks, Key(score, m)), tbl[m := score])
  {
    AgreeMeans(ks, tbl);
    var k := Key(score, m);
    WithIsInsertion(ks, k);
    var t := With(ks, k);
    forall x ensures x in t <==> x in ks || x == k {
      assert x in Elements(t) <==> x in Elements(ks) + {k};
    }
    AgreeMeans(t, tbl[m := score]);
  }

  lemma AgreeAfterTake(ks: seq<Key>, tbl: Table, score: real, m: Obj)
    requires Sorted(ks) && Agree(ks, tbl) && m in tbl && tbl[m] == score
    ensures Key(score, m) in ks && Agree(Without(ks, Key(score, m)), tbl - {m})
  {
    AgreeMeans(ks, tbl);
    var k := KeyOf(tbl, m);
    WithoutIsRemoval(ks, k);
    var t := Without(ks, k);
    forall x ensures x in t <==> x in ks && x != k {
      assert x in Elements(t) <==> x in Elements(ks) - {k};
    }
    AgreeMeans(t, tbl - {m});
  }

  /** The `n` lowest pairs. */
  function Lowest(tbl: Table, n: int): Table {
    map m | m in tbl && RankOf(tbl, m) <= n :: tbl[m]
  }

  /** The `n` highest pairs. */
  function Highest(tbl: Table, n: int): Table {
    map m | m in tbl && RankOf(tbl, m) > |tbl| - n :: tbl[m]
  }

  function Members(os: seq<Obj>): set<Obj> {
    set o | o in os
  }

  lemma MembersOfSlice(ks: seq<Key>, lo: nat, hi: nat)
    requires lo <= hi <= |ks|
    ensures Members(Objs(ks[lo..hi])) == set j | lo <= j < hi :: ks[j].obj
  {
    var os := Objs(ks[lo..hi]);
    forall o ensures o in os <==> exists j :: lo <= j < hi && ks[j].obj == o {
      if o in os {
        var i :| 0 <= i < |os| && os[i] == o;
        assert ks[lo + i].obj == o;
      }
      if j :| lo <= j < hi && ks[j].obj == o { assert os[j - lo] == o; }
    }
  }

  lemma SliceHasRanks(ks: seq<Key>, tbl: Table, lo: nat, hi: nat, m: Obj)
    requires Sorted(ks) && Matches(ks, tbl) && lo <= hi <= |ks| && m in tbl
    ensures (exists j :: lo <= j < hi && ks[j].obj == m) <==> lo < RankOf(tbl, m) <= hi
    ensures RankOf(tbl, m) <= |ks|
  {
    var j := MemberHasIndex(ks, tbl, m);
    if i :| lo <= i < hi && ks[i].obj == m { RankIsIndex(ks, tbl, i); }
  }

  lemma RanksOutside(ks: seq<Key>, tbl: Table, lo: nat, hi: nat, m: Obj)
    requires Sorted(ks) && Matches(ks, tbl) && lo <= hi <= |ks| && m in tbl
    ensures m in Members(Objs(ks[lo..hi])) <==> lo < RankOf(tbl, m) <= hi
    ensures RankOf(tbl, m) <= |ks|
  {
    MembersOfSlice(ks, lo, hi);
    SliceHasRanks(ks, tbl, lo, hi, m);
  }

  lemma AgreeAfterRankCut(ks: seq<Key>, tbl: Table, lo: nat, hi: nat)
    requires Sorted(ks) && Agree(ks, tbl) && lo <= hi <= |ks|
    ensures Agree(Cut(ks, lo, hi), tbl - Members(Objs(ks[lo..hi])))
  {
    AgreeMeans(ks, tbl);
    MembersOfSlice(ks, lo, hi);
    AgreeAfterCut(ks, tbl, lo, hi, tbl - Members(Objs(ks[lo..hi])));
    AgreeMeans(Cut(ks, lo, hi), tbl - Members(Objs(ks[lo..hi])));
  }

  /** Taking the members behind the first `n` out of the table leaves the lowest. */
  lemma CutLeavesLowest(ks: seq<Key>, tbl: Table, n: nat, total: nat)
    requires Sorted(ks) && Agree(ks, tbl) && n <= |ks| == total
    ensures tbl - Members(Objs(ks[n..total])) == Lowest(tbl, n)
  {
    AgreeMeans(ks, tbl);
    forall m | m in tbl ensures m !in Members(Objs(ks[n..total])) <==> RankOf(tbl, m) <= n {
      RanksOutside(ks, tbl, n, total, m);
    }
  }

  /** Taking out those before the last `n` leaves the highest. */
  lemma CutLeavesHighest(ks: seq<Key>, tbl: Table, n: nat, lo: nat, hi: nat)
    requires Sorted(ks) && Agree(ks, tbl) && lo == 0 && n + hi == |ks|
    ensures tbl - Members(Objs(ks[lo..hi])) == Highest(tbl, n)
  {
    AgreeMeans(ks, tbl);
    SizesAgree(ks, tbl);
    forall m | m in tbl ensures m !in Members(Objs(ks[lo..hi])) <==> RankOf(tbl, m) > |tbl| - n {
      RanksOutside(ks, tbl, lo, hi, m);
    }
  }

  /** The pairs whose ranks are not among lo+1..hi. */
  function OutsideRanks(tbl: Table, lo: nat, hi: nat): Table {
    map m | m in tbl && !(lo < RankOf(tbl, m) <= hi) :: tbl[m]
  }

  lemma CutLeavesOutside(ks: seq<Key>, tbl: Table, lo: nat, hi: nat)
    requires Sorted(ks) && Agree(ks, tbl) && lo <= hi <= |ks|
    ensures tbl - Members(Objs(ks[lo..hi])) == OutsideRanks(tbl, lo, hi)
  {
    AgreeMeans(ks, tbl);
    forall m | m in tbl ensures m in Members(Objs(ks[lo..hi])) <==> lo < RankOf(tbl, m) <= hi {
      RanksOutside(ks, tbl, lo, hi, m);
    }
  }

  /** The rank slGetRank finds for a member and its score is the member's rank. */
  lemma FoundRankIsRankOf(ks: seq<Key>, tbl: Table, m: Obj, rank: nat)
    requires Sorted(ks) && Agree(ks, tbl) && m in tbl && FoundRank(ks, KeyOf(tbl, m), rank)
    ensures rank == RankOf(tbl, m)
  {
    AgreeMeans(ks, tbl);
    var j := MemberHasIndex(ks, tbl, m);
    AgreeHasUniqueMembers(ks, tbl);
    FoundRankIsRank(ks, KeyOf(tbl, m), rank);
  }

  /** The bounds that limit and rev_limit pass on cut where they should. */
  lemma LimitBounds(total: nat, count: nat)
    requires count < total < 0x1_0000_0000
    ensures FirstCut(total, Lua.LowerOf(count + 1, total)) == count
    ensures LastCut(total, Lua.LowerOf(count + 1, total), Lua.UpperOf(count + 1, total)) == total
    ensures FirstCut(total, Lua.LowerOf(total - count, 1)) == 0
    ensures LastCut(total, Lua.LowerOf(total - count, 1), Lua.UpperOf(total - count, 1)) == total - count
  {
    assert U32(count + 1) == count + 1 && U32(total) == total && U32(total - count) == total - count && U32(1) == 1;
  }

  /** Which ranks a deletion with these bounds takes: those behind the first, up to the second. */
  function CutFrom(total: nat, from: int, to: int): nat {
    FirstCut(total, Lua.LowerOf(from, to))
  }

  function CutTo(total: nat, from: int, to: int): nat {
    LastCut(total, Lua.LowerOf(from, to), Lua.UpperOf(from, to))
  }

  /** limit with a negative count deletes everything exactly if the bound count + 1 becomes 0 or
      1 as an `unsigned int`, or there is at most one member. With -2 the bound is beyond the
      end, and after the swap of the bounds only the last rank is between them. */
  lemma NegativeLimitIsExact(total: nat, count: int)
    requires count < 0 && total < 0x1_0000_0000
    ensures CutFrom(total, count + 1, total) == 0 && CutTo(total, count + 1, total) == total <==>
      total <= 1 || U32(count + 1) <= 1
    ensures count == -2 && total > 1 ==> CutFrom(total, count + 1, total) == total - 1 && CutTo(total, count + 1, total) == total
  {
    assert U32(total) == total;
    assert count == -2 ==> U32(count + 1) == 0xFFFF_FFFF;
  }

  // ----- ranges by descending rank -----

  function ClampRank(r: int): nat {
    if r < 1 then 1 else r
  }

  /** The members with the descending ranks r1..r2. */
  function DescendingRanks(ks: seq<Key>, r1: nat, r2: nat): seq<Obj>
    requires 1 <= r1 <= r2
  {
    if r1 > |ks| then [] else Lua.Reversed(Objs(ks))[r1 - 1..if r2 <= |ks| then r2 else |ks|]
  }

  /** What rev_range returns. */
  function RevRangeResult(ks: seq<Key>, r1: int, r2: int): seq<Obj> {
    Lua.RankSlice(ks, ClampRank(ReverseOf(|ks|, r1)), ClampRank(ReverseOf(|ks|, r2)))
  }

  /** `_reverse_rank`, in a set of `n` members. */
  function ReverseOf(n: nat, r: int): int {
    Lua.Int64(n - r + 1)
  }

  lemma ReverseOfRank(n: nat, r: int)
    requires 0 <= r < 0x8000_0000_0000_0000 && n < 0x1_0000_0000
    ensures ReverseOf(n, r) == n - r + 1
  {
  }

  /** Ranks are passed on to the list unchanged. */
  lemma RangeOfReverse(ks: seq<Key>, a: int, b: int, r1: int, r2: int)
    requires a == ReverseOf(|ks|, r1) && b == ReverseOf(|ks|, r2)
    ensures Lua.RankSlice(ks, Lua.U64(ClampRank(a)), Lua.U64(ClampRank(b))) == RevRangeResult(ks, r1, r2)
  {
    assert Lua.U64(ClampRank(a)) == ClampRank(a) && Lua.U64(ClampRank(b)) == ClampRank(b);
  }

  /** The wrap-around of 64 bits does not show in 32. */
  lemma Int64KeepsU32(x: int)
    ensures U32(Lua.Int64(x)) == U32(x)
  {
    var y := Lua.Int64(x);
    var k := (x + 0x8000_0000_0000_0000) / 0x1_0000_0000_0000_0000;
    assert y == x - 0x1_0000_0000_0000_0000 * k;
    assert y % 0x1_0000_0000 == x % 0x1_0000_0000 by {
      assert y == x + 0x1_0000_0000 * (0 - 0x1_0000_0000 * k);
      Lua.ModPlusMultiple(x, 0 - 0x1_0000_0000 * k);
    }
  }

  /** rev_limit with a negative count deletes everything exactly if the bound total - count is not
      below the number of members as an `unsigned int`, or there is at most one. With two
      members and 1 - 2^32 the bound becomes 1, and only the lowest member goes. */
  lemma NegativeRevLimitIsExact(total: nat, count: int)
    requires count < 0 && total < 0x1_0000_0000
    ensures var from := ReverseOf(total, count + 1);
      CutFrom(total, from, 1) == 0 && (CutTo(total, from, 1) == total <==> total <= 1 || U32(total - count) >= total)
    ensures total == 2 && count == 1 - 0x1_0000_0000 ==> CutTo(total, ReverseOf(total, count + 1), 1) == 1
  {
    Int64KeepsU32(total - count);
    assert U32(ReverseOf(total, count + 1)) == U32(total - count) && U32(1) == 1;
    assert U32(0x1_0000_0001) == 1;
  }

  /** rev_range(r1, r2) is the range of descending ranks exactly if r1 is a rank (or
      the set is empty) and the length fits an `int`; beyond the last rank it
      returns the lowest member instead of nothing. */
  lemma RevRangeIsExact(ks: seq<Key>, r1: nat, r2: nat)
    requires 1 <= r1 <= r2 < 0x8000_0000_0000_0000 && |ks| < 0x1_0000_0000
    ensures var a, b := ClampRank(|ks| - r1 + 1), ClampRank(|ks| - r2 + 1);
      RevRangeResult(ks, r1, r2) == DescendingRanks(ks, r1, r2) <==>
      ks == [] || (r1 <= |ks| && |DescendingRanks(ks, r1, r2)| <= Lua.Wanted(a, b))
  {
    if r1 > |ks| {
      BeyondTheLast(ks, r1, r2);
    } else {
      var a, b := ClampRank(|ks| - r1 + 1), ClampRank(|ks| - r2 + 1);
      Lua.RankSliceIsExact(ks, a, b);
      DescendingIsRanksBetween(ks, r1, r2);
    }
  }

  /** Rank 3 of two members: the lowest member is returned instead of nothing. */
  lemma RevRangeExample(low: Obj, high: Obj)
    ensures var ks := [Key(1.0, low), Key(2.0, high)];
      RevRangeResult(ks, 3, 3) == [low] && DescendingRanks(ks, 3, 3) == []
  {
    assert Lua.Wanted(1, 1) == 1;
  }

  lemma BeyondTheLast(ks: seq<Key>, r1: nat, r2: nat)
    requires 1 <= r1 <= r2 < 0x8000_0000_0000_0000 && |ks| < 0x1_0000_0000 && r1 > |ks|
    ensures DescendingRanks(ks, r1, r2) == [] && (RevRangeResult(ks, r1, r2) == [] <==> ks == [])
  {
    assert ClampRank(|ks| - r1 + 1) == 1 && ClampRank(|ks| - r2 + 1) == 1;
    assert Lua.Wanted(1, 1) == 1;
    assert ks != [] ==> |Lua.Collect(ks, 1, false, 1)| == 1;
  }

  lemma DescendingIsRanksBetween(ks: seq<Key>, r1: nat, r2: nat)
    requires 1 <= r1 <= r2 && r1 <= |ks|
    ensures DescendingRanks(ks, r1, r2) == Lua.RanksBetween(ks, |ks| - r1 + 1, ClampRank(|ks| - r2 + 1))
  {
    var hi := if r2 <= |ks| then r2 else |ks|;
    SliceOfReversed(ks, r1 - 1, hi);
    ReversedRanks(ks, |ks| - r1 + 1, |ks| - hi + 1);
  }

  lemma ReversedRanks(ks: seq<Key>, a: nat, b: nat)
    requires 1 <= b <= a <= |ks|
    ensures Lua.RanksBetween(ks, a, b) == Lua.Reversed(Objs(ks[b - 1..a]))
  {
    if a == b {
      assert Lua.Reversed(Objs(ks[a - 1..a])) == Objs(ks[a - 1..a]);
    }
  }

  lemma SliceOfReversed(ks: seq<Key>, i: nat, j: nat)
    requires i <= j <= |ks|
    ensures Lua.Reversed(Objs(ks))[i..j] == Lua.Reversed(Objs(ks[|ks| - j..|ks| - i]))
  {
    var n, part := |ks|, ks[|ks| - j..|ks| - i];
    var left, right := Lua.Reversed(Objs(ks))[i..j], Lua.Reversed(Objs(part));
    forall x | 0 <= x < j - i ensures left[x] == right[x] {
      assert left[x] == Lua.Reversed(Objs(ks))[i + x];
      assert Lua.Reversed(Objs(ks))[i + x] == Objs(ks)[n - 1 - i - x];
      assert right[x] == Objs(part)[j - i - 1 - x];
      assert part[j - i - 1 - x] == ks[n - 1 - i - x];
    }
  }

  lemma RankUpwards(ks: seq<Key>, a: nat, b: nat, j: nat)
    requires 1 <= a <= |ks| && a <= b && j < |Lua.RanksBetween(ks, a, b)|
    ensures a - 1 + j < |ks| && Lua.RanksBetween(ks, a, b)[j] == ks[a - 1 + j].obj
  {
    Lua.SliceAt(ks, a - 1, if b <= |ks| then b else |ks|, j);
  }

  lemma RankDownwards(ks: seq<Key>, a: nat, b: nat, j: nat)
    requires 1 <= b < a <= |ks| && j < |Lua.RanksBetween(ks, a, b)|
    ensures 0 <= a - 1 - j && Lua.RanksBetween(ks, a, b)[j] == ks[a - 1 - j].obj
  {
    Lua.SliceAt(ks, b - 1, a, j);
  }

  /** Member by member: the ranks in `out` count from `a` towards `b`. */
  ghost predicate CountsFrom(tbl: Table, out: seq<Obj>, a: nat, b: nat) {
    forall j :: 0 <= j < |out| ==> out[j] in tbl && RankOf(tbl, out[j]) == if a <= b then a + j else a - j
  }

  lemma RanksBetweenCount(ks: seq<Key>, tbl: Table, a: nat, b: nat)
    requires Sorted(ks) && Agree(ks, tbl) && 1 <= a && 1 <= b
    ensures CountsFrom(tbl, Lua.RanksBetween(ks, a, b), a, b)
  {
    AgreeMeans(ks, tbl);
    var out := Lua.RanksBetween(ks, a, b);
    forall j | 0 <= j < |out| ensures out[j] in tbl && RankOf(tbl, out[j]) == if a <= b then a + j else a - j {
      if a <= b {
        RankUpwards(ks, a, b, j);
        RankIsIndex(ks, tbl, a - 1 + j);
      } else {
        RankDownwards(ks, a, b, j);
        RankIsIndex(ks, tbl, a - 1 - j);
      }
    }
  }

  /** Below 2^31 ranks, range(r1, r2) returns the members with the ranks r1, r1 + 1 and so on
      up to r2, or down to it when r1 is the greater one; a bound below 1 counts as 1. */
  lemma RangeIsByRank(ks: seq<Key>, tbl: Table, r1: int, r2: int)
    requires Sorted(ks) && Agree(ks, tbl)
    requires r1 < 0x8000_0000 && r2 < 0x8000_0000
    ensures var a, b := if r1 < 1 then 1 else r1, if r2 < 1 then 1 else r2;
      var out := Lua.RankSlice(ks, Lua.U64(ClampRank(r1)), Lua.U64(ClampRank(r2)));
      && CountsFrom(tbl, out, a, b)
      && |out| == if a > |tbl| then 0 else if a > b then a - b + 1 else if b <= |tbl| then b - a + 1 else |tbl| - a + 1
  {
    var a, b := ClampRank(r1), ClampRank(r2);
    SizesAgree(ks, tbl);
    Lua.RankSliceIsExact(ks, a, b);
    RanksBetweenCount(ks, tbl, a, b);
  }

  /** The descending ranks r1..r2 are the ranks |tbl| + 1 - r1 downwards. */
  lemma DescendingIsByRank(ks: seq<Key>, tbl: Table, r1: nat, r2: nat)
    requires Sorted(ks) && Agree(ks, tbl) && 1 <= r1 <= r2 && r1 <= |tbl|
    ensures var out := DescendingRanks(ks, r1, r2);
      && (forall j :: 0 <= j < |out| ==> out[j] in tbl && RankOf(tbl, out[j]) == |tbl| + 1 - r1 - j)
      && |out| == if r2 <= |tbl| then r2 - r1 + 1 else |tbl| - r1 + 1
  {
    SizesAgree(ks, tbl);
    var a, b := |ks| - r1 + 1, ClampRank(|ks| - r2 + 1);
    DescendingIsRanksBetween(ks, r1, r2);
    RanksBetweenCount(ks, tbl, a, b);
  }

  // ----- whole runs -----

  datatype Op = Add(score: real, member: Obj, height: nat) | Rem(member: Obj) | Limit(n: nat) | RevLimit(n: nat)

  /** What an operation means for the table. */
  function Apply(tbl: Table, op: Op): Table {
    match op
    case Add(score, member, _) => tbl[member := score]
    case Rem(member) => tbl - {member}
    case Limit(n) => Lowest(tbl, n)
    case RevLimit(n) => Highest(tbl, n)
  }

  function ApplyAll(tbl: Table, ops: seq<Op>): Table {
    if ops == [] then tbl else Apply(ApplyAll(tbl, ops[..|ops| - 1]), ops[|ops| - 1])
  }

  /** With nothing to take away the lowest and the highest are all. */
  lemma NothingToLimit(ks: seq<Key>, tbl: Table, n: int)
    requires Sorted(ks) && Agree(ks, tbl) && |tbl| <= n
    ensures Lowest(tbl, n) == tbl && Highest(tbl, n) == tbl
  {
    AgreeMeans(ks, tbl);
    SameSize(ks, tbl);
    forall m | m in tbl ensures 1 <= RankOf(tbl, m) <= n {
      var j := MemberHasIndex(ks, tbl, m);
    }
  }

  class ZSet {
    const sl: SkipList
    var tbl: Table

    ghost predicate Valid()
      reads this, sl, sl.chain
    {
      && sl.Valid()
      && Agree(sl.Keys(), tbl)
    }

    constructor ()
      ensures Valid() && tbl == map[]
      ensures fresh(sl) && fresh(sl.chain)
    {
      sl := new SkipList();
      tbl := map[];
    }

    /** sl:delete of a pair that is there, and the table entry goes with it. */
    method Take(score: real, member: Obj)
      requires Valid() && member in tbl && tbl[member] == score
      modifies this, sl, sl.chain
      ensures Valid() && tbl == old(tbl) - {member}
      ensures sl.length == old(sl.length) - 1
      ensures forall r :: 0 <= r < |sl.chain| ==> sl.chain[r] in old(sl.chain)
    {
      AgreeAfterTake(sl.Keys(), tbl, score, member);
      var found := sl.Delete(score, member);
      tbl := tbl - {member};
    }

    /** add; `height` is the random level of the new node. */
    method Add(score: real, member: Obj, height: nat)
      requires Valid() && 1 <= height <= MAXLEVEL && sl.length < 0xFFFF_FFFF
      modifies this, sl, sl.chain
      ensures Valid() && tbl == old(tbl)[member := score]
      ensures forall r :: 0 <= r < |sl.chain| ==> sl.chain[r] in old(sl.chain) || fresh(sl.chain[r])
    {
      if member in tbl {
        var previous := tbl[member];
        if previous == score { return; }
        Take(previous, member);
      }
      Put(score, member, height);
    }

    /** sl:insert of a new member, and its table entry. */
    method Put(score: real, member: Obj, height: nat)
      requires Valid() && 1 <= height <= MAXLEVEL && sl.length < 0xFFFF_FFFF && member !in tbl
      modifies this, sl, sl.chain
      ensures Valid() && tbl == old(tbl)[member := score]
      ensures forall r :: 0 <= r < |sl.chain| ==> sl.chain[r] in old(sl.chain) || fresh(sl.chain[r])
    {
      AgreeAfterInsert(sl.Keys(), tbl, score, member);
      sl.Insert(score, member, height);
      tbl := tbl[member := score];
    }

    /** rem. */
    method Rem(member: Obj)
      requires Valid()
      modifies this, sl, sl.chain
      ensures Valid() && tbl == old(tbl) - {member}
      ensures forall r :: 0 <= r < |sl.chain| ==> sl.chain[r] in old(sl.chain)
    {
      if member in tbl {
        Take(tbl[member], member);
      }
    }

    method Count() returns (n: nat)
      requires Valid()
      ensures n == |tbl| == |sl.Keys()| < 0x1_0000_0000
    {
      SizesAgree(sl.Keys(), tbl);
      n := sl.length;
    }

    /** The callback of limit and rev_limit, once for every object deleted. */
    method Forget(called: seq<Obj>)
      modifies this`tbl
      ensures tbl == old(tbl) - Members(called)
    {
      for i := 0 to |called|
        invariant tbl == old(tbl) - Members(called[..i])
      {
        tbl := tbl - {called[i]};
        assert Members(called[..i + 1]) == Members(called[..i]) + {called[i]} by {
          assert called[..i + 1] == called[..i] + [called[i]];
        }
      }
      assert called[..|called|] == called;
    }

    /** delete_by_rank with the callback that clears the table entries. */
    method Purge(from: int, to: int, ghost lo: nat, ghost hi: nat) returns (removed: nat)
      requires Valid()
      requires lo == CutFrom(sl.length, from, to) && hi == CutTo(sl.length, from, to)
      modifies this, sl, sl.chain
      ensures Valid() && lo <= hi <= |old(sl.Keys())|
      ensures tbl == OutsideRanks(old(tbl), lo, hi)
      ensures removed == old(|tbl|) - |tbl|
      ensures forall r :: 0 <= r < |sl.chain| ==> sl.chain[r] in old(sl.chain)
    {
      SizesAgree(sl.Keys(), tbl);
      AgreeAfterRankCut(sl.Keys(), tbl, lo, hi);
      CutLeavesOutside(sl.Keys(), tbl, lo, hi);
      var called;
      removed, called := Lua.DeleteByRank(sl, from, to);
      Forget(called);
      SizesAgree(sl.Keys(), tbl);
    }

    /** limit. */
    method Limit(count: int) returns (removed: nat)
      requires Valid()
      modifies this, sl, sl.chain
      ensures Valid()
      ensures count >= 0 ==> tbl == Lowest(old(tbl), count)
      ensures count < 0 ==> tbl == var n := |old(tbl)|; OutsideRanks(old(tbl), CutFrom(n, count + 1, n), CutTo(n, count + 1, n))
      ensures removed == old(|tbl|) - |tbl|
      ensures forall r :: 0 <= r < |sl.chain| ==> sl.chain[r] in old(sl.chain)
    {
      var total := Count();
      if total <= count {
        NothingToLimit(sl.Keys(), tbl, count);
        return 0;
      }
      ghost var lo, hi := CutFrom(total, count + 1, total), CutTo(total, count + 1, total);
      if count >= 0 {
        LimitBounds(total, count);
        CutLeavesLowest(sl.Keys(), tbl, count, total);
        CutLeavesOutside(sl.Keys(), tbl, lo, hi);
      }
      removed := Purge(count + 1, total, lo, hi);
    }

    /** _reverse_rank. */
    method ReverseRank(r: int) returns (r': int)
      requires Valid()
      ensures r' == ReverseOf(|tbl|, r)
    {
      var total := Count();
      r' := Lua.Int64(total - r + 1);
    }

    /** rev_limit. */
    method RevLimit(count: int) returns (removed: nat)
      requires Valid()
      modifies this, sl, sl.chain
      ensures Valid()
      ensures count >= 0 ==> tbl == Highest(old(tbl), count)
      ensures count < 0 ==> tbl == var n := |old(tbl)|;
        OutsideRanks(old(tbl), CutFrom(n, ReverseOf(n, count + 1), 1), CutTo(n, ReverseOf(n, count + 1), 1))
      ensures removed == old(|tbl|) - |tbl|
      ensures forall r :: 0 <= r < |sl.chain| ==> sl.chain[r] in old(sl.chain)
    {
      var total := Count();
      if total <= count {
        NothingToLimit(sl.Keys(), tbl, count);
        return 0;
      }
      var from := ReverseRank(count + 1);
      var to := ReverseRank(total);
      ReverseOfRank(total, total);
      ghost var lo, hi := CutFrom(total, from, to), CutTo(total, from, to);
      if count >= 0 {
        ReverseOfRank(total, count + 1);
        LimitBounds(total, count);
        CutLeavesHighest(sl.Keys(), tbl, count, lo, hi);
        CutLeavesOutside(sl.Keys(), tbl, lo, hi);
      }
      removed := Purge(from, to, lo, hi);
    }

    method Score(member: Obj) returns (score: Option<real>)
      ensures score == if member in tbl then Some(tbl[member]) else None
    {
      score := if member in tbl then Some(tbl[member]) else None;
    }

    /** rank. */
    method Rank(member: Obj) returns (rank: Option<nat>)
      requires Valid()
      ensures rank == if member in tbl then Some(RankOf(tbl, member)) else None
      ensures rank.Some? ==> rank.value <= |tbl|
    {
      if member !in tbl { return None; }
      RankIsBounded(sl.Keys(), tbl, member);
      var r := sl.GetRank(tbl[member], member);
      FoundRankIsRankOf(sl.Keys(), tbl, member, r);
      if r == 0 { return None; }
      rank := Some(r);
    }

    /** rev_rank. */
    method RevRank(member: Obj) returns (rank: Option<int>)
      requires Valid()
      ensures rank == if member in tbl then Some(|tbl| + 1 - RankOf(tbl, member)) else None
    {
      var r := Rank(member);
      if r == None { return None; }
      var r' := ReverseRank(r.value);
      SizesAgree(sl.Keys(), tbl);
      ReverseOfRank(|tbl|, r.value);
      rank := Some(r');
    }

    /** range. */
    method Range(r1: int, r2: int) returns (out: seq<Obj>)
      requires Valid()
      ensures out == Lua.RankSlice(sl.Keys(), Lua.U64(ClampRank(r1)), Lua.U64(ClampRank(r2)))
    {
      var a, b := r1, r2;
      if a < 1 { a := 1; }
      if b < 1 { b := 1; }
      out := Lua.GetRankRange(sl, a, b);
    }

    /** rev_range. */
    method RevRange(r1: int, r2: int) returns (out: seq<Obj>)
      requires Valid()
      ensures out == RevRangeResult(sl.Keys(), r1, r2)
    {
      SizesAgree(sl.Keys(), tbl);
      var a := ReverseRank(r1);
      var b := ReverseRank(r2);
      out := Range(a, b);
      RangeOfReverse(sl.Keys(), a, b, r1, r2);
    }

    /** range_by_score. */
    method RangeByScore(s1: real, s2: real) returns (out: seq<Obj>)
      requires Valid()
      ensures s1 <= s2 ==> out == Objs(Lua.InRangeKeys(sl.Keys(), s1, s2))
      ensures s1 > s2 ==> out == Lua.Reversed(Objs(Lua.InRangeKeys(sl.Keys(), s2, s1)))
    {
      out := Lua.GetScoreRange(sl, s1, s2);
    }

    /** Every run of operations, with any choice of levels, keeps the list and the
        table in step, and leaves in the table what the operations mean. */
    method Run(ops: seq<Op>)
      requires Valid() && |tbl| + |ops| < 0xFFFF_FFFF
      requires forall op :: op in ops && op.Add? ==> 1 <= op.height <= MAXLEVEL
      modifies this, sl, sl.chain
      ensures Valid() && tbl == ApplyAll(old(tbl), ops)
    {
      for i := 0 to |ops|
        invariant Valid() && tbl == ApplyAll(old(tbl), ops[..i])
        invariant |tbl| <= old(|tbl|) + i
        invariant forall r :: 0 <= r < |sl.chain| ==> sl.chain[r] in old(sl.chain) || fresh(sl.chain[r])
      {
        assert ops[..i + 1][..i] == ops[..i];
        Execute(ops[i]);
      }
      assert ops[..|ops|] == ops;
    }

    method Execute(op: Op)
      requires Valid() && |tbl| < 0xFFFF_FFFF && (op.Add? ==> 1 <= op.height <= MAXLEVEL)
      modifies this, sl, sl.chain
      ensures Valid() && tbl == Apply(old(tbl), op) && |tbl| <= old(|tbl|) + 1
      ensures forall r :: 0 <= r < |sl.chain| ==> sl.chain[r] in old(sl.chain) || fresh(sl.chain[r])
    {
      match op
      case Add(score, member, height) =>
        SizesAgree(sl.Keys(), tbl);
        Add(score, member, height);
      case Rem(member) =>
        Rem(member);
      case Limit(n) =>
        var removed := Limit(n);
      case RevLimit(n) =>
        var removed := RevLimit(n);
    }
  }
}
