/** The Lua binding of the skip list, lualib-src/lua-skiplist/lua-skiplist.c: how it
    converts its integer arguments, and the loops that collect a range. */
module LuaSkipList {
  import opened SkipOrder
  import opened SkipRanges
  import opened SkipNodes
  import opened SkipList
  import opened Wrappers

  /** Conversion of a lua_Integer to `unsigned long`. */
  function U64(x: int): nat {
    if 0 <= x < 0x1_0000_0000_0000_0000 then x else x % 0x1_0000_0000_0000_0000
  }

  /** Conversion to `int`. */
  function Int32(x: int): int {
    if -0x8000_0000 <= x < 0x8000_0000 then x
    else (x + 0x8000_0000) % 0x1_0000_0000 - 0x8000_0000
  }

  /** What is left of the result of an integer operation of Lua. */
  function Int64(x: int): int {
    if -0x8000_0000_0000_0000 <= x < 0x8000_0000_0000_0000 then x
    else (x + 0x8000_0000_0000_0000) % 0x1_0000_0000_0000_0000 - 0x8000_0000_0000_0000
  }

  /** They keep the value modulo 2^32 or 2^64 and are in the range of their type. */
  lemma ConversionsWrap(x: int)
    ensures U32(x) == x % 0x1_0000_0000 && U64(x) == x % 0x1_0000_0000_0000_0000
    ensures -0x8000_0000 <= Int32(x) < 0x8000_0000 && U32(Int32(x)) == U32(x)
    ensures -0x8000_0000_0000_0000 <= Int64(x) < 0x8000_0000_0000_0000 && U64(Int64(x)) == U64(x)
  {
    ModPlusMultiple(x, 0 - (x + 0x8000_0000) / 0x1_0000_0000);
    ModPlusMultiple64(x, 0 - (x + 0x8000_0000_0000_0000) / 0x1_0000_0000_0000_0000);
  }

  lemma ModPlusMultiple(x: int, k: int)
    ensures (x + 0x1_0000_0000 * k) % 0x1_0000_0000 == x % 0x1_0000_0000
  {
  }

  lemma ModPlusMultiple64(x: int, k: int)
    ensures (x + 0x1_0000_0000_0000_0000 * k) % 0x1_0000_0000_0000_0000 == x % 0x1_0000_0000_0000_0000
  {
  }

  function Reversed<T>(s: seq<T>): (r: seq<T>)
    ensures |r| == |s|
    ensures forall j {:trigger r[j]} :: 0 <= j < |s| ==> r[j] == s[|s| - 1 - j]
  {
    seq(|s|, j requires 0 <= j < |s| => s[|s| - 1 - j])
  }

  /** The number of nodes the loop of _get_rank_range may collect between the ranks
      `a` and `b`; the difference is stored in an `int`. */
  function Wanted(a: nat, b: nat): nat {
    var n := Int32(if a <= b then b - a + 1 else a - b + 1);
    if n > 0 then n else 0
  }

  /** What _get_rank_range returns from rank `a` towards rank `b`. */
  function RankSlice(ks: seq<Key>, a: nat, b: nat): seq<Obj> {
    Collect(ks, a, a > b, Wanted(a, b))
  }

  /** Up to `n` objects from rank `a` on. */
  function Collect(ks: seq<Key>, a: nat, reverse: bool, n: nat): seq<Obj> {
    if a == 0 || a > |ks| then []
    else if reverse then Reversed(Objs(ks[if n <= a then a - n else 0..a]))
    else Objs(ks[a - 1..if n <= |ks| - a + 1 then a - 1 + n else |ks|])
  }

  /** The elements with the ranks between `a` and `b`, from `a` on. */
  function RanksBetween(ks: seq<Key>, a: nat, b: nat): seq<Obj> {
    if a == 0 || a > |ks| then []
    else if a <= b then Objs(ks[a - 1..if b <= |ks| then b else |ks|])
    else Reversed(Objs(ks[if b > 0 then b - 1 else 0..a]))
  }

  /** The slice is the one asked for exactly if the number of elements asked for
      survives its conversion to `int`. */
  lemma RankSliceIsExact(ks: seq<Key>, a: nat, b: nat)
    ensures RankSlice(ks, a, b) == RanksBetween(ks, a, b) <==> |RanksBetween(ks, a, b)| <= Wanted(a, b)
    ensures (if a <= b then b - a else a - b) < 0x7FFF_FFFF ==> RankSlice(ks, a, b) == RanksBetween(ks, a, b)
  {
    assert |RankSlice(ks, a, b)| <= Wanted(a, b);
  }

  /** With 2^31 ranks asked for nothing is returned, though the first one is there. */
  lemma RankSliceExample(k: Key)
    ensures RankSlice([k], 1, 0x8000_0000) == [] && RanksBetween([k], 1, 0x8000_0000) == [k.obj]
  {
    assert Wanted(1, 0x8000_0000) == 0;
  }

  /** The elements with a score in the range, in order. */
  function InRangeKeys(ks: seq<Key>, min: real, max: real): seq<Key> {
    if ks == [] then []
    else (if InRange(ks[0], min, max) then [ks[0]] else []) + InRangeKeys(ks[1..], min, max)
  }

  lemma {:induction false} InRangeIsSlice(ks: seq<Key>, min: real, max: real, f: nat, l: nat)
    requires f <= l <= |ks|
    requires forall j :: 0 <= j < |ks| ==> (InRange(ks[j], min, max) <==> f <= j < l)
    ensures InRangeKeys(ks, min, max) == ks[f..l]
  {
    if ks != [] {
      var t := ks[1..];
      assert forall j :: 0 <= j < |t| ==> t[j] == ks[j + 1];
      var f', l' := if f > 0 then f - 1 else 0, if l > 0 then l - 1 else 0;
      InRangeIsSlice(t, min, max, f', l');
      assert t[f'..l'] == ks[f' + 1..l' + 1];
      if f == 0 && l > 0 { assert ks[f..l] == [ks[0]] + ks[1..l]; }
    }
  }

  /** The bounds of _delete_by_rank: converted, and swapped when out of order. */
  function LowerOf(a: int, b: int): nat {
    if U32(a) <= U32(b) then U32(a) else U32(b)
  }

  function UpperOf(a: int, b: int): nat {
    if U32(a) <= U32(b) then U32(b) else U32(a)
  }

  /** _delete_by_rank. */
  method DeleteByRank(sl: SkipList, a: int, b: int) returns (removed: nat, called: seq<Obj>)
    requires sl.Valid()
    modifies sl, sl.chain
    ensures sl.Valid()
    ensures var lo := FirstCut(|old(sl.Keys())|, LowerOf(a, b));
      var hi := LastCut(|old(sl.Keys())|, LowerOf(a, b), UpperOf(a, b));
      removed == hi - lo && called == Objs(old(sl.Keys())[lo..hi]) && sl.Keys() == Cut(old(sl.Keys()), lo, hi)
    ensures sl.length == old(sl.length) - removed
    ensures forall r :: 0 <= r < |sl.chain| ==> sl.chain[r] in old(sl.chain)
  {
    var start, end := U32(a), U32(b);
    if start > end {
      start, end := end, start;
    }
    removed, called := sl.DeleteByRank(start, end);
  }

  // ----- collecting loops -----

  /** The index of the element a walk from rank `a` meets after `n` steps. */
  function IndexAfter(a: nat, reverse: bool, n: nat): int {
    if reverse then a - 1 - n else a - 1 + n
  }

  /** The length of that walk through `len` elements. */
  function WalkLength(len: nat, a: nat, reverse: bool): nat {
    if a == 0 || a > len then 0 else if reverse then a else len - a + 1
  }

  /** `out` are the objects met first. */
  ghost predicate Collected(ks: seq<Key>, a: nat, reverse: bool, out: seq<Obj>) {
    && |out| <= WalkLength(|ks|, a, reverse)
    && (forall j {:trigger out[j]} :: 0 <= j < |out| ==> out[j] == ks[IndexAfter(a, reverse, j)].obj)
  }

  /** `node` is where the walk stands after `n` steps, NULL at its end. */
  ghost predicate StandsAt(sl: SkipList, node: Node?, a: nat, reverse: bool, n: nat)
    reads sl
    requires |sl.chain| == sl.length + 1
  {
    && n <= WalkLength(sl.length, a, reverse)
    && node == if n < WalkLength(sl.length, a, reverse) then sl.chain[IndexAfter(a, reverse, n) + 1] else null
  }

  /** The common part of both loops: push the object, go on. */
  method Step(sl: SkipList, node: Node, reverse: bool, ghost a: nat, out: seq<Obj>) returns (next: Node?, out': seq<Obj>)
    requires sl.Valid() && StandsAt(sl, node, a, reverse, |out|) && Collected(sl.Keys(), a, reverse, out)
    ensures StandsAt(sl, next, a, reverse, |out'|) && Collected(sl.Keys(), a, reverse, out')
    ensures |out'| == |out| + 1
  {
    next := sl.Follow(node, reverse, IndexAfter(a, reverse, |out|) + 1);
    out' := out + [node.obj.value];
  }

  /** The loop of _get_rank_range. */
  method CollectRanks(sl: SkipList, a: nat, reverse: bool, rangelen: int) returns (out: seq<Obj>)
    requires sl.Valid()
    ensures Collected(sl.Keys(), a, reverse, out)
    ensures |out| <= if rangelen > 0 then rangelen else 0
    ensures |out| == WalkLength(sl.length, a, reverse) || rangelen <= |out|
  {
    var node := sl.GetNodeByRank(a);
    out := [];
    var n := 0;
    while node != null && n < rangelen
      invariant n == |out| <= if rangelen > 0 then rangelen else 0
      invariant StandsAt(sl, node, a, reverse, |out|) && Collected(sl.Keys(), a, reverse, out)
      decreases rangelen - n
    {
      n := n + 1;
      node, out := Step(sl, node, reverse, a, out);
    }
  }

  lemma SliceAt(ks: seq<Key>, lo: nat, hi: nat, j: nat)
    requires lo <= hi <= |ks| && j < hi - lo
    ensures Objs(ks[lo..hi])[j] == ks[lo + j].obj
    ensures Reversed(Objs(ks[lo..hi]))[j] == ks[hi - 1 - j].obj
  {
    var os := Objs(ks[lo..hi]);
    assert os[j] == ks[lo..hi][j].obj;
    assert Reversed(os)[j] == os[hi - lo - 1 - j] == ks[lo..hi][hi - lo - 1 - j].obj;
  }

  lemma CollectAt(ks: seq<Key>, a: nat, reverse: bool, n: nat, j: nat)
    requires j < WalkLength(|ks|, a, reverse) && j < n
    ensures j < |Collect(ks, a, reverse, n)| && Collect(ks, a, reverse, n)[j] == ks[IndexAfter(a, reverse, j)].obj
  {
    if reverse {
      var lo := if n <= a then a - n else 0;
      assert Collect(ks, a, true, n) == Reversed(Objs(ks[lo..a]));
      SliceAt(ks, lo, a, j);
    } else {
      var hi := if n <= |ks| - a + 1 then a - 1 + n else |ks|;
      assert Collect(ks, a, false, n) == Objs(ks[a - 1..hi]);
      SliceAt(ks, a - 1, hi, j);
    }
  }

  lemma CollectIsCollected(ks: seq<Key>, a: nat, reverse: bool, n: nat, out: seq<Obj>)
    requires Collected(ks, a, reverse, out) && |out| <= n
    requires |out| == WalkLength(|ks|, a, reverse) || n <= |out|
    ensures Collect(ks, a, reverse, n) == out
  {
    var all := Collect(ks, a, reverse, n);
    assert |all| == |out|;
    forall j | 0 <= j < |out| ensures all[j] == out[j] {
      CollectAt(ks, a, reverse, n, j);
    }
  }

  /** _get_rank_range. */
  method GetRankRange(sl: SkipList, r1: int, r2: int) returns (out: seq<Obj>)
    requires sl.Valid()
    ensures out == RankSlice(sl.Keys(), U64(r1), U64(r2))
  {
    var a, b := U64(r1), U64(r2);
    var rangelen := Int32(if a > b then a - b + 1 else b - a + 1);
    out := CollectRanks(sl, a, a > b, rangelen);
    CollectIsCollected(sl.Keys(), a, a > b, Wanted(a, b), out);
  }

  /** The test that leaves the loop of _get_score_range. */
  predicate Beyond(score: real, reverse: bool, s2: real) {
    if reverse then score < s2 else score > s2
  }

  /** None of the first `n` elements met is beyond `s2`, and the next one is. */
  ghost predicate StopsAt(ks: seq<Key>, a: nat, reverse: bool, s2: real, n: nat)
    requires n <= WalkLength(|ks|, a, reverse)
  {
    && NoneBeyond(ks, a, reverse, s2, n)
    && (n < WalkLength(|ks|, a, reverse) ==> Beyond(ks[IndexAfter(a, reverse, n)].score, reverse, s2))
  }

  ghost predicate NoneBeyond(ks: seq<Key>, a: nat, reverse: bool, s2: real, n: nat)
    requires n <= WalkLength(|ks|, a, reverse)
  {
    forall j {:trigger IndexAfter(a, reverse, j)} :: 0 <= j < n ==>
      !Beyond(ks[IndexAfter(a, reverse, j)].score, reverse, s2)
  }

  /** The loop of _get_score_range, from the node of rank `a` on. */
  method CollectScores(sl: SkipList, first: Node?, reverse: bool, s2: real, ghost a: nat) returns (out: seq<Obj>)
    requires sl.Valid() && StandsAt(sl, first, a, reverse, 0)
    ensures Collected(sl.Keys(), a, reverse, out)
    ensures StopsAt(sl.Keys(), a, reverse, s2, |out|)
  {
    var node := first;
    out := [];
    while node != null
      invariant StandsAt(sl, node, a, reverse, |out|) && Collected(sl.Keys(), a, reverse, out)
      invariant NoneBeyond(sl.Keys(), a, reverse, s2, |out|)
      decreases WalkLength(sl.length, a, reverse) - |out|
    {
      assert sl.Keys()[IndexAfter(a, reverse, |out|)] == node.Element();
      if Beyond(node.score, reverse, s2) { break; }
      node, out := Step(sl, node, reverse, a, out);
    }
  }

  /** A walk that starts at the node found by slFirstInRange or slLastInRange and
      stops at the first score beyond the range collects exactly the range, also
      when that node itself was out of range. */
  lemma WalkCollectsRange(ks: seq<Key>, min: real, max: real, reverse: bool, a: nat, out: seq<Obj>)
    requires Sorted(ks) && min <= max
    requires a == if !SpansRange(ks, min, max) then 0
                  else if reverse then CountBelow(ks, max, true) else CountBelow(ks, min, false) + 1
    requires Collected(ks, a, reverse, out)
    requires StopsAt(ks, a, reverse, if reverse then min else max, |out|)
    ensures out == if reverse then Reversed(Objs(InRangeKeys(ks, min, max))) else Objs(InRangeKeys(ks, min, max))
  {
    var f, l := CountBelow(ks, min, false), CountBelow(ks, max, true);
    forall j: nat | j < |ks| ensures InRange(ks[j], min, max) <==> f <= j < l { RangeIsSlice(ks, min, max, j); }
    InRangeIsSlice(ks, min, max, f, if f <= l then l else f);
    StopsBehindRange(ks, min, max, reverse, a, |out|);
    SliceIsCollect(ks, f, if f <= l then l else f, a, reverse, |out|);
    CollectIsCollected(ks, a, reverse, |out|, out);
  }

  lemma SliceIsCollect(ks: seq<Key>, f: nat, l: nat, a: nat, reverse: bool, n: nat)
    requires f <= l <= |ks|
    requires if a == 0 then l == f && n == 0 else n == l - f && (n > 0 ==> a == if reverse then l else f + 1)
    ensures Collect(ks, a, reverse, n) == if reverse then Reversed(Objs(ks[f..l])) else Objs(ks[f..l])
  {
  }

  lemma StopsBehindRange(ks: seq<Key>, min: real, max: real, reverse: bool, a: nat, n: nat)
    requires Sorted(ks) && min <= max
    requires a == if !SpansRange(ks, min, max) then 0
                  else if reverse then CountBelow(ks, max, true) else CountBelow(ks, min, false) + 1
    requires n <= WalkLength(|ks|, a, reverse) && StopsAt(ks, a, reverse, if reverse then min else max, n)
    ensures var f, l := CountBelow(ks, min, false), CountBelow(ks, max, true);
      if a == 0 then l <= f else n == if f <= l then l - f else 0
  {
    var f, l := CountBelow(ks, min, false), CountBelow(ks, max, true);
    var m := if f <= l then l - f else 0;
    CountBelowSplits(ks, min, false);
    CountBelowSplits(ks, max, true);
    assert a > 0 && m < n ==> IndexAfter(a, reverse, m) == if reverse then l - 1 - m else f + m;
  }

  /** _get_score_range: also in a gap of the scores it returns exactly the elements
      in range. */
  method GetScoreRange(sl: SkipList, s1: real, s2: real) returns (out: seq<Obj>)
    requires sl.Valid()
    ensures s1 <= s2 ==> out == Objs(InRangeKeys(sl.Keys(), s1, s2))
    ensures s1 > s2 ==> out == Reversed(Objs(InRangeKeys(sl.Keys(), s2, s1)))
  {
    ghost var ks := sl.Keys();
    var node;
    if s1 <= s2 {
      node := sl.FirstInRange(s1, s2);
      ghost var a := if node == null then 0 else CountBelow(ks, s1, false) + 1;
      out := CollectScores(sl, node, false, s2, a);
      WalkCollectsRange(ks, s1, s2, false, a, out);
    } else {
      node := sl.LastInRange(s2, s1);
      ghost var a := if node == null then 0 else CountBelow(ks, s1, true);
      out := CollectScores(sl, node, true, s2, a);
      WalkCollectsRange(ks, s2, s1, true, a, out);
    }
  }
}
