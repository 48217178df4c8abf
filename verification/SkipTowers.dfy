/** The shape of the skip list as a value: the heights of the nodes by rank, the
    header being rank 0. These lemmas say how "the next taller node" moves when a
    rank is opened or closed; `SkipList` ties its pointers and spans to it. */
module SkipTowers {

  /** `t` is the first rank after `r` that is taller than `i`, or one past the end. */
  ghost predicate IsNext(hs: seq<nat>, r: nat, i: nat, t: int) {
    && r < t <= |hs|
    && (t < |hs| ==> i < hs[t])
    && (forall m :: r < m < t ==> hs[m] <= i)
  }

  /** `p` is the last rank up to `q` that is taller than `i`. */
  ghost predicate IsLast(hs: seq<nat>, q: nat, i: nat, p: nat) {
    && p <= q < |hs|
    && i < hs[p]
    && (forall m :: p < m <= q ==> hs[m] <= i)
  }

  /** `rank` holds, for every level below `level`, the last rank up to `q` that is
      taller than it. */
  ghost predicate LastRanks(hs: seq<nat>, level: nat, q: nat, rank: seq<nat>) {
    && level <= |rank|
    && (forall i {:trigger rank[i]} :: 0 <= i < level ==> IsLast(hs, q, i, rank[i]))
  }

  /** `x` put right behind rank `q`. */
  ghost function Open<T>(s: seq<T>, q: nat, x: T): (s': seq<T>)
    requires q < |s|
    ensures |s'| == |s| + 1
    ensures forall j {:trigger s'[j]} :: 0 <= j < |s'| ==>
      s'[j] == if j <= q then s[j] else if j == q + 1 then x else s[j - 1]
  {
    s[..q + 1] + [x] + s[q + 1..]
  }

  ghost function Close<T>(s: seq<T>, p: nat): (s': seq<T>)
    requires p < |s|
    ensures |s'| == |s| - 1
    ensures forall j {:trigger s'[j]} :: 0 <= j < |s'| ==> s'[j] == if j < p then s[j] else s[j + 1]
  {
    s[..p] + s[p + 1..]
  }

  lemma OpenMembers<T>(s: seq<T>, q: nat, x: T)
    requires q < |s|
    ensures forall n :: n in Open(s, q, x) <==> n == x || n in s
  {
    assert Open(s, q, x)[q + 1] == x;
    forall n | n in s ensures n in Open(s, q, x) {
      var r :| 0 <= r < |s| && s[r] == n;
      assert Open(s, q, x)[if r <= q then r else r + 1] == n;
    }
  }

  lemma CloseMembers<T>(s: seq<T>, p: nat)
    requires p < |s|
    ensures forall n :: n in Close(s, p) ==> n in s
  {
  }

  lemma NextAfterOpen(hs: seq<nat>, q: nat, h: nat, r: nat, i: nat, t: int)
    requires q < |hs| && IsNext(hs, r, i, t)
    ensures t <= q ==> IsNext(Open(hs, q, h), r, i, t)
    ensures r <= q < t && i < h ==>
              IsNext(Open(hs, q, h), r, i, q + 1) && IsNext(Open(hs, q, h), q + 1, i, t + 1)
    ensures r <= q < t && h <= i ==> IsNext(Open(hs, q, h), r, i, t + 1)
    ensures q < r ==> IsNext(Open(hs, q, h), r + 1, i, t + 1)
  {
  }

  lemma NextAfterClose(hs: seq<nat>, p: nat, r: nat, i: nat, t: int)
    requires p < |hs| && r != p && IsNext(hs, r, i, t)
    ensures t < p ==> IsNext(Close(hs, p), r, i, t)
    ensures forall t' :: t == p && IsNext(hs, p, i, t') ==> IsNext(Close(hs, p), r, i, t' - 1)
    ensures r < p < t ==> IsNext(Close(hs, p), r, i, t - 1)
    ensures p < r ==> IsNext(Close(hs, p), r - 1, i, t - 1)
  {
  }

  lemma LastRanksAfterClose(hs: seq<nat>, level: nat, level': nat, q: nat, rank: seq<nat>)
    requires LastRanks(hs, level, q, rank) && q + 1 < |hs| && level' <= level
    ensures LastRanks(Close(hs, q + 1), level', q, rank)
  {
  }

  /** The slot that leads across rank `q` is the one of the last taller node. */
  lemma CrossingIsLast(hs: seq<nat>, q: nat, r: nat, i: nat, t: int, p: nat)
    requires r < |hs| && i < hs[r] && IsNext(hs, r, i, t) && IsLast(hs, q, i, p)
    ensures r <= q < t <==> r == p
  {
  }
}
