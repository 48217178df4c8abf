/** The order in which the skip list keeps its elements: by score, then by the
    byte string of the member. */
module SkipOrder {

  type Byte = b: int | 0 <= b < 256
  type Obj = seq<Byte>

  datatype Key = Key(score: real, obj: Obj)

  /** memcmp: the difference of the first two bytes that differ. */
  function MemCmp(a: Obj, b: Obj, n: nat): int
    requires n <= |a| && n <= |b|
    decreases n
  {
    if n == 0 then 0
    else if a[0] != b[0] then a[0] - b[0]
    else MemCmp(a[1..], b[1..], n - 1)
  }

  function CompareObj(a: Obj, b: Obj): int {
    var cmp := MemCmp(a, b, if |a| <= |b| then |a| else |b|);
    if cmp == 0 then |a| - |b| else cmp
  }

  predicate EqualsObj(a: Obj, b: Obj) {
    CompareObj(a, b) == 0
  }

  /** The test with which every search loop decides to go on. */
  predicate Before(a: Key, b: Key) {
    a.score < b.score || (a.score == b.score && CompareObj(a.obj, b.obj) < 0)
  }

  predicate BeforeOrAt(a: Key, b: Key) {
    a.score < b.score || (a.score == b.score && CompareObj(a.obj, b.obj) <= 0)
  }

  /** Dictionary order, stated without computing anything: at some position the
      strings agree up to there, and then `a` ends or has the smaller byte. */
  ghost predicate LexLess(a: Obj, b: Obj) {
    exists i :: LexLessAt(a, b, i)
  }

  ghost predicate LexLessAt(a: Obj, b: Obj, i: nat) {
    && i <= |a| && i < |b|
    && a[..i] == b[..i]
    && (i == |a| || a[i] < b[i])
  }

  lemma {:induction false} CompareStep(a: Obj, b: Obj)
    requires a != [] && b != [] && a[0] == b[0]
    ensures CompareObj(a, b) == CompareObj(a[1..], b[1..])
  {
  }

  lemma {:induction false} CompareMeetsLex(a: Obj, b: Obj)
    ensures CompareObj(a, b) < 0 <==> LexLess(a, b)
    ensures CompareObj(a, b) == 0 <==> a == b
    ensures CompareObj(a, b) > 0 <==> LexLess(b, a)
    decreases |a|
  {
    if a == [] || b == [] || a[0] != b[0] {
      if a != [] || b != [] {
        assert LexLessAt(a, b, 0) || LexLessAt(b, a, 0);
      }
    } else {
      CompareStep(a, b);
      CompareMeetsLex(a[1..], b[1..]);
      assert a == [a[0]] + a[1..] && b == [b[0]] + b[1..];
      LexStep(a, b);
      LexStep(b, a);
    }
  }

  lemma {:induction false} LexStep(a: Obj, b: Obj)
    requires a != [] && b != [] && a[0] == b[0]
    ensures LexLess(a, b) <==> LexLess(a[1..], b[1..])
  {
    if i: nat :| LexLessAt(a, b, i) {
      assert i > 0;
      assert a[1..][..i - 1] == a[..i][1..] == b[..i][1..] == b[1..][..i - 1];
      assert LexLessAt(a[1..], b[1..], i - 1);
    }
    if i: nat :| LexLessAt(a[1..], b[1..], i) {
      assert a[..i + 1] == [a[0]] + a[1..][..i];
      assert b[..i + 1] == [b[0]] + b[1..][..i];
      assert LexLessAt(a, b, i + 1);
    }
  }

  lemma {:induction false} LexTransitive(a: Obj, b: Obj, c: Obj)
    requires LexLess(a, b) && LexLess(b, c)
    ensures LexLess(a, c)
  {
    var i: nat :| LexLessAt(a, b, i);
    var j: nat :| LexLessAt(b, c, j);
    var k := if i < j then i else j;
    assert a[..k] == a[..i][..k] == b[..i][..k] == b[..k] == b[..j][..k] == c[..j][..k] == c[..k];
    assert k < j ==> b[k] == b[..j][k] == c[..j][k] == c[k];
    assert k < i ==> a[k] == a[..i][k] == b[..i][k] == b[k];
    assert LexLessAt(a, c, k);
  }

  /** The order in words: the smaller score comes first, and of equal scores the object
      that is first in dictionary order. */
  ghost predicate Precedes(a: Key, b: Key) {
    a.score < b.score || (a.score == b.score && LexLess(a.obj, b.obj))
  }

  /** `Before` is this order, which is strict and total, and `BeforeOrAt` is its closure. */
  lemma BeforeIsTotal(a: Key, b: Key)
    ensures Before(a, b) <==> Precedes(a, b)
    ensures !Before(a, a)
    ensures Before(a, b) || a == b || Before(b, a)
    ensures !(Before(a, b) && Before(b, a))
    ensures BeforeOrAt(a, b) <==> a == b || Before(a, b)
  {
    CompareMeetsLex(a.obj, b.obj);
    CompareMeetsLex(b.obj, a.obj);
    CompareMeetsLex(a.obj, a.obj);
  }

  lemma EqualsIsEquality(a: Obj, b: Obj)
    ensures EqualsObj(a, b) <==> a == b
  {
    CompareMeetsLex(a, b);
  }

  lemma BeforeTransitive(a: Key, b: Key, c: Key)
    requires Before(a, b) && Before(b, c)
    ensures Before(a, c)
  {
    CompareMeetsLex(a.obj, b.obj);
    CompareMeetsLex(b.obj, c.obj);
    CompareMeetsLex(a.obj, c.obj);
    if a.score == b.score == c.score {
      LexTransitive(a.obj, b.obj, c.obj);
    }
  }

  // ----- strictly sorted sequences of keys -----

  ghost predicate Sorted(ks: seq<Key>) {
    forall a, b :: 0 <= a < b < |ks| ==> Before(ks[a], ks[b])
  }

  /** Every element comes by score, then by dictionary order of the objects, before the
      ones behind it. */
  ghost predicate Ascending(ks: seq<Key>) {
    forall i, j :: 0 <= i < j < |ks| ==> Precedes(ks[i], ks[j])
  }

  lemma SortedIsAscending(ks: seq<Key>)
    ensures Sorted(ks) <==> Ascending(ks)
  {
    forall i, j | 0 <= i < j < |ks| ensures Before(ks[i], ks[j]) <==> Precedes(ks[i], ks[j]) {
      BeforeIsTotal(ks[i], ks[j]);
    }
  }

  /** How many elements of a sorted sequence lie before `k`. */
  function Position(ks: seq<Key>, k: Key): (q: nat)
    ensures q <= |ks|
  {
    if ks == [] || !Before(ks[0], k) then 0 else 1 + Position(ks[1..], k)
  }

  lemma {:induction false} PositionSplits(ks: seq<Key>, k: Key)
    requires Sorted(ks)
    ensures forall j :: 0 <= j < |ks| ==> (Before(ks[j], k) <==> j < Position(ks, k))
  {
    if ks != [] {
      if Before(ks[0], k) {
        PositionSplits(ks[1..], k);
        forall j | 0 <= j < |ks| ensures Before(ks[j], k) <==> j < Position(ks, k) {
          if j > 0 { assert ks[j] == ks[1..][j - 1]; }
        }
      } else {
        forall j | 0 <= j < |ks| ensures !Before(ks[j], k) {
          if j > 0 && Before(ks[j], k) { BeforeTransitive(ks[0], ks[j], k); }
        }
      }
    }
  }

  lemma FoundAtPosition(ks: seq<Key>, k: Key)
    requires Sorted(ks)
    ensures k in ks <==> Position(ks, k) < |ks| && ks[Position(ks, k)] == k
  {
    PositionSplits(ks, k);
    BeforeIsTotal(k, k);
    var q := Position(ks, k);
    assert forall j :: q < j < |ks| ==> Before(ks[q], ks[j]);
  }

  /** How many elements of a sorted sequence lie before `k` or are `k`. */
  function PositionAfter(ks: seq<Key>, k: Key): (c: nat)
    ensures c <= |ks|
  {
    var q := Position(ks, k);
    if q < |ks| && ks[q] == k then q + 1 else q
  }

  lemma PositionAfterSplits(ks: seq<Key>, k: Key)
    requires Sorted(ks)
    ensures forall j :: 0 <= j < |ks| ==> (BeforeOrAt(ks[j], k) <==> j < PositionAfter(ks, k))
  {
    PositionSplits(ks, k);
    FoundAtPosition(ks, k);
    forall j | 0 <= j < |ks| ensures BeforeOrAt(ks[j], k) <==> j < PositionAfter(ks, k) {
      BeforeIsTotal(ks[j], k);
      if ks[j] == k { SortedIsInjective(ks, j, Position(ks, k)); }
    }
  }

  ghost predicate UniqueObjects(ks: seq<Key>) {
    forall a, b :: 0 <= a < b < |ks| ==> ks[a].obj != ks[b].obj
  }

  /** A rank that slGetRank finds for `k`: an element up to `k` that has its object, or 0
      when the last element up to `k` has another object. */
  ghost predicate FoundRank(ks: seq<Key>, k: Key, rank: nat) {
    if rank > 0 then rank <= PositionAfter(ks, k) && ks[rank - 1].obj == k.obj
    else PositionAfter(ks, k) > 0 ==> ks[PositionAfter(ks, k) - 1].obj != k.obj
  }

  /** With unique objects, the rank found for an element's own score and object is the
      element's rank, and for an object that is not there it is 0. */
  lemma FoundRankIsRank(ks: seq<Key>, k: Key, rank: nat)
    requires Sorted(ks) && UniqueObjects(ks) && FoundRank(ks, k, rank)
    ensures forall j :: 0 <= j < |ks| && ks[j] == k ==> rank == j + 1
    ensures (forall j :: 0 <= j < |ks| ==> ks[j].obj != k.obj) ==> rank == 0
  {
    forall j | 0 <= j < |ks| && ks[j] == k ensures rank == j + 1 {
      ElementPosition(ks, j);
    }
  }

  lemma ElementPosition(ks: seq<Key>, j: nat)
    requires Sorted(ks) && j < |ks|
    ensures PositionAfter(ks, ks[j]) == j + 1
  {
    PositionAfterSplits(ks, ks[j]);
    BeforeIsTotal(ks[j], ks[j]);
    assert BeforeOrAt(ks[j], ks[j]);
    if j + 1 < |ks| {
      BeforeIsTotal(ks[j], ks[j + 1]);
      BeforeIsTotal(ks[j + 1], ks[j]);
      assert !BeforeOrAt(ks[j + 1], ks[j]);
    }
  }

  ghost function Elements(ks: seq<Key>): set<Key> {
    set k | k in ks
  }

  function InsertAt(ks: seq<Key>, q: nat, k: Key): seq<Key>
    requires q <= |ks|
  {
    ks[..q] + [k] + ks[q..]
  }

  /** Sorted insertion. */
  function With(ks: seq<Key>, k: Key): seq<Key> {
    InsertAt(ks, Position(ks, k), k)
  }

  /** Removal from a sorted sequence. */
  function Without(ks: seq<Key>, k: Key): seq<Key> {
    var q := Position(ks, k);
    if q < |ks| && ks[q] == k then Cut(ks, q, q + 1) else ks
  }

  function Cut(ks: seq<Key>, from: nat, to: nat): seq<Key>
    requires from <= to <= |ks|
  {
    ks[..from] + ks[to..]
  }

  /** A strictly sorted sequence is determined by its elements. */
  lemma {:induction false} SortedIsDetermined(s: seq<Key>, t: seq<Key>)
    requires Sorted(s) && Sorted(t)
    requires Elements(s) == Elements(t)
    ensures s == t
    decreases |s|
  {
    assert |s| > 0 ==> s[0] in Elements(s);
    assert |t| > 0 ==> t[0] in Elements(t);
    if s != [] && t != [] {
      assert s[0] in Elements(t) && t[0] in Elements(s);
      var i :| 0 <= i < |t| && t[i] == s[0];
      var j :| 0 <= j < |s| && s[j] == t[0];
      BeforeIsTotal(s[0], t[0]);
      assert s[0] == t[0];
      forall x ensures x in Elements(s[1..]) <==> x in Elements(t[1..]) {
        BeforeIsTotal(s[0], x);
        assert x in Elements(s) <==> x in Elements(t);
        assert s == [s[0]] + s[1..] && t == [t[0]] + t[1..];
        if x in s[1..] { var m :| 0 <= m < |s[1..]| && s[1..][m] == x; assert Before(s[0], s[m + 1]); }
        if x in t[1..] { var m :| 0 <= m < |t[1..]| && t[1..][m] == x; assert Before(t[0], t[m + 1]); }
      }
      SortedIsDetermined(s[1..], t[1..]);
      assert s == [s[0]] + s[1..] && t == [t[0]] + t[1..];
    }
  }

  lemma {:induction false} WithElements(ks: seq<Key>, k: Key)
    ensures Elements(With(ks, k)) == Elements(ks) + {k}
  {
    var q := Position(ks, k);
    assert ks == ks[..q] + ks[q..];
  }

  /** It is insertion into a sorted set. */
  lemma {:induction false} WithIsInsertion(ks: seq<Key>, k: Key)
    requires Sorted(ks) && k !in ks
    ensures Sorted(With(ks, k))
    ensures Elements(With(ks, k)) == Elements(ks) + {k}
  {
    WithElements(ks, k);
    var q := Position(ks, k);
    var t := With(ks, k);
    PositionSplits(ks, k);
    forall a, b | 0 <= a < b < |t| ensures Before(t[a], t[b]) {
      if b == q { assert Before(ks[a], k); }
      else if a == q { BeforeIsTotal(ks[b - 1], k); assert ks[b - 1] in ks; }
    }
  }

  /** A strictly sorted sequence has no element twice. */
  lemma SortedIsInjective(ks: seq<Key>, a: nat, b: nat)
    requires Sorted(ks) && a < |ks| && b < |ks|
    ensures ks[a] == ks[b] ==> a == b
  {
    BeforeIsTotal(ks[a], ks[a]);
  }

  lemma {:induction false} CutKeepsSorted(ks: seq<Key>, from: nat, to: nat)
    requires Sorted(ks) && from <= to <= |ks|
    ensures Sorted(Cut(ks, from, to))
  {
  }

  /** Cutting takes away exactly what was in between. */
  lemma {:induction false} CutElements(ks: seq<Key>, from: nat, to: nat, x: Key)
    requires Sorted(ks) && from <= to <= |ks|
    ensures x in Cut(ks, from, to) <==> x in ks && x !in ks[from..to]
  {
    if x in ks {
      var m :| 0 <= m < |ks| && ks[m] == x;
      forall j | 0 <= j < |ks| ensures ks[j] == x ==> j == m { SortedIsInjective(ks, j, m); }
      if from <= m < to { assert ks[from..to][m - from] == x; }
      if m < from { assert ks[..from][m] == x; }
      if to <= m { assert ks[to..][m - to] == x; }
    }
  }

  function Objs(ks: seq<Key>): (os: seq<Obj>)
    ensures |os| == |ks|
    ensures forall j :: 0 <= j < |ks| ==> os[j] == ks[j].obj
  {
    seq(|ks|, j requires 0 <= j < |ks| => ks[j].obj)
  }

  /** One more element cut off behind those already gone. */
  lemma CutOneMore(ks: seq<Key>, q: nat, m: nat)
    requires q + m < |ks|
    ensures Cut(Cut(ks, q, q + m), q, q + 1) == Cut(ks, q, q + m + 1)
    ensures Cut(ks, q, q + m)[q] == ks[q + m]
    ensures Objs(ks[q..q + m + 1]) == Objs(ks[q..q + m]) + [ks[q + m].obj]
  {
  }

  /** Removal takes out that element and nothing else. */
  lemma WithoutIsRemoval(ks: seq<Key>, k: Key)
    requires Sorted(ks)
    ensures Sorted(Without(ks, k))
    ensures Elements(Without(ks, k)) == Elements(ks) - {k}
  {
    FoundAtPosition(ks, k);
    var q := Position(ks, k);
    if k in ks {
      CutKeepsSorted(ks, q, q + 1);
      forall x ensures x in Without(ks, k) <==> x in ks && x != k {
        CutElements(ks, q, q + 1, x);
        assert ks[q..q + 1] == [k];
      }
    }
  }
}
