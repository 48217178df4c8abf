/** The arrays of lualib-src/lua-array.c: a Lua table whose slots from -1 down list the
    indices above its border, and whose slot 0 is the length of the list, negative once
    the list is sorted. */
module SparseArray {
  import opened Wrappers

  /** A Lua value other than nil. */
  datatype Value = Int(i: int) | Other(id: nat)

  /** A slot that is nil is not in the map. */
  type Slots = map<int, Value>

  /** The slot of entry `j` of the list. */
  function At(j: nat): int { -1 - j }

  ghost predicate IsList(t: Slots, n: nat) {
    forall j {:trigger At(j)} :: 0 <= j < n ==> At(j) in t && t[At(j)].Int?
  }

  /** The list in the slots -1 to -n. */
  ghost function ListOf(t: Slots, n: nat): (q: seq<int>)
    requires IsList(t, n)
    ensures |q| == n && forall j {:trigger q[j]} :: 0 <= j < n ==> q[j] == t[At(j)].i
  {
    seq(n, j requires 0 <= j < n => t[At(j)].i)
  }

  ghost predicate Rising(q: seq<int>) {
    forall i, j :: 0 <= i < j < |q| ==> q[i] < q[j]
  }

  /** Slots that are not from `lo` to `hi` are the same. */
  ghost predicate SameOutside(t: Slots, u: Slots, lo: int, hi: int) {
    forall k: int :: k < lo || k > hi ==> (k in t <==> k in u) && (k in t ==> t[k] == u[k])
  }

  /** A result lua_rawlen may have. */
  ghost predicate IsBorder(t: Slots, n: nat) {
    (n == 0 || n in t) && n + 1 !in t
  }

  /** Where a key belongs in a rising list. */
  ghost predicate Between(q: seq<int>, e: nat, key: int) {
    && e <= |q|
    && (forall j :: 0 <= j < e ==> q[j] < key)
    && (forall j :: e <= j < |q| ==> q[j] > key)
  }

  lemma BetweenIsNew(q: seq<int>, e: nat, key: int)
    requires Rising(q) && Between(q, e, key)
    ensures key !in q && Rising(q[..e] + [key] + q[e..])
    ensures forall x :: x in q[..e] + [key] + q[e..] <==> x in q || x == key
  {
    assert q == q[..e] + q[e..];
  }

  /** The entries from `i` on have moved down by one. */
  ghost predicate Shifted(t: Slots, was: Slots, q: seq<int>, i: nat) {
    && i <= |q|
    && (forall j {:trigger At(j)} :: i + 1 <= j <= |q| ==> At(j) in t && t[At(j)] == Int(q[j - 1]))
    && (forall j {:trigger At(j)} :: 0 <= j < i ==> At(j) in t && t[At(j)] == Int(q[j]))
    && SameOutside(was, t, At(|q|), At(i))
  }

  lemma ShiftStep(t: Slots, was: Slots, q: seq<int>, i: nat)
    requires Shifted(t, was, q, i) && i > 0
    ensures At(i - 1) in t && Shifted(t[At(i) := t[At(i - 1)]], was, q, i - 1)
  {
  }

  lemma ShiftEnd(t: Slots, was: Slots, q: seq<int>, e: nat, key: int)
    requires Shifted(t, was, q, e)
    ensures var u := t[At(e) := Int(key)];
      && IsList(u, |q| + 1) && ListOf(u, |q| + 1) == q[..e] + [key] + q[e..]
      && SameOutside(was, u, At(|q|), -1)
  {
  }

  ghost predicate Positive(q: seq<int>) {
    forall j :: 0 <= j < |q| ==> q[j] > 0
  }

  /** What sort_sparse keeps of the entries `q`: live indices above the border. */
  ghost predicate Kept(t: Slots, border: nat, q: seq<int>, x: int) {
    x in q && x > border && x in t
  }

  /** The first `i` entries are sorted into the first `n` slots. */
  ghost predicate SoFar(t: Slots, was: Slots, q: seq<int>, border: nat, i: nat, n: nat) {
    && n <= i <= |q|
    && IsList(t, n) && Rising(ListOf(t, n))
    && (forall x :: x in ListOf(t, n) <==> Kept(was, border, q[..i], x))
    && (forall j {:trigger At(j)} :: i <= j < |q| ==> At(j) in t && t[At(j)] == Int(q[j]))
    && SameOutside(was, t, 0 - |q|, -1)
  }

  /** The slots of the entries from `n` up to `i`. */
  predicate Behind(k: int, n: int, i: int) { -i <= k < -n }

  /** The slots behind the first `n` entries, up to entry `i`, are nil. */
  ghost predicate Cleared(t: Slots, done: Slots, n: nat, i: nat) {
    forall k: int :: (k in t <==> k in done && !Behind(k, n, i)) && (k in t ==> t[k] == done[k])
  }

  /** The array after sort_sparse: the slots -1 to -n hold, rising, exactly the recorded
      live indices above the border, the others are nil, slot 0 is -n, and no other slot
      has changed. */
  ghost predicate IsSorted(t: Slots, was: Slots, border: nat, sparselen: nat, n: nat)
    requires IsList(was, sparselen)
  {
    && n <= sparselen
    && IsList(t, n) && Rising(ListOf(t, n))
    && (forall x :: x in ListOf(t, n) <==> Kept(was, border, ListOf(was, sparselen), x))
    && (forall k: int :: Behind(k, n, sparselen) ==> k !in t)
    && 0 in t && t[0] == Int(0 - n)
    && SameOutside(was, t, 0 - sparselen, 0)
  }

  lemma SortEnds(t: Slots, done: Slots, was: Slots, q: seq<int>, border: nat, n: nat)
    requires IsList(was, |q|) && q == ListOf(was, |q|) && SoFar(done, was, q, border, |q|, n)
    requires forall k: int :: k != 0 ==> (k in t <==> k in done && !Behind(k, n, |q|)) && (k in t ==> t[k] == done[k])
    requires 0 in t && t[0] == Int(0 - n)
    ensures IsSorted(t, was, border, |q|, n)
  {
    assert q[..|q|] == q;
    forall j {:trigger At(j)} | 0 <= j < n ensures At(j) in t && t[At(j)] == done[At(j)] {}
    assert ListOf(t, n) == ListOf(done, n);
  }

  ghost predicate Live(t: Slots, x: int) {
    x > 0 && x in t
  }

  /** The number of entries. */
  function Length(t: Slots): nat
    requires 0 in t && t[0].Int?
  {
    if t[0].i < 0 then -t[0].i else t[0].i
  }

  ghost predicate IsArray(t: Slots, border: nat) {
    && 0 in t && t[0].Int? && IsBorder(t, border)
    && IsList(t, Length(t)) && Positive(ListOf(t, Length(t)))
  }

  /** Every live index above the border is in the list. */
  ghost predicate Recorded(t: Slots, border: nat)
    requires IsArray(t, border)
  {
    forall x :: Live(t, x) && x > border ==> x in ListOf(t, Length(t))
  }

  /** The list is sorted and has nothing but live indices above the border. */
  ghost predicate Exact(t: Slots, border: nat)
    requires IsArray(t, border)
  {
    t[0].i <= 0 && Rising(ListOf(t, Length(t))) && forall x :: x in ListOf(t, Length(t)) ==> Live(t, x) && x > border
  }

  /** The slot has the value, or is nil. */
  ghost predicate Holds(t: Slots, k: int, v: Option<Value>) {
    if v.Some? then k in t && t[k] == v.value else k !in t
  }

  predicate HasValue(values: seq<Option<Value>>, k: int) {
    1 <= k <= |values| && values[k - 1].Some?
  }

  function FromValues(values: seq<Option<Value>>): (t: Slots)
    ensures forall k :: k in t <==> HasValue(values, k)
  {
    map k | 1 <= k <= |values| && HasValue(values, k) :: values[k - 1].value
  }

  lemma GivenValue(values: seq<Option<Value>>, j: nat)
    requires j < |values|
    ensures Holds(FromValues(values), j + 1, values[j])
  {
  }

  function Assigned(t: Slots, idx: int, v: Option<Value>): Slots {
    if v.Some? then t[idx := v.value] else t - {idx}
  }

  ghost predicate SamePositiveBut(t: Slots, u: Slots, idx: int) {
    forall k: int :: k > 0 && k != idx ==> (k in t <==> k in u) && (k in t ==> t[k] == u[k])
  }

  /** An assignment above 0 leaves the list. */
  lemma AssignedKeepsList(t: Slots, idx: int, v: Option<Value>, border: nat, nb: nat)
    requires IsArray(t, border) && idx > 0 && IsBorder(Assigned(t, idx, v), nb)
    ensures IsArray(Assigned(t, idx, v), nb)
    ensures Length(Assigned(t, idx, v)) == Length(t) && ListOf(Assigned(t, idx, v), Length(t)) == ListOf(t, Length(t))
  {
    var u := Assigned(t, idx, v);
    assert IsList(u, Length(t));
    assert ListOf(u, Length(t)) == ListOf(t, Length(t));
  }

  /** One more entry at the end of the list. */
  function WithEntry(t: Slots, idx: int): Slots
    requires 0 in t && t[0].Int?
  {
    t[0 := Int(Length(t) + 1)][At(Length(t)) := Int(idx)]
  }

  lemma OneMoreEntry(t: Slots, border: nat, idx: int)
    requires IsArray(t, border) && idx > 0
    ensures var n, u := Length(t), WithEntry(t, idx);
      IsArray(u, border) && Length(u) == n + 1 && ListOf(u, n + 1) == ListOf(t, n) + [idx]
  {
    var n, u := Length(t), WithEntry(t, idx);
    assert IsList(u, n + 1);
    assert ListOf(u, n + 1) == ListOf(t, n) + [idx];
  }

  ghost predicate SamePositive(t: Slots, u: Slots) {
    forall k: int :: k > 0 ==> (k in t <==> k in u) && (k in t ==> t[k] == u[k])
  }

  /** After the sort the list is exactly the recorded live indices above the border, which
      are all of them if everything was recorded. */
  lemma SortedIsExact(t: Slots, was: Slots, border: nat, n: nat)
    requires IsArray(was, border) && was[0].i > 0
    requires IsSorted(t, was, border, Length(was), n)
    ensures IsArray(t, border) && Length(t) == n && Exact(t, border) && SamePositive(was, t)
    ensures forall x :: x in ListOf(t, n) <==> x in ListOf(was, Length(was)) && Live(t, x) && x > border
    ensures Recorded(was, border) ==> Recorded(t, border)
  {
    var q := ListOf(t, n);
    forall j | 0 <= j < n ensures q[j] > border && q[j] in was {
      assert q[j] in q;
      assert Kept(was, border, ListOf(was, Length(was)), q[j]);
    }
    forall x ensures x in q <==> x in ListOf(was, Length(was)) && Live(t, x) && x > border {
      assert x > 0 ==> (x in t <==> x in was);
      assert x in q <==> Kept(was, border, ListOf(was, Length(was)), x);
    }
  }

  /** An index that lnext finds by itself: one up to the border that is live, or an entry of
      the list above the border. */
  ghost predicate Listed(t: Slots, border: nat, x: int)
    requires IsArray(t, border)
  {
    if x <= border then Live(t, x) else x in ListOf(t, Length(t))
  }

  /** What lnext can return when it looks from `start` on: it also tries `start` itself. */
  ghost predicate Meets(t: Slots, border: nat, start: int, x: int)
    requires IsArray(t, border)
  {
    x >= start && (Listed(t, border, x) || (x == start && Live(t, x)))
  }

  /** The first such index, or that there is none. */
  ghost predicate IsNextMet(t: Slots, border: nat, start: int, r: Option<int>)
    requires IsArray(t, border)
  {
    if r.Some? then Meets(t, border, start, r.value) && forall x :: Meets(t, border, start, x) ==> x >= r.value
    else forall x :: !Meets(t, border, start, x)
  }

  ghost predicate IsSortedList(t: Slots, border: nat)
    requires IsArray(t, border)
  {
    t[0].i <= 0 && Rising(ListOf(t, Length(t)))
  }

  lemma NoneAbove(t: Slots, border: nat, idx: int)
    requires IsArray(t, border) && t[0].i == 0 && idx > border && idx !in t
    ensures IsNextMet(t, border, idx, None)
  {
  }

  lemma LiveIsNext(t: Slots, border: nat, idx: int, i: int)
    requires IsArray(t, border) && 0 < idx <= i && i in t && (i <= border || i == idx)
    requires forall x :: idx <= x < i ==> x !in t
    ensures IsNextMet(t, border, idx, Some(i))
  {
  }

  /** In a sorted list, the entry behind the smaller ones is the next index. */
  lemma EntryIsNext(t: Slots, border: nat, idx: int, begin: nat)
    requires IsArray(t, border) && IsSortedList(t, border) && idx > border && idx !in t && begin <= Length(t)
    requires forall j :: 0 <= j < begin ==> ListOf(t, Length(t))[j] < idx
    requires forall j :: begin <= j < Length(t) ==> ListOf(t, Length(t))[j] >= idx
    ensures IsNextMet(t, border, idx, if begin < Length(t) then Some(t[At(begin)].i) else None)
  {
    var q := ListOf(t, Length(t));
    if begin < Length(t) { assert q[begin] in q && q[begin] == t[At(begin)].i; }
    forall x | Meets(t, border, idx, x) ensures begin < Length(t) && x >= q[begin] {
      var j :| 0 <= j < |q| && q[j] == x;
    }
  }

  // ----- the length -----

  /** What is greatest among the live indices, 0 when there is none. */
  ghost predicate IsLength(t: Slots, r: int) {
    r >= 0 && (r == 0 || Live(t, r)) && forall x :: Live(t, x) ==> x <= r
  }

  /** What llen returns for a list that needs no sort: the last entry, or the border. */
  ghost function LengthOf(t: Slots, border: nat): int
    requires IsArray(t, border)
  {
    var n := Length(t);
    if n == 0 then border else ListOf(t, n)[n - 1]
  }

  /** It is the length if and only if the last entry is still live, the border has not grown
      beyond it, and no live index behind it is missing in the list. */
  lemma LengthIsRight(t: Slots, border: nat)
    requires IsArray(t, border) && IsSortedList(t, border)
    ensures var r := LengthOf(t, border);
      IsLength(t, r) <==>
        (Length(t) > 0 ==> r in t && border <= r) &&
        forall x :: Live(t, x) && x > border && x !in ListOf(t, Length(t)) ==> x < r
  {
    var q := ListOf(t, Length(t));
    assert border > 0 ==> Live(t, border);
    if q != [] {
      assert q[|q| - 1] in q && q[|q| - 1] > 0;
    }
    forall x | x in q ensures x <= q[|q| - 1] {
      var j :| 0 <= j < |q| && q[j] == x;
    }
  }

  /** Of a list that has just been sorted, with everything recorded, it is. */
  lemma ExactLength(t: Slots, border: nat)
    requires IsArray(t, border) && Recorded(t, border) && Exact(t, border)
    ensures IsLength(t, LengthOf(t, border))
  {
    LengthIsRight(t, border);
    var q := ListOf(t, Length(t));
    if q != [] {
      assert q[|q| - 1] in q;
    }
  }

  lemma KeptStep(t: Slots, border: nat, q: seq<int>, i: nat)
    requires i < |q|
    ensures forall x :: Kept(t, border, q[..i + 1], x) <==>
      Kept(t, border, q[..i], x) || (x == q[i] && q[i] > border && q[i] in t)
  {
    assert q[..i + 1] == q[..i] + [q[i]];
  }

  function Reached(last: Option<int>): int {
    if last.Some? then last.value else 0
  }

  // ----- the traversal -----

  /** An index a traversal visits: one lnext finds by itself, or a live one right behind
      one that it visits. */
  ghost predicate Visits(t: Slots, border: nat, x: int)
    requires IsArray(t, border)
    decreases x
  {
    x > 0 && (Listed(t, border, x) || (x in t && (x == 1 || Visits(t, border, x - 1))))
  }

  ghost function Above(t: Slots, border: nat, k: int): set<int>
    requires IsArray(t, border)
  {
    (set x | x in t && x > k) + (set x | x in ListOf(t, Length(t)) && x > k)
  }

  /** A traversal has come to `k`, with the keys visited. */
  ghost predicate Visited(t: Slots, border: nat, keys: seq<int>, k: int)
    requires IsArray(t, border)
  {
    && Rising(keys) && k >= 0 && (k > 0 ==> Visits(t, border, k))
    && (forall x :: x in keys <==> Visits(t, border, x) && x <= k)
  }

  lemma {:induction false} NotVisited(t: Slots, border: nat, start: int, y: int)
    requires IsArray(t, border) && 0 < start <= y && forall x :: Meets(t, border, start, x) ==> x > y
    ensures !Visits(t, border, y)
    decreases y
  {
    assert !Meets(t, border, start, y);
    if y > start {
      NotVisited(t, border, start, y - 1);
    }
  }

  lemma FewerAbove(t: Slots, border: nat, k: int, x: int)
    requires IsArray(t, border) && x > k && (x in t || x in ListOf(t, Length(t)))
    ensures |Above(t, border, x)| < |Above(t, border, k)|
  {
    assert x in Above(t, border, k) && x !in Above(t, border, x);
    Smaller(Above(t, border, x), Above(t, border, k));
  }

  lemma VisitNext(t: Slots, border: nat, keys: seq<int>, k: int, x: int)
    requires IsArray(t, border) && Visited(t, border, keys, k) && IsNextMet(t, border, k + 1, Some(x))
    ensures Visited(t, border, keys + [x], x) && |Above(t, border, x)| < |Above(t, border, k)|
  {
    forall j | 0 <= j < |keys| ensures keys[j] < x { assert keys[j] in keys; }
    FewerAbove(t, border, k, x);
    forall y | k < y < x ensures !Visits(t, border, y) {
      NotVisited(t, border, k + 1, y);
    }
  }

  lemma VisitLast(t: Slots, border: nat, keys: seq<int>, k: int)
    requires IsArray(t, border) && Visited(t, border, keys, k) && IsNextMet(t, border, k + 1, None)
    ensures forall x :: x in keys <==> Visits(t, border, x)
  {
    forall y | y > k ensures !Visits(t, border, y) {
      NotVisited(t, border, k + 1, y);
    }
  }

  lemma Smaller<T>(a: set<T>, b: set<T>)
    requires a < b
    ensures |a| < |b|
  {
    assert b == a + (b - a);
  }

  /** No entry above the border is dead, and a live index that is not in the list is right
      behind another live one. */
  ghost predicate Reachable(t: Slots, border: nat)
    requires IsArray(t, border)
  {
    && (forall x :: x in ListOf(t, Length(t)) && x > border ==> x in t)
    && (forall x :: Live(t, x) && x > border && x !in ListOf(t, Length(t)) ==> x - 1 in t)
  }

  lemma {:induction false} LiveIsVisited(t: Slots, border: nat, x: int)
    requires IsArray(t, border) && Reachable(t, border) && Live(t, x)
    ensures Visits(t, border, x)
    decreases x
  {
    if !Listed(t, border, x) {
      assert border + 1 !in t;
      LiveIsVisited(t, border, x - 1);
    }
  }

  /** Exactly then a traversal visits exactly the live indices. */
  lemma TraversalIsRight(t: Slots, border: nat)
    requires IsArray(t, border)
    ensures (forall x :: Visits(t, border, x) <==> Live(t, x)) <==> Reachable(t, border)
  {
    if Reachable(t, border) {
      forall x | Live(t, x) ensures Visits(t, border, x) {
        LiveIsVisited(t, border, x);
      }
    }
    if forall x :: Visits(t, border, x) <==> Live(t, x) {
      forall x | x in ListOf(t, Length(t)) && x > border ensures x in t {
        assert Visits(t, border, x);
      }
      forall x | Live(t, x) && x > border && x !in ListOf(t, Length(t)) ensures x - 1 in t {
        assert Visits(t, border, x) && border + 1 !in t;
        assert Visits(t, border, x - 1);
      }
    }
  }

  /** With everything recorded, and a list that has just been sorted, it does. */
  lemma ExactTraversal(t: Slots, border: nat, x: int)
    requires IsArray(t, border) && Recorded(t, border) && Exact(t, border)
    ensures Visits(t, border, x) <==> Live(t, x)
  {
    TraversalIsRight(t, border);
  }

  /** What a sort makes of an array. */
  ghost predicate Sorted(was: Slots, t: Slots, border: nat)
    requires IsArray(was, border)
  {
    && IsArray(t, border) && Exact(t, border) && SamePositive(was, t)
    && (forall x :: x in ListOf(t, Length(t)) <==> x in ListOf(was, Length(was)) && Live(t, x) && x > border)
    && (Recorded(was, border) ==> Recorded(t, border))
  }

  /** What a traversal has returned: the keys with the values of their slots. */
  ghost predicate Paired(t: Slots, keys: seq<int>, values: seq<Option<Value>>) {
    |values| == |keys| && forall i :: 0 <= i < |keys| ==> Holds(t, keys[i], values[i])
  }

  lemma PairedMore(t: Slots, keys: seq<int>, values: seq<Option<Value>>, x: int, v: Option<Value>)
    requires Paired(t, keys, values) && Holds(t, x, v)
    ensures Paired(t, keys + [x], values + [v])
  {
  }

  class SparseArray {
    var slots: Slots
    var border: nat       // lua_rawlen

    /** The binary search of insert, as -1 for a key that is there. */
    method Search(key: int, n: nat) returns (e: int)
      requires IsList(slots, n) && Rising(ListOf(slots, n))
      ensures e < 0 ==> key in ListOf(slots, n)
      ensures e >= 0 ==> Between(ListOf(slots, n), e, key)
    {
      ghost var q := ListOf(slots, n);
      var begin, end := 0, n;
      while begin < end
        invariant 0 <= begin <= end <= n
        invariant forall j :: 0 <= j < begin ==> q[j] < key
        invariant forall j :: end <= j < n ==> q[j] > key
      {
        var mid := (begin + end) / 2;
        var v := slots[At(mid)].i;
        assert v == q[mid];
        if v == key { return -1; }
        if v < key {
          begin := mid + 1;
        } else {
          end := mid;
        }
      }
      return end;
    }

    /** The loop of insert: the slots from `e` on move down by one. */
    method MoveDown(n: nat, e: nat, ghost q: seq<int>)
      requires IsList(slots, n) && e <= n && q == ListOf(slots, n)
      modifies this`slots
      ensures Shifted(slots, old(slots), q, e)
    {
      ghost var was := slots;
      var i := n;
      while i > e
        invariant e <= i <= n && Shifted(slots, was, q, i)
      {
        ShiftStep(slots, was, q, i);
        slots := slots[At(i) := slots[At(i - 1)]];
        i := i - 1;
      }
    }

    /** It makes room for the key. */
    method Shift(n: nat, e: nat, key: int)
      requires IsList(slots, n) && e <= n
      modifies this`slots
      ensures IsList(slots, n + 1)
      ensures ListOf(slots, n + 1) == old(ListOf(slots, n))[..e] + [key] + old(ListOf(slots, n))[e..]
      ensures SameOutside(old(slots), slots, At(n), -1)
    {
      ghost var was, q := slots, ListOf(slots, n);
      MoveDown(n, e, q);
      ShiftEnd(slots, was, q, e, key);
      slots := slots[At(e) := Int(key)];
    }

    /** insert: `added` is false for a key that is in the list. */
    method Insert(key: int, n: nat) returns (added: bool)
      requires IsList(slots, n) && Rising(ListOf(slots, n))
      modifies this`slots
      ensures !added ==> slots == old(slots) && key in ListOf(slots, n)
      ensures added ==> IsList(slots, n + 1) && Rising(ListOf(slots, n + 1))
      ensures added ==> forall x :: x in ListOf(slots, n + 1) <==> x in old(ListOf(slots, n)) || x == key
      ensures SameOutside(old(slots), slots, At(n), -1)
    {
      var e := Search(key, n);
      if e < 0 { return false; }
      BetweenIsNew(ListOf(slots, n), e, key);
      Shift(n, e, key);
      return true;
    }

    /** One round of the loop of sort_sparse. */
    method Consider(i: nat, n: nat, ghost was: Slots, ghost q: seq<int>) returns (n': nat)
      requires i < |q| && Positive(q) && SoFar(slots, was, q, border, i, n)
      modifies this`slots
      ensures SoFar(slots, was, q, border, i + 1, n')
    {
      var idx := slots[At(i)].i;
      assert idx == q[i];
      KeptStep(was, border, q, i);
      assert idx > 0 ==> (idx in slots <==> idx in was);
      if idx <= border { return n; }
      if idx !in slots { return n; }
      ghost var sofar := ListOf(slots, n);
      var added := Insert(idx, n);
      if added {
        n' := n + 1;
        assert forall x :: x in ListOf(slots, n') <==> x in sofar || x == idx;
      } else {
        n' := n;
        assert forall x :: x in ListOf(slots, n') <==> x in sofar || x == idx;
      }
    }

    /** sort_sparse. */
    method SortSparse(sparselen: nat) returns (n: nat)
      requires IsList(slots, sparselen) && Positive(ListOf(slots, sparselen))
      modifies this`slots
      ensures IsSorted(slots, old(slots), border, sparselen, n)
    {
      ghost var was, q := slots, ListOf(slots, sparselen);
      n := 0;
      for i := 0 to sparselen
        invariant SoFar(slots, was, q, border, i, n)
      {
        n := Consider(i, n, was, q);
      }
      ghost var done := slots;
      assert q[..sparselen] == q;
      for i := n to sparselen
        invariant Cleared(slots, done, n, i)
      {
        slots := slots - {At(i)};
      }
      slots := slots[0 := Int(0 - n)];
      SortEnds(slots, done, was, q, border, n);
    }

    // ----- the array -----

    ghost predicate Valid()
      reads this
    {
      IsArray(slots, border)
    }

    /** The list is sorted or about to be. */
    ghost predicate Ready()
      reads this
    {
      Valid() && (slots[0].i > 0 || IsSortedList(slots, border))
    }

    /** lnewarray: a value that is nil leaves a hole, and an index behind the border is
        not recorded. */
    constructor (values: seq<Option<Value>>, nb: nat)
      requires IsBorder(FromValues(values), nb)
      ensures Valid() && slots == FromValues(values)[0 := Int(0)] && border == nb
      ensures forall j :: 0 <= j < |values| ==> Holds(slots, j + 1, values[j])
      ensures slots[0] == Int(0) && forall k :: k in slots ==> 0 <= k <= |values|
      ensures Ready() && (Recorded(slots, border) <==> forall x :: Live(slots, x) ==> x <= border)
    {
      slots := FromValues(values)[0 := Int(0)];
      border := nb;
      forall j | 0 <= j < |values| ensures Holds(FromValues(values), j + 1, values[j]) {
        GivenValue(values, j);
      }
    }

    /** The part of __newindex behind the test of the border. */
    method AddEntry(idx: int)
      requires Valid()
      modifies this`slots
      ensures slots == WithEntry(old(slots), idx)
    {
      var sparselen := slots[0].i;
      if sparselen < 0 { sparselen := -sparselen; }
      sparselen := sparselen + 1;
      slots := slots[0 := Int(sparselen)];
      slots := slots[-sparselen := Int(idx)];
    }

    /** __newindex; `nb` is what lua_rawlen returns after the assignment. */
    method NewIndex(idx: int, v: Option<Value>, nb: nat) returns (ok: bool)
      requires Valid()
      requires idx > 0 ==> IsBorder(Assigned(slots, idx, v), nb)
      modifies this
      ensures ok == (idx > 0) && Valid()
      ensures !ok ==> slots == old(slots) && border == old(border)
      ensures ok ==> border == nb
      ensures ok ==> slots == var t := Assigned(old(slots), idx, v); if nb >= idx then t else WithEntry(t, idx)
      ensures ok ==> Holds(slots, idx, v) && SamePositiveBut(old(slots), slots, idx)
      ensures ok ==> ListOf(slots, Length(slots)) == old(ListOf(slots, Length(slots))) + if nb >= idx then [] else [idx]
      ensures ok && nb >= old(border) && old(Recorded(slots, border)) ==> Recorded(slots, border)
      ensures old(Ready()) ==> Ready()
    {
      if idx <= 0 { return false; }
      AssignedKeepsList(slots, idx, v, border, nb);
      slots := if v.Some? then slots[idx := v.value] else slots - {idx};
      border := nb;
      ok := true;
      if border >= idx { return; }
      OneMoreEntry(slots, border, idx);
      AddEntry(idx);
    }

    /** An assignment in Lua: a slot above 0 that is not nil is changed, or removed, without
        __newindex; `nb` is what lua_rawlen returns afterwards. */
    method Assign(idx: int, v: Option<Value>, nb: nat) returns (ok: bool)
      requires Valid()
      requires idx > 0 ==> IsBorder(Assigned(slots, idx, v), nb)
      modifies this
      ensures ok == (idx > 0) && Valid()
      ensures !ok ==> slots == old(slots) && border == old(border)
      ensures ok ==> border == nb
      ensures ok ==> slots == var t := Assigned(old(slots), idx, v); if nb >= idx || idx in old(slots) then t else WithEntry(t, idx)
      ensures ok ==> Holds(slots, idx, v) && SamePositiveBut(old(slots), slots, idx)
      ensures ok ==> ListOf(slots, Length(slots)) == old(ListOf(slots, Length(slots))) + if nb >= idx || idx in old(slots) then [] else [idx]
      ensures ok && nb >= old(border) && old(Recorded(slots, border)) ==> Recorded(slots, border)
      ensures old(Ready()) ==> Ready()
    {
      if idx <= 0 || idx !in slots {
        ok := NewIndex(idx, v, nb);
        return;
      }
      AssignedKeepsList(slots, idx, v, border, nb);
      slots := if v.Some? then slots[idx := v.value] else slots - {idx};
      border := nb;
      ok := true;
    }

    /** The sort in front of lnext, lpairs and llen: afterwards the list is exactly the
        recorded live indices above the border. */
    method Sort()
      requires Valid() && slots[0].i > 0
      modifies this`slots
      ensures Ready() && Sorted(old(slots), slots, border)
    {
      ghost var was := slots;
      var n := SortSparse(slots[0].i);
      SortedIsExact(slots, was, border, n);
    }

    /** The binary search of lnext: the first entry that is not below `idx`. */
    method SearchNext(idx: int, n: nat) returns (begin: nat)
      requires IsList(slots, n) && Rising(ListOf(slots, n))
      ensures begin <= n
      ensures forall j :: 0 <= j < begin ==> ListOf(slots, n)[j] < idx
      ensures forall j :: begin <= j < n ==> ListOf(slots, n)[j] >= idx
    {
      ghost var q := ListOf(slots, n);
      begin := 0;
      var end := n;
      while begin < end
        invariant 0 <= begin <= end <= n
        invariant forall j :: 0 <= j < begin ==> q[j] < idx
        invariant forall j :: end <= j < n ==> q[j] > idx
      {
        var mid := (begin + end) / 2;
        var v := slots[At(mid)].i;
        assert v == q[mid];
        if v > idx {
          end := mid;
        } else if v < idx {
          begin := mid + 1;
        } else {
          begin := mid;
          break;
        }
      }
    }

    /** The entry of a key, as lnext returns it: a dead entry comes with nil. */
    function Pair(x: int): (int, Option<Value>)
      reads this
    {
      (x, if x in slots then Some(slots[x]) else None)
    }

    /** lnext: the next index behind `last`, with its value; None for no result. The error
        "Invalid index" does not occur. Behind a negative index the slots of the list are met
        first. */
    method Next(last: Option<int>) returns (r: Option<(int, Option<Value>)>)
      requires Ready()
      modifies this`slots
      ensures Ready() && (slots == old(slots) || (old(slots[0].i) > 0 && Sorted(old(slots), slots, border)))
      ensures var start := if last.Some? then last.value + 1 else 1;
        && (start > 0 ==> IsNextMet(slots, border, start, if r.Some? then Some(r.value.0) else None))
        && (start in old(slots) ==> r == Some((start, Some(old(slots)[start]))))
        && (start < 0 && start !in old(slots) ==>
          r == if Length(slots) == 0 then None else Some(Pair(ListOf(slots, Length(slots))[0])))
      ensures r.Some? && r.value.0 > 0 ==> r.value == Pair(r.value.0)
    {
      var idx := if last.Some? then last.value + 1 else 1;
      if idx in slots {
        if idx > 0 { LiveIsNext(slots, border, idx, idx); }
        return Some((idx, Some(slots[idx])));
      }
      if idx > 0 && border >= idx {   // an unsigned comparison
        for i := idx + 1 to border + 1
          invariant forall x :: idx <= x < i ==> x !in slots
        {
          if i in slots {
            LiveIsNext(slots, border, idx, i);
            return Some((i, Some(slots[i])));
          }
        }
        assert false;   // "Invalid index"
      }
      if slots[0].i == 0 {
        if idx > 0 { NoneAbove(slots, border, idx); }
        return None;
      }
      r := NextSparse(idx);
    }

    /** The part of lnext behind the test of slot 0. */
    method NextSparse(idx: int) returns (r: Option<(int, Option<Value>)>)
      requires Ready() && (idx < 0 || idx > border) && idx !in slots && slots[0].i != 0
      modifies this`slots
      ensures Ready() && (slots == old(slots) || (old(slots[0].i) > 0 && Sorted(old(slots), slots, border)))
      ensures idx > 0 ==> IsNextMet(slots, border, idx, if r.Some? then Some(r.value.0) else None)
      ensures idx < 0 ==> r == if Length(slots) == 0 then None else Some(Pair(ListOf(slots, Length(slots))[0]))
      ensures r.Some? ==> r.value == Pair(r.value.0)
    {
      if slots[0].i > 0 {
        Sort();
      }
      var sparselen := -slots[0].i;
      var begin := SearchNext(idx, sparselen);
      if idx > 0 { EntryIsNext(slots, border, idx, begin); }
      if begin >= sparselen { return None; }
      var next := slots[At(begin)].i;
      return Some(Pair(next));
    }

    /** llen: the last entry of the list, or the border when the list is empty. */
    method Len() returns (n: int)
      requires Ready()
      modifies this`slots
      ensures Ready() && if old(slots[0].i) > 0 then Sorted(old(slots), slots, border) else slots == old(slots)
      ensures n == LengthOf(slots, border)
      ensures old(slots[0].i > 0 && Recorded(slots, border)) ==> IsLength(slots, n)
    {
      if slots[0].i > 0 {
        Sort();
        if Recorded(slots, border) { ExactLength(slots, border); }
      }
      var sparselen := -slots[0].i;
      if sparselen == 0 { return border; }
      assert -sparselen == At(sparselen - 1);
      n := slots[-sparselen].i;
    }

    /** One turn of a loop with pairs. */
    method Turn(last: Option<int>, keys: seq<int>, values: seq<Option<Value>>)
      returns (next: Option<int>, keys': seq<int>, values': seq<Option<Value>>)
      requires Ready() && slots[0].i <= 0
      requires Visited(slots, border, keys, Reached(last)) && Paired(slots, keys, values)
      modifies this`slots
      ensures slots == old(slots) && Paired(slots, keys', values')
      ensures next == None ==> keys' == keys && forall x :: x in keys <==> Visits(slots, border, x)
      ensures next.Some? ==> Visited(slots, border, keys', next.value)
      ensures next.Some? ==> |Above(slots, border, next.value)| < |Above(slots, border, Reached(last))|
    {
      var r := Next(last);
      if r == None {
        VisitLast(slots, border, keys, Reached(last));
        return None, keys, values;
      }
      VisitNext(slots, border, keys, Reached(last), r.value.0);
      PairedMore(slots, keys, values, r.value.0, r.value.1);
      return Some(r.value.0), keys + [r.value.0], values + [r.value.1];
    }

    /** A traversal with pairs: each index that it visits once, in ascending order, with the
        value of its slot. */
    method Traverse() returns (keys: seq<int>, values: seq<Option<Value>>)
      requires Ready()
      modifies this`slots
      ensures Ready() && if old(slots[0].i) > 0 then Sorted(old(slots), slots, border) else slots == old(slots)
      ensures Rising(keys) && forall x :: x in keys <==> Visits(slots, border, x)
      ensures Paired(slots, keys, values)
    {
      if slots[0].i > 0 {
        Sort();
      }
      ghost var was := slots;
      var last := None;
      keys, values := [], [];
      while true
        invariant Ready() && slots == was && slots[0].i <= 0
        invariant Visited(was, border, keys, Reached(last)) && Paired(was, keys, values)
        decreases |Above(was, border, Reached(last))|
      {
        var next;
        next, keys, values := Turn(last, keys, values);
        if next == None { break; }
        last := next;
      }
    }
  }

  lemma OnlyOne(q: seq<int>, k: int)
    requires Rising(q) && forall x :: x in q <==> x == k
    ensures q == [k]
  {
    assert k in q;
    assert q[0] in q && q[|q| - 1] in q;
  }

  /** Index 5 alone is recorded and sorted. */
  method OneSorted() returns (a: SparseArray)
    ensures fresh(a) && a.Ready() && a.border == 0 && a.slots[0] == Int(-1) && ListOf(a.slots, 1) == [5]
    ensures forall x :: Live(a.slots, x) <==> x == 5
  {
    a := new SparseArray([], 0);
    var ok := a.Assign(5, Some(Int(1)), 0);
    var n := a.Len();
    OnlyOne(ListOf(a.slots, Length(a.slots)), 5);
  }

  /** Of a new array a traversal meets exactly the indices up to the border for which a value
      was given, each with that value. */
  method TraverseNew(values: seq<Option<Value>>, nb: nat) returns (a: SparseArray, keys: seq<int>, found: seq<Option<Value>>)
    requires IsBorder(FromValues(values), nb)
    ensures Rising(keys) && |found| == |keys|
    ensures forall k {:trigger k in keys} :: k in keys <==> 1 <= k <= nb && k <= |values| && values[k - 1].Some?
    ensures forall i {:trigger found[i]} :: 0 <= i < |keys| ==> 1 <= keys[i] <= |values| && found[i] == values[keys[i] - 1]
  {
    a := new SparseArray(values, nb);
    keys, found := a.Traverse();
    forall k ensures Visits(a.slots, nb, k) <==> Live(a.slots, k) && k <= nb {
      NewArrayVisits(a.slots, nb, k);
    }
    forall i | 0 <= i < |keys| ensures 1 <= keys[i] <= |values| && found[i] == values[keys[i] - 1] {
      assert keys[i] in keys && Holds(a.slots, keys[i], found[i]);
      assert Holds(a.slots, keys[i] - 1 + 1, values[keys[i] - 1]);
    }
  }

  lemma {:induction false} NewArrayVisits(t: Slots, border: nat, k: int)
    requires IsArray(t, border) && Length(t) == 0
    ensures Visits(t, border, k) <==> Live(t, k) && k <= border
    decreases k
  {
    if k > border + 1 { NewArrayVisits(t, border, k - 1); }
  }

  /** An index that was recorded and sorted, and then removed: the length is still that
      index, and a traversal still meets it, though nothing is left in the array. */
  method RemovedLast() returns (a: SparseArray, n: int, keys: seq<int>, values: seq<Option<Value>>)
    ensures a.Ready() && (forall x :: !Live(a.slots, x)) && n == 5 && keys == [5] && values == [None]
  {
    a := OneSorted();
    ghost var was := a.slots;
    assert Live(was, 5);
    var ok := a.Assign(5, None, 0);
    assert a.slots == was - {5};
    assert forall x :: Live(a.slots, x) ==> Live(was, x) && x != 5;
    assert At(0) in a.slots && a.slots[At(0)] == was[At(0)];
    assert ListOf(a.slots, 1) == ListOf(was, 1);
    n := a.Len();
    keys, values := a.Traverse();
    OnlyOne(keys, 5);
    assert Holds(a.slots, keys[0], values[0]);
  }

  /** The array {1, 2, 3, 4} without 2 and 4, when the border becomes 1: index 3 is live, but
      nothing leads to it. */
  method LostBehindHole() returns (a: SparseArray, n: int, keys: seq<int>, values: seq<Option<Value>>)
    ensures a.Ready() && Live(a.slots, 3) && n == 1 && keys == [1] && values == [Some(Int(1))]
  {
    a := new SparseArray([Some(Int(1)), Some(Int(2)), Some(Int(3)), Some(Int(4))], 4);
    var ok := a.Assign(2, None, 4);
    ok := a.Assign(4, None, 1);
    n := a.Len();
    keys, values := a.Traverse();
    OnlyOne(keys, 1);
    assert Holds(a.slots, keys[0], values[0]);
  }
}
