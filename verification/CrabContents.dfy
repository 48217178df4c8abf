/** The finite map that the slots of the hash table represent. */
module CrabContents {
  import opened CrabNodes

  ghost function KeysUpTo<T>(N: seq<TableNode<T>>, n: nat): set<Rune>
    requires n <= |N|
  {
    set i | 0 <= i < n && Used(N[i]) :: N[i].key
  }

  ghost function EntryAt<T>(N: seq<TableNode<T>>, k: Rune): Entry<T>
    requires k in KeysUpTo(N, |N|)
  {
    var i :| 0 <= i < |N| && Used(N[i]) && N[i].key == k;
    Entry(N[i].flag, N[i].value)
  }

  ghost function Contents<T>(N: seq<TableNode<T>>): map<Rune, Entry<T>> {
    map k | k in KeysUpTo(N, |N|) :: EntryAt(N, k)
  }

  lemma ContentsAt<T>(N: seq<TableNode<T>>, i: nat)
    requires KeysDistinct(N) && i < |N| && Used(N[i])
    ensures N[i].key in Contents(N) && Contents(N)[N[i].key] == Entry(N[i].flag, N[i].value)
  {
    assert N[i].key in KeysUpTo(N, |N|);
  }

  lemma IndexOf<T>(N: seq<TableNode<T>>, k: Rune) returns (i: nat)
    requires KeysDistinct(N) && k in Contents(N)
    ensures i < |N| && Used(N[i]) && N[i].key == k && Contents(N)[k] == Entry(N[i].flag, N[i].value)
  {
    i :| 0 <= i < |N| && Used(N[i]) && N[i].key == k;
    ContentsAt(N, i);
  }

  lemma AbsentFromContents<T>(N: seq<TableNode<T>>, k: Rune)
    ensures k !in Contents(N) <==> Absent(N, k)
  {
    if i :| 0 <= i < |N| && Used(N[i]) && N[i].key == k { assert k in KeysUpTo(N, |N|); }
  }

  /** Slot `s` got the new key, slot `f` what `s` held before (or nothing was moved and
      f == s); all other slots hold what they held. */
  ghost predicate Placed<T>(N: seq<TableNode<T>>, N': seq<TableNode<T>>, key: Rune, s: nat, f: nat, none: T) {
    && |N'| == |N| && s < |N| && f < |N| && !Used(N[f])
    && Same(N'[s], TableNode(key, -1, NonTerminator, none))
    && (f != s ==> Used(N[s]) && Same(N'[f], N[s]))
    && (forall i {:trigger N'[i]} {:trigger N[i]} :: 0 <= i < |N| && i != s && i != f ==> Same(N'[i], N[i]))
  }

  /** Equal up to the link. */
  ghost predicate Same<T>(a: TableNode<T>, b: TableNode<T>) {
    a.key == b.key && a.flag == b.flag && a.value == b.value
  }

  lemma SecondIsPlaced<T>(N: seq<TableNode<T>>, m: nat, key: Rune, f: nat, none: T)
    requires m < |N| && f < |N| && m != f && !Used(N[f])
    ensures Placed(N, AfterSecond(N, m, key, f, none), key, f, f, none)
  {
  }

  lemma MoveIsPlaced<T>(N: seq<TableNode<T>>, m: nat, key: Rune, f: nat, p: nat, none: T)
    requires m < |N| && f < |N| && p < |N| && m != f && p != f && p != m && !Used(N[f]) && Used(N[m])
    ensures Placed(N, AfterMove(N, m, key, f, p, none), key, m, f, none)
  {
  }

  lemma KeptByPlace<T>(N: seq<TableNode<T>>, N': seq<TableNode<T>>, key: Rune, s: nat, f: nat, none: T, k: Rune)
    requires KeysDistinct(N) && KeysDistinct(N') && Absent(N, key) && Placed(N, N', key, s, f, none) && k != key
    ensures k in Contents(N') <==> k in Contents(N)
    ensures k in Contents(N) ==> Contents(N')[k] == Contents(N)[k]
  {
    if k in Contents(N) {
      var i := IndexOf(N, k);
      ContentsAt(N', if i == s then f else i);
    } else if k in Contents(N') {
      var i := IndexOf(N', k);
      ContentsAt(N, if i == f then s else i);
    }
  }

  lemma ContentsAfterPlace<T>(N: seq<TableNode<T>>, N': seq<TableNode<T>>, key: Rune, s: nat, f: nat, none: T)
    requires KeysDistinct(N) && KeysDistinct(N') && Absent(N, key) && Placed(N, N', key, s, f, none)
    ensures Contents(N') == Contents(N)[key := Entry(NonTerminator, none)]
  {
    ContentsAt(N', s);
    forall k: Rune | k != key
      ensures (k in Contents(N') <==> k in Contents(N)) && (k in Contents(N) ==> Contents(N')[k] == Contents(N)[k])
    {
      KeptByPlace(N, N', key, s, f, none, k);
    }
  }

  /** The used slots among the first `n` hold at most `n` keys, exactly `n` if all are
      used. */
  lemma {:induction false} KeyCount<T>(N: seq<TableNode<T>>, n: nat)
    requires KeysDistinct(N) && n <= |N|
    ensures |KeysUpTo(N, n)| <= n
    ensures |KeysUpTo(N, n)| == n <==> AllUsed(N, n)
  {
    if n > 0 {
      KeyCount(N, n - 1);
      KeysStep(N, n - 1);
      assert AllUsed(N, n) <==> AllUsed(N, n - 1) && Used(N[n - 1]);
    }
  }

  ghost predicate AllUsed<T>(N: seq<TableNode<T>>, n: nat)
    requires n <= |N|
  {
    forall i {:trigger N[i]} :: 0 <= i < n ==> Used(N[i])
  }

  lemma KeysStep<T>(N: seq<TableNode<T>>, n: nat)
    requires KeysDistinct(N) && n < |N|
    ensures KeysUpTo(N, n + 1) == if Used(N[n]) then KeysUpTo(N, n) + {N[n].key} else KeysUpTo(N, n)
    ensures |KeysUpTo(N, n + 1)| == if Used(N[n]) then |KeysUpTo(N, n)| + 1 else |KeysUpTo(N, n)|
  {
    assert Used(N[n]) ==> N[n].key !in KeysUpTo(N, n);
  }

  function Set<T>(N: seq<TableNode<T>>, s: nat, flag: Flag, value: T): seq<TableNode<T>>
    requires s < |N|
  {
    N[s := N[s].(flag := flag, value := value)]
  }

  /** A slot whose flag or value is set keeps its place. */
  lemma ChainedAfterSet<T>(N: seq<TableNode<T>>, C: seq<seq<nat>>, none: T, s: nat, flag: Flag, value: T)
    requires Chained(N, C, none) && s < |N| && Used(N[s]) && flag != Empty
    ensures Chained(Set(N, s, flag, value), C, none)
  {
    var N' := Set(N, s, flag, value);
    forall m {:trigger C[m]} | 0 <= m < |C| ensures ChainOk(N', m, C[m]) {
      assert ChainOk(N, m, C[m]);
    }
  }

  lemma KeptBySet<T>(N: seq<TableNode<T>>, s: nat, flag: Flag, value: T, k: Rune)
    requires KeysDistinct(N) && s < |N| && Used(N[s]) && flag != Empty && k != N[s].key
    ensures var N' := Set(N, s, flag, value);
      (k in Contents(N') <==> k in Contents(N)) && (k in Contents(N) ==> Contents(N')[k] == Contents(N)[k])
  {
    var N' := Set(N, s, flag, value);
    if k in Contents(N) {
      var i := IndexOf(N, k);
      ContentsAt(N', i);
    } else if k in Contents(N') {
      var i := IndexOf(N', k);
      ContentsAt(N, i);
    }
  }

  lemma ContentsAfterSet<T>(N: seq<TableNode<T>>, s: nat, flag: Flag, value: T)
    requires KeysDistinct(N) && s < |N| && Used(N[s]) && flag != Empty
    ensures Contents(Set(N, s, flag, value)) == Contents(N)[N[s].key := Entry(flag, value)]
  {
    var N' := Set(N, s, flag, value);
    ContentsAt(N', s);
    ContentsAt(N, s);
    forall k: Rune | k != N[s].key
      ensures (k in Contents(N') <==> k in Contents(N)) && (k in Contents(N) ==> Contents(N')[k] == Contents(N)[k])
    {
      KeptBySet(N, s, flag, value, k);
    }
  }

  /** One more slot. */
  lemma KeptByAppend<T>(N: seq<TableNode<T>>, x: TableNode<T>, k: Rune)
    requires KeysDistinct(N + [x]) && KeysDistinct(N) && !(Used(x) && k == x.key)
    ensures k in Contents(N + [x]) <==> k in Contents(N)
    ensures k in Contents(N) ==> Contents(N + [x])[k] == Contents(N)[k]
  {
    var N' := N + [x];
    if k in Contents(N) {
      var i := IndexOf(N, k);
      ContentsAt(N', i);
    } else if k in Contents(N') {
      var i := IndexOf(N', k);
      ContentsAt(N, i);
    }
  }

  lemma DistinctFront<T>(N: seq<TableNode<T>>, x: TableNode<T>)
    requires KeysDistinct(N + [x])
    ensures KeysDistinct(N) && (Used(x) ==> Absent(N, x.key))
  {
    var N' := N + [x];
    assert forall i :: 0 <= i < |N| ==> N'[i] == N[i];
    assert N'[|N|] == x;
  }

  lemma ContentsAppend<T>(N: seq<TableNode<T>>, x: TableNode<T>)
    requires KeysDistinct(N + [x])
    ensures KeysDistinct(N)
    ensures Contents(N + [x]) == if Used(x) then Contents(N)[x.key := Entry(x.flag, x.value)] else Contents(N)
    ensures Used(x) ==> x.key !in Contents(N)
  {
    DistinctFront(N, x);
    var M, M' := Contents(N), Contents(N + [x]);
    if Used(x) {
      ContentsAt(N + [x], |N|);
      AbsentFromContents(N, x.key);
    }
    forall k: Rune | !(Used(x) && k == x.key) ensures (k in M' <==> k in M) && (k in M ==> M'[k] == M[k]) {
      KeptByAppend(N, x, k);
    }
  }

  /** A table with fewer keys than slots is not full. */
  lemma FewKeysNotFull<T>(N: seq<TableNode<T>>, O: seq<TableNode<T>>)
    requires KeysDistinct(N) && KeysDistinct(O) && Contents(N) == Contents(O) && |O| < |N|
    ensures exists i :: 0 <= i < |N| && !Used(N[i])
  {
    KeyCount(O, |O|);
    KeyCount(N, |N|);
    assert Contents(N).Keys == KeysUpTo(N, |N|) && Contents(O).Keys == KeysUpTo(O, |O|);
  }
}
