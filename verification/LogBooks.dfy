/** The records of lualib-src/lua-log.c as values: what has been appended, what of it is
    kept, and what has been written. */
module LogBooks {
  import opened Hiding

  function Flatten<T>(ss: seq<seq<T>>): seq<T> {
    if ss == [] then [] else Flatten(ss[..|ss| - 1]) + ss[|ss| - 1]
  }

  lemma {:induction false} FlattenAppend<T>(a: seq<seq<T>>, b: seq<seq<T>>)
    ensures Flatten(a + b) == Flatten(a) + Flatten(b)
  {
    if b == [] {
      assert a + b == a;
    } else {
      assert (a + b)[..|a + b| - 1] == a + b[..|b| - 1];
      FlattenAppend(a, b[..|b| - 1]);
    }
  }

  lemma FlattenOne<T>(s: seq<T>)
    ensures Flatten([s]) == s
  {
    assert [s][..0] == [];
  }

  type Record = string

  /** All records in mutex order, those not dropped, their positions among all, and
      those in the file. */
  datatype Books = Books(appended: seq<Record>, kept: seq<Record>, origin: seq<nat>, lost: seq<Record>, written: seq<Record>)

  ghost predicate Rising(origin: seq<nat>, n: nat) {
    && (forall i :: 0 <= i < |origin| ==> origin[i] < n)
    && (forall i, j :: 0 <= i < j < |origin| ==> origin[i] < origin[j])
  }

  /** The kept records are the appended ones in their order, without the lost ones. */
  ghost predicate InOrder(b: Books) {
    && |b.origin| == |b.kept| && |b.kept| + |b.lost| == |b.appended|
    && Rising(b.origin, |b.appended|)
    && (forall i :: 0 <= i < |b.kept| ==> b.kept[i] == b.appended[b.origin[i]])
  }

  /** Kept is what is written, in the unwritten buffers of the batch, and in the shared
      buffers, in this order. */
  ghost predicate Balanced(b: Books, batch: seq<seq<Record>>, w: nat, shared: seq<seq<Record>>) {
    w <= |batch| && b.kept == b.written + Flatten(batch[w..]) + Flatten(shared)
  }

  ghost predicate Sound(b: Books, batch: seq<seq<Record>>, w: nat, shared: seq<seq<Record>>) {
    forall x {:trigger Unfold((b, batch, w), x)} :: Unfold((b, batch, w), x) ==> InOrder(b) && Balanced(b, batch, w, shared)
  }

  lemma OpenBooks(b: Books, batch: seq<seq<Record>>, w: nat, shared: seq<seq<Record>>)
    ensures Sound(b, batch, w, shared) <==> InOrder(b) && Balanced(b, batch, w, shared)
  {
    assert Unfold((b, batch, w), 0);
  }

  ghost function Appended(b: Books, r: Record): Books {
    b.(appended := b.appended + [r], kept := b.kept + [r], origin := b.origin + [|b.appended|])
  }

  /** The bytes of the file are those of the records `rs`. */
  ghost predicate Filed(file: string, rs: seq<Record>) {
    forall x {:trigger Unfold(rs, x)} :: Unfold(rs, x) ==> file == Flatten(rs)
  }

  lemma OpenFiled(file: string, rs: seq<Record>)
    ensures Filed(file, rs) <==> file == Flatten(rs)
  {
    assert Unfold(rs, 0);
  }

  lemma FiledMore(file: string, rs: seq<Record>, more: seq<Record>)
    requires Filed(file, rs)
    ensures Filed(file + Flatten(more), rs + more)
  {
    OpenFiled(file, rs);
    FlattenAppend(rs, more);
    OpenFiled(file + Flatten(more), rs + more);
  }

  ghost function Written(b: Books, rs: seq<Record>): Books {
    b.(written := b.written + rs)
  }

  /** The records `lo` to `hi` of the kept ones are dropped. */
  ghost function Dropped(b: Books, lo: nat, hi: nat): Books
    requires lo <= hi <= |b.kept| == |b.origin|
  {
    b.(kept := b.kept[..lo] + b.kept[hi..], origin := b.origin[..lo] + b.origin[hi..], lost := b.lost + b.kept[lo..hi])
  }

  function WithRecord(shared: seq<seq<Record>>, r: Record): (s: seq<seq<Record>>)
    requires shared != []
    ensures |s| == |shared|
  {
    shared[|shared| - 1 := shared[|shared| - 1] + [r]]
  }

  lemma AppendedBalanced(b: Books, batch: seq<seq<Record>>, w: nat, shared: seq<seq<Record>>, r: Record)
    requires Sound(b, batch, w, shared) && shared != []
    ensures Sound(Appended(b, r), batch, w, WithRecord(shared, r))
  {
    OpenBooks(b, batch, w, shared);
    OpenBooks(Appended(b, r), batch, w, WithRecord(shared, r));
    var s := WithRecord(shared, r);
    assert s[..|s| - 1] == shared[..|s| - 1];
    assert Flatten(s) == Flatten(shared) + [r];
  }

  lemma EmptyBufferBalanced(b: Books, batch: seq<seq<Record>>, w: nat, shared: seq<seq<Record>>)
    requires Sound(b, batch, w, shared)
    ensures Sound(b, batch, w, shared + [[]])
  {
    OpenBooks(b, batch, w, shared);
    OpenBooks(b, batch, w, shared + [[]]);
    assert (shared + [[]])[..|shared|] == shared;
  }

  /** The swap: the shared buffers are the new batch. */
  lemma SwapBalanced(b: Books, shared: seq<seq<Record>>)
    requires Sound(b, [], 0, shared)
    ensures Sound(b, shared, 0, [[]])
  {
    OpenBooks(b, [], 0, shared);
    OpenBooks(b, shared, 0, [[]]);
    FlattenOne<Record>([]);
    assert shared[0..] == shared;
    var none: seq<seq<Record>> := [];
    assert Flatten(none) == [] && none[0..] == none;
  }

  lemma WrittenBalanced(b: Books, batch: seq<seq<Record>>, w: nat, shared: seq<seq<Record>>)
    requires Sound(b, batch, w, shared) && w < |batch|
    ensures Sound(Written(b, batch[w]), batch, w + 1, shared)
  {
    OpenBooks(b, batch, w, shared);
    OpenBooks(Written(b, batch[w]), batch, w + 1, shared);
    assert batch[w..] == [batch[w]] + batch[w + 1..];
    FlattenAppend([batch[w]], batch[w + 1..]);
    FlattenOne(batch[w]);
  }

  lemma BatchDone(b: Books, batch: seq<seq<Record>>, shared: seq<seq<Record>>)
    requires Sound(b, batch, |batch|, shared)
    ensures Sound(b, [], 0, shared)
  {
    OpenBooks(b, batch, |batch|, shared);
    OpenBooks(b, [], 0, shared);
    assert batch[|batch|..] == [];
  }

  /** Where the records of the buffers behind the first two lie among the kept ones. */
  ghost function CutFrom(b: Books, batch: seq<seq<Record>>): nat
    requires |batch| >= 2
  {
    |b.written| + |Flatten(batch[..2])|
  }

  ghost function CutTo(b: Books, batch: seq<seq<Record>>): nat
    requires |batch| >= 2
  {
    CutFrom(b, batch) + |Flatten(batch[2..])|
  }

  lemma DroppedInOrder(b: Books, lo: nat, hi: nat)
    requires InOrder(b) && lo <= hi <= |b.kept|
    ensures InOrder(Dropped(b, lo, hi))
  {
    var d := Dropped(b, lo, hi);
    forall i | 0 <= i < |d.kept| ensures d.origin[i] == b.origin[if i < lo then i else i + (hi - lo)] {
    }
  }

  lemma Slices<T>(a: seq<T>, b: seq<T>, c: seq<T>, d: seq<T>, s: seq<T>)
    requires s == a + b + c + d
    ensures s[..|a| + |b|] == a + b && s[|a| + |b|..|a| + |b| + |c|] == c && s[|a| + |b| + |c|..] == d
  {
  }

  /** Dropping the buffers behind the first two loses exactly their records. */
  lemma TrimBalanced(b: Books, batch: seq<seq<Record>>, shared: seq<seq<Record>>) returns (t: Books)
    requires Sound(b, batch, 0, shared) && |batch| >= 2
    ensures t.appended == b.appended && t.written == b.written && t.lost == b.lost + Flatten(batch[2..])
    ensures Sound(t, batch[..2], 0, shared)
  {
    OpenBooks(b, batch, 0, shared);
    var lo, hi := CutFrom(b, batch), CutTo(b, batch);
    var head, rest := Flatten(batch[..2]), Flatten(batch[2..]);
    assert batch[0..] == batch[..2] + batch[2..];
    FlattenAppend(batch[..2], batch[2..]);
    assert b.kept == b.written + head + rest + Flatten(shared);
    Slices(b.written, head, rest, Flatten(shared), b.kept);
    DroppedInOrder(b, lo, hi);
    assert batch[..2][0..] == batch[..2];
    t := Dropped(b, lo, hi);
    OpenBooks(t, batch[..2], 0, shared);
  }

  lemma EmptyBooks()
    ensures Sound(Books([], [], [], [], []), [], 0, [[]])
  {
    OpenBooks(Books([], [], [], [], []), [], 0, [[]]);
    FlattenOne<Record>([]);
  }

  /** Nothing lost means nothing missing. */
  lemma {:induction false} NothingLost(b: Books)
    requires InOrder(b) && b.lost == []
    ensures b.kept == b.appended
  {
    OriginIsIdentity(b.origin, |b.appended|);
  }

  lemma {:induction false} OriginIsIdentity(origin: seq<nat>, n: nat)
    requires Rising(origin, n) && |origin| == n
    ensures forall i :: 0 <= i < n ==> origin[i] == i
  {
    if n > 0 {
      var front := origin[..n - 1];
      forall i | 0 <= i < n - 1 ensures front[i] < n - 1 {
        assert origin[i] < origin[n - 1];
      }
      OriginIsIdentity(front, n - 1);
      if n > 1 { assert origin[n - 1] > origin[n - 2] == front[n - 2]; }
    }
  }

  // ----- the notice -----

  function Digit(d: nat): char
    requires d < 10
  {
    '0' + d as char
  }

  /** "%d" of a number that is not negative. */
  function Decimal(n: nat): (s: string)
    ensures s != []
  {
    if n < 10 then [Digit(n)] else Decimal(n / 10) + [Digit(n % 10)]
  }

  /** The number a digit string denotes. */
  function Value(s: string): int {
    if s == [] then 0 else 10 * Value(s[..|s| - 1]) + (s[|s| - 1] as int - '0' as int)
  }

  lemma {:induction false} DecimalIsExact(n: nat)
    ensures Value(Decimal(n)) == n
    ensures forall c :: c in Decimal(n) ==> '0' <= c <= '9'
    ensures n > 0 ==> Decimal(n)[0] != '0'
  {
    if n < 10 {
      assert Decimal(n)[..0] == [];
    } else {
      DecimalIsExact(n / 10);
      assert Decimal(n)[..|Decimal(n)| - 1] == Decimal(n / 10);
    }
  }

  function TenTo(k: nat): nat {
    if k == 0 then 1 else 10 * TenTo(k - 1)
  }

  lemma {:induction false} DecimalIsShort(n: nat, k: nat)
    requires k > 0 && n < TenTo(k)
    ensures |Decimal(n)| <= k
  {
    if n >= 10 { DecimalIsShort(n / 10, k - 1); }
  }

  /** The notice of dropped buffers, cut to the 255 characters that fit. */
  function Notice(time: string, n: nat): (s: string)
    ensures |s| <= 255
  {
    var s := "Dropped log messages at " + time + ", " + Decimal(n) + " larger buffers\n";
    if |s| > 255 then s[..255] else s
  }

  /** For a time stamp that fits its buffer of 64 bytes and a number that is an `int`
      nothing is cut off, and the notice has the number in digits. */
  lemma NoticeTells(time: string, n: nat) returns (digits: string)
    requires |time| < 64 && n < 0x8000_0000
    ensures Notice(time, n) == "Dropped log messages at " + time + ", " + digits + " larger buffers\n"
    ensures Value(digits) == n && forall c :: c in digits ==> '0' <= c <= '9'
    ensures n > 0 ==> digits != "" && digits[0] != '0'
  {
    digits := Decimal(n);
    DecimalIsExact(n);
    assert TenTo(10) == 10_000_000_000;
    DecimalIsShort(n, 10);
  }

  /** The bytes of buffers that hold the records `rs`. */
  ghost function Bytes(rs: seq<seq<Record>>): string {
    Flatten(Flatten(rs))
  }

  /** The file and the buffers, in order, hold the kept records: all records when none is lost. */
  lemma NothingMissing(b: Books, batch: seq<seq<Record>>, w: nat, shared: seq<seq<Record>>, file: string)
    requires Sound(b, batch, w, shared) && Filed(file, b.written)
    ensures w <= |batch| && file + Bytes(batch[w..]) + Bytes(shared) == Flatten(b.kept)
    ensures b.lost == [] ==> b.kept == b.appended
  {
    OpenBooks(b, batch, w, shared);
    OpenFiled(file, b.written);
    FlattenAppend(b.written + Flatten(batch[w..]), Flatten(shared));
    FlattenAppend(b.written, Flatten(batch[w..]));
    if b.lost == [] { NothingLost(b); }
  }
}
