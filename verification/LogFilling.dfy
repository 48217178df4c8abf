/** How full the buffers of lualib-src/lua-log.c are: where a new one begins, and how many
    bytes it takes to make a batch so long that the worker drops a part of it. */
module LogFilling {
  import opened Hiding
  import opened LogBooks
  import opened LogBuffers
  import opened LogMachine

  /** `b` begins with a record for which the buffer before it had no room. */
  ghost predicate Begins(before: seq<Record>, b: seq<Record>) {
    b != [] && |Flatten(before)| + |b[0]| >= 4 * 1024 * 1024
  }

  /** Behind what was there before, record `j` did not fill the buffer. */
  ghost predicate Fits(b: seq<Record>, j: nat)
    requires j < |b|
  {
    |Flatten(b[..j])| + |b[j]| < 4 * 1024 * 1024
  }

  ghost predicate AllFit(b: seq<Record>, first: nat) {
    forall j :: first <= j < |b| ==> Fits(b, j)
  }

  /** Each buffer behind the first begins with a record that would have filled the one
      before it, and no other record did. */
  ghost predicate Packed(bs: seq<seq<Record>>) {
    && bs != []
    && (forall i, j :: 0 <= i < j < |bs| && j == i + 1 ==> Begins(bs[i], bs[j]))
    && AllFit(bs[0], 0)
    && (forall i :: 0 < i < |bs| ==> AllFit(bs[i], 1))
  }

  lemma OneMoreFits(b: seq<Record>, line: Record, first: nat)
    requires AllFit(b, first) && (first <= |b| ==> |Flatten(b)| + |line| < 4 * 1024 * 1024)
    ensures AllFit(b + [line], first)
  {
    var c := b + [line];
    forall j | first <= j < |c| ensures Fits(c, j) {
      assert c[..j] == b[..j];
      if j < |b| { assert Fits(b, j); } else { assert b[..j] == b; }
    }
  }

  lemma OneLessFits(b: seq<Record>, first: nat)
    requires AllFit(b, first) && b != []
    ensures AllFit(b[..|b| - 1], first)
  {
    var c := b[..|b| - 1];
    forall j | first <= j < |c| ensures Fits(c, j) {
      assert c[..j] == b[..j] && Fits(b, j);
    }
  }

  /** The last buffer is another one, which begins with the same record. */
  lemma LastChanged(bs: seq<seq<Record>>, b: seq<Record>)
    requires Packed(bs) && AllFit(b, if |bs| == 1 then 0 else 1)
    requires |bs| > 1 ==> b != [] && bs[|bs| - 1] != [] && b[0] == bs[|bs| - 1][0]
    ensures Packed(bs[|bs| - 1 := b])
  {
    var cs := bs[|bs| - 1 := b];
    forall i, j | 0 <= i < j < |cs| && j == i + 1 ensures Begins(cs[i], cs[j]) {
      assert Begins(bs[i], bs[j]);
    }
  }

  lemma NewBuffer(bs: seq<seq<Record>>, line: Record)
    ensures WithRecord(bs + [[]], line) == bs + [[line]]
  {
    var none: seq<Record> := [];
    assert none + [line] == [line];
    assert WithRecord(bs + [none], line) == (bs + [none])[|bs| := [line]];
  }

  lemma FlattenLast(bs: seq<seq<Record>>, line: Record)
    ensures bs != [] ==> Flatten(WithRecord(bs, line)) == Flatten(bs) + [line]
    ensures Flatten(bs + [[line]]) == Flatten(bs) + [line]
  {
    if bs != [] { assert WithRecord(bs, line)[..|bs| - 1] == bs[..|bs| - 1]; }
    assert (bs + [[line]])[..|bs|] == bs;
  }

  lemma FirstRecord(bs: seq<seq<Record>>)
    requires Packed(bs) && |bs| > 1
    ensures Begins(bs[|bs| - 2], bs[|bs| - 1])
  {
  }

  lemma OneMoreBuffer(bs: seq<seq<Record>>, line: Record)
    requires bs != []
    ensures Packed(bs + [[line]]) <==> Packed(bs) && |Flatten(bs[|bs| - 1])| + |line| >= 4 * 1024 * 1024
  {
    var n, cs := |bs|, bs + [[line]];
    if Packed(cs) {
      FirstRecord(cs);
      forall i, j | 0 <= i < j < n && j == i + 1 ensures Begins(bs[i], bs[j]) { assert Begins(cs[i], cs[j]); }
      forall i | 0 < i < n ensures AllFit(bs[i], 1) { assert AllFit(cs[i], 1); }
    }
  }

  /** append keeps this, and puts the line behind the others. */
  lemma PushIsPacked(shared: seq<seq<Record>>, line: Record)
    requires Packed(shared)
    ensures Packed(Push(shared, line)) && Flatten(Push(shared, line)) == Flatten(shared) + [line]
  {
    FlattenLast(shared, line);
    if Used(shared) + |line| < BUFFER_SIZE {
      LineJoins(shared, line);
    } else {
      NewBuffer(shared, line);
      OneMoreBuffer(shared, line);
    }
  }

  /** Packed buffers stay packed, and the line is behind the records there were. */
  ghost predicate Grows(before: seq<seq<Record>>, after: seq<seq<Record>>, line: Record) {
    Packed(before) ==> Packed(after) && Flatten(after) == Flatten(before) + [line]
  }

  lemma PushGrows(shared: seq<seq<Record>>, line: Record)
    requires shared != []
    ensures Grows(shared, Push(shared, line), line)
  {
    if Packed(shared) { PushIsPacked(shared, line); }
  }

  lemma LineJoins(shared: seq<seq<Record>>, line: Record)
    requires Packed(shared) && Used(shared) + |line| < 4 * 1024 * 1024
    ensures Packed(WithRecord(shared, line))
  {
    var n := |shared|;
    if n > 1 { FirstRecord(shared); }
    OneMoreFits(shared[n - 1], line, if n == 1 then 0 else 1);
    LastChanged(shared, shared[n - 1] + [line]);
  }

  lemma LineLeaves(a: seq<seq<Record>>) returns (front: seq<seq<Record>>, line: Record)
    requires Packed(a) && a[|a| - 1] != [] && (|a| > 1 ==> |a[|a| - 1]| > 1)
    ensures Packed(front) && a == WithRecord(front, line) && Used(front) + |line| < 4 * 1024 * 1024
  {
    var n := |a|;
    var last := a[n - 1];
    var rest := last[..|last| - 1];
    line := last[|last| - 1];
    OneLessFits(last, if n == 1 then 0 else 1);
    LastChanged(a, rest);
    front := a[n - 1 := rest];
    assert Fits(last, |last| - 1);
    assert rest + [line] == last;
  }

  /** The last record came by a push. */
  lemma WithoutLast(a: seq<seq<Record>>) returns (front: seq<seq<Record>>, line: Record)
    requires Packed(a) && Flatten(a) != []
    ensures Packed(front) && a == Push(front, line) && Flatten(a) == Flatten(front) + [line]
  {
    var n := |a|;
    var last := a[n - 1];
    if n > 1 { FirstRecord(a); } else { assert a[..0] == []; }
    if n > 1 && |last| == 1 {
      front, line := a[..n - 1], last[0];
      assert last == [line] && a == front + [last];
      OneMoreBuffer(front, line);
      NewBuffer(front, line);
    } else {
      front, line := LineLeaves(a);
    }
    FlattenLast(front, line);
  }

  lemma NothingPacked(a: seq<seq<Record>>)
    requires Packed(a) && Flatten(a) == []
    ensures a == [[]]
  {
    var n := |a|;
    assert Flatten(a) == Flatten(a[..n - 1]) + a[n - 1];
    if n > 1 { FirstRecord(a); }
  }

  /** Which buffers hold which records is determined by the records. */
  lemma {:induction false} PackingIsUnique(a: seq<seq<Record>>, b: seq<seq<Record>>)
    requires Packed(a) && Packed(b) && Flatten(a) == Flatten(b)
    ensures a == b
    decreases |Flatten(a)|
  {
    if Flatten(a) == [] {
      NothingPacked(a);
      NothingPacked(b);
    } else {
      var a', r := WithoutLast(a);
      var b', q := WithoutLast(b);
      assert Flatten(a') == Flatten(a)[..|Flatten(a)| - 1] == Flatten(b');
      PackingIsUnique(a', b');
    }
  }

  /** In every reached state the shared buffers are packed, and so is every batch. */
  lemma {:induction false} BuffersArePacked(steps: seq<Step>)
    ensures Packed(After(steps).shared)
    ensures forall b :: b in Batches(steps) ==> Packed(b)
  {
    if steps != [] {
      var front, s := steps[..|steps| - 1], steps[|steps| - 1];
      BuffersArePacked(front);
      var m := After(front);
      if s.Producer? {
        PushIsPacked(m.shared, s.line);
      } else if m.pc == Noticing {
        PushIsPacked(m.shared, Notice(s.time, Dropping(|m.batch|)));
      }
    }
  }

  // ----- how many bytes a long batch takes -----

  lemma BytesMore(bs: seq<seq<Record>>, b: seq<Record>)
    ensures |Bytes(bs + [b])| == |Bytes(bs)| + |Flatten(b)|
  {
    assert (bs + [b])[..|bs|] == bs;
    FlattenAppend(Flatten(bs), b);
  }

  /** Two neighbours hold 4 MB together. */
  lemma Neighbours(x: seq<Record>, y: seq<Record>)
    requires Begins(x, y)
    ensures |Flatten(x)| + |Flatten(y)| >= 4 * 1024 * 1024
  {
    assert y == [y[0]] + y[1..];
    FlattenAppend([y[0]], y[1..]);
    FlattenOne(y[0]);
  }

  lemma LastTwo(bs: seq<seq<Record>>)
    requires Packed(bs) && |bs| >= 2
    ensures |Bytes(bs)| >= |Bytes(bs[..|bs| - 2])| + 4 * 1024 * 1024
  {
    var n := |bs|;
    BytesMore(bs[..n - 2], bs[n - 2]);
    BytesMore(bs[..n - 1], bs[n - 1]);
    assert bs[..n - 1] == bs[..n - 2] + [bs[n - 2]] && bs == bs[..n - 1] + [bs[n - 1]];
    FirstRecord(bs);
    Neighbours(bs[n - 2], bs[n - 1]);
  }

  lemma {:induction false} PackedIsFull(bs: seq<seq<Record>>)
    requires Packed(bs)
    ensures |Bytes(bs)| >= |bs| / 2 * (4 * 1024 * 1024)
  {
    if |bs| >= 2 {
      LastTwo(bs);
      if |bs| > 2 { PackedIsFull(bs[..|bs| - 2]); }
    }
  }

  /** The bytes of the producers' lines since the worker has last taken the buffers. */
  function SinceSwap(steps: seq<Step>): nat {
    if steps == [] then 0
    else
      var front, s := steps[..|steps| - 1], steps[|steps| - 1];
      if s.Producer? then SinceSwap(front) + |s.line| else if After(front).pc == Waiting then 0 else SinceSwap(front)
  }

  /** Between two swaps the producers append fewer than 52 MB. */
  ghost predicate Unhurried(steps: seq<Step>) {
    forall n :: 0 <= n <= |steps| ==> SinceSwap(steps[..n]) < 13 * (4 * 1024 * 1024)
  }

  lemma UnhurriedStep(m: Machine, s: Step, bytes: nat)
    requires Running(m) && !Long(m) && Packed(m.shared) && |Bytes(m.shared)| == bytes < 13 * (4 * 1024 * 1024)
    ensures forall b :: b in Takes(m, s) ==> |b| <= 25
    ensures |Bytes(Next(m, s).shared)| == if s.Producer? then bytes + |s.line| else if m.pc == Waiting then 0 else bytes
  {
    PackedIsFull(m.shared);
    if s.Producer? {
      PushIsPacked(m.shared, s.line);
      FlattenAppend(Flatten(m.shared), [s.line]);
      FlattenOne(s.line);
    } else if m.pc == Waiting {
      FlattenOne<Record>([]);
    }
  }

  lemma {:induction false} UnhurriedIsShort(steps: seq<Step>)
    requires Unhurried(steps)
    ensures ShortBatches(steps) && !Long(After(steps)) && |Bytes(After(steps).shared)| == SinceSwap(steps)
  {
    if steps == [] {
      FlattenOne<Record>([]);
    } else {
      var front, s := steps[..|steps| - 1], steps[|steps| - 1];
      forall n | 0 <= n <= |front| ensures SinceSwap(front[..n]) < 13 * (4 * 1024 * 1024) {
        assert front[..n] == steps[..n];
      }
      UnhurriedIsShort(front);
      BuffersArePacked(front);
      assert front[..|front|] == front;
      UnhurriedStep(After(front), s, SinceSwap(front));
      ShortStep(After(front), s);
    }
  }

  /** While the producers append fewer than 52 MB between two swaps, the records appended
      are their lines, and none is lost. */
  lemma {:induction false} UnhurriedLosesNothing(steps: seq<Step>)
    requires Unhurried(steps)
    ensures AllAppended(steps) == Lines(steps) && AllLost(steps) == []
  {
    UnhurriedIsShort(steps);
    ShortBatchesLoseNothing(steps);
  }

  lemma {:induction false} SinceSwapIsPart(steps: seq<Step>, n: nat)
    requires n <= |steps|
    ensures SinceSwap(steps[..n]) <= |Flatten(Lines(steps))|
  {
    if steps != [] {
      var front, s := steps[..|steps| - 1], steps[|steps| - 1];
      FlattenAppend(Lines(front), LineOf(s));
      if s.Producer? { FlattenOne(s.line); }
      SinceSwapIsPart(front, if n < |steps| then n else n - 1);
      if n < |steps| {
        assert front[..n] == steps[..n];
      } else {
        assert steps[..n] == steps && front[..n - 1] == front;
      }
    }
  }

  /** So it is when all their lines together have fewer bytes. */
  lemma {:induction false} FewBytesLoseNothing(steps: seq<Step>)
    requires |Flatten(Lines(steps))| < 13 * (4 * 1024 * 1024)
    ensures AllAppended(steps) == Lines(steps) && AllLost(steps) == []
  {
    forall n | 0 <= n <= |steps| ensures SinceSwap(steps[..n]) < 13 * (4 * 1024 * 1024) {
      SinceSwapIsPart(steps, n);
    }
    UnhurriedLosesNothing(steps);
  }

  // ----- as many bytes can be enough -----

  /** What a schedule leads to, what it loses, and how many bytes its producers append. */
  ghost predicate LeadsTo(steps: seq<Step>, m: Machine, lost: seq<Record>, bytes: nat) {
    forall x {:trigger Unfold(steps, x)} :: Unfold(steps, x) ==>
      After(steps) == m && AllLost(steps) == lost && |Flatten(Lines(steps))| == bytes
  }

  lemma OpenLeadsTo(steps: seq<Step>, m: Machine, lost: seq<Record>, bytes: nat)
    ensures LeadsTo(steps, m, lost, bytes) <==>
      After(steps) == m && AllLost(steps) == lost && |Flatten(Lines(steps))| == bytes
  {
    assert Unfold(steps, 0);
  }

  lemma OneMoreStep(steps: seq<Step>, m: Machine, lost: seq<Record>, bytes: nat, s: Step)
    requires LeadsTo(steps, m, lost, bytes) && Running(m)
    ensures LeadsTo(steps + [s], Next(m, s), lost + Loses(m, s), bytes + if s.Producer? then |s.line| else 0)
  {
    OpenLeadsTo(steps, m, lost, bytes);
    OpenLeadsTo(steps + [s], Next(m, s), lost + Loses(m, s), bytes + if s.Producer? then |s.line| else 0);
    assert (steps + [s])[..|steps|] == steps;
    FlattenAppend(Lines(steps), LineOf(s));
    if s.Producer? { FlattenOne(s.line); }
  }

  /** A line that begins a new buffer. */
  lemma LineBegins(steps: seq<Step>, shared: seq<seq<Record>>, bytes: nat, line: Record)
    requires LeadsTo(steps, Machine(shared, [], 0, Waiting), [], bytes)
    requires shared != [] && Used(shared) + |line| >= 4 * 1024 * 1024
    ensures LeadsTo(steps + [Producer(line)], Machine(shared + [[line]], [], 0, Waiting), [], bytes + |line|)
  {
    NewBuffer(shared, line);
    OneMoreStep(steps, Machine(shared, [], 0, Waiting), [], bytes, Producer(line));
  }

  lemma FirstLine(time: string, big: Record)
    requires |big| == 4 * 1024 * 1024
    ensures LeadsTo([Consumer(time)] + [Producer(big)], Machine([[]] + [[big]], [], 0, Waiting), [], |big|)
  {
    var none: seq<Step> := [];
    FlattenOne("");
    OpenLeadsTo(none, INIT, [], 0);
    OneMoreStep(none, INIT, [], 0, Consumer(time));
    assert none + [Consumer(time)] == [Consumer(time)];
    LineBegins([Consumer(time)], [[]], 0, big);
  }

  lemma TwoMoreLines(steps: seq<Step>, shared: seq<seq<Record>>, bytes: nat, big: Record)
    requires |big| == 4 * 1024 * 1024 && shared != [] && shared[|shared| - 1] == [big]
    requires LeadsTo(steps, Machine(shared, [], 0, Waiting), [], bytes)
    ensures LeadsTo(steps + [Producer("")] + [Producer(big)], Machine(shared + [[""]] + [[big]], [], 0, Waiting), [], bytes + |big|)
  {
    FlattenOne(big);
    LineBegins(steps, shared, bytes, "");
    LineBegins(steps + [Producer("")], shared + [[""]], bytes, big);
  }

  /** A line of 4 MB, and `k` times an empty one and such a line: each begins a new buffer. */
  lemma {:induction false} Filling(time: string, big: Record, k: nat) returns (steps: seq<Step>, shared: seq<seq<Record>>, bytes: nat)
    requires |big| == 4 * 1024 * 1024
    ensures LeadsTo(steps, Machine(shared, [], 0, Waiting), [], bytes)
    ensures |shared| == 2 * k + 2 && shared[|shared| - 1] == [big] && bytes == (k + 1) * |big|
    ensures forall s :: s in steps && s.Producer? ==> s.line == big || s.line == ""
  {
    if k == 0 {
      FirstLine(time, big);
      steps, shared, bytes := [Consumer(time)] + [Producer(big)], [[]] + [[big]], |big|;
    } else {
      steps, shared, bytes := Filling(time, big, k - 1);
      TwoMoreLines(steps, shared, bytes, big);
      steps, shared, bytes := steps + [Producer("")] + [Producer(big)], shared + [[""]] + [[big]], bytes + |big|;
    }
  }

  /** A step of the worker that loses nothing. */
  lemma QuietStep(steps: seq<Step>, m: Machine, bytes: nat, time: string, n: Machine)
    requires LeadsTo(steps, m, [], bytes) && Running(m) && m.pc != Trimming && n == Next(m, Consumer(time))
    ensures LeadsTo(steps + [Consumer(time)], n, [], bytes)
  {
    OneMoreStep(steps, m, [], bytes, Consumer(time));
  }

  /** The swap of a long batch, its notice and its trim. */
  lemma LongBatchIsTrimmed(steps: seq<Step>, shared: seq<seq<Record>>, bytes: nat, time: string) returns (more: seq<Step>)
    requires LeadsTo(steps, Machine(shared, [], 0, Waiting), [], bytes) && |shared| > 25
    ensures more == steps + [Consumer(time)] + [Consumer(time)] + [Consumer(time)]
    ensures AllLost(more) == Flatten(shared[2..]) && |Flatten(Lines(more))| == bytes
  {
    var noticing := Machine([[]], shared, 0, Noticing);
    var trimming := Next(noticing, Consumer(time));
    var front := steps + [Consumer(time)] + [Consumer(time)];
    QuietStep(steps, Machine(shared, [], 0, Waiting), bytes, time, noticing);
    QuietStep(steps + [Consumer(time)], noticing, bytes, time, trimming);
    OneMoreStep(front, trimming, [], bytes, Consumer(time));
    more := front + [Consumer(time)];
    OpenLeadsTo(more, Next(trimming, Consumer(time)), [] + Loses(trimming, Consumer(time)), bytes);
  }

  /** With 52 MB lines can be lost: 13 lines of 4 MB, with 12 empty ones between them,
      make a batch of 26 buffers. */
  lemma BoundIsSharp(time: string, big: Record) returns (steps: seq<Step>)
    requires |big| == 4 * 1024 * 1024
    ensures |Flatten(Lines(steps))| == 13 * (4 * 1024 * 1024) && AllLost(steps) != []
    ensures forall s :: s in steps && s.Producer? ==> |s.line| <= 4 * 1024 * 1024
  {
    var front, shared, bytes := Filling(time, big, 12);
    steps := LongBatchIsTrimmed(front, shared, bytes, time);
    EndsWith(shared[2..], big);
  }

  lemma EndsWith(bs: seq<seq<Record>>, line: Record)
    requires bs != [] && bs[|bs| - 1] == [line]
    ensures Flatten(bs) != []
  {
    assert Flatten(bs) == Flatten(bs[..|bs| - 1]) + [line];
  }
}
