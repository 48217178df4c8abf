/** Score ranges of a sorted sequence of keys: what slIsInRange, slFirstInRange and
    slLastInRange compute, and when that is what their comments say. */
module SkipRanges {
  import opened SkipOrder

  predicate Below(s: real, bound: real, inclusive: bool) {
    s < bound || (inclusive && s == bound)
  }

  /** How many leading elements have a score below `bound`. */
  function CountBelow(ks: seq<Key>, bound: real, inclusive: bool): (c: nat)
    ensures c <= |ks|
  {
    if ks == [] || !Below(ks[0].score, bound, inclusive) then 0 else 1 + CountBelow(ks[1..], bound, inclusive)
  }

  lemma {:induction false} CountBelowSplits(ks: seq<Key>, bound: real, inclusive: bool)
    requires Sorted(ks)
    ensures forall j :: 0 <= j < |ks| ==>
      (Below(ks[j].score, bound, inclusive) <==> j < CountBelow(ks, bound, inclusive))
  {
    if ks != [] {
      if Below(ks[0].score, bound, inclusive) {
        CountBelowSplits(ks[1..], bound, inclusive);
        forall j | 0 <= j < |ks|
          ensures Below(ks[j].score, bound, inclusive) <==> j < CountBelow(ks, bound, inclusive)
        {
          if j > 0 { assert ks[j] == ks[1..][j - 1]; }
        }
      } else {
        assert forall j :: 0 < j < |ks| ==> Before(ks[0], ks[j]);
      }
    }
  }

  predicate InRange(k: Key, min: real, max: real) {
    min <= k.score <= max
  }

  /** The test of slIsInRange. */
  predicate SpansRange(ks: seq<Key>, min: real, max: real) {
    min <= max && ks != [] && ks[|ks| - 1].score >= min && ks[0].score <= max
  }

  /** The range lies strictly between two neighbouring elements. */
  ghost predicate InGap(ks: seq<Key>, min: real, max: real) {
    && min <= max
    && exists j :: 0 <= j < |ks| - 1 && ks[j].score < min && max < ks[j + 1].score
  }

  /** The elements in range are exactly those from the first not below `min` to the
      last not above `max`. */
  lemma RangeIsSlice(ks: seq<Key>, min: real, max: real, j: nat)
    requires Sorted(ks) && j < |ks|
    ensures InRange(ks[j], min, max) <==> CountBelow(ks, min, false) <= j < CountBelow(ks, max, true)
  {
    CountBelowSplits(ks, min, false);
    CountBelowSplits(ks, max, true);
  }

  /** slIsInRange, and with it the NULL of slFirstInRange and slLastInRange, is exact
      if and only if the range does not fall into a gap: in a gap they find a node
      although no element is in range. */
  lemma RangeTestIsExact(ks: seq<Key>, min: real, max: real)
    requires Sorted(ks)
    ensures (SpansRange(ks, min, max) <==> exists j :: 0 <= j < |ks| && InRange(ks[j], min, max))
            <==> !InGap(ks, min, max)
  {
    CountBelowSplits(ks, min, false);
    CountBelowSplits(ks, max, true);
    var f := CountBelow(ks, min, false);
    if j :| 0 <= j < |ks| && InRange(ks[j], min, max) {
      assert SpansRange(ks, min, max);
      assert forall g :: 0 <= g < |ks| - 1 && ks[g].score < min ==> g + 1 <= j;
    } else if SpansRange(ks, min, max) {
      assert 0 <= f < |ks| && !InRange(ks[f], min, max);
      assert max < ks[f].score && f > 0;
      assert ks[f - 1].score < min && max < ks[f - 1 + 1].score;
    }
  }

  /** Such a gap: scores 1 and 10, range [4, 6]. */
  lemma GapExample()
    ensures var ks := [Key(1.0, [97]), Key(10.0, [98])];
      && Sorted(ks) && SpansRange(ks, 4.0, 6.0)
      && CountBelow(ks, 4.0, false) == 1 && CountBelow(ks, 6.0, true) == 1
      && !(exists j :: 0 <= j < |ks| && InRange(ks[j], 4.0, 6.0))
  {
    var ks := [Key(1.0, [97]), Key(10.0, [98])];
    assert ks[1..] == [Key(10.0, [98])];
    assert ks[0].score == 1.0 && ks[1].score == 10.0;
  }
}
