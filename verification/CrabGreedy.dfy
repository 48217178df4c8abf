/** What lualib-src/lua-crab.c masks, without the search for it: the leftmost-longest matches. */
module CrabGreedy {
  import opened CrabNodes
  import opened CrabTrie
  import opened CrabDict
  import opened CrabFilter
  import opened Wrappers

  datatype Span = Span(start: nat, len: nat)

  /** A word, and no longer one starts there. */
  ghost predicate IsLongest(D: iset<Word>, s: Word, m: Span) {
    WordAt(D, s, m.start, m.len) && forall n: nat :: n > m.len ==> !WordAt(D, s, m.start, n)
  }

  predicate Covers(ms: seq<Span>, k: nat) {
    exists j :: 0 <= j < |ms| && ms[j].start <= k < ms[j].start + ms[j].len
  }

  /** From `i` on, without overlap. */
  predicate InRow(i: nat, ms: seq<Span>) {
    && (forall j :: 0 <= j < |ms| ==> i <= ms[j].start)
    && (forall j, k :: 0 <= j < k < |ms| ==> ms[j].start + ms[j].len <= ms[k].start)
  }

  /** Longest words that follow each other without overlap, from `i` on, and no word starts
      at a rune that is not in one of them. */
  ghost predicate LeftmostLongest(D: iset<Word>, s: Word, i: nat, ms: seq<Span>) {
    && (forall m :: m in ms ==> IsLongest(D, s, m))
    && InRow(i, ms)
    && (forall k: nat, n: nat :: i <= k < |s| && !Covers(ms, k) ==> !WordAt(D, s, k, n))
  }

  lemma OneMoreInFront(ms: seq<Span>, m: Span, k: nat)
    ensures Covers([m] + ms, k) <==> m.start <= k < m.start + m.len || Covers(ms, k)
  {
    var all := [m] + ms;
    if m.start <= k < m.start + m.len { assert all[0] == m; }
    if j :| 0 <= j < |ms| && ms[j].start <= k < ms[j].start + ms[j].len { assert all[j + 1] == ms[j]; }
  }

  lemma RowInFront(m: Span, rest: seq<Span>)
    requires InRow(m.start + m.len, rest)
    ensures InRow(m.start, [m] + rest)
  {
  }

  /** The longest word at `i`, in front of the matches behind it. */
  lemma MatchInFront(D: iset<Word>, s: Word, m: Span, rest: seq<Span>)
    requires IsLongest(D, s, m) && LeftmostLongest(D, s, m.start + m.len, rest)
    ensures LeftmostLongest(D, s, m.start, [m] + rest)
  {
    RowInFront(m, rest);
    forall k: nat, n: nat | m.start <= k < |s| && !Covers([m] + rest, k) ensures !WordAt(D, s, k, n) {
      OneMoreInFront(rest, m, k);
    }
  }

  lemma NoMatchHere(D: iset<Word>, s: Word, i: nat, rest: seq<Span>)
    requires LeftmostLongest(D, s, i + 1, rest) && forall n: nat :: !WordAt(D, s, i, n)
    ensures LeftmostLongest(D, s, i, rest)
  {
  }

  lemma LongestMeans(D: iset<Word>, s: Word, i: nat, m: nat)
    requires i < |s| && m == Longest(D, s, i, |s| - i)
    ensures if m > 0 then IsLongest(D, s, Span(i, m)) else forall n: nat :: !WordAt(D, s, i, n)
  {
  }

  lemma {:induction false} SearchIsGreedy(D: iset<Word>, s: Word, i: nat) returns (ms: seq<Span>)
    requires i <= |s|
    ensures LeftmostLongest(D, s, i, ms)
    ensures forall k: nat :: IsMasked(D, s, i, k) <==> Covers(ms, k)
    decreases |s| - i
  {
    ms := [];
    if i < |s| {
      var m := Longest(D, s, i, |s| - i);
      LongestMeans(D, s, i, m);
      ms := SearchIsGreedy(D, s, if m > 0 then i + m else i + 1);
      if m == 0 {
        NoMatchHere(D, s, i, ms);
      } else {
        MatchInFront(D, s, Span(i, m), ms);
        ms := MaskedBehind(D, s, i, m, ms);
      }
    }
  }

  lemma MaskedBehind(D: iset<Word>, s: Word, i: nat, m: nat, rest: seq<Span>) returns (ms: seq<Span>)
    requires i < |s| && m == Longest(D, s, i, |s| - i) > 0
    requires forall k: nat :: IsMasked(D, s, i + m, k) <==> Covers(rest, k)
    ensures ms == [Span(i, m)] + rest
    ensures forall k: nat :: IsMasked(D, s, i, k) <==> Covers(ms, k)
  {
    ms := [Span(i, m)] + rest;
    forall k: nat ensures IsMasked(D, s, i, k) <==> Covers(ms, k) {
      OneMoreInFront(rest, Span(i, m), k);
    }
  }

  lemma BehindFirst(D: iset<Word>, s: Word, i: nat, ms: seq<Span>)
    requires LeftmostLongest(D, s, i, ms) && ms != []
    ensures LeftmostLongest(D, s, ms[0].start + ms[0].len, ms[1..])
  {
    forall k: nat | ms[0].start + ms[0].len <= k ensures Covers(ms, k) <==> Covers(ms[1..], k) {
      assert ms == [ms[0]] + ms[1..];
      OneMoreInFront(ms[1..], ms[0], k);
    }
  }

  /** The first match starts at the first rune at which a word starts. */
  lemma FirstStart(D: iset<Word>, s: Word, i: nat, ms: seq<Span>, a: nat, n: nat)
    requires LeftmostLongest(D, s, i, ms) && i <= a && WordAt(D, s, a, n)
    ensures ms != [] && ms[0].start <= a
  {
    assert Covers(ms, a);
    var j :| 0 <= j < |ms| && ms[j].start <= a < ms[j].start + ms[j].len;
    assert ms[0].start <= ms[j].start;
  }

  lemma SameFirst(D: iset<Word>, s: Word, i: nat, ms: seq<Span>, ns: seq<Span>)
    requires LeftmostLongest(D, s, i, ms) && LeftmostLongest(D, s, i, ns) && ms != []
    ensures ns != [] && ms[0] == ns[0]
  {
    assert ms[0] in ms && IsLongest(D, s, ms[0]);
    FirstStart(D, s, i, ns, ms[0].start, ms[0].len);
    assert ns[0] in ns && IsLongest(D, s, ns[0]);
    FirstStart(D, s, i, ms, ns[0].start, ns[0].len);
  }

  /** There is one such sequence of matches only. */
  lemma {:induction false} GreedyIsUnique(D: iset<Word>, s: Word, i: nat, ms: seq<Span>, ns: seq<Span>)
    requires LeftmostLongest(D, s, i, ms) && LeftmostLongest(D, s, i, ns)
    ensures ms == ns
    decreases |ms|
  {
    if ms == [] {
      if ns != [] { SameFirst(D, s, i, ns, ms); }
    } else {
      SameFirst(D, s, i, ms, ns);
      BehindFirst(D, s, i, ms);
      BehindFirst(D, s, i, ns);
      GreedyIsUnique(D, s, ms[0].start + ms[0].len, ms[1..], ns[1..]);
      assert ms == [ms[0]] + ms[1..] && ns == [ns[0]] + ns[1..];
    }
  }

  /** The masked text has '*' at the runes of the leftmost-longest matches and is the same
      elsewhere. */
  lemma MaskedIsGreedy(D: iset<Word>, text: seq<Option<int>>) returns (ms: seq<Span>)
    ensures LeftmostLongest(D, TextRunes(text), 0, ms)
    ensures forall k: nat :: k < |text| ==> Masked(D, text)[k] == if Covers(ms, k) then Some('*' as int) else text[k]
  {
    ms := SearchIsGreedy(D, TextRunes(text), 0);
    assert forall k: nat :: Masks(D, TextRunes(text), k) <==> Covers(ms, k);
  }
}
