/** dict_open and dict_filter of lualib-src/lua-crab.c: the masking of the greedy
    leftmost-longest dictionary matches. */
module CrabFilter {
  import opened Hiding
  import opened CrabNodes
  import opened CrabContents
  import opened CrabTable
  import opened CrabTrie
  import opened CrabDict
  import opened Wrappers

  const STAR := '*' as int

  /** What lua_tointeger makes of an element: 0 when it is no integer. */
  function RuneOf(x: Option<int>): Rune {
    if x.Some? then ToRune(x.value) else 0
  }

  /** An integer that fits is kept, integers 2^32 apart are one rune, and what is no integer
      counts as 0. */
  lemma RunesWrap(x: int, k: int)
    ensures 0 <= x < 0x1_0000_0000 ==> RuneOf(Some(x)) == x
    ensures RuneOf(Some(x + 0x1_0000_0000 * k)) == RuneOf(Some(x)) == ToRune(x)
    ensures RuneOf(None) == 0
  {
  }

  function TextRunes(text: seq<Option<int>>): (s: Word)
    ensures |s| == |text| && forall k {:trigger s[k]} {:trigger text[k]} :: 0 <= k < |text| ==> s[k] == RuneOf(text[k])
  {
    seq(|text|, k requires 0 <= k < |text| => RuneOf(text[k]))
  }

  // ----- the matches -----

  /** A word of `n` runes starts at `a`. */
  ghost predicate WordAt(D: iset<Word>, s: Word, a: nat, n: nat) {
    n > 0 && a + n <= |s| && s[a..a + n] in D
  }

  ghost predicate HasWord(D: iset<Word>, s: Word) {
    exists a: nat, n: nat :: WordAt(D, s, a, n)
  }

  /** The length of the longest word at `i` of at most `n` runes, 0 for none. */
  ghost function Longest(D: iset<Word>, s: Word, i: nat, n: nat): (m: nat)
    requires i + n <= |s|
    ensures m <= n && (m > 0 ==> WordAt(D, s, i, m))
    ensures forall k: nat :: m < k <= n ==> !WordAt(D, s, i, k)
  {
    if n == 0 then 0 else if WordAt(D, s, i, n) then n else Longest(D, s, i, n - 1)
  }

  lemma {:induction false} LongestEnds(D: iset<Word>, s: Word, i: nat, m: nat, n: nat)
    requires m <= n && i + n <= |s|
    requires forall k: nat :: m < k <= n ==> !WordAt(D, s, i, k)
    ensures Longest(D, s, i, n) == Longest(D, s, i, m)
  {
    if m < n {
      LongestEnds(D, s, i, m, n - 1);
    }
  }

  lemma LongestNext(D: iset<Word>, s: Word, i: nat, n: nat)
    requires i + n + 1 <= |s|
    ensures Longest(D, s, i, n + 1) == if WordAt(D, s, i, n + 1) then n + 1 else Longest(D, s, i, n)
  {
  }

  /** Which runes from `i` on are masked: the leftmost match is taken, at its longest,
      and the search goes on behind it. */
  ghost predicate IsMasked(D: iset<Word>, s: Word, i: nat, k: nat)
    decreases |s| - i
  {
    && i <= k < |s|
    && var m := Longest(D, s, i, |s| - i);
      (k < i + m || IsMasked(D, s, if m > 0 then i + m else i + 1, k))
  }

  /** A rune that is not masked starts no word: the search has looked at it. */
  lemma {:induction false} UnmaskedStartsNoWord(D: iset<Word>, s: Word, i: nat, a: nat, n: nat)
    requires i <= a < |s| && !IsMasked(D, s, i, a)
    ensures !WordAt(D, s, a, n)
    decreases |s| - i
  {
    var m := Longest(D, s, i, |s| - i);
    if m > 0 {
      UnmaskedStartsNoWord(D, s, i + m, a, n);
    } else if a > i {
      UnmaskedStartsNoWord(D, s, i + 1, a, n);
    }
  }

  /** A masked rune lies in a match, which is a longest one and masked as a whole. */
  lemma {:induction false} MaskedLiesInMatch(D: iset<Word>, s: Word, i: nat, k: nat) returns (a: nat)
    requires IsMasked(D, s, i, k)
    ensures i <= a <= k < a + Longest(D, s, a, |s| - a)
    ensures forall j :: a <= j < a + Longest(D, s, a, |s| - a) ==> IsMasked(D, s, i, j)
    decreases |s| - i
  {
    var m := Longest(D, s, i, |s| - i);
    if k < i + m {
      a := i;
    } else {
      a := MaskedLiesInMatch(D, s, if m > 0 then i + m else i + 1, k);
    }
    forall j | a <= j < a + Longest(D, s, a, |s| - a) ensures IsMasked(D, s, i, j) {
      assert k >= i + m ==> IsMasked(D, s, if m > 0 then i + m else i + 1, j);
    }
  }

  /** The rune at `k` is masked. */
  ghost predicate Masks(D: iset<Word>, s: Word, k: nat) {
    IsMasked(D, s, 0, k)
  }

  /** Something is masked if and only if there is a word. */
  lemma MaskedIffWord(D: iset<Word>, s: Word)
    ensures (exists k: nat :: Masks(D, s, k)) <==> HasWord(D, s)
  {
    if HasWord(D, s) {
      var a: nat, n: nat :| WordAt(D, s, a, n);
      if !Masks(D, s, a) { UnmaskedStartsNoWord(D, s, 0, a, n); }
    }
    if k: nat :| Masks(D, s, k) {
      var a := MaskedLiesInMatch(D, s, 0, k);
      assert WordAt(D, s, a, Longest(D, s, a, |s| - a));
    }
  }

  // ----- what masking leaves -----

  ghost function Masked(D: iset<Word>, text: seq<Option<int>>): (out: seq<Option<int>>)
    ensures |out| == |text|
  {
    seq(|text|, k requires 0 <= k < |text| => if Masks(D, TextRunes(text), k) then Some(STAR) else text[k])
  }

  /** Every word in the masked text covers a masked rune. */
  lemma SurvivorsTouchAMask(D: iset<Word>, text: seq<Option<int>>, a: nat, n: nat)
    requires WordAt(D, TextRunes(Masked(D, text)), a, n)
    ensures exists k :: a <= k < a + n && Masks(D, TextRunes(text), k)
  {
    var s, out := TextRunes(text), TextRunes(Masked(D, text));
    if forall k :: a <= k < a + n ==> !Masks(D, s, k) {
      assert !Masks(D, s, a);
      UnmaskedStartsNoWord(D, s, 0, a, n);
      if out[a..a + n] == s[a..a + n] { assert false; }
    }
  }

  ghost predicate StarFree(w: Word) {
    STAR !in w
  }

  /** No word without '*' is left in the masked text. */
  lemma NoStarFreeWordSurvives(D: iset<Word>, text: seq<Option<int>>, a: nat, n: nat)
    requires WordAt(D, TextRunes(Masked(D, text)), a, n)
    ensures !StarFree(TextRunes(Masked(D, text))[a..a + n])
  {
    SurvivorsTouchAMask(D, text, a, n);
    var k :| a <= k < a + n && Masks(D, TextRunes(text), k);
    var out := TextRunes(Masked(D, text));
    assert out[k] == STAR && out[a..a + n][k - a] == STAR;
  }

  /** A word with '*' can be left: the dictionary of "*" and the text "*". */
  lemma StarWordSurvives()
    ensures var D: iset<Word> := iset{[STAR]};
      HasWord(D, TextRunes(Masked(D, [Some(STAR)])))
  {
    var D: iset<Word> := iset{[STAR]};
    var out := TextRunes(Masked(D, [Some(STAR)]));
    assert out[0..0 + 1] == [STAR];
    assert WordAt(D, out, 0, 1);
  }

  /** With words without '*' only, filtering again finds nothing and changes nothing. */
  lemma FilterIsIdempotent(D: iset<Word>, text: seq<Option<int>>)
    requires forall w :: w in D ==> StarFree(w)
    ensures !HasWord(D, TextRunes(Masked(D, text)))
    ensures Masked(D, Masked(D, text)) == Masked(D, text)
  {
    var out := TextRunes(Masked(D, text));
    forall a: nat, n: nat ensures !WordAt(D, out, a, n) {
      if WordAt(D, out, a, n) { NoStarFreeWordSurvives(D, text, a, n); }
    }
    MaskedIffWord(D, out);
    assert forall k: nat :: !Masks(D, out, k);
  }

  // ----- the walk over the trie -----

  ghost predicate Stands(root: Table, path: map<Table, Word>, E: map<Table, TableEntries>, t: Table, s: Word, i: nat, j: nat) {
    TrieOk(root, path, E) && t in path && i <= j < |s| && path[t] == s[i..j]
  }

  /** The word from `i` to the rune at `j` is one of the dictionary if the entry ends one. */
  lemma EntryDecides(root: Table, path: map<Table, Word>, E: map<Table, TableEntries>, t: Table, s: Word, i: nat, j: nat)
    requires Stands(root, path, E, t, s, i, j)
    ensures WordAt(WordsOf(path, E), s, i, j + 1 - i) <==> s[j] in E[t] && E[t][s[j]].flag == Terminator
  {
    var w := s[i..j + 1];
    assert w[..|w| - 1] == s[i..j] && w[|w| - 1] == s[j];
    assert EndsAt(path, E, w, t) <==> s[j] in E[t] && E[t][s[j]].flag == Terminator;
    assert s[i..i + (j + 1 - i)] == w;
  }

  /** Without a table below, no longer word starts at `i`. */
  lemma DeadEnd(root: Table, path: map<Table, Word>, E: map<Table, TableEntries>, t: Table, s: Word, i: nat, j: nat, n: nat)
    requires Stands(root, path, E, t, s, i, j) && j + 1 - i < n
    requires s[j] !in E[t] || E[t][s[j]].value == null
    ensures !WordAt(WordsOf(path, E), s, i, n)
  {
    if WordAt(WordsOf(path, E), s, i, n) {
      var w := s[i..i + n];
      assert w[..j - i] == s[i..j] && w[j - i] == s[j];
      WordGoesThrough(root, path, E, w, t, j - i);
      assert false;
    }
  }

  ghost predicate At(dict: Dict, t: Table, s: Word, i: nat, j: nat)
    reads dict, dict.owner.Keys
  {
    forall x {:trigger Unfold((t, j), x)} :: Unfold((t, j), x) ==> Stands(dict.root, dict.path, dict.E, t, s, i, j)
  }

  lemma OpenAt(dict: Dict, t: Table, s: Word, i: nat, j: nat)
    ensures At(dict, t, s, i, j) <==> Stands(dict.root, dict.path, dict.E, t, s, i, j)
  {
    assert Unfold((t, j), 0);
  }

  /** table_get in a table of the trie. */
  method Lookup(dict: Dict, t: Table, rune: Rune) returns (r: int)
    requires dict.Valid() && t in dict.path
    ensures r < 0 ==> rune !in dict.E[t]
    ensures r >= 0 ==> r < t.node.Length && rune in dict.E[t] && dict.E[t][rune] == Entry(t.node[r].flag, t.node[r].value)
  {
    OpenTrie(dict.root, dict.path, dict.E);
    Open(t, dict.E[t]);
    r := t.Get(rune);
    if r >= 0 {
      SlotEntry(t, dict.E[t], r);
    } else {
      AbsentFromContents(t.node[..], rune);
    }
  }

  /** The body of the inner loop of dict_filter: does a word end at `j`, and which table
      comes next? */
  method Probe(dict: Dict, t: Table, rune: Rune, ghost D: iset<Word>, ghost s: Word, ghost i: nat, ghost j: nat)
    returns (ends: bool, next: Table?)
    requires dict.Knows(D) && At(dict, t, s, i, j) && i <= j < |s| && rune == s[j]
    ensures ends <==> WordAt(D, s, i, j + 1 - i)
    ensures next == null ==> forall n: nat :: j + 1 - i < n ==> !WordAt(D, s, i, n)
    ensures next != null && j + 1 < |s| ==> At(dict, next, s, i, j + 1)
  {
    dict.OpenWords(D);
    OpenAt(dict, t, s, i, j);
    var r := Lookup(dict, t, rune);
    EntryDecides(dict.root, dict.path, dict.E, t, s, i, j);
    ends := r >= 0 && t.node[r].flag == Terminator;
    next := if r >= 0 then t.node[r].value else null;
    if next == null {
      forall n: nat | j + 1 - i < n ensures !WordAt(D, s, i, n) {
        DeadEnd(dict.root, dict.path, dict.E, t, s, i, j, n);
      }
    } else {
      Descends(dict.root, dict.path, dict.E, t, s, i, j);
      OpenAt(dict, next, s, i, j + 1);
    }
  }

  lemma AtRoot(dict: Dict, D: iset<Word>, s: Word, i: nat)
    requires dict.Knows(D) && i < |s|
    ensures At(dict, dict.root, s, i, i)
  {
    dict.OpenWords(D);
    OpenTrie(dict.root, dict.path, dict.E);
    OpenAt(dict, dict.root, s, i, i);
  }

  /** The inner loop of dict_filter: the walk from the root along the text. */
  method Match(dict: Dict, text: array<Option<int>>, i: nat, ghost D: iset<Word>, ghost s: Word) returns (step: nat)
    requires dict.Knows(D) && i < text.Length == |s|
    requires forall k :: i <= k < |s| ==> RuneOf(text[k]) == s[k]
    ensures step == Longest(D, s, i, |s| - i)
  {
    var t: Table, j: nat := dict.root, i;
    step := 0;
    AtRoot(dict, D, s, i);
    while j < text.Length
      invariant i <= j <= |s|
      invariant j < |s| ==> At(dict, t, s, i, j)
      invariant step == Longest(D, s, i, j - i)
    {
      var ends, next := Probe(dict, t, RuneOf(text[j]), D, s, i, j);
      LongestNext(D, s, i, j - i);
      if ends { step := j - i + 1; }
      if next == null {
        LongestEnds(D, s, i, j + 1 - i, |s| - i);
        break;
      }
      t := next;
      j := j + 1;
    }
  }

  lemma Descends(root: Table, path: map<Table, Word>, E: map<Table, TableEntries>, t: Table, s: Word, i: nat, j: nat)
    requires Stands(root, path, E, t, s, i, j) && s[j] in E[t] && E[t][s[j]].value != null
    ensures j + 1 < |s| ==> Stands(root, path, E, E[t][s[j]].value, s, i, j + 1)
  {
    assert EntryOk(path, t, s[j], E[t][s[j]]);
    assert s[i..j + 1] == s[i..j] + [s[j]];
  }

  /** The text when everything before `i` is masked as it should be. */
  ghost function Upto(D: iset<Word>, was: seq<Option<int>>, i: nat): (out: seq<Option<int>>)
    ensures |out| == |was|
  {
    seq(|was|, k requires 0 <= k < |was| => if k < i then Masked(D, was)[k] else was[k])
  }

  ghost predicate Done(D: iset<Word>, was: seq<Option<int>>, now: seq<Option<int>>, i: nat) {
    forall x {:trigger Unfold((now, i), x)} :: Unfold((now, i), x) ==> i <= |was| && now == Upto(D, was, i) && Reached(D, TextRunes(was), i)
  }

  lemma OpenDone(D: iset<Word>, was: seq<Option<int>>, now: seq<Option<int>>, i: nat)
    ensures Done(D, was, now, i) <==> i <= |was| && now == Upto(D, was, i) && Reached(D, TextRunes(was), i)
  {
    assert Unfold((now, i), 0);
  }

  /** The loop of dict_filter that writes the stars. */
  method WriteStars(text: array<Option<int>>, i: nat, step: nat)
    requires i + step <= text.Length
    modifies text
    ensures text[..] == Starred(old(text[..]), i, step)
  {
    for j := 0 to step
      invariant forall k :: 0 <= k < text.Length ==> text[k] == if i <= k < i + j then Some(STAR) else old(text[k])
    {
      text[i + j] := Some(STAR);
    }
  }

  /** The search has come to `i`. */
  ghost predicate Reached(D: iset<Word>, s: Word, i: nat) {
    forall k: nat :: i <= k < |s| ==> Masks(D, s, k) == IsMasked(D, s, i, k)
  }

  function Starred(text: seq<Option<int>>, i: nat, m: nat): (out: seq<Option<int>>)
    requires i + m <= |text|
    ensures |out| == |text|
  {
    seq(|text|, k requires 0 <= k < |text| => if i <= k < i + m then Some(STAR) else text[k])
  }

  lemma ReachNext(D: iset<Word>, s: Word, i: nat)
    requires Reached(D, s, i) && i < |s|
    ensures var m := Longest(D, s, i, |s| - i);
      && Reached(D, s, if m > 0 then i + m else i + 1)
      && (forall k :: i <= k < i + m ==> Masks(D, s, k))
      && (m == 0 ==> !Masks(D, s, i))
  {
    var m := Longest(D, s, i, |s| - i);
    assert IsMasked(D, s, i, i) == (m > 0);
  }

  lemma DoneNext(D: iset<Word>, was: seq<Option<int>>, now: seq<Option<int>>, i: nat)
    requires Done(D, was, now, i) && i < |was| == |now|
    ensures var m := Longest(D, TextRunes(was), i, |was| - i);
      Done(D, was, if m > 0 then Starred(now, i, m) else now, if m > 0 then i + m else i + 1)
  {
    OpenDone(D, was, now, i);
    var m := Longest(D, TextRunes(was), i, |was| - i);
    var next, i' := if m > 0 then Starred(now, i, m) else now, if m > 0 then i + m else i + 1;
    ReachNext(D, TextRunes(was), i);
    forall k | 0 <= k < |was| ensures next[k] == Upto(D, was, i')[k] {
      assert now[k] == Upto(D, was, i)[k];
      assert i <= k < i' ==> Masks(D, TextRunes(was), k) == (m > 0);
      assert Masked(D, was)[k] == if Masks(D, TextRunes(was), k) then Some(STAR) else was[k];
    }
    OpenDone(D, was, next, i');
  }

  /** The facts about the current position that the loop uses. */
  lemma DoneNow(D: iset<Word>, was: seq<Option<int>>, now: seq<Option<int>>, i: nat)
    requires Done(D, was, now, i)
    ensures Reached(D, TextRunes(was), i) && i <= |was| == |now|
    ensures forall k :: i <= k < |was| ==> now[k] == was[k]
    ensures i == |was| ==> now == Masked(D, was)
  {
    OpenDone(D, was, now, i);
  }

  lemma DoneAtStart(D: iset<Word>, was: seq<Option<int>>)
    ensures Done(D, was, was, 0)
  {
    OpenDone(D, was, was, 0);
  }

  ghost predicate AnyMasked(D: iset<Word>, s: Word, i: nat) {
    exists k: nat :: k < i && Masks(D, s, k)
  }

  lemma AnyNext(D: iset<Word>, s: Word, i: nat)
    requires Reached(D, s, i) && i < |s|
    ensures var m := Longest(D, s, i, |s| - i);
      AnyMasked(D, s, if m > 0 then i + m else i + 1) == (AnyMasked(D, s, i) || m > 0)
  {
    ReachNext(D, s, i);
    var m := Longest(D, s, i, |s| - i);
    if m > 0 { assert Masks(D, s, i); }
  }

  /** The body of the loop of dict_filter; `next` is the new index. */
  method FilterAt(dict: Dict, text: array<Option<int>>, i: nat, ghost D: iset<Word>, ghost was: seq<Option<int>>)
    returns (found: bool, next: nat)
    requires dict.Knows(D) && text !in dict.owner.Keys
    requires i < text.Length == |was| && Done(D, was, text[..], i)
    modifies text
    ensures i < next && Done(D, was, text[..], next)
    ensures AnyMasked(D, TextRunes(was), next) == (AnyMasked(D, TextRunes(was), i) || found)
  {
    ghost var now := text[..];
    DoneNow(D, was, now, i);
    var step := Match(dict, text, i, D, TextRunes(was));
    DoneNext(D, was, now, i);
    AnyNext(D, TextRunes(was), i);
    found, next := step > 0, if step > 0 then i + step else i + 1;
    if step > 0 {
      WriteStars(text, i, step);
    }
  }

  /** dict_filter on an open dictionary. */
  method FilterText(dict: Dict, text: array<Option<int>>, ghost D: iset<Word>) returns (flag: bool)
    requires dict.Knows(D) && text !in dict.owner.Keys
    modifies text
    ensures text[..] == Masked(D, old(text[..]))
    ensures flag <==> HasWord(D, TextRunes(old(text[..])))
  {
    ghost var was, s := text[..], TextRunes(text[..]);
    var i: nat := 0;
    flag := false;
    DoneAtStart(D, was);
    while i < text.Length
      invariant dict.Knows(D) && Done(D, was, text[..], i)
      invariant flag == AnyMasked(D, s, i)
      decreases text.Length - i
    {
      var found, next := FilterAt(dict, text, i, D, was);
      if found { flag := true; }
      i := next;
    }
    DoneNow(D, was, text[..], i);
    MaskedIffWord(D, s);
  }

  /** The words a list of word tables stands for: neither order nor repetition counts,
      and the empty word is none. */
  ghost function Listed(words: seq<Option<LuaWord>>): iset<Word> {
    iset w: Word | w != [] && InList(words, w)
  }

  ghost predicate InList(words: seq<Option<LuaWord>>, w: Word) {
    exists i :: 0 <= i < |words| && IsWord(words[i], w)
  }

  predicate IsWord(e: Option<LuaWord>, w: Word) {
    e.Some? && Legal(e.value) && Runes(e.value) == w
  }

  predicate LegalWord(e: Option<LuaWord>) {
    e.Some? && Legal(e.value)
  }

  lemma ListedStep(words: seq<Option<LuaWord>>, i: nat)
    requires i < |words| && LegalWord(words[i])
    ensures Listed(words[..i + 1]) ==
      Listed(words[..i]) + if words[i].value != [] then iset{Runes(words[i].value)} else iset{}
  {
    var A, B := words[..i], words[..i + 1];
    forall w: Word ensures w in Listed(B) <==> w in Listed(A) || (words[i].value != [] && w == Runes(words[i].value)) {
      assert B[i] == words[i];
      if w in Listed(A) {
        var j :| 0 <= j < |A| && IsWord(A[j], w);
        assert IsWord(B[j], w);
      }
      if w in Listed(B) {
        var j :| 0 <= j < |B| && IsWord(B[j], w);
        if j < i { assert IsWord(A[j], w); }
      }
      if w == Runes(words[i].value) { assert IsWord(B[i], w); }
    }
  }

  /** One element of the argument of dict_open goes into the dictionary. */
  method AddWord(d: Dict, words: seq<Option<LuaWord>>, i: nat) returns (ok: bool)
    requires i < |words| && d.Knows(Listed(words[..i]))
    modifies d, d.owner.Keys
    ensures fresh(d.owner.Keys - old(d.owner.Keys))
    ensures ok <==> LegalWord(words[i])
    ensures ok ==> d.Knows(Listed(words[..i + 1]))
  {
    if words[i].None? { return false; }
    d.OpenWords(Listed(words[..i]));
    ok := d.Insert(words[i].value);
    if ok {
      ListedStep(words, i);
      d.OpenWords(Listed(words[..i + 1]));
    }
  }

  ghost predicate FirstBad(words: seq<Option<LuaWord>>, bad: nat) {
    0 < bad <= |words| && !LegalWord(words[bad - 1]) && forall i :: 0 <= i < bad - 1 ==> LegalWord(words[i])
  }

  /** The loop of dict_open. */
  method Build(words: seq<Option<LuaWord>>) returns (d: Dict, bad: nat)
    ensures fresh(d) && fresh(d.owner.Keys)
    ensures if bad > 0 then FirstBad(words, bad) else forall i :: 0 <= i < |words| ==> LegalWord(words[i])
    ensures bad == 0 ==> d.Knows(Listed(words))
  {
    d := new Dict();
    d.OpenWords(Listed(words[..0]));
    for i := 0 to |words|
      invariant fresh(d) && fresh(d.owner.Keys)
      invariant d.Knows(Listed(words[..i]))
      invariant forall j :: 0 <= j < i ==> LegalWord(words[j])
    {
      var ok := AddWord(d, words, i);
      if !ok { return d, i + 1; }
    }
    assert words[..|words|] == words;
    bad := 0;
  }

  /** The module lcrab with its global g_dict. */
  class Crab {
    var dict: Dict?

    constructor ()
      ensures dict == null
    {
      dict := null;
    }

    /** dict_open: `bad` is the index in the error message, 0 without an error. An error
        leaves the open dictionary as it is. */
    method Open(words: seq<Option<LuaWord>>) returns (bad: nat)
      modifies this
      ensures bad == 0 <==> forall i :: 0 <= i < |words| ==> LegalWord(words[i])
      ensures bad > 0 ==> FirstBad(words, bad) && dict == old(dict)
      ensures bad == 0 ==> dict != null && fresh(dict) && fresh(dict.owner.Keys) && dict.Valid() && dict.Words() == Listed(words)
    {
      var d;
      d, bad := Build(words);
      if bad == 0 {
        dict := d;
        d.OpenWords(Listed(words));
      }
    }

    /** dict_filter: None is the error of a filter before any open. */
    method Filter(text: array<Option<int>>) returns (flag: Option<bool>)
      requires dict != null ==> dict.Valid() && text !in dict.owner.Keys
      modifies text
      ensures dict == null ==> flag == None && text[..] == old(text[..])
      ensures dict != null ==> text[..] == Masked(dict.Words(), old(text[..]))
      ensures dict != null ==> flag == Some(HasWord(dict.Words(), TextRunes(old(text[..]))))
    {
      if dict == null { return None; }
      ghost var D := dict.Words();
      dict.OpenWords(D);
      var found := FilterText(dict, text, D);
      return Some(found);
    }
  }
}
