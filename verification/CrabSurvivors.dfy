/** Which dictionary words can be left in a text that lualib-src/lua-crab.c has filtered. */
module CrabSurvivors {
  import opened CrabNodes
  import opened CrabTrie
  import opened CrabDict
  import opened CrabFilter
  import opened Wrappers

  /** The word `w` of the dictionary of these words is left in the filtered text. */
  ghost predicate Leaves(words: seq<Option<LuaWord>>, text: seq<Option<int>>, w: Word) {
    var out := TextRunes(Masked(Listed(words), text));
    w in Listed(words) && exists a: nat :: WordAt(Listed(words), out, a, |w|) && out[a..a + |w|] == w
  }

  /** As a word table. */
  function Table(w: Word): (t: LuaWord)
    ensures |t| == |w| && Legal(t)
  {
    seq(|w|, k requires 0 <= k < |w| => Some(w[k]))
  }

  lemma RunesOfTable(w: Word)
    ensures Runes(Table(w)) == w
  {
  }

  lemma ListedTwo(w: Word, u: Word)
    requires w != [] && u != []
    ensures Listed([Some(Table(w)), Some(Table(u))]) == iset{w, u}
  {
    var words := [Some(Table(w)), Some(Table(u))];
    RunesOfTable(w);
    RunesOfTable(u);
    assert IsWord(words[0], w) && IsWord(words[1], u);
  }

  /** The word with `c` in the place of each '*'. */
  function Unstarred(w: Word, c: Rune): (text: seq<Option<int>>)
    ensures |text| == |w|
  {
    seq(|w|, k requires 0 <= k < |w| => Some(if w[k] == STAR then c else w[k]))
  }

  /** With the words `w` and `c` exactly the runes `c` are masked. */
  lemma MasksTheRune(w: Word, c: Rune, k: nat)
    requires c !in w && STAR in w && k < |w|
    ensures var s := TextRunes(Unstarred(w, c));
      Masks(iset{w, [c]}, s, k) <==> w[k] == STAR
  {
    var D, s := iset{w, [c]}, TextRunes(Unstarred(w, c));
    assert s[k] == if w[k] == STAR then c else w[k];
    if Masks(D, s, k) {
      var a := MaskedLiesInMatch(D, s, 0, k);
      var n := Longest(D, s, a, |s| - a);
      NoStarHere(w, c, a, n);
      assert s[a..a + n] == [c] && s[a..a + n][0] == s[a];
    } else if w[k] == STAR {
      assert s[k..k + 1] == [c];
      UnmaskedStartsNoWord(D, s, 0, k, 1);
      assert false;
    }
  }

  /** The text has no '*', so `w` is not in it. */
  lemma NoStarHere(w: Word, c: Rune, a: nat, n: nat)
    requires c !in w && STAR in w
    requires a + n <= |w|
    ensures TextRunes(Unstarred(w, c))[a..a + n] != w
  {
    var s := TextRunes(Unstarred(w, c));
    assert STAR !in s[a..a + n];
  }

  /** A word with '*' can be left: its stars come from the mask of another word. */
  lemma StarWordIsLeft(w: Word, c: Rune)
    requires c !in w && !StarFree(w)
    ensures Leaves([Some(Table(w)), Some(Table([c]))], Unstarred(w, c), w)
  {
    var words, text := [Some(Table(w)), Some(Table([c]))], Unstarred(w, c);
    var D := Listed(words);
    ListedTwo(w, [c]);
    var out := TextRunes(Masked(D, text));
    forall k | 0 <= k < |w| ensures out[k] == w[k] {
      MasksTheRune(w, c, k);
    }
    assert out[0..0 + |w|] == w;
    assert WordAt(D, out, 0, |w|);
  }

  /** When some rune is not in the word: it is left in some filtered text of some dictionary
      that has it if and only if it has a '*'. */
  lemma LeftIffStar(w: Word)
    requires w != [] && exists c: Rune :: c !in w
    ensures (exists words: seq<Option<LuaWord>>, text: seq<Option<int>> :: Leaves(words, text, w)) <==> !StarFree(w)
  {
    if words: seq<Option<LuaWord>>, text: seq<Option<int>> :| Leaves(words, text, w) {
      var out := TextRunes(Masked(Listed(words), text));
      var a: nat :| WordAt(Listed(words), out, a, |w|) && out[a..a + |w|] == w;
      NoStarFreeWordSurvives(Listed(words), text, a, |w|);
    }
    if !StarFree(w) {
      var c: Rune :| c !in w;
      StarWordIsLeft(w, c);
    }
  }

  // ----- a word of fewer elements than there are runes lacks one -----

  ghost function Numbers(n: nat): (s: set<int>)
    ensures |s| == n && forall k :: k in s <==> 0 <= k < n
  {
    if n == 0 then {} else Numbers(n - 1) + {n - 1}
  }

  ghost function Elements(w: Word): (s: set<int>)
    ensures |s| <= |w| && forall r :: r in s ==> r in w
    ensures forall r: Rune :: r in w ==> r in s
  {
    if w == [] then {} else Elements(w[1..]) + {w[0]}
  }

  lemma SomeAreLeft(a: set<int>, b: set<int>)
    requires |a| > |b|
    ensures a - b != {}
  {
    assert a == (a - b) + (a * b) && b == (b - a) + (a * b);
  }

  lemma SomeRuneIsMissing(w: Word)
    requires |w| < 0x1_0000_0000
    ensures exists c: Rune :: c !in w
  {
    var all, used := Numbers(0x1_0000_0000), Elements(w);
    SomeAreLeft(all, used);
    var c: Rune :| c in all - used;
    assert c !in w;
  }
}
