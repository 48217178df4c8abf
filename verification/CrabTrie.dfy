/** The trie of 3rd/crab/crab.c as a value: every table stands for the prefix `path`
    that leads to it, and `E` lists its entries. */
module CrabTrie {
  import opened CrabNodes
  import opened CrabTable

  type Word = seq<Rune>
  type TableEntries = map<Rune, Entry<Table?>>

  ghost function Put(m: TableEntries, k: Rune, e: Entry<Table?>): TableEntries {
    m[k := e]
  }

  ghost predicate IsParent(path: map<Table, Word>, E: map<Table, TableEntries>, t: Table, u: Table)
    requires path.Keys == E.Keys && u in path
  {
    && t in path && path[u] != []
    && path[t] == path[u][..|path[u]| - 1]
    && path[u][|path[u]| - 1] in E[t] && E[t][path[u][|path[u]| - 1]].value == u
  }

  /** The value of an entry is the table of the longer prefix. */
  ghost predicate EntryOk(path: map<Table, Word>, t: Table, k: Rune, e: Entry<Table?>)
    requires t in path
  {
    && e.flag != Empty
    && (e.value != null ==> e.value in path && path[e.value] == path[t] + [k])
  }

  ghost predicate TrieOk(root: Table, path: map<Table, Word>, E: map<Table, TableEntries>) {
    && path.Keys == E.Keys
    && root in path && path[root] == []
    && OnePath(path)
    && EntriesOk(path, E)
    && Parented(root, path, E)
  }

  /** No two tables stand for the same prefix. */
  ghost predicate OnePath(path: map<Table, Word>) {
    forall t, u :: t in path && u in path && path[t] == path[u] ==> t == u
  }

  ghost predicate EntriesOk(path: map<Table, Word>, E: map<Table, TableEntries>) {
    forall t, k {:trigger E[t][k]} :: t in E && k in E[t] ==> t in path && EntryOk(path, t, k, E[t][k])
  }

  /** The entry for the last rune of `w` is there and ends a word. */
  ghost predicate Ends(path: map<Table, Word>, E: map<Table, TableEntries>, w: Word) {
    exists t :: t in path && EndsAt(path, E, w, t)
  }

  ghost function WordsOf(path: map<Table, Word>, E: map<Table, TableEntries>): iset<Word> {
    iset w: Word | Ends(path, E, w)
  }

  ghost predicate EndsAt(path: map<Table, Word>, E: map<Table, TableEntries>, w: Word, t: Table) {
    && w != [] && t in path && t in E
    && path[t] == w[..|w| - 1]
    && w[|w| - 1] in E[t] && E[t][w[|w| - 1]].flag == Terminator
  }

  /** Every prefix of a table's path has its own table. */
  lemma {:induction false} PrefixHasTable(root: Table, path: map<Table, Word>, E: map<Table, TableEntries>, u: Table, n: nat)
    returns (t: Table)
    requires TrieOk(root, path, E) && u in path && n <= |path[u]|
    ensures t in path && path[t] == path[u][..n]
    decreases |path[u]|
  {
    if n == |path[u]| {
      t := u;
    } else {
      assert u != root && HasParent(path, E, u);
      var v :| v in path && IsParent(path, E, v, u);
      t := PrefixHasTable(root, path, E, v, n);
      assert path[v][..n] == path[u][..n];
    }
  }

  /** Every proper prefix of a word has its own table. */
  lemma WordHasTable(root: Table, path: map<Table, Word>, E: map<Table, TableEntries>, w: Word, n: nat) returns (u: Table)
    requires TrieOk(root, path, E) && Ends(path, E, w) && n < |w|
    ensures u in path && path[u] == w[..n]
  {
    var v :| v in path && EndsAt(path, E, w, v);
    u := PrefixHasTable(root, path, E, v, n);
    assert path[v][..n] == w[..n];
  }

  /** A word that goes on behind a prefix is reached through the prefix's table: its
      entry for the next rune leads on. */
  lemma WordGoesThrough(root: Table, path: map<Table, Word>, E: map<Table, TableEntries>, w: Word, t: Table, n: nat)
    requires TrieOk(root, path, E) && Ends(path, E, w) && n + 1 < |w|
    requires t in path && path[t] == w[..n]
    ensures w[n] in E[t] && E[t][w[n]].value != null
    ensures var u := E[t][w[n]].value; u in path && path[u] == w[..n + 1]
  {
    var u := WordHasTable(root, path, E, w, n + 1);
    var p := w[..n + 1];
    assert path[u] == p && p[..n] == w[..n] && p[n] == w[n];
    ChildOf(root, path, E, u, t);
  }

  lemma ChildOf(root: Table, path: map<Table, Word>, E: map<Table, TableEntries>, u: Table, t: Table)
    requires TrieOk(root, path, E) && u in path && t in path && path[u] != [] && path[t] == path[u][..|path[u]| - 1]
    ensures IsParent(path, E, t, u)
  {
    assert u != root && HasParent(path, E, u);
    var t' :| t' in path && IsParent(path, E, t', u);
    assert path[t'] == path[t];
  }

  // ----- inserting -----

  ghost predicate HasParent(path: map<Table, Word>, E: map<Table, TableEntries>, u: Table)
    requires path.Keys == E.Keys && u in path
  {
    exists t :: t in path && IsParent(path, E, t, u)
  }

  /** The parts of the invariant about what is above a table. */
  ghost predicate Parented(root: Table, path: map<Table, Word>, E: map<Table, TableEntries>)
    requires path.Keys == E.Keys
  {
    forall u {:trigger HasParent(path, E, u)} :: u in path && u != root ==> HasParent(path, E, u)
  }

  /** Setting an entry but keeping its table keeps what is above every table. */
  lemma ParentsAfterPut(root: Table, path: map<Table, Word>, E: map<Table, TableEntries>, t: Table, k: Rune, e: Entry<Table?>)
    requires path.Keys == E.Keys && Parented(root, path, E) && t in path
    requires k in E[t] && E[t][k].value != null ==> e.value == E[t][k].value
    ensures Parented(root, path, E[t := Put(E[t], k, e)])
  {
    var E' := E[t := Put(E[t], k, e)];
    forall u | u in path && u != root ensures HasParent(path, E', u) {
      assert HasParent(path, E, u);
      var p :| p in path && IsParent(path, E, p, u);
      assert IsParent(path, E', p, u);
    }
  }

  lemma EndsAfterPut(path: map<Table, Word>, E: map<Table, TableEntries>, t: Table, k: Rune, e: Entry<Table?>, w: Word, v: Table)
    requires t in path && t in E && (k in E[t] && E[t][k].flag == Terminator ==> e.flag == Terminator)
    ensures EndsAt(path, E, w, v) ==> EndsAt(path, E[t := Put(E[t], k, e)], w, v)
    ensures EndsAt(path, E[t := Put(E[t], k, e)], w, v) ==>
      EndsAt(path, E, w, v) || (v == t && w == path[t] + [k] && e.flag == Terminator)
    ensures w == path[t] + [k] && e.flag == Terminator ==> EndsAt(path, E[t := Put(E[t], k, e)], w, t)
  {
    if EndsAt(path, E[t := Put(E[t], k, e)], w, v) {
      assert w == w[..|w| - 1] + [w[|w| - 1]];
    }
  }

  lemma EndsAfterPutAll(root: Table, path: map<Table, Word>, E: map<Table, TableEntries>, t: Table, k: Rune, e: Entry<Table?>)
    requires TrieOk(root, path, E) && t in path
    requires k in E[t] && E[t][k].flag == Terminator ==> e.flag == Terminator
    ensures WordsOf(path, E[t := Put(E[t], k, e)]) ==
      WordsOf(path, E) + if e.flag == Terminator then iset{path[t] + [k]} else iset{}
  {
    var E' := E[t := Put(E[t], k, e)];
    forall w: Word ensures Ends(path, E', w) <==> Ends(path, E, w) || (w == path[t] + [k] && e.flag == Terminator) {
      EndsAfterPut(path, E, t, k, e, w, t);
      if Ends(path, E', w) {
        var v :| v in path && EndsAt(path, E', w, v);
        EndsAfterPut(path, E, t, k, e, w, v);
      }
      if Ends(path, E, w) {
        var v :| v in path && EndsAt(path, E, w, v);
        EndsAfterPut(path, E, t, k, e, w, v);
      }
    }
  }

  /** An entry set to another flag, or a new one without a table below. */
  lemma TrieAfterPut(root: Table, path: map<Table, Word>, E: map<Table, TableEntries>, t: Table, k: Rune, e: Entry<Table?>)
    requires TrieOk(root, path, E) && t in path && e.flag != Empty
    requires e.value == if k in E[t] then E[t][k].value else null
    ensures TrieOk(root, path, E[t := Put(E[t], k, e)])
  {
    ParentsAfterPut(root, path, E, t, k, e);
    var E' := E[t := Put(E[t], k, e)];
    forall t', k' {:trigger E'[t'][k']} | t' in path && k' in E'[t'] ensures EntryOk(path, t', k', E'[t'][k']) {
      if t' != t || k' != k { assert E[t'][k'] == E'[t'][k']; }
      if t' == t && k' == k && k in E[t] { assert EntryOk(path, t, k, E[t][k]); }
    }
  }

  /** A new, empty table under an entry that had none. */
  lemma NoTableYet(root: Table, path: map<Table, Word>, E: map<Table, TableEntries>, t: Table, k: Rune, v: Table)
    requires TrieOk(root, path, E) && t in path && (k !in E[t] || E[t][k].value == null) && v in path
    ensures path[v] != path[t] + [k]
  {
    if path[v] == path[t] + [k] {
      ChildOf(root, path, E, v, t);
      assert false;
    }
  }

  ghost function Grown(path: map<Table, Word>, t: Table, k: Rune, u: Table): map<Table, Word>
    requires t in path
  {
    path[u := path[t] + [k]]
  }

  lemma ParentsAfterNewTable(root: Table, path: map<Table, Word>, E: map<Table, TableEntries>, t: Table, k: Rune, u: Table)
    requires path.Keys == E.Keys && Parented(root, path, E)
    requires t in path && k in E[t] && E[t][k].value == u && u !in path
    ensures Parented(root, Grown(path, t, k, u), E[u := map[]])
  {
    var path', E' := Grown(path, t, k, u), E[u := map[]];
    forall v | v in path' && v != root ensures HasParent(path', E', v) {
      if v == u {
        assert IsParent(path', E', t, u);
      } else {
        assert HasParent(path, E, v);
        var p :| p in path && IsParent(path, E, p, v);
        assert IsParent(path', E', p, v);
      }
    }
  }

  lemma EntriesAfterNewTable(root: Table, path: map<Table, Word>, E: map<Table, TableEntries>, t: Table, k: Rune, u: Table)
    requires TrieOk(root, path, E) && t in path && k in E[t] && E[t][k].value == null && u !in path
    ensures EntriesOk(Grown(path, t, k, u), E[t := Put(E[t], k, Entry(E[t][k].flag, u))][u := map[]])
  {
    var E' := E[t := Put(E[t], k, Entry(E[t][k].flag, u))][u := map[]];
    assert EntryOk(path, t, k, E[t][k]);
    forall t', k' {:trigger E'[t'][k']} | t' in E' && k' in E'[t'] ensures EntryOk(Grown(path, t, k, u), t', k', E'[t'][k']) {
      if t' != t || k' != k { assert E[t'][k'] == E'[t'][k']; }
    }
  }

  lemma TrieAfterNewTable(root: Table, path: map<Table, Word>, E: map<Table, TableEntries>, t: Table, k: Rune, u: Table)
    requires TrieOk(root, path, E) && t in path && k in E[t] && E[t][k].value == null && u !in path
    ensures TrieOk(root, Grown(path, t, k, u), E[t := Put(E[t], k, Entry(E[t][k].flag, u))][u := map[]])
    ensures WordsOf(Grown(path, t, k, u), E[t := Put(E[t], k, Entry(E[t][k].flag, u))][u := map[]]) == WordsOf(path, E)
  {
    EndsAfterNewTable(root, path, E, t, k, u);
    var e := Entry(E[t][k].flag, u as Table?);
    ParentsAfterPut(root, path, E, t, k, e);
    ParentsAfterNewTable(root, path, E[t := Put(E[t], k, e)], t, k, u);
    EntriesAfterNewTable(root, path, E, t, k, u);
    OnePathAfterNewTable(root, path, E, t, k, u);
  }

  lemma OnePathAfterNewTable(root: Table, path: map<Table, Word>, E: map<Table, TableEntries>, t: Table, k: Rune, u: Table)
    requires TrieOk(root, path, E) && t in path && k in E[t] && E[t][k].value == null && u !in path
    ensures OnePath(Grown(path, t, k, u))
  {
    forall v | v in path ensures path[v] != path[t] + [k] { NoTableYet(root, path, E, t, k, v); }
  }

  lemma EndsAfterNewTable(root: Table, path: map<Table, Word>, E: map<Table, TableEntries>, t: Table, k: Rune, u: Table)
    requires TrieOk(root, path, E) && t in path && k in E[t] && E[t][k].value == null && u !in path
    ensures WordsOf(Grown(path, t, k, u), E[t := Put(E[t], k, Entry(E[t][k].flag, u))][u := map[]]) == WordsOf(path, E)
  {
    var path', E' := Grown(path, t, k, u), E[t := Put(E[t], k, Entry(E[t][k].flag, u))][u := map[]];
    forall w: Word ensures Ends(path', E', w) <==> Ends(path, E, w) {
      if Ends(path', E', w) {
        var v :| v in path' && EndsAt(path', E', w, v);
        assert EndsAt(path, E, w, v);
      }
      if Ends(path, E, w) {
        var v :| v in path && EndsAt(path, E, w, v);
        assert EndsAt(path', E', w, v);
      }
    }
  }
}
