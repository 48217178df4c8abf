/** Building the trie: _dict_insert of 3rd/crab/crab.c and dict_open of
    lualib-src/lua-crab.c. */
module CrabDict {
  import opened Hiding
  import opened CrabNodes
  import opened CrabContents
  import opened CrabTable
  import opened CrabTrie
  import opened Wrappers

  /** Conversion of a lua_Integer to uint32_t. */
  function ToRune(x: int): Rune { x % 0x1_0000_0000 }

  /** What a word table holds: None is an element that is no integer. */
  type LuaWord = seq<Option<int>>

  predicate Legal(word: LuaWord) {
    forall i :: 0 <= i < |word| ==> word[i].Some?
  }

  function Runes(word: LuaWord): (w: Word)
    requires Legal(word)
    ensures |w| == |word|
    ensures forall i {:trigger w[i]} :: 0 <= i < |w| ==> w[i] == ToRune(word[i].value)
  {
    seq(|word|, i requires 0 <= i < |word| => ToRune(word[i].value))
  }

  /** The table `t` represents the map `m`. */
  ghost predicate Holds(t: Table, m: TableEntries)
    reads t, t.node
  {
    forall x {:trigger Unfold(t, x)} :: Unfold(t, x) ==> t.Valid() && t.Entries() == m
  }

  lemma Open(t: Table, m: TableEntries)
    ensures Holds(t, m) <==> t.Valid() && t.Entries() == m
  {
    assert Unfold(t, 0);
  }

  ghost predicate IsTrie(root: Table, path: map<Table, Word>, E: map<Table, TableEntries>) {
    forall x {:trigger Unfold((path, E), x)} :: Unfold((path, E), x) ==> TrieOk(root, path, E)
  }

  lemma OpenTrie(root: Table, path: map<Table, Word>, E: map<Table, TableEntries>)
    ensures IsTrie(root, path, E) <==> TrieOk(root, path, E)
  {
    assert Unfold((path, E), 0);
  }

  method InsertInto(t: Table, rune: Rune, ghost m: TableEntries) returns (r: nat)
    requires Holds(t, m)
    modifies t, t.node
    ensures Holds(t, if rune in m then m else Put(m, rune, Entry(NonTerminator, null)))
    ensures r < t.node.Length && Used(t.node[r]) && t.node[r].key == rune
    ensures t.node == old(t.node) || fresh(t.node)
  {
    Open(t, m);
    r := t.Insert(rune);
    Open(t, if rune in m then m else Put(m, rune, Entry(NonTerminator, null)));
  }

  ghost function OwnedBy(owner: map<object, Table>, t: Table, a: array<Slot>): (o: map<object, Table>)
    ensures o.Keys == owner.Keys + {t, a}
    ensures forall x: object {:trigger o[x]} :: x in o ==> o[x] == if x == t || x == a then t else owner[x]
  {
    map x: object | x in owner.Keys + {t, a} :: if x == t || x == a then t else owner[x]
  }

  class Dict {
    const root: Table
    ghost var path: map<Table, Word>          // the prefix of every table
    ghost var E: map<Table, TableEntries>     // its entries
    ghost var owner: map<object, Table>       // the table each object belongs to

    /** All tables and their arrays are different objects, and each table represents
        its entries. */
    ghost predicate Tables()
      reads this, owner.Keys
    {
      forall t: Table {:trigger E[t]} :: t in E ==> Owns(t) && Holds(t, E[t])
    }

    ghost predicate Owns(t: Table)
      reads this, owner.Keys
    {
      t in owner && owner[t] == t && t.node in owner && owner[t.node] == t
    }

    ghost predicate Valid()
      reads this, owner.Keys
    {
      && Tables()
      && path.Keys == E.Keys && root in path && path[root] == []
      && IsTrie(root, path, E)
    }

    /** The words the trie accepts. */
    ghost function Words(): iset<Word>
      reads this
    {
      WordsOf(path, E)
    }

    /** The trie accepts the words `D`. */
    ghost predicate Knows(D: iset<Word>)
      reads this, owner.Keys
    {
      forall x {:trigger Unfold(D, x)} :: Unfold(D, x) ==> Valid() && Words() == D
    }

    lemma OpenWords(D: iset<Word>)
      ensures Knows(D) <==> Valid() && Words() == D
    {
      assert Unfold(D, 0);
    }

    constructor ()
      ensures Valid() && fresh(owner.Keys)
      ensures Words() == iset{}
    {
      var t := new Table();
      root := t;
      path, E := map[t := []], map[t := map[]];
      owner := map[t := t, t.node := t];
      new;
      Open(t, map[]);
      OpenTrie(root, path, E);
    }

    /** Records that the table `t` now represents `m`. */
    ghost method Record(t: Table, m: TableEntries)
      requires forall u: Table {:trigger E[u]} :: u in E && u != t ==> Owns(u) && u.node != t.node && Holds(u, E[u])
      requires Holds(t, m) && (t in owner ==> owner[t] == t) && forall u: Table :: u in E ==> u in owner
      modifies this`E, this`owner
      ensures E == old(E)[t := m] && owner.Keys == old(owner.Keys) + {t, t.node}
      ensures Tables()
    {
      owner := OwnedBy(owner, t, t.node);
      E := E[t := m];
    }

    /** table_insert into the table `t`. */
    method Touch(t: Table, rune: Rune) returns (r: nat)
      requires Tables() && t in E
      modifies this`E, this`owner, t, t.node
      ensures Tables() && fresh(owner.Keys - old(owner.Keys))
      ensures r < t.node.Length && Used(t.node[r]) && t.node[r].key == rune
      ensures E == if rune in old(E)[t] then old(E) else old(E)[t := Put(old(E)[t], rune, Entry(NonTerminator, null))]
    {
      ghost var m := if rune in E[t] then E[t] else Put(E[t], rune, Entry(NonTerminator, null));
      r := InsertInto(t, rune, E[t]);
      forall u: Table {:trigger E[u]} | u in E && u != t ensures Owns(u) && u.node != t.node && Holds(u, E[u]) {
        assert old(Holds(u, E[u]) && Owns(u) && u.node != t.node);
      }
      Record(t, m);
    }

    /** Assignment of flag and value through a slot pointer. */
    method Assign(t: Table, r: nat, flag: Flag, value: Table?)
      requires Tables() && t in E && r < t.node.Length && Used(t.node[r]) && flag != Empty
      modifies this`E, this`owner, t.node
      ensures Tables() && owner.Keys == old(owner.Keys)
      ensures E == old(E)[t := Put(old(E)[t], t.node[r].key, Entry(flag, value))]
      ensures t.node[r] == old(t.node[r]).(flag := flag, value := value)
    {
      ghost var m := Put(E[t], t.node[r].key, Entry(flag, value));
      SetInto(t, r, flag, value, E[t]);
      forall u: Table {:trigger E[u]} | u in E && u != t ensures Owns(u) && u.node != t.node && Holds(u, E[u]) {
        assert old(Holds(u, E[u]) && Owns(u) && u.node != t.node);
      }
      Record(t, m);
    }

    /** table_new, assigned through the pointer to the slot `r`. */
    method Attach(t: Table, r: nat) returns (u: Table)
      requires Tables() && t in E && r < t.node.Length && Used(t.node[r])
      modifies this`E, this`owner, t.node
      ensures Tables() && fresh(owner.Keys - old(owner.Keys))
      ensures u !in old(E)
      ensures E == old(E)[t := Put(old(E)[t], t.node[r].key, Entry(t.node[r].flag, u))][u := map[]]
      ensures t.node[r].key == old(t.node[r].key) && t.node[r].flag == old(t.node[r].flag)
    {
      u := new Table();
      Open(u, map[]);
      Assign(t, r, t.node[r].flag, u);
      Record(u, map[]);
    }

    /** A new table below the slot `r` of the table `t`. */
    method Grow(t: Table, r: nat) returns (u: Table)
      requires Valid() && t in path && r < t.node.Length && Used(t.node[r]) && t.node[r].value == null
      modifies this`E, this`owner, this`path, t.node
      ensures Valid() && fresh(owner.Keys - old(owner.Keys))
      ensures u in path && path[u] == old(path)[t] + [old(t.node[r].key)]
      ensures Words() == old(Words())
    {
      ghost var k := t.node[r].key;
      SlotEntry(t, E[t], r);
      OpenTrie(root, path, E);
      u := Attach(t, r);
      TrieAfterNewTable(root, path, old(E), t, k, u);
      path := Grown(path, t, k, u);
      OpenTrie(root, path, E);
    }

    /** The flag of the slot `r` becomes 'o'. */
    method MarkEnd(t: Table, r: nat)
      requires Valid() && t in path && r < t.node.Length && Used(t.node[r])
      modifies this`E, this`owner, t.node
      ensures Valid() && owner.Keys == old(owner.Keys)
      ensures Words() == old(Words()) + iset{path[t] + [old(t.node[r].key)]}
    {
      ghost var k, e := t.node[r].key, Entry(Terminator, t.node[r].value);
      SlotEntry(t, E[t], r);
      OpenTrie(root, path, E);
      Assign(t, r, Terminator, t.node[r].value);
      TrieAfterPut(root, path, old(E), t, k, e);
      EndsAfterPutAll(root, path, old(E), t, k, e);
      OpenTrie(root, path, E);
    }

    /** The slot `r` of the table `t` is the one for the prefix `w`. */
    ghost predicate AtSlot(t: Table, r: nat, w: Word)
      reads this, t, t.node
    {
      t in path && r < t.node.Length && Used(t.node[r]) && path[t] + [t.node[r].key] == w
    }

    /** table_insert of the next rune: nothing more is accepted yet. */
    method Step(t: Table, rune: Rune) returns (r: nat)
      requires Valid() && t in path
      modifies this`E, this`owner, t, t.node
      ensures Valid() && fresh(owner.Keys - old(owner.Keys))
      ensures AtSlot(t, r, path[t] + [rune])
      ensures Words() == old(Words())
    {
      ghost var e: Entry<Table?> := Entry(NonTerminator, null);
      OpenTrie(root, path, E);
      r := Touch(t, rune);
      if rune !in old(E)[t] {
        TrieAfterPut(root, path, old(E), t, rune, e);
        EndsAfterPutAll(root, path, old(E), t, rune, e);
        OpenTrie(root, path, E);
      }
    }

    /** The table below the slot `r`, made when it is missing. */
    method Descend(t: Table, r: nat, ghost w: Word) returns (u: Table)
      requires Valid() && AtSlot(t, r, w)
      modifies this`E, this`owner, this`path, t.node
      ensures Valid() && fresh(owner.Keys - old(owner.Keys))
      ensures u in path && path[u] == w
      ensures Words() == old(Words())
    {
      if t.node[r].value == null {
        u := Grow(t, r);
      } else {
        u := t.node[r].value;
        OpenTrie(root, path, E);
        SlotEntry(t, E[t], r);
        assert EntryOk(path, t, t.node[r].key, E[t][t.node[r].key]);
      }
    }

    ghost predicate IsAt(t: Table, r: nat, w: Word)
      reads this, t, t.node
    {
      forall x {:trigger Unfold(w, x)} :: Unfold(w, x) ==> AtSlot(t, r, w)
    }

    lemma OpenAtSlot(t: Table, r: nat, w: Word)
      ensures IsAt(t, r, w) <==> AtSlot(t, r, w)
    {
      assert Unfold(w, 0);
    }

    /** The table for what follows `w`. */
    method Below(t: Table, r: nat, first: bool, ghost w: Word, ghost D: iset<Word>) returns (t': Table)
      requires Knows(D) && if first then t == root && w == [] else IsAt(t, r, w)
      modifies this`E, this`owner, this`path, owner.Keys
      ensures Knows(D) && fresh(owner.Keys - old(owner.Keys))
      ensures t' in path && path[t'] == w
    {
      OpenWords(D);
      if first {
        OpenTrie(root, path, E);
        return t;
      }
      OpenAtSlot(t, r, w);
      t' := Descend(t, r, w);
      OpenWords(D);
    }

    /** The slot of the next rune in the table for `w`. */
    method StepIn(t: Table, rune: Rune, ghost w: Word, ghost D: iset<Word>) returns (r: nat)
      requires Knows(D) && t in path && path[t] == w
      modifies this`E, this`owner, owner.Keys
      ensures Knows(D) && fresh(owner.Keys - old(owner.Keys))
      ensures IsAt(t, r, w + [rune])
    {
      OpenWords(D);
      r := Step(t, rune);
      OpenAtSlot(t, r, w + [rune]);
      OpenWords(D);
    }

    /** The body of the loop of _dict_insert: from the slot for `w`, or from nowhere when
        `w` is empty, to the slot for `w` and the next rune. */
    method Extend(t: Table, r: nat, rune: Rune, first: bool, ghost w: Word, ghost D: iset<Word>)
      returns (t': Table, r': nat)
      requires Knows(D) && if first then t == root && w == [] else IsAt(t, r, w)
      modifies this`E, this`owner, this`path, owner.Keys
      ensures Knows(D) && fresh(owner.Keys - old(owner.Keys))
      ensures IsAt(t', r', w + [rune])
    {
      t' := Below(t, r, first, w, D);
      r' := StepIn(t', rune, w, D);
    }

    /** The loop of _dict_insert: it ends at the slot for the whole word, or at an element
        that is no integer. */
    method Walk(word: LuaWord, ghost D: iset<Word>) returns (ok: bool, t: Table, r: nat)
      requires Knows(D)
      modifies this`E, this`owner, this`path, owner.Keys
      ensures Knows(D) && fresh(owner.Keys - old(owner.Keys))
      ensures ok <==> Legal(word)
      ensures ok && word != [] ==> IsAt(t, r, Runes(word))
    {
      t, r := root, 0;
      for i := 0 to |word|
        invariant Knows(D) && fresh(owner.Keys - old(owner.Keys))
        invariant Legal(word[..i])
        invariant if i == 0 then t == root else IsAt(t, r, Runes(word[..i]))
      {
        if word[i].None? { return false, t, r; }
        RunesStep(word, i);
        t, r := Extend(t, r, ToRune(word[i].value), i == 0, Runes(word[..i]), D);
      }
      assert word[..|word|] == word;
      ok := true;
    }

    /** _dict_insert: a word with an element that is no integer is refused, and then
        accepted words stay as they are; the empty word changes nothing. */
    method Insert(word: LuaWord) returns (ok: bool)
      requires Valid()
      modifies this`E, this`owner, this`path, owner.Keys
      ensures Valid() && fresh(owner.Keys - old(owner.Keys))
      ensures ok <==> Legal(word)
      ensures Words() == old(Words()) + if ok && word != [] then iset{Runes(word)} else iset{}
    {
      ghost var D := Words();
      OpenWords(D);
      var t, r;
      ok, t, r := Walk(word, D);
      OpenWords(D);
      if ok && |word| > 0 {
        OpenAtSlot(t, r, Runes(word));
        MarkEnd(t, r);
      }
    }
  }

  lemma RunesStep(word: LuaWord, i: nat)
    requires i < |word| && Legal(word[..i]) && word[i].Some?
    ensures Legal(word[..i + 1]) && Runes(word[..i + 1]) == Runes(word[..i]) + [ToRune(word[i].value)]
  {
    assert word[..i + 1] == word[..i] + [word[i]];
  }

  /** The slot `r` of a table that represents `m`. */
  lemma SlotEntry(t: Table, m: TableEntries, r: nat)
    requires Holds(t, m) && r < t.node.Length && Used(t.node[r])
    ensures t.node[r].key in m && m[t.node[r].key] == Entry(t.node[r].flag, t.node[r].value)
  {
    Open(t, m);
    ContentsAt(t.node[..], r);
  }

  method SetInto(t: Table, r: nat, flag: Flag, value: Table?, ghost m: TableEntries)
    requires Holds(t, m) && r < t.node.Length && Used(t.node[r]) && flag != Empty
    modifies t.node
    ensures Holds(t, Put(m, t.node[r].key, Entry(flag, value)))
    ensures t.node[r] == old(t.node[r]).(flag := flag, value := value)
  {
    Open(t, m);
    t.SetSlot(r, flag, value);
    Open(t, Put(m, t.node[r].key, Entry(flag, value)));
  }
}
