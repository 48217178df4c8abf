# Verification of the algorithms in this repository

This project models seven self-contained parts of the repository in Dafny 4.11 and proves
what they promise. `dafny verify dfyconfig.toml` checks everything.

1. **Indexable skip list and sorted set** (`SkipOrder`, `SkipTowers`, `SkipRanges`,
   `SkipNodes`, `SkipList`, `SkipLevels`, `LuaSkipList`, `ZSet`). Nodes, levels, spans and
   backward links are heap objects that the methods update in place. The ghost fields
   `chain` (the nodes by rank, the header at rank 0), `hs` (their heights) and `L` (their
   levels) say what the pointers represent. Every operation is proved, for every choice of
   the random height, to be an insertion, removal or slice of one sequence sorted by
   (score, object), and to restore every span, backward link and the tail.
2. **Hash table, trie and word filter** (`CrabNodes`, `CrabContents`, `CrabTable`,
   `CrabTrie`, `CrabDict`, `CrabFilter`, `CrabGreedy`, `CrabSurvivors`). A chained scatter table with Brent's variation on
   an array of slots refines a finite map; tables that hold tables form a trie that accepts
   exactly the inserted words; the filter masks the leftmost-longest matches, which are unique.
3. **Double-buffered logger** (`LogBooks`, `LogBuffers`, `LogMachine`, `LogFilling`, `Logger`). Producers and
   the worker take atomic steps in any order. `LogMachine` says, on values alone, what every
   schedule appends, drops and writes, and `LogFilling` how many bytes it takes before it drops
   anything; the objects of `Logger` refine it step by step.
4. **Re-entrant FIFO lock and session drain** (`LockBodies`, `CoLock`, `LockRuns`, `SessionLock`). Any
   number of coroutines, any interleaving of their steps.
5. **Base64** (`Base64`, `Base64Bits`, `Base64Codec`), against section 4 of RFC 4648, with the pad bits of
   section 3.5.
6. **Sparse arrays** (`SparseArray`). A Lua table is a map from slots to values; the list in
   the slots below 0 is sorted in place.
7. **Hot/cold/gc cache** (`CacheView`, `CacheMaps`, `CacheEntries`, `CacheMgr`). Every
   interleaving of lookups, loads, references, evictions and two-phase gc tasks. `CacheView` is
   a step system on what is known of each id; the maps and items of `CacheMgr` refine it.

`Wrappers` has the option type, `Powers` the powers of two. `Hiding` has one predicate: a
property stated under `forall x :: Unfold(tag, x) ==> ...` is the property itself, but the solver
looks into it only where its `Open...` lemma is called. For the same reason `HeldItems` and `FactsOf` in the cache
are chosen with `:|`: there is exactly one map with the property.

What stands for what the code takes from its surroundings:

- the random height of a node is a parameter from 1 to 32; scores are reals, so there is no NaN;
- a pointer to a slot of a hash table is the index of the slot, and NULL is -1;
- the wait of the logger's worker may end at any time, and its log file is a growing string;
- a coroutine step that cannot happen (a resume without a wakeup, say) changes nothing;
- `lua_rawlen` is some border of the table, and stays the same while only slots up to 0 change;
- an item of the cache is one that `Cache:_init` has initialised; whoever gets an item from the
  cache uses it at once, before the next yield, as in service/mailbox/cmd.lua; `_save` dumps the
  item and then waits for the database, as in service/mailbox/mailbox.lua;
- `gc_lock` with the wait of `multi_fork` means that a round of gc tasks starts when no task of an
  earlier round is left.

Where the code does not do what its documentation or its callers suggest, the code is kept, an
input is given, and the condition under which it is right is proved:

- `slIsInRange` and `slFirstInRange` say that nothing in range gives NULL; with a range in a gap
  between two scores they return a node (`SkipRanges.RangeTestIsExact`, input
  `SkipRanges.GapExample`). `_get_score_range` is right all the same (`LuaSkipList.GetScoreRange`).
- The number of elements of a rank range is stored in an `int`: 2^31 ranks asked for return
  nothing (`LuaSkipList.RankSliceIsExact`, input `LuaSkipList.RankSliceExample`).
- `rev_range` returns the lowest member when r1 is beyond the last rank (`ZSet.RevRangeIsExact`,
  input `ZSet.RevRangeExample`).
- `limit` and `rev_limit` with a negative count need not delete everything; `limit` with -2 deletes
  the highest member only, and `rev_limit` with 1 - 2^32 only the lower of two members
  (`ZSet.NegativeLimitIsExact`, `ZSet.NegativeRevLimitIsExact`, with the conditions and these inputs).
- A dictionary word with `*` can be left in a filtered text, any other word cannot
  (`CrabSurvivors.LeftIffStar`, input `CrabFilter.StarWordSurvives`). The condition is for words in
  which some rune does not occur, which `CrabSurvivors.SomeRuneIsMissing` shows of every word of
  fewer than 2^32 runes.
- The logger drops records when a batch has more than 25 buffers. It never does while fewer than
  13 * 4 MB are appended between two swaps, and can from that size on
  (`LogFilling.UnhurriedLosesNothing`, input `LogFilling.BoundIsSharp`).
- `lock_quit` returns at once in a coroutine that is in a session, and then waiting sessions have
  not finished and never will (`SessionLock.QuitAtOnce`, input `SessionLock.QuitInsideSession`).
- `base64_encode` returns -1 for every call by `lb64enc`, whose buffer has no room for the NUL,
  yet the buffer holds exactly the encoding, except for the empty string, for which a buffer of
  0x5555555555555558 bytes is asked for (`Base64Codec.LuaEncode`, `Base64Codec.BufferSizeIsExact`).
- A list that has been sorted is not looked at again when values are removed, and a border that
  shrinks leaves live indices unrecorded. `llen` is right exactly while the last entry is live and
  not below the border, and no unrecorded live index is behind it; a traversal exactly while every
  entry above the border is live and every unrecorded live index follows another live one
  (`SparseArray.LengthIsRight`, `SparseArray.TraversalIsRight`, inputs `SparseArray.RemovedLast`
  and `SparseArray.LostBehindHole`).
- A gc task can let an item go with a use that is not in the database. At the end of the task the
  item has such a use if and only if some step behind the dump in its `_save` has used it, and it
  is lost if and only if a step behind the last use has taken the item out of hot and cold
  (`CacheView.DirtyIffUsed`, `CacheView.UseIsLostIff`, `CacheMgr.RunWhileUnderWay`). The times do
  not tell: the inputs are a use after the save (`CacheView.UsedLater`), one in the second of the
  save, followed by `exit` (`CacheView.UsedAtOnce`), and one while the database has not answered
  (`CacheView.UsedMeanwhile`).

## Model

| member | source | states |
|---|---|---|
| SkipOrder.CompareMeetsLex | lualib-src/lua-skiplist/skiplist.c:81-89 | memcmp on the common length, then the lengths, is the lexicographic order of the byte strings, with 0 exactly for equal ones |
| SkipOrder.BeforeIsTotal | lualib-src/lua-skiplist/skiplist.c:99-101 | the order puts the smaller score first, and of equal scores the object that is first in lexicographic order; it is strict and total |
| SkipOrder.SortedIsAscending | lualib-src/lua-skiplist/skiplist.c:99-101 | a sequence is sorted for the search loops if and only if each element precedes the later ones by score and then by lexicographic order |
| SkipOrder.SortedIsDetermined | lualib-src/lua-skiplist/skiplist.c:91-191 | a sorted sequence is determined by its set of elements |
| SkipOrder.WithIsInsertion | lualib-src/lua-skiplist/skiplist.c:91-143 | inserting an absent key at its position keeps the sequence sorted and adds exactly that key |
| SkipOrder.WithoutIsRemoval | lualib-src/lua-skiplist/skiplist.c:167-191 | removing a key keeps the sequence sorted and takes away exactly that key |
| SkipOrder.CutElements | lualib-src/lua-skiplist/skiplist.c:195-221 | cutting out a rank range takes away exactly its elements |
| SkipOrder.FoundRankIsRank | lualib-src/lua-skiplist/skiplist.c:225-248 | with unique objects the rank found for an element's own score and object is its rank, and 0 for an absent object: the inverse of slGetNodeByRank |
| SkipTowers.CrossingIsLast | lualib-src/lua-skiplist/skiplist.c:96-110 | the link of a level that crosses a position leaves from the last node of that level up to the position |
| SkipTowers.NextAfterOpen | lualib-src/lua-skiplist/skiplist.c:117-136 | what every link of every level must span after a node of any height is opened at any rank |
| SkipNodes.SlotsReachAcross | lualib-src/lua-skiplist/skiplist.c:121-127 | update[i] lies at or before the position and its span reaches beyond it, so the new spans are positive |
| SkipNodes.LinkedAfterOpen | lualib-src/lua-skiplist/skiplist.c:118-136 | the split spans and the incremented higher spans are exact rank distances after insertion |
| SkipNodes.LinkedAfterRaise | lualib-src/lua-skiplist/skiplist.c:108-115 | raising the level count, with the header's span set to the length, keeps all links exact |
| SkipNodes.LinkedAfterClose | lualib-src/lua-skiplist/skiplist.c:146-157 | joining or decrementing spans keeps them exact rank distances after a deletion |
| SkipLevels.LevelIsTaller | lualib-src/lua-skiplist/skiplist.c:91-143 | following the forward pointers of a level visits exactly the nodes taller than the level, in order |
| SkipLevels.LevelIsSublistOfLower | lualib-src/lua-skiplist/skiplist.c:91-143 | every level is a sublist of the level below |
| SkipLevels.AllAreOnLevelZero | lualib-src/lua-skiplist/skiplist.c:91-143 | level 0 has all nodes |
| SkipList.SkipList.constructor | lualib-src/lua-skiplist/skiplist.c:22-37 | an empty valid list |
| SkipList.SkipList.FindUpdate | lualib-src/lua-skiplist/skiplist.c:96-107 | the descent finds on every level the last node before the key, with its rank |
| SkipList.SkipList.Insert | lualib-src/lua-skiplist/skiplist.c:91-143 | sorted insertion for every height 1..32, with the whole invariant of spans, backward links, tail and level; the list then ascends by score and, for equal scores, by lexicographic order |
| SkipList.SkipList.ListIsAscending | lualib-src/lua-skiplist/skiplist.c:91-143 | every valid list ascends by score and, for equal scores, by lexicographic order of the objects |
| SkipList.SkipList.DeleteNode | lualib-src/lua-skiplist/skiplist.c:146-164 | unlinking the node at any rank removes exactly it and keeps spans, mirror and the highest level in use |
| SkipList.SkipList.Delete | lualib-src/lua-skiplist/skiplist.c:167-191 | found exactly if the pair is there; sorted removal |
| SkipList.SkipList.DeleteByRank | lualib-src/lua-skiplist/skiplist.c:195-221 | removes exactly the ranks start..min(end, length), calls the callback on each in rank order, returns their number, with one update array for all deletions |
| SkipList.CutIsByRank | lualib-src/lua-skiplist/skiplist.c:193-221 | an element is left if and only if its rank is not from start to end |
| SkipList.SkipList.GetRank | lualib-src/lua-skiplist/skiplist.c:227-248 | the rank of an element up to the key with the object asked for, or 0 when the last element up to the key has another object, on whichever level the search ends |
| SkipList.SkipList.GetNodeByRank | lualib-src/lua-skiplist/skiplist.c:251-273 | the node at that rank, NULL for ranks outside 1..length |
| SkipList.SkipList.IsInRange | lualib-src/lua-skiplist/skiplist.c:277-292 | the test the code makes: the scores reach into the range from both sides |
| SkipList.SkipList.FirstInRange | lualib-src/lua-skiplist/skiplist.c:296-313 | the first node not below the range, whenever the test succeeds |
| SkipList.SkipList.LastInRange | lualib-src/lua-skiplist/skiplist.c:317-334 | the last node not above the range, whenever the test succeeds |
| SkipRanges.RangeIsSlice | lualib-src/lua-skiplist/skiplist.c:296-334 | the elements in range are a slice between two counts |
| SkipRanges.RangeTestIsExact | lualib-src/lua-skiplist/skiplist.c:275-292 | the test says whether something is in range if and only if the range is not in a gap between two scores |
| SkipRanges.GapExample | lualib-src/lua-skiplist/skiplist.c:294-313 | scores 1 and 10 and the range 4..6: the test succeeds with nothing in range |
| LuaSkipList.DeleteByRank | lualib-src/lua-skiplist/lua-skiplist.c:54-67 | the same for bounds in either order, converted to unsigned |
| LuaSkipList.ConversionsWrap | lualib-src/lua-skiplist/lua-skiplist.c:54-106 | the conversions to unsigned and signed types stay in range and keep the value modulo 2^32 or 2^64 |
| LuaSkipList.GetRankRange | lualib-src/lua-skiplist/lua-skiplist.c:95-119 | the rank slice in either direction, as long as the `int` count allows |
| LuaSkipList.RankSliceIsExact | lualib-src/lua-skiplist/lua-skiplist.c:99-107 | that slice is the range of ranks asked for if and only if the number of its elements survives the conversion to `int` |
| LuaSkipList.RankSliceExample | lualib-src/lua-skiplist/lua-skiplist.c:99-107 | one element, asked for the ranks 1 to 2^31: nothing is returned |
| LuaSkipList.GetScoreRange | lualib-src/lua-skiplist/lua-skiplist.c:122-153 | exactly the members with scores between the bounds, ascending or descending, also for a range in a gap |
| LuaSkipList.InRangeIsSlice | lualib-src/lua-skiplist/lua-skiplist.c:122-153 | filtering by score is that slice |
| ZSet.RankIsIndex | lualib/zset.lua:82-88 | one more than the number of smaller (score, member) pairs is the position in the list |
| ZSet.RankCountsThoseBefore | lualib/zset.lua:82-88 | the rank is one more than the number of members with a smaller score or with the same score and first in lexicographic order |
| ZSet.TieExample | lualib-src/lua-skiplist/skiplist.c:99-101 | of "a" and "b" with the same score "a" has rank 1 and "b" rank 2 |
| ZSet.ListIsDetermined | lualib/zset.lua:6-25 | the table alone determines the list |
| ZSet.FoundRankIsRankOf | lualib/zset.lua:82-88 | slGetRank with a member's true score finds the member's rank |
| ZSet.CutLeavesLowest | lualib/zset.lua:35-43 | cutting the ranks behind n leaves exactly the n lowest members |
| ZSet.CutLeavesHighest | lualib/zset.lua:45-55 | cutting the first ranks leaves exactly the n highest members |
| ZSet.LimitBounds | lualib/zset.lua:35-55 | the bounds passed on, after conversion and swap, cut exactly there |
| ZSet.NegativeLimitIsExact | lualib/zset.lua:35-43 | a negative count deletes everything if and only if count + 1 becomes 0 or 1 as an unsigned int or there is at most one member; with -2 only the highest of several members is deleted |
| ZSet.NegativeRevLimitIsExact | lualib/zset.lua:45-55 | a negative count deletes everything if and only if total - count is not below the number of members as an unsigned int or there is at most one member; with 1 - 2^32 only the lower of two members is deleted |
| ZSet.RevRangeIsExact | lualib/zset.lua:57-61 | rev_range is the range of descending ranks if and only if r1 is a rank (or the set is empty) and its length fits an `int` |
| ZSet.RevRangeExample | lualib/zset.lua:57-61 | rank 3 of two members gives the lowest member |
| ZSet.RangeIsByRank | lualib/zset.lua:63-72 | below 2^31, range(r1, r2) returns the members with the ranks r1, r1 + 1, ... up to r2 or the last, or r1, r1 - 1, ... down to r2; a bound below 1 counts as 1 |
| ZSet.DescendingIsByRank | lualib/zset.lua:57-61 | the descending range is the members with the ranks count + 1 - r1 downwards |
| ZSet.ZSet.Add | lualib/zset.lua:6-17 | the table is updated and the list keeps agreeing with it, also when the score changes or stays the same |
| ZSet.ZSet.Rem | lualib/zset.lua:19-25 | the member is gone from both |
| ZSet.ZSet.Count | lualib/zset.lua:27-29 | the list has as many elements as the table |
| ZSet.ZSet.Limit | lualib/zset.lua:35-43 | keeps exactly the n lowest members; for a negative count exactly the members outside the ranks between the converted bounds; returns the number removed |
| ZSet.ZSet.RevLimit | lualib/zset.lua:45-55 | keeps exactly the n highest members; for a negative count exactly the members outside the ranks between the converted bounds; returns the number removed |
| ZSet.ZSet.Rank | lualib/zset.lua:82-88 | 1 plus the number of smaller pairs, nil for no member |
| ZSet.ZSet.RevRank | lualib/zset.lua:74-80 | rank + rev_rank = count + 1 |
| ZSet.ZSet.Range | lualib/zset.lua:63-72 | the rank slice for clamped bounds |
| ZSet.ZSet.RevRange | lualib/zset.lua:57-61 | the rank slice for the reversed ranks, computed with wrap-around and clamped |
| ZSet.ZSet.RangeByScore | lualib/zset.lua:90-92 | exactly the members with scores between the bounds, in order |
| ZSet.ZSet.Run | lualib/zset.lua:6-55 | after any run of add, rem, limit and rev_limit table and list agree, and the table is what the operations mean |
| CrabNodes.MaskIsModulo | 3rd/crab/crab.c:27-29 | key & (capacity - 1) is the remainder for a power of two |
| CrabNodes.NotOnChain | 3rd/crab/crab.c:101-113 | a key that is on no slot of its own chain is nowhere in the table |
| CrabNodes.OnChain | 3rd/crab/crab.c:83-86 | every used slot lies on the chain of its key's main position |
| CrabNodes.PlaceAtMain | 3rd/crab/crab.c:73-99 | a key put at its free main position starts a chain of its own |
| CrabNodes.PlaceSecond | 3rd/crab/crab.c:89-93 | the free slot linked behind the main position joins the chain without a cycle |
| CrabNodes.PlaceByMoving | 3rd/crab/crab.c:82-88 | the colliding slot moved to the free one keeps its place on its chain, and the new key starts its own |
| CrabContents.ContentsAfterPlace | 3rd/crab/crab.c:73-99 | after each of the three placements the table represents the old entries and the new key |
| CrabContents.FewKeysNotFull | 3rd/crab/crab.c:41-64 | a table with fewer keys than slots has a free slot |
| CrabTable.Table.constructor | 3rd/crab/crab.c:123-131 | an empty table of capacity 1 |
| CrabTable.Table.GetFreeNode | 3rd/crab/crab.c:31-39 | NULL exactly when the table is full, else a free slot |
| CrabTable.Table.Get | 3rd/crab/crab.c:101-113 | the walk ends at the key's slot, which has the flag and value the map has for it, and gives NULL exactly when the map has no such key |
| CrabTable.Table.Predecessor | 3rd/crab/crab.c:84-86 | the search for the predecessor ends at the slot whose `next` is the colliding one |
| CrabTable.Table.Expand | 3rd/crab/crab.c:41-64 | doubles the capacity, keeps every key, flag and value, and never expands again inside |
| CrabTable.Table.NewKey | 3rd/crab/crab.c:73-99 | adds exactly the new key; the mutual recursion ends |
| CrabTable.Table.Insert | 3rd/crab/crab.c:115-121 | the map is unchanged for a key that is there, else has it added; the slot returned is the key's |
| CrabTrie.PrefixHasTable | 3rd/crab/crab.c:165-200 | every prefix of the path to a table has its own table |
| CrabTrie.WordGoesThrough | lualib-src/lua-crab.c:50-57 | a word longer than a prefix continues in the table below the prefix's entry, so the walk may stop where there is none |
| CrabTrie.EndsAfterPutAll | 3rd/crab/crab.c:192-198 | marking or adding an entry changes the accepted words by exactly the word that ends there |
| CrabTrie.TrieAfterNewTable | 3rd/crab/crab.c:187-190 | a new empty table under an entry keeps the trie and its words |
| CrabDict.Dict.constructor | lualib-src/lua-crab.c:15 | an empty trie accepts nothing |
| CrabDict.Dict.Insert | 3rd/crab/crab.c:165-200 | exactly the word is accepted in addition; the empty word adds nothing; a word with an element that is no integer is refused and accepts nothing more |
| CrabFilter.RunesWrap | lualib-src/lua-crab.c:47 | an integer that fits is its own rune, integers 2^32 apart are the same rune, and what is no integer is rune 0 |
| CrabFilter.Crab.Open | lualib-src/lua-crab.c:11-28 | the new dictionary accepts exactly the non-empty words listed; the first illegal one is reported and leaves the old dictionary |
| CrabFilter.Match | lualib-src/lua-crab.c:43-58 | the walk finds the longest dictionary word at a position |
| CrabFilter.FilterText | lualib-src/lua-crab.c:31-72 | the text is masked in place at the greedy matches, and the flag says whether some dictionary word occurs in the original |
| CrabFilter.Crab.Filter | lualib-src/lua-crab.c:31-72 | the same, with the error for a filter before any open |
| CrabFilter.UnmaskedStartsNoWord | lualib-src/lua-crab.c:42-69 | no dictionary word starts at a rune that is not masked |
| CrabFilter.MaskedLiesInMatch | lualib-src/lua-crab.c:59-66 | a masked rune lies in a longest match that is masked as a whole |
| CrabFilter.MaskedIffWord | lualib-src/lua-crab.c:59-71 | something is masked if and only if the text has a dictionary word |
| CrabGreedy.SearchIsGreedy | lualib-src/lua-crab.c:42-69 | what is masked is a row of longest words without overlap, with no word starting at a rune outside them |
| CrabGreedy.GreedyIsUnique | lualib-src/lua-crab.c:42-69 | a text has only one such row of matches |
| CrabGreedy.MaskedIsGreedy | lualib-src/lua-crab.c:59-66 | the masked text has the code of `*` at the runes of these matches and is the same elsewhere |
| CrabFilter.SurvivorsTouchAMask | lualib-src/lua-crab.c:31-72 | a dictionary word in the masked text covers a masked rune |
| CrabFilter.NoStarFreeWordSurvives | lualib-src/lua-crab.c:31-72 | no word without `*` is left in the masked text |
| CrabFilter.StarWordSurvives | lualib-src/lua-crab.c:31-72 | the dictionary of `*` and the text `*`: the word is left |
| CrabFilter.FilterIsIdempotent | lualib-src/lua-crab.c:31-72 | with words without `*`, filtering again finds and changes nothing |
| CrabSurvivors.StarWordIsLeft | lualib-src/lua-crab.c:31-72 | for every word with `*` and every rune c that is not in it: with c as a second word, the word is left in the text that has c in the place of each `*` |
| CrabSurvivors.LeftIffStar | lualib-src/lua-crab.c:11-72 | a word lacking some rune is left in some filtered text of some dictionary that has it if and only if it has a `*` |
| CrabSurvivors.SomeRuneIsMissing | lualib-src/lua-crab.c:11-72 | every word of fewer than 2^32 runes lacks one |
| LogBooks.TrimBalanced | lualib-src/lua-log.c:294-306 | dropping the buffers behind the first two loses exactly their records and keeps the order of the others |
| LogBooks.NothingLost | lualib-src/lua-log.c:165-351 | with no record lost the kept records are the appended ones |
| LogBooks.NothingMissing | lualib-src/lua-log.c:165-351 | the bytes of file, unwritten batch and shared buffers, in order, are those of the kept records |
| LogBooks.DecimalIsExact | lualib-src/lua-log.c:288-290 | a number in digits, without leading zeros, reads back as the number |
| LogBooks.NoticeTells | lualib-src/lua-log.c:281-292 | the exact text of the notice, uncut for a time stamp of at most 63 characters, with the number in digits |
| LogMachine.ShortBatchesLoseNothing | lualib-src/lua-log.c:165-351 | in every schedule whose batches, counted from its steps, have at most 25 buffers, the records appended are the producers' lines in order and none is lost |
| LogMachine.LostIsTails | lualib-src/lua-log.c:165-351 | in every schedule the records lost are exactly those of the buffers 3 to n of the batches of n > 25 buffers, in order, as far as they have been trimmed |
| LogMachine.NoticeNamesTheDropped | lualib-src/lua-log.c:279-306 | the notice of a long batch has the number of the buffers whose records the next step of the worker loses |
| LogFilling.PushIsPacked | lualib-src/lua-log.c:165-210 | append keeps this: a buffer behind the first begins with a record that would have filled the one before it (4 MB), every other record did not fill its buffer; the line is behind the others |
| LogFilling.PackingIsUnique | lualib-src/lua-log.c:165-210 | by this the records determine which buffer holds which |
| LogFilling.BuffersArePacked | lualib-src/lua-log.c:165-262 | it holds of the shared buffers and of every batch in every schedule |
| LogFilling.PackedIsFull | lualib-src/lua-log.c:165-210 | n buffers hold at least n / 2 times 4 MB, rounded down |
| LogFilling.UnhurriedLosesNothing | lualib-src/lua-log.c:165-351 | in every schedule whose producers append fewer than 52 MB between two swaps, the records appended are their lines in order and none is lost |
| LogFilling.FewBytesLoseNothing | lualib-src/lua-log.c:165-351 | so it is when all lines together have fewer than 52 MB |
| LogFilling.BoundIsSharp | lualib-src/lua-log.c:165-306 | with exactly 52 MB, in 13 lines of 4 MB with empty lines between them, records are lost |
| LogBuffers.Buffer.Put | lualib-src/lua-log.c:171-172 | the line goes behind the bytes in use and does not overflow the buffer |
| LogBuffers.Link | lualib-src/lua-log.c:193-204 | the full buffer's `next` is the new current buffer, whose `next` is NULL |
| LogBuffers.CutToTwo | lualib-src/lua-log.c:303-305 | the kept batch is a list of two buffers |
| Logger.Logger.constructor | lualib-src/lua-log.c:370-410 | the initial state satisfies the invariant |
| Logger.Logger.Append | lualib-src/lua-log.c:165-213 | exactly the line is appended, whole and behind the records there were, in a new buffer exactly when it would fill the current one to 4 MB (packed buffers stay packed, which determines where it goes); the chain from head to the current buffer, its length and the separation of all buffers are kept; both assertions hold |
| Logger.Logger.Rotate | lualib-src/lua-log.c:177-205 | the full buffer is the new tail of the queue, whose size grows by one, and an empty buffer becomes current; without a spare buffer something is queued |
| Logger.Logger.Swap | lualib-src/lua-log.c:231-278 | the batch is the list with the current buffer at its end, and the worker will find the buffers it needs for recycling |
| Logger.Logger.IdleAssertions | lualib-src/lua-log.c:227-229 | the three assertions at the head of the loop hold |
| Logger.Logger.SayDropped | lualib-src/lua-log.c:280-292 | for more than 25 buffers a notice with the number minus 2 is appended |
| Logger.Logger.Trim | lualib-src/lua-log.c:294-306 | exactly the records of the buffers 3 to n are lost |
| Logger.Logger.WriteNext | lualib-src/lua-log.c:308-315 | the records of the next buffer, and nothing else, go to the file |
| Logger.Logger.Recycle | lualib-src/lua-log.c:323-350 | the buffers for the next round come from the batch; both assertions on its size hold |
| Logger.Logger.Work | lualib-src/lua-log.c:225-355 | a worker step takes the buffers, appends (a notice, at a long batch), loses (at its trim) and writes exactly what the machine says |
| Logger.Logger.Conservation | lualib-src/lua-log.c:165-351 | at every moment file, unwritten batch and shared buffers make up the kept records, which are all records unless some were dropped |
| Logger.Logger.Do | lualib-src/lua-log.c:165-358 | any step of a producer or the worker leads from one state of the machine to the next, and appends, loses and writes exactly what the machine says |
| Logger.RunSchedule | lualib-src/lua-log.c:165-358 | in every interleaving: what is in the buffers, appended and in the file is what the machine says, what is lost is the tails of the trimmed long batches, and with batches of at most 25 buffers, as always with fewer than 52 MB between two swaps, the appended records are the producers' lines and none is lost; all buffers are packed |
| CoLock.Lock.Acquire | lualib/lock.lua:18-32 | re-entry counts, a free lock is taken, else the caller queues at the end |
| CoLock.Lock.Release | lualib/lock.lua:34-49 | the owner's unlock counts down, and the last one hands the lock to the first waiter; others get the error and change nothing |
| CoLock.Lock.LockFunc | lualib/lock.lua:51-57 | for bodies with nested calls, caught and uncaught errors, and arrivals of others: the depth is what it was, the arrivals are queued in order, and an error is raised if and only if one is raised somewhere in the body and caught nowhere on its way |
| LockBodies.RaisesIffFails | lualib/lock.lua:51-57 | a body raises if and only if a path of calls, none of them caught, leads from it to one that raises in itself |
| LockBodies.ArrivalsInTurn | lualib/lock.lua:26-57 | who is queued is who comes in the bodies that are reached before an uncaught error has ended a body around them, in the order in which these begin |
| LockRuns.StepIsSafe | lualib/lock.lua:12-57 | every step keeps: one owner, not in the queue, queue without duplicates, waiters only for a held lock, count equal to the nested acquisitions |
| LockRuns.RunIsSafe | lualib/lock.lua:12-57 | every run keeps it |
| LockRuns.MutualExclusion | lualib/lock.lua:12-57 | two coroutines inside bodies are the same, which owns the lock with that depth |
| LockRuns.WokenOwns | lualib/lock.lua:30-31 | the assertion behind the wait holds |
| LockRuns.NobodyIsForgotten | lualib/lock.lua:29-48 | who waits, waits for an owner that runs or has been woken |
| LockRuns.QueueStep | lualib/lock.lua:18-49 | only a full release takes the head of the queue, which then owns the lock; else the queue only grows at its end |
| LockRuns.FirstComeFirstServed | lualib/lock.lua:18-49 | behind k waiters a coroutine moves up with every full release and owns the lock right after the (k+1)st |
| LockRuns.NoBarging | lualib/lock.lua:40-48 | who gets the lock was the first waiter, or nobody waited |
| LockRuns.Play | lualib/lock.lua:6-49 | the class goes through the states of the step system |
| SessionLock.ActIsGood | lualib/session_lock.lua:12-36 | every step keeps the invariant: behind a coroutine that quits only such wait |
| SessionLock.QuitDrains | lualib/session_lock.lua:29-36 | lock_quit that has waited returns with the others' sessions finished |
| SessionLock.QuitAtOnce | lualib/session_lock.lua:29-36 | lock_quit that returns at once does so with the others' sessions finished if and only if no session waits, which is so unless the caller owns the lock |
| SessionLock.QuitInsideSession | lualib/session_lock.lua:29-36 | quitting inside a session can leave a waiting session behind |
| SessionLock.QuitForever | lualib/session_lock.lua:12-36 | once lock_quit has returned, no other coroutine ever runs a session body |
| SessionLock.NothingAccepted | lualib/session_lock.lua:15-17 | from the call of lock_quit on no session is accepted |
| SessionLock.PendingStep | lualib/session_lock.lua:12-27 | a coroutine is pending behind a step if it has just been accepted, or if it was and has not just finished without an error |
| SessionLock.SessionLock.LockSession | lualib/session_lock.lua:12-27 | refused after a quit, else recorded as pending and locked |
| SessionLock.SessionLock.Finish | lualib/session_lock.lua:22-26 | the body's end unlocks; an error skips the removal from pending, else the entry goes |
| SessionLock.SessionLock.LockQuit | lualib/session_lock.lua:29-36 | quit is set, all that is pending is logged, which includes the sessions that wait, and the lock is requested |
| Base64.LetterIsInTable | lualib-src/lua-base64.c:12-13 | the letter of each digit is the character of the table at that place |
| Base64.SpaceIsOneOfSix | lualib-src/lua-base64.c:70 | white space is space, tab, line feed, vertical tab, form feed and carriage return |
| Base64.DigitsOfGroup | lualib-src/lua-base64.c:28-31 | the shifts and masks give the four base 64 digits of the 24-bit group |
| Base64.EncodingDecodes | lualib-src/lua-base64.c:16-157 | decoding undoes encoding behind any whole groups |
| Base64.DecodingEncodes | lualib-src/lua-base64.c:64-157 | what is accepted is the encoding of the result, so pad bits are zero and pads are right |
| Base64.DecodesIffEncoding | lualib-src/lua-base64.c:64-157 | a text without white space decodes to s if and only if it is the encoding of s |
| Base64Bits.EncodingSpells | lualib-src/lua-base64.c:16-62 | the encoding has four characters for every three bytes begun; character j is the one of the table for the bits 6j to 6j+5 of the bytes, filled up with zeros, or `=` behind their end |
| Base64Bits.EncodingExample | lualib-src/lua-base64.c:16-62 | "Man" is TWFu and "M" is TQ== |
| Base64Codec.Encode | lualib-src/lua-base64.c:16-62 | for any buffer length: the characters of the table for the bits of the bytes by sixes, with `=` at the end, and a NUL, with the length as result; or -1, with the text written when only the NUL has no room |
| Base64Codec.LuaEncode | lualib-src/lua-base64.c:159-177 | when malloc succeeds, the buffer is exactly filled with the encoding if and only if the string is not empty; else nil |
| Base64Codec.BufferSizeIsExact | lualib-src/lua-base64.c:161-164 | the buffer has the length of the encoding if and only if the string is not empty; for the empty one it is 0x5555555555555558 |
| Base64Codec.OrIsSum | lualib-src/lua-base64.c:93-115 | or-ing bits below a power of two into a multiple of it adds them |
| Base64Codec.PutDigit | lualib-src/lua-base64.c:76-121 | each case of the switch completes a byte and begins the next one |
| Base64Codec.Decode | lualib-src/lua-base64.c:64-157 | a result is the decoding of the text, and with a buffer as long as the text -1 means there is none: the bounds checks never fail |
| Base64Codec.LuaDecode | lualib-src/lua-base64.c:179-196 | accepted exactly when the text without white space, up to the first NUL, is an encoding, with what was encoded as result |
| Base64Codec.SkippedIff | lualib-src/lua-base64.c:68-71 | a character put into a text anywhere before a NUL is skipped if and only if it is one of the six white space characters; what is behind a NUL is not looked at |
| Base64Codec.RoundTrip | lualib-src/lua-base64.c:16-196 | the decoder gives back every byte string that was encoded |
| SparseArray.SparseArray.constructor | lualib-src/lua-array.c:205-218 | each slot from 1 on has the value given for it, or is nil, and no other slot but 0 is used; the list is empty, and everything is recorded exactly if no value lies behind the border |
| SparseArray.SparseArray.NewIndex | lualib-src/lua-array.c:6-30 | the slot then has the value or is nil, no other slot above 0 changes, and the index is appended to the list exactly when it is above the border; everything stays recorded while the border does not shrink |
| SparseArray.SparseArray.Assign | lualib-src/lua-array.c:6-30 | the same, but an assignment to a slot that is not nil changes that slot only; a list that is sorted stays so |
| SparseArray.SparseArray.Insert | lualib-src/lua-array.c:33-57 | binary insertion into the rising list, without duplicates, in place; other slots are unchanged |
| SparseArray.SparseArray.SortSparse | lualib-src/lua-array.c:60-86 | the slots -1..-n rise and hold exactly the recorded live indices above the border, the rest of the list is nil, slot 0 is -n, and no other slot changes |
| SparseArray.SortedIsExact | lualib-src/lua-array.c:60-86 | the sorted list is exactly the recorded live indices above the border, and all of them if everything was recorded |
| SparseArray.SparseArray.Next | lualib-src/lua-array.c:97-169 | the first index that is live up to the border, an entry above it, or the one right behind the last, with its value, or nil; what happens behind a negative index; "Invalid index" does not occur |
| SparseArray.SparseArray.Traverse | lualib-src/lua-array.c:97-184 | a traversal visits once, in ascending order, the live indices up to the border, the entries above it and what follows these without a gap, each with the value of its slot, and stops |
| SparseArray.TraverseNew | lualib-src/lua-array.c:97-218 | a traversal of a new array meets exactly the indices up to the border for which a value was given, each with that value |
| SparseArray.TraversalIsRight | lualib-src/lua-array.c:97-184 | these are exactly the live indices if and only if every entry above the border is live and every live index that is not recorded follows another live one |
| SparseArray.ExactTraversal | lualib-src/lua-array.c:97-184 | with everything recorded and a sort, a traversal visits exactly the live indices |
| SparseArray.LostBehindHole | lualib-src/lua-array.c:97-202 | {1, 2, 3, 4} without 2 and 4, with 1 as the border: the traversal visits 1 only, with its value, and the length is 1 |
| SparseArray.SparseArray.Len | lualib-src/lua-array.c:187-202 | the last entry, or the border when there is none; with everything recorded and a sort, the greatest live index or 0 |
| SparseArray.LengthIsRight | lualib-src/lua-array.c:187-202 | without a sort it is the length if and only if the last entry is live and not below the border, and no live index that is not recorded is behind it |
| SparseArray.RemovedLast | lualib-src/lua-array.c:97-202 | index 5 recorded, sorted and removed: llen still gives 5 and a traversal still meets it, with nil |
| CacheView.DirtyIffUsed | lualib/cache_mgr.lua:122-127 | when the task of an item ends, the item has a use that was not dumped if and only if some step of the run behind the dump has used it, whatever the times |
| CacheView.UseIsLostIff | lualib/cache_mgr.lua:25-127 | the end of the task lets such a use go if and only if a step behind the last use has taken the item out of hot and cold |
| CacheView.FoundAgainSurvivesIff | lualib/cache_mgr.lua:25-127 | an item found again while its task sleeps is still in the cache behind the end of that task if and only if no step since its last use has taken it out of hot and cold |
| CacheView.WarmStep | lualib/cache_mgr.lua:25-260 | which steps take an id out of hot and cold: exit, an update after ttl without a use, a swap while it is cold and not in use; and that a use brings it back |
| CacheView.PlaceStep | lualib/cache_mgr.lua:25-260 | for every step, when an id is in hot, in cold and in gc behind it: by a use, a swap, an update after ttl or save_cd without access or save, and exit |
| CacheView.FactsStep | lualib/cache.lua:24-49 | for every step, what becomes of reference count, access time, save time, undumped use and the stage of the gc task |
| CacheView.IdStep | lualib/cache_mgr.lua:57-127 | which steps bring an id in or let it go, and the entry of a new one |
| CacheView.UsedLater | lualib/cache_mgr.lua:96-214 | load at 0, update at 6, gc, save at 6, lookup at 7, update at 13, end: the item is let go with a use that was not dumped |
| CacheView.UsedAtOnce | lualib/cache_mgr.lua:96-260 | the same with the lookup at 6, the second of the save, and an exit |
| CacheView.UsedMeanwhile | service/mailbox/mailbox.lua:13-16 | the same with the lookup at 6, between the dump and the answer of the database |
| CacheMaps.GcGone | lualib/cache_mgr.lua:88-90 | removing an id from gc lets only that id go, and only when it is neither hot nor cold |
| CacheMgr.CacheMgr.AddHot | lualib/cache_mgr.lua:25-55 | the id is hot, or cold after a swap by which all of hot becomes cold, what was cold and in use stays cold and the rest of it goes to gc; every other id keeps its object; counters are the map sizes |
| CacheMgr.CacheMgr.Settle | lualib/cache_mgr.lua:43-49 | of what was cold, exactly the items with a reference and an access since ttl are cold afterwards and exactly the others are added to gc; nothing is lost |
| CacheMgr.CacheMgr.GetCache | lualib/cache_mgr.lua:96-120 | a found id moves from cold or gc to hot, or to cold by the swap that makes room, and its item gets the access time; no other item and no object changes |
| CacheMgr.CacheMgr.FinishLoad | service/mailbox/mailbox_mgr.lua:26-50 | behind the yield an object loaded meanwhile is returned instead of a second one; a new one becomes hot |
| CacheMgr.CacheMgr.Update | lualib/cache_mgr.lua:181-214 | exactly the items not used for ttl leave hot and cold, and exactly these and those not saved for save_cd are added to gc; every id keeps its object |
| CacheMgr.CacheMgr.Exit | lualib/cache_mgr.lua:243-260 | hot and cold are empty and everything is in gc |
| CacheMgr.CacheMgr.BeginRound | lualib/cache_mgr.lua:136-147 | a task for exactly the items of gc, one for each id |
| CacheMgr.CacheMgr.DumpItem | service/mailbox/mailbox.lua:13-16 | the item of the task is dumped: it has no use any more that was not; the task is marked, and nothing else changes |
| CacheMgr.CacheMgr.SaveItem | lualib/cache.lua:24-27 | behind the answer of the database the item gets the save time, the task is marked, and nothing else changes; uses since the dump stay as they are |
| CacheMgr.CacheMgr.ChangeRef | lualib/cache.lua:29-35 | the reference count of the item of an id changes by one, and nothing else |
| CacheMgr.CacheMgr.EndTask | lualib/cache_mgr.lua:122-127 | the id leaves unless it is hot or cold, and its object is the one the task has saved; nothing else changes |
| CacheMgr.CacheMgr.Do | lualib/cache_mgr.lua:25-273 | every step is one of the step system on views and keeps counters, disjointness, agreement and tasks; an id loses its object only at the end of a gc task that saved it and gets one only by a load |
| CacheMgr.Run | lualib/cache_mgr.lua:25-273 | every run goes through the views of the step system, and an id keeps its object as long as no gc task for it ends |
| CacheMgr.RunWhileUnderWay | lualib/cache_mgr.lua:122-127 | on the objects, for any run from the dump of an item to the end of its gc task: it has a use that was not dumped if and only if the run has used it, and is then neither hot nor cold if and only if a step behind the last use has cooled it |
| CacheMgr.UsedBehindDump | lualib/cache_mgr.lua:96-260 | the runs of the three inputs, by which the cache has an object in gc only, saved at 6, with a use that was not dumped |
| CacheMgr.LetGoDirty | lualib/cache_mgr.lua:122-127 | the object of the id is let go, with that use, by the end of its task |

## Left out

- SkipList.SkipList.Insert: the pair must be absent, which zset guarantees; with a duplicate the list is sorted only weakly. Lengths stay below 2^32, the width of a span.
- SkipList.SkipList.DeleteByRank: the callback is the list of the objects it gets, in order; a callback that changes the list itself is not modelled.
- CrabTable.Table.Expand: the capacity is unbounded, where the source's `int` would overflow at 2^31 slots.
- Logger.RunSchedule: records appended after the last swap are in the buffers, not in the file, when the logger exits; there is no claim about shutdown.
- CrabSurvivors.LeftIffStar: words of 2^32 or more elements in which every rune occurs are excluded; for these a `*` between two other runes need not be enough.
- Base64Codec.LuaDecode: the push of a string of length -1 after a refused text is not modelled.
- Base64Codec.Decode: the mode without a buffer (`dst` NULL) is not modelled.
- CacheMgr.CacheMgr.BeginRound: that one round runs at a time is taken from the lock (`LockRuns.MutualExclusion`) and from the wait of multi_fork, not proved again.
- The guard `gc_cnt` of gc in lualib/cache_mgr.lua, which only keeps a second gc from queueing.
- Memory management (free, garbage collection of Lua objects), metatables and the checks of Lua argument types.
- The probabilities of random heights and expected running times.
- Rolling, opening and flushing of log files, log levels, and the formatting of log lines before append.
- The contents of cached items and the database behind them; a save that fails leaves its gc task, and the item, where they are.
- Services, cluster communication, web server, ORM, timers and third-party libraries: wrappers over code that is not in the repository, or easy bookkeeping.
