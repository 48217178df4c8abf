/** The levels of the skip list as lists: what the forward pointers of one level
    string together, read off the invariant of the links. */
module SkipLevels {
  import opened SkipTowers
  import opened SkipNodes

  /** The nodes from rank `r` on that are taller than `i`. */
  ghost function Taller(chain: seq<Node>, hs: seq<nat>, i: nat, r: nat): seq<Node>
    requires |chain| == |hs| && r <= |chain|
    decreases |chain| - r
  {
    if r == |chain| then []
    else (if i < hs[r] then [chain[r]] else []) + Taller(chain, hs, i, r + 1)
  }

  /** The nodes met by following the pointers of level `i` from rank `r`. */
  ghost function Followed(chain: seq<Node>, hs: seq<nat>, L: seq<seq<Level>>, level: nat, i: nat, r: nat): seq<Node>
    requires Linked(chain, hs, L, level) && i < level && r < |chain| && i < hs[r]
    decreases |chain| - r
  {
    assert SlotAt(chain, hs, L, r, i);
    var slot := L[r][i];
    if slot.forward == null then [] else [slot.forward] + Followed(chain, hs, L, level, i, r + slot.span)
  }

  lemma {:induction false} SkipLower(chain: seq<Node>, hs: seq<nat>, i: nat, r: nat, t: nat)
    requires |chain| == |hs| && r <= t <= |chain|
    requires forall m :: r <= m < t ==> hs[m] <= i
    ensures Taller(chain, hs, i, r) == Taller(chain, hs, i, t)
    decreases t - r
  {
    if r < t { SkipLower(chain, hs, i, r + 1, t); }
  }

  /** Level `i` strings together exactly the nodes taller than `i`, in rank order. */
  lemma {:induction false} LevelIsTaller(chain: seq<Node>, hs: seq<nat>, L: seq<seq<Level>>, level: nat, i: nat, r: nat)
    requires Linked(chain, hs, L, level) && i < level && r < |chain| && i < hs[r]
    ensures Followed(chain, hs, L, level, i, r) == Taller(chain, hs, i, r + 1)
    decreases |chain| - r
  {
    assert SlotAt(chain, hs, L, r, i);
    var slot := L[r][i];
    if slot.forward == null {
      SkipLower(chain, hs, i, r + 1, |chain|);
    } else {
      SkipLower(chain, hs, i, r + 1, r + slot.span);
      LevelIsTaller(chain, hs, L, level, i, r + slot.span);
    }
  }

  ghost predicate IsSublist<T>(a: seq<T>, b: seq<T>) {
    a == [] || (b != [] && ((a[0] == b[0] && IsSublist(a[1..], b[1..])) || IsSublist(a, b[1..])))
  }

  lemma {:induction false} TallerIsSublist(chain: seq<Node>, hs: seq<nat>, i: nat, j: nat, r: nat)
    requires |chain| == |hs| && r <= |chain| && i <= j
    ensures IsSublist(Taller(chain, hs, j, r), Taller(chain, hs, i, r))
    decreases |chain| - r
  {
    if r < |chain| {
      TallerIsSublist(chain, hs, i, j, r + 1);
      var a, b := Taller(chain, hs, j, r + 1), Taller(chain, hs, i, r + 1);
      assert ([chain[r]] + a)[1..] == a && ([chain[r]] + b)[1..] == b;
      assert [] + a == a && [] + b == b;
    }
  }

  /** Each level is a sublist of the one below. */
  lemma LevelIsSublistOfLower(chain: seq<Node>, hs: seq<nat>, L: seq<seq<Level>>, level: nat, i: nat)
    requires Linked(chain, hs, L, level) && chain != [] && i + 1 < level <= hs[0]
    ensures IsSublist(Followed(chain, hs, L, level, i + 1, 0), Followed(chain, hs, L, level, i, 0))
  {
    LevelIsTaller(chain, hs, L, level, i, 0);
    LevelIsTaller(chain, hs, L, level, i + 1, 0);
    TallerIsSublist(chain, hs, i, i + 1, 1);
  }

  /** Level 0 strings together all nodes. */
  lemma {:induction false} AllAreOnLevelZero(chain: seq<Node>, hs: seq<nat>, r: nat)
    requires |chain| == |hs| && r <= |chain|
    requires forall m :: 0 <= m < |hs| ==> hs[m] > 0
    ensures Taller(chain, hs, 0, r) == chain[r..]
    decreases |chain| - r
  {
    if r < |chain| { AllAreOnLevelZero(chain, hs, r + 1); }
  }
}
