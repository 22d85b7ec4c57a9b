/** What `incremental_update` and `rebuild_affected_paths` (merkle_tree.py)
    do to the list of levels, as functions of the levels they start from.
    The combine is a parameter: the tree passes `ValueOrdered(H)`, the
    value-ordered combine, not the positional one of `build_tree`. Every
    lemma here holds for any combine, so in particular for that one. */
module Maintenance {
  import opened Digests
  import opened Levels

  /** `if len(tree) <= j: tree.append([])`, then `tree[j].append(x)`. */
  function AppendToLevel(t: Tree, j: nat, x: Digest): (r: Tree)
    requires 1 <= j <= |t|
    ensures |r| == if j == |t| then |t| + 1 else |t|
    ensures forall i :: 0 <= i < |t| && i != j ==> r[i] == t[i]
    ensures r[j] == (if j < |t| then t[j] else []) + [x]
  {
    var grown := if |t| <= j then t + [[]] else t;
    grown[j := grown[j] + [x]]
  }

  /** The digest `incremental_update` and `rebuild_affected_paths` compute
      above position `index` of `level`: the combine of the running digest
      with its sibling, or with itself when the sibling is past the end. */
  function ClimbParent(combine: Combine, level: seq<Digest>, current: Digest, index: nat): Digest
  {
    combine(current, if Sibling(index) < |level| then level[Sibling(index)] else current)
  }

  /** The loop of `incremental_update` from level `k` on, with `stop` the
      number of levels the tree had when the loop began (Python evaluates
      `range(len(self.tree))` once). `current` and `index` are the running
      digest and its position on level `k`. */
  function UpdateFrom(combine: Combine, t: Tree, k: nat, stop: nat, current: Digest, index: nat): Tree
    requires k <= stop <= |t|
    decreases stop - k
  {
    if k == stop then t
    else if index % 2 == 0 && index + 1 == |t[k]| then
      // an even tail goes up unchanged, and the loop breaks
      AppendToLevel(t, k + 1, current)
    else
      var parent := ClimbParent(combine, t[k], current, index);
      UpdateFrom(combine, AppendToLevel(t, k + 1, parent), k + 1, stop, parent, index / 2)
  }

  /** `incremental_update(leaf)` on levels `t` whose level 0 already ends with
      `leaf`. */
  function IncrementalUpdateOf(combine: Combine, t: Tree, leaf: Digest): Tree
    requires |t| >= 1 && |t[0]| >= 1
  {
    UpdateFrom(combine, t, 0, |t|, leaf, |t[0]| - 1)
  }

  /** `tree[j][m] = x`: overwrites one node and keeps every level's length. */
  function WriteNode(t: Tree, j: nat, m: nat, x: Digest): (r: Tree)
    requires j < |t| && m < |t[j]|
    ensures |r| == |t| && forall i :: 0 <= i < |t| ==> |r[i]| == |t[i]|
    ensures forall i :: 0 <= i < |t| && i != j ==> r[i] == t[i]
    ensures forall n :: 0 <= n < |t[j]| && n != m ==> r[j][n] == t[j][n]
    ensures r[j][m] == x
  {
    t[j := t[j][m := x]]
  }

  /** The loop of `rebuild_affected_paths` from level `k` on: it overwrites the
      parent of position `index` on level `k + 1` and moves up. It returns the
      new levels and whether it finished; `false` is the IndexError Python
      raises when the parent position is past the end of its level, and the
      writes made before it stay. */
  function RebuildFrom(combine: Combine, t: Tree, k: nat, current: Digest, index: nat): (Tree, bool)
    requires k < |t|
    requires index < |t[k]|
    decreases |t| - k
  {
    if k == |t| - 1 then (t, true)
    else if index / 2 >= |t[k + 1]| then (t, false)
    else
      var parent := ClimbParent(combine, t[k], current, index);
      RebuildFrom(combine, WriteNode(t, k + 1, index / 2, parent), k + 1, parent, index / 2)
  }

  /** The digest `rebuild_affected_paths` pairs with the node at `index`: its
      sibling, or the node itself when the sibling is past the end. */
  function SiblingOrSelf(level: seq<Digest>, index: nat): Digest
    requires index < |level|
  {
    if Sibling(index) < |level| then level[Sibling(index)] else level[index]
  }

  // ----- incremental_update -----

  /** `incremental_update` from level `k` adds at most one level, holding a
      single digest. */
  lemma {:induction false} UpdateFromLevelCount(combine: Combine, t: Tree, k: nat, stop: nat, current: Digest, index: nat)
    requires k <= stop <= |t|
    ensures var r := UpdateFrom(combine, t, k, stop, current, index);
      |r| == |t| || (|r| == |t| + 1 && |r[|t|]| == 1)
    decreases stop - k
  {
    if k < stop && !(index % 2 == 0 && index + 1 == |t[k]|) {
      var parent := ClimbParent(combine, t[k], current, index);
      var t' := AppendToLevel(t, k + 1, parent);
      UpdateFromLevelCount(combine, t', k + 1, stop, parent, index / 2);
    }
  }

  /** `incremental_update` from level `k` leaves levels `0..k` alone. */
  lemma {:induction false} UpdateFromKeepsBelow(combine: Combine, t: Tree, k: nat, stop: nat, current: Digest, index: nat)
    requires k <= stop <= |t|
    ensures var r := UpdateFrom(combine, t, k, stop, current, index);
      |r| >= |t| && forall j :: 0 <= j <= k && j < |t| ==> r[j] == t[j]
    decreases stop - k
  {
    if k < stop && !(index % 2 == 0 && index + 1 == |t[k]|) {
      var parent := ClimbParent(combine, t[k], current, index);
      var t' := AppendToLevel(t, k + 1, parent);
      UpdateFromKeepsBelow(combine, t', k + 1, stop, parent, index / 2);
    }
  }

  /** `incremental_update` from level `k` adds at most one digest to every
      existing level and keeps its old entries as a prefix. */
  lemma {:induction false} UpdateFromExtendsLevels(combine: Combine, t: Tree, k: nat, stop: nat, current: Digest, index: nat)
    requires k <= stop <= |t|
    ensures var r := UpdateFrom(combine, t, k, stop, current, index);
      |r| >= |t| && forall j :: 0 <= j < |t| ==> |t[j]| <= |r[j]| <= |t[j]| + 1 && r[j][..|t[j]|] == t[j]
    decreases stop - k
  {
    var r := UpdateFrom(combine, t, k, stop, current, index);
    if k == stop {
      assert forall j :: 0 <= j < |t| ==> r[j][..|t[j]|] == t[j];
    } else if index % 2 == 0 && index + 1 == |t[k]| {
      UpdateFromTail(combine, t, k, stop, current, index);
      AppendExtends(t, k + 1, current);
    } else {
      var parent := ClimbParent(combine, t[k], current, index);
      var t' := AppendToLevel(t, k + 1, parent);
      UpdateFromExtendsLevels(combine, t', k + 1, stop, parent, index / 2);
      UpdateFromKeepsBelow(combine, t', k + 1, stop, parent, index / 2);
      assert r == UpdateFrom(combine, t', k + 1, stop, parent, index / 2);
      ExtendsAfterAppend(t, k + 1, parent, r);
    }
  }

  /** Appending one digest to level `j` extends every level of `t` by at
      most one digest. */
  lemma AppendExtends(t: Tree, j: nat, x: Digest)
    requires 1 <= j <= |t|
    ensures var r := AppendToLevel(t, j, x);
      |r| >= |t| && forall i :: 0 <= i < |t| ==> |t[i]| <= |r[i]| <= |t[i]| + 1 && r[i][..|t[i]|] == t[i]
  {
    var r := AppendToLevel(t, j, x);
    forall i | 0 <= i < |t|
      ensures |t[i]| <= |r[i]| <= |t[i]| + 1 && r[i][..|t[i]|] == t[i]
    {
      if i == j {
        assert r[i] == t[i] + [x];
      }
    }
  }

  /** Appending one digest to level `j` and then leaving levels `0..j` alone
      while extending every level by at most one digest extends every level
      of `t` by at most one digest. */
  lemma ExtendsAfterAppend(t: Tree, j: nat, x: Digest, r: Tree)
    requires 1 <= j <= |t|
    requires var t' := AppendToLevel(t, j, x);
      && |r| >= |t'|
      && (forall i :: 0 <= i < |t'| ==> |t'[i]| <= |r[i]| <= |t'[i]| + 1 && r[i][..|t'[i]|] == t'[i])
      && (forall i :: 0 <= i <= j && i < |t'| ==> r[i] == t'[i])
    ensures |r| >= |t| && forall i :: 0 <= i < |t| ==> |t[i]| <= |r[i]| <= |t[i]| + 1 && r[i][..|t[i]|] == t[i]
  {
    var t' := AppendToLevel(t, j, x);
    forall i | 0 <= i < |t|
      ensures |t[i]| <= |r[i]| <= |t[i]| + 1 && r[i][..|t[i]|] == t[i]
    {
      if i == j {
        assert r[i] == t'[i] == t[i] + [x];
      } else {
        assert t'[i] == t[i];
      }
    }
  }

  /** `incremental_update` from level `k` never empties the top level: a
      non-empty top level stays non-empty, and a new one holds a digest. */
  lemma {:induction false} UpdateFromKeepsTop(combine: Combine, t: Tree, k: nat, stop: nat, current: Digest, index: nat)
    requires k <= stop <= |t| && |t| >= 1 && |t[|t| - 1]| >= 1
    ensures var r := UpdateFrom(combine, t, k, stop, current, index);
      |r| >= 1 && |r[|r| - 1]| >= 1
    decreases stop - k
  {
    if k < stop && !(index % 2 == 0 && index + 1 == |t[k]|) {
      var parent := ClimbParent(combine, t[k], current, index);
      var t' := AppendToLevel(t, k + 1, parent);
      assert |t'[|t'| - 1]| >= 1;
      UpdateFromKeepsTop(combine, t', k + 1, stop, parent, index / 2);
    } else if k < stop {
      var r := AppendToLevel(t, k + 1, current);
      assert |r[|r| - 1]| >= 1;
    }
  }

  /** `incremental_update` only ever appends: it visits only the levels that
      existed when it began, leaves levels `0..k` alone, adds at most one
      digest to every other existing level (keeping its old entries as a
      prefix), and adds at most one new level, holding a single digest. */
  lemma UpdateFromOnlyAppends(combine: Combine, t: Tree, k: nat, stop: nat, current: Digest, index: nat)
    requires k <= stop <= |t|
    ensures var r := UpdateFrom(combine, t, k, stop, current, index);
      && (|r| == |t| || (|r| == |t| + 1 && |r[|t|]| == 1))
      && (forall j :: 0 <= j <= k && j < |t| ==> r[j] == t[j])
      && (forall j :: 0 <= j < |t| ==>
            |t[j]| <= |r[j]| <= |t[j]| + 1 && r[j][..|t[j]|] == t[j])
  {
    UpdateFromLevelCount(combine, t, k, stop, current, index);
    UpdateFromKeepsBelow(combine, t, k, stop, current, index);
    UpdateFromExtendsLevels(combine, t, k, stop, current, index);
  }

  /** After `add_secret`, the tree still has a root: a non-empty top level
      stays non-empty, and a new top level holds one digest. */
  lemma IncrementalUpdateKeepsRoot(combine: Combine, t: Tree, leaf: Digest)
    requires |t| >= 1 && |t[0]| >= 1 && |t[|t| - 1]| >= 1
    ensures var r := IncrementalUpdateOf(combine, t, leaf);
      |r| >= 1 && |r[|r| - 1]| >= 1 && r[0] == t[0]
  {
    var r := UpdateFrom(combine, t, 0, |t|, leaf, |t[0]| - 1);
    assert IncrementalUpdateOf(combine, t, leaf) == r;
    UpdateFromKeepsTop(combine, t, 0, |t|, leaf, |t[0]| - 1);
    UpdateFromKeepsBelow(combine, t, 0, |t|, leaf, |t[0]| - 1);
    assert r[0] == t[0];
  }

  /** When the new leaf lands on an even position, `incremental_update`
      pushes it unchanged into level 1 and stops: no digest is combined, and
      with two levels or more the root stays what it was. */
  lemma EvenNewLeafLeavesRootStale(combine: Combine, t: Tree, leaf: Digest)
    requires |t| >= 2 && |t[0]| % 2 == 1 && |t[|t| - 1]| >= 1
    ensures IncrementalUpdateOf(combine, t, leaf) == AppendToLevel(t, 1, leaf)
    ensures RootOf(IncrementalUpdateOf(combine, t, leaf)) == RootOf(t)
  {
  }

  /** When the new leaf lands on an odd position, level 1 gains exactly one
      digest: the combine of the new leaf and its left neighbour. */
  lemma OddNewLeafExtendsLevelOne(combine: Combine, t: Tree, leaf: Digest)
    requires |t| >= 2 && |t[0]| >= 2 && |t[0]| % 2 == 0
    requires t[0][|t[0]| - 1] == leaf
    ensures var r := IncrementalUpdateOf(combine, t, leaf);
      |r| >= |t| && r[1] == t[1] + [combine(leaf, t[0][|t[0]| - 2])]
  {
    var n := |t[0]| - 1;
    var parent := combine(leaf, t[0][Sibling(n)]);
    var t1 := AppendToLevel(t, 1, parent);
    UpdateFromOnlyAppends(combine, t1, 1, |t|, parent, n / 2);
  }

  /** Adding a leaf to a freshly built tree with an odd number `n >= 3` of
      leaves leaves level 1 with `(n + 1) / 2 + 1` digests, one more than
      `build_tree` would make for the `n + 1` leaves. */
  lemma OddFreshTreeOvergrows(h: Hash, combine: Combine, leaves: seq<Digest>, leaf: Digest)
    requires |leaves| >= 3 && |leaves| % 2 == 1
    ensures var t := BuildLevels(h, leaves);
      var r := IncrementalUpdateOf(combine, t[0 := leaves + [leaf]], leaf);
      |r| >= 3
      && |r[1]| == (|leaves| + 1) / 2 + 1
      && |r[1]| == |BuildLevels(h, leaves + [leaf])[1]| + 1
  {
    var n := |leaves|;
    var t := BuildLevels(h, leaves);
    assert |t| >= 3 && |t[1]| == (n + 1) / 2 by {
      assert Height((n + 1) / 2) >= 2;
      BuildLevelsUnfold(h, leaves);
    }
    OddNewLeafExtendsLevelOne(combine, t[0 := leaves + [leaf]], leaf);
    assert |BuildLevels(h, leaves + [leaf])[1]| == (n + 1) / 2 by {
      BuildLevelsUnfold(h, leaves + [leaf]);
    }
  }

  /** The round of `incremental_update`'s loop that breaks: an even tail
      node goes up to level `k + 1` unchanged. */
  lemma UpdateFromTail(combine: Combine, t: Tree, k: nat, stop: nat, current: Digest, index: nat)
    requires k < stop <= |t|
    requires index % 2 == 0 && index + 1 == |t[k]|
    ensures UpdateFrom(combine, t, k, stop, current, index) == AppendToLevel(t, k + 1, current)
  {
  }

  /** One round of `incremental_update`'s loop that does not break: it
      appends the combined parent to level `k + 1` and moves up. */
  lemma UpdateFromStep(combine: Combine, t: Tree, k: nat, stop: nat, current: Digest, index: nat, sibling: Digest)
    requires k < stop <= |t|
    requires !(index % 2 == 0 && index + 1 == |t[k]|)
    requires sibling == if Sibling(index) < |t[k]| then t[k][Sibling(index)] else current
    ensures UpdateFrom(combine, t, k, stop, current, index)
         == UpdateFrom(combine, AppendToLevel(t, k + 1, combine(current, sibling)),
                       k + 1, stop, combine(current, sibling), index / 2)
  {
  }

    // ----- rebuild_affected_paths -----

  /** The ancestor of leaf `leaf` one level up from its ancestor at level
      `k` is that ancestor's index halved: `(i >> k) // 2 == i >> (k + 1)`. */
  lemma {:induction false} ShrStep(leaf: nat, k: nat)
    ensures Shr(leaf, k + 1) == Shr(leaf, k) / 2
    decreases k
  {
    if k > 0 {
      ShrStep(leaf / 2, k - 1);
    }
  }

  /** One round of `rebuild_affected_paths`'s loop that does not raise: it
      overwrites the parent on level `k + 1` and moves up. */
  lemma RebuildFromStep(combine: Combine, t: Tree, k: nat, current: Digest, index: nat, sibling: Digest)
    requires k + 1 < |t| && index < |t[k]| && index / 2 < |t[k + 1]|
    requires sibling == if Sibling(index) < |t[k]| then t[k][Sibling(index)] else current
    ensures RebuildFrom(combine, t, k, current, index)
         == RebuildFrom(combine, t[k + 1 := t[k + 1][index / 2 := combine(current, sibling)]],
                        k + 1, combine(current, sibling), index / 2)
  {
  }

  /** `rebuild_affected_paths` from level `k` keeps the number of levels and
      every level's length. */
  lemma {:induction false} RebuildFromLengths(combine: Combine, t: Tree, k: nat, current: Digest, index: nat)
    requires k < |t| && index < |t[k]|
    ensures var res := RebuildFrom(combine, t, k, current, index);
      |res.0| == |t| && forall j :: 0 <= j < |t| ==> |res.0[j]| == |t[j]|
    decreases |t| - k
  {
    if k < |t| - 1 && index / 2 < |t[k + 1]| {
      var parent := ClimbParent(combine, t[k], current, index);
      RebuildFromLengths(combine, WriteNode(t, k + 1, index / 2, parent), k + 1, parent, index / 2);
    }
  }

  /** `rebuild_affected_paths` from level `k` leaves levels `0..k` alone. */
  lemma {:induction false} RebuildFromKeepsBelow(combine: Combine, t: Tree, k: nat, current: Digest, index: nat)
    requires k < |t| && index < |t[k]|
    ensures var res := RebuildFrom(combine, t, k, current, index);
      |res.0| == |t| && forall j :: 0 <= j <= k ==> res.0[j] == t[j]
    decreases |t| - k
  {
    if k < |t| - 1 && index / 2 < |t[k + 1]| {
      var parent := ClimbParent(combine, t[k], current, index);
      RebuildFromKeepsBelow(combine, WriteNode(t, k + 1, index / 2, parent), k + 1, parent, index / 2);
    }
  }

  /** `rebuild_affected_paths` for leaf `leaf` changes no digest off the path
      `leaf >> j` above level `k`. */
  lemma {:induction false} RebuildFromKeepsOffPath(combine: Combine, t: Tree, k: nat, current: Digest, leaf: nat)
    requires k < |t| && Shr(leaf, k) < |t[k]|
    ensures var res := RebuildFrom(combine, t, k, current, Shr(leaf, k));
      |res.0| == |t|
      && forall j, m :: k < j < |t| && 0 <= m < |t[j]| && m != Shr(leaf, j) ==>
        m < |res.0[j]| && res.0[j][m] == t[j][m]
    decreases |t| - k
  {
    var index := Shr(leaf, k);
    if k < |t| - 1 && index / 2 < |t[k + 1]| {
      ShrStep(leaf, k);
      var parent := ClimbParent(combine, t[k], current, index);
      var t' := WriteNode(t, k + 1, index / 2, parent);
      RebuildFromKeepsOffPath(combine, t', k + 1, parent, leaf);
      RebuildFromKeepsBelow(combine, t', k + 1, parent, index / 2);
      RebuildFromLengths(combine, t', k + 1, parent, index / 2);
    }
  }

  /** `rebuild_affected_paths` for leaf `leaf` from level `k` finishes exactly
      when every ancestor position above level `k` exists; otherwise it
      raises IndexError. */
  lemma {:induction false} RebuildFromFinishes(combine: Combine, t: Tree, k: nat, current: Digest, leaf: nat)
    requires k < |t| && Shr(leaf, k) < |t[k]|
    ensures RebuildFrom(combine, t, k, current, Shr(leaf, k)).1
        <==> forall j :: k < j < |t| ==> Shr(leaf, j) < |t[j]|
    decreases |t| - k
  {
    var index := Shr(leaf, k);
    if k < |t| - 1 {
      ShrStep(leaf, k);
      if index / 2 < |t[k + 1]| {
        var parent := ClimbParent(combine, t[k], current, index);
        RebuildFromFinishes(combine, WriteNode(t, k + 1, index / 2, parent), k + 1, parent, leaf);
      }
    }
  }

  /** When `rebuild_affected_paths` raises IndexError, the failing write is
      at or below the top level, so the top level (and with it the root) is
      left as it was; a one-level tree never raises. */
  lemma {:induction false} RebuildFromFailKeepsTop(combine: Combine, t: Tree, k: nat, current: Digest, index: nat)
    requires k < |t| && index < |t[k]|
    ensures var res := RebuildFrom(combine, t, k, current, index);
      !res.1 ==> k + 1 < |t| && |res.0| == |t| && res.0[|t| - 1] == t[|t| - 1]
    decreases |t| - k
  {
    if k < |t| - 1 && index / 2 < |t[k + 1]| {
      var parent := ClimbParent(combine, t[k], current, index);
      RebuildFromFailKeepsTop(combine, WriteNode(t, k + 1, index / 2, parent), k + 1, parent, index / 2);
    }
  }

  /** `remove_secret` finishes exactly when every ancestor position of the
      tombstoned leaf exists in the levels it started from: only the lengths
      of the levels decide it, and replacing a leaf changes none. */
  lemma RebuildFinishesIffPathFits(combine: Combine, t: Tree, tombstone: Digest, i: nat)
    requires |t| >= 1 && i < |t[0]|
    ensures RebuildFrom(combine, t[0 := t[0][i := tombstone]], 0, tombstone, i).1 <==> PathFits(t, i)
  {
    var marked := t[0 := t[0][i := tombstone]];
    assert Shr(i, 0) == i;
    RebuildFromFinishes(combine, marked, 0, tombstone, i);
    assert forall j :: 0 < j < |t| ==> marked[j] == t[j];
  }

  /** Leaf `leaf`'s ancestor on level `j + 1` is the combine of its ancestor
      on level `j` and that node's sibling (or of the node with itself at an
      unpaired tail). */
  predicate AncestorRepaired(combine: Combine, t: Tree, leaf: nat, j: nat)
  {
    var i := Shr(leaf, j);
    j + 1 < |t| && i < |t[j]| && i / 2 < |t[j + 1]|
    && t[j + 1][i / 2] == combine(t[j][i], SiblingOrSelf(t[j], i))
  }

  /** Every ancestor of leaf `leaf` from level `k + 1` up is repaired. */
  predicate PathRepairedFrom(combine: Combine, t: Tree, leaf: nat, k: nat)
    decreases |t| - k
  {
    k + 1 >= |t| || (AncestorRepaired(combine, t, leaf, k) && PathRepairedFrom(combine, t, leaf, k + 1))
  }

  /** `PathRepairedFrom` says, level by level, that every ancestor from level
      `k + 1` up is repaired. */
  lemma {:induction false} PathRepairedFromEveryLevel(combine: Combine, t: Tree, leaf: nat, k: nat, j: nat)
    requires PathRepairedFrom(combine, t, leaf, k) && k <= j < |t| - 1
    ensures AncestorRepaired(combine, t, leaf, j)
    decreases j - k
  {
    if k < j {
      PathRepairedFromEveryLevel(combine, t, leaf, k + 1, j);
    }
  }

  /** The first round of `rebuild_affected_paths` from level `k` repairs the
      ancestor on level `k + 1`, and no later round undoes it. */
  lemma RebuildFromRepairsFirst(combine: Combine, t: Tree, k: nat, current: Digest, leaf: nat)
    requires k + 1 < |t| && Shr(leaf, k) < |t[k]| && Shr(leaf, k) / 2 < |t[k + 1]|
    requires current == t[k][Shr(leaf, k)]
    ensures AncestorRepaired(combine, RebuildFrom(combine, t, k, current, Shr(leaf, k)).0, leaf, k)
  {
    var index := Shr(leaf, k);
    var parent := ClimbParent(combine, t[k], current, index);
    var t' := WriteNode(t, k + 1, index / 2, parent);
    RebuildFromKeepsBelow(combine, t', k + 1, parent, index / 2);
    var res := RebuildFrom(combine, t', k + 1, parent, index / 2);
    assert res.0[k] == t[k] && res.0[k + 1] == t'[k + 1];
  }

  /** When `rebuild_affected_paths` for leaf `leaf` finishes, every ancestor
      of the leaf from level `k + 1` up is repaired. */
  lemma {:induction false} RebuildFromRepairsPath(combine: Combine, t: Tree, k: nat, current: Digest, leaf: nat)
    requires k < |t| && Shr(leaf, k) < |t[k]|
    requires current == t[k][Shr(leaf, k)]
    ensures var res := RebuildFrom(combine, t, k, current, Shr(leaf, k));
      res.1 ==> PathRepairedFrom(combine, res.0, leaf, k)
    decreases |t| - k
  {
    var index := Shr(leaf, k);
    if k < |t| - 1 && index / 2 < |t[k + 1]| {
      ShrStep(leaf, k);
      var parent := ClimbParent(combine, t[k], current, index);
      var t' := WriteNode(t, k + 1, index / 2, parent);
      assert RebuildFrom(combine, t, k, current, index) == RebuildFrom(combine, t', k + 1, parent, index / 2);
      RebuildFromRepairsFirst(combine, t, k, current, leaf);
      RebuildFromRepairsPath(combine, t', k + 1, parent, leaf);
    }
  }

  /** When `rebuild_affected_paths` for leaf `leaf` finishes, the ancestor
      on every level from `k + 1` to the top is the combine of the node
      below it and that node's sibling (or itself). */
  lemma RebuildRepairsEveryAncestor(combine: Combine, t: Tree, k: nat, current: Digest, leaf: nat)
    requires k < |t| && Shr(leaf, k) < |t[k]|
    requires current == t[k][Shr(leaf, k)]
    ensures var res := RebuildFrom(combine, t, k, current, Shr(leaf, k));
      res.1 ==> |res.0| == |t| && forall j :: k <= j < |t| - 1 ==> AncestorRepaired(combine, res.0, leaf, j)
  {
    var res := RebuildFrom(combine, t, k, current, Shr(leaf, k));
    RebuildFromLengths(combine, t, k, current, Shr(leaf, k));
    RebuildFromRepairsPath(combine, t, k, current, leaf);
    if res.1 {
      forall j | k <= j < |t| - 1
        ensures AncestorRepaired(combine, res.0, leaf, j)
      {
        PathRepairedFromEveryLevel(combine, res.0, leaf, k, j);
      }
    }
  }

  /** In a freshly built tree of `4q` leaves, level 1 holds `2q` digests and
      level 2 holds `q`. */
  lemma LevelsOfMultipleOfFour(h: Hash, leaves: seq<Digest>)
    requires |leaves| >= 4 && |leaves| % 4 == 0
    ensures var t := BuildLevels(h, leaves);
      |t| >= 3 && |t[1]| == |leaves| / 2 && |t[2]| == |leaves| / 4
  {
    var q := |leaves| / 4;
    var next := NextLevel(h, leaves);
    assert |next| == 2 * q;
    var rest := BuildLevels(h, next);
    BuildLevelsUnfold(h, leaves);
    BuildLevelsUnfold(h, next);
    assert |NextLevel(h, next)| == q;
    assert |rest| >= 2 && rest[1] == NextLevel(h, next);
    assert BuildLevels(h, leaves)[1..] == rest;
  }

  /** Tombstoning the leaf that `add_secret` just appended to a freshly built
      tree of `4q` leaves makes `rebuild_affected_paths` raise IndexError: the
      new leaf was pushed into level 1 unchanged, but level 2 never grew, so
      the write to position `q` of level 2 is past its end. */
  lemma RemoveNewLeafAfterAddRaises(h: Hash, combine: Combine, leaves: seq<Digest>, leaf: Digest, tombstone: Digest)
    requires |leaves| >= 4 && |leaves| % 4 == 0
    ensures var n := |leaves|;
      var added := IncrementalUpdateOf(combine, BuildLevels(h, leaves)[0 := leaves + [leaf]], leaf);
      |added| >= 3 && |added[0]| == n + 1
      && !RebuildFrom(combine, added[0 := added[0][n := tombstone]], 0, tombstone, n).1
  {
    var n := |leaves|;
    var t := BuildLevels(h, leaves);
    LevelsOfMultipleOfFour(h, leaves);
    var t0 := t[0 := leaves + [leaf]];
    EvenNewLeafLeavesRootStale(combine, t0, leaf);
    var added := IncrementalUpdateOf(combine, t0, leaf);
    assert added[2] == t[2];
    var removed := added[0 := added[0][n := tombstone]];
    assert Shr(n, 0) == n;
    RebuildFromFinishes(combine, removed, 0, tombstone, n);
    var q := n / 4;
    assert n == 4 * q && n / 2 == 2 * q;
    assert Shr(n, 2) == Shr(n / 2, 1) == (n / 2) / 2 == q;
  }

  /** On a freshly built tree, tombstoning any leaf repairs its whole path:
      every ancestor position exists, so `rebuild_affected_paths` finishes. */
  lemma FreshRemoveFinishes(h: Hash, combine: Combine, leaves: seq<Digest>, i: nat, tombstone: Digest)
    requires i < |leaves|
    ensures var t := BuildLevels(h, leaves);
      RebuildFrom(combine, t[0 := leaves[i := tombstone]], 0, tombstone, i).1
  {
    var t := BuildLevels(h, leaves);
    BuiltPathFits(h, leaves, i);
    assert Shr(i, 0) == i;
    RebuildFromFinishes(combine, t[0 := leaves[i := tombstone]], 0, tombstone, i);
  }
}
