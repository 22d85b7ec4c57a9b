/** The shape of a freshly built tree, the proofs `get_proof` extracts from a
    tree, and the fold both verifiers run over a proof
    (merkle_tree.py `build_tree`, `get_root`, `get_proof`;
    merkle_ot.py `receiver_verify`; merkle_pir.py `verify`). */
module Levels {
  import opened Digests

  /** A tree is its list of levels; level 0 is the leaf list. */
  type Tree = seq<seq<Digest>>

  /** `i ^ 1` for a non-negative `i`: the other child of the same parent. */
  function Sibling(i: nat): nat
  {
    if i % 2 == 0 then i + 1 else i - 1
  }

  /** `i >> k`: the index of leaf `i`'s ancestor at level `k`. */
  function Shr(i: nat, k: nat): nat
  {
    if k == 0 then i else Shr(i / 2, k - 1)
  }

  function Pow2(k: nat): (p: nat)
    ensures p >= 1
  {
    if k == 0 then 1 else 2 * Pow2(k - 1)
  }

  /** Entry `j` of the level above `level`, as `build_tree` computes it: the
      pair `2j, 2j+1`, or `2j` with itself when `2j+1` is past the end. */
  function Parent(h: Hash, level: seq<Digest>, j: nat): Digest
    requires 2 * j < |level|
  {
    var left := level[2 * j];
    var right := if 2 * j + 1 < |level| then level[2 * j + 1] else left;
    PositionalCombine(h, left, right)
  }

  /** The level `build_tree` builds above `level`. */
  function NextLevel(h: Hash, level: seq<Digest>): seq<Digest>
  {
    seq((|level| + 1) / 2, j requires 0 <= j < (|level| + 1) / 2 => Parent(h, level, j))
  }

  /** The number of levels `build_tree` produces from `n` leaves. */
  function Height(n: nat): nat
  {
    if n <= 1 then 1 else 1 + Height((n + 1) / 2)
  }

  /** All levels `build_tree` produces from `leaves`: it keeps pairing until a
      level has at most one entry. Level 0 is the leaf list itself, and from
      one leaf or more the top level holds exactly one digest. */
  function BuildLevels(h: Hash, leaves: seq<Digest>): (t: Tree)
    ensures |t| == Height(|leaves|)
    ensures t[0] == leaves
    ensures |leaves| >= 1 ==> |t[|t| - 1]| == 1
    decreases |leaves|
  {
    if |leaves| <= 1 then [leaves]
    else [leaves] + BuildLevels(h, NextLevel(h, leaves))
  }

  /** `get_root`: the first digest of the last level. */
  function RootOf(t: Tree): Digest
    requires |t| >= 1 && |t[|t| - 1]| >= 1
  {
    t[|t| - 1][0]
  }

  /** `get_proof(i)`: for every level but the last, the sibling of the node on
      `i`'s path, left out when the sibling index is past the end. */
  function ProofOf(t: Tree, i: nat): seq<Digest>
    decreases |t|
  {
    if |t| <= 1 then []
    else
      (if Sibling(i) < |t[0]| then [t[0][Sibling(i)]] else []) + ProofOf(t[1..], i / 2)
  }

  /** Every level but the last has a sibling for the node on `i`'s path. */
  predicate Complete(t: Tree, i: nat)
    decreases |t|
  {
    |t| <= 1 || (Sibling(i) < |t[0]| && Complete(t[1..], i / 2))
  }

  /** Every level has a node at `i`'s ancestor position. */
  ghost predicate PathFits(t: Tree, i: nat)
  {
    forall k :: 0 <= k < |t| ==> Shr(i, k) < |t[k]|
  }

  /** One step of the verifiers' loop: the running digest goes on the left for
      an even index and on the right for an odd one. */
  function FoldStep(h: Hash, running: Digest, sibling: Digest, index: int): Digest
  {
    if index % 2 == 0 then PositionalCombine(h, running, sibling)
    else PositionalCombine(h, sibling, running)
  }

  /** The root the verifiers compute from `running` and `proof`, halving the
      index after every step. Python's `%` and `//` by 2 round toward negative
      infinity, and so do Dafny's, so `index` may be any integer. */
  function Reconstruct(h: Hash, running: Digest, proof: seq<Digest>, index: int): Digest
    decreases |proof|
  {
    if |proof| == 0 then running
    else Reconstruct(h, FoldStep(h, running, proof[0], index), proof[1..], index / 2)
  }

  // ----- The shape of a freshly built tree -----

  /** Unfolding `BuildLevels` once for two leaves or more. */
  lemma BuildLevelsUnfold(h: Hash, leaves: seq<Digest>)
    requires |leaves| >= 2
    ensures BuildLevels(h, leaves) == [leaves] + BuildLevels(h, NextLevel(h, leaves))
    ensures BuildLevels(h, leaves)[1..] == BuildLevels(h, NextLevel(h, leaves))
  {
  }

  /** One round of `build_tree` seen from the levels already stored: the
      stored levels, then all levels from `level` up, are the stored levels
      with `level` added, then all levels from the next one up. A level of at
      most one entry is the last. */
  lemma BuildLevelsStep(h: Hash, below: Tree, level: seq<Digest>, next: seq<Digest>)
    requires |level| >= 2 ==> next == NextLevel(h, level)
    ensures |level| >= 2 ==> below + BuildLevels(h, level) == (below + [level]) + BuildLevels(h, next)
    ensures |level| <= 1 ==> below + BuildLevels(h, level) == below + [level]
  {
    if |level| >= 2 {
      BuildLevelsUnfold(h, level);
      AppendAssociative(below, [level], BuildLevels(h, next));
    } else {
      assert BuildLevels(h, level) == [level];
    }
  }

  /** Each level but the top has at least two entries, and the level above
      it is the one `build_tree` pairs up from it: of `ceil(len / 2)` entries,
      entry `j` combining entries `2j` and `2j+1` of the level below (or `2j`
      with itself). */
  ghost predicate PairedUp(h: Hash, t: Tree)
  {
    forall k :: 0 <= k < |t| - 1 ==> |t[k]| >= 2 && t[k + 1] == NextLevel(h, t[k])
  }

  /** Every tree `build_tree` makes is paired up level by level. */
  lemma {:induction false} BuildLevelsShape(h: Hash, leaves: seq<Digest>)
    ensures PairedUp(h, BuildLevels(h, leaves))
    decreases |leaves|
  {
    var t := BuildLevels(h, leaves);
    if |leaves| >= 2 {
      var next := NextLevel(h, leaves);
      var rest := BuildLevels(h, next);
      BuildLevelsShape(h, next);
      assert t[1..] == rest;
      forall k | 0 <= k < |t| - 1
        ensures |t[k]| >= 2 && t[k + 1] == NextLevel(h, t[k])
      {
        assert t[k + 1] == rest[k];
        if k > 0 {
          assert t[k] == rest[k - 1];
        }
      }
    }
  }

  /** `build_tree` makes `1 + ceil(log2 n)` levels: `n <= 2^(Height(n) - 1)`,
      and `2^(Height(n) - 2) < n` as soon as there are two leaves. */
  lemma {:induction false} HeightIsCeilLog2(n: nat)
    requires n >= 1
    ensures n <= Pow2(Height(n) - 1)
    ensures n >= 2 ==> Pow2(Height(n) - 2) < n
    decreases n
  {
    if n >= 2 {
      var m := (n + 1) / 2;
      HeightIsCeilLog2(m);
      assert Height(n) == 1 + Height(m);
      assert Pow2(Height(n) - 1) == 2 * Pow2(Height(m) - 1);
      if m >= 2 {
        assert Pow2(Height(m) - 1) == 2 * Pow2(Height(m) - 2);
      }
    }
  }

  /** A single leaf makes the one-level tree `[leaves]`, whose root is the
      leaf and whose proof is empty. */
  lemma SingleLeafTree(h: Hash, leaf: Digest)
    ensures BuildLevels(h, [leaf]) == [[leaf]]
    ensures RootOf(BuildLevels(h, [leaf])) == leaf
    ensures ProofOf(BuildLevels(h, [leaf]), 0) == []
  {
  }

  // ----- Proofs -----

  /** `get_proof` returns at most one digest per level below the top, and
      exactly one per level precisely when `i`'s path has a sibling at every
      level. */
  lemma {:induction false} ProofLength(t: Tree, i: nat)
    requires |t| >= 1
    ensures |ProofOf(t, i)| <= |t| - 1
    ensures |ProofOf(t, i)| == |t| - 1 <==> Complete(t, i)
    decreases |t|
  {
    if |t| > 1 {
      ProofLength(t[1..], i / 2);
    }
  }

  /** A path is complete exactly when each sibling index `(i >> k) ^ 1`
      exists on its level. */
  lemma {:induction false} CompleteIffSiblingsExist(t: Tree, i: nat)
    requires |t| >= 1
    ensures Complete(t, i) <==> forall k :: 0 <= k < |t| - 1 ==> Sibling(Shr(i, k)) < |t[k]|
    decreases |t|
  {
    if |t| > 1 {
      var rest := t[1..];
      CompleteIffSiblingsExist(rest, i / 2);
      assert forall k :: 1 <= k < |t| ==> t[k] == rest[k - 1];
      assert forall k :: 1 <= k < |t| ==> Shr(i, k) == Shr(i / 2, k - 1);
      if forall k :: 0 <= k < |t| - 1 ==> Sibling(Shr(i, k)) < |t[k]| {
        assert Sibling(Shr(i, 0)) < |t[0]|;
        forall k | 0 <= k < |rest| - 1
          ensures Sibling(Shr(i / 2, k)) < |rest[k]|
        {
          assert Sibling(Shr(i, k + 1)) < |t[k + 1]|;
        }
      }
    }
  }

  /** On a complete path, proof entry `k` is the digest at `(i >> k) ^ 1` on
      level `k`. */
  lemma {:induction false} CompleteProofEntries(t: Tree, i: nat)
    requires |t| >= 1 && Complete(t, i)
    ensures |ProofOf(t, i)| == |t| - 1
    ensures forall k :: 0 <= k < |t| - 1 ==> Sibling(Shr(i, k)) < |t[k]|
    ensures forall k :: 0 <= k < |t| - 1 ==> ProofOf(t, i)[k] == t[k][Sibling(Shr(i, k))]
    decreases |t|
  {
    ProofLength(t, i);
    CompleteIffSiblingsExist(t, i);
    if |t| > 1 {
      var rest := t[1..];
      CompleteProofEntries(rest, i / 2);
      var p := ProofOf(t, i);
      assert p == [t[0][Sibling(i)]] + ProofOf(rest, i / 2);
      forall k | 0 <= k < |t| - 1
        ensures p[k] == t[k][Sibling(Shr(i, k))]
      {
        if k > 0 {
          assert p[k] == ProofOf(rest, i / 2)[k - 1];
          assert t[k] == rest[k - 1] && Shr(i, k) == Shr(i / 2, k - 1);
        }
      }
    }
  }

  lemma AppendAssociative<T>(a: seq<T>, b: seq<T>, c: seq<T>)
    ensures a + (b + c) == (a + b) + c
  {
  }

  /** One round of `get_proof`'s loop at level `k`: `proof'` is the proof
      so far with level `k`'s sibling (if any) appended, and the proof so
      far followed by the proof from level `k` up equals `proof'` followed
      by the proof from level `k + 1` up. */
  lemma ProofOfAdvance(t: Tree, k: nat, i: nat, proof: seq<Digest>, proof': seq<Digest>)
    requires k + 1 < |t|
    requires proof' == proof + (if Sibling(i) < |t[k]| then [t[k][Sibling(i)]] else [])
    ensures proof + ProofOf(t[k..], i) == proof' + ProofOf(t[k + 1..], i / 2)
  {
    var s := t[k..];
    assert |s| > 1 && s[0] == t[k] && s[1..] == t[k + 1..];
    var head := if Sibling(i) < |t[k]| then [t[k][Sibling(i)]] else [];
    var rest := ProofOf(t[k + 1..], i / 2);
    assert ProofOf(s, i) == head + rest;
    AppendAssociative(proof, head, rest);
  }

  /** `get_proof`'s loop ends at the top level, which adds nothing. */
  lemma ProofOfEnd(t: Tree, k: nat, i: nat, proof: seq<Digest>)
    requires k <= |t| && k + 1 >= |t|
    ensures proof + ProofOf(t[k..], i) == proof
  {
    assert ProofOf(t[k..], i) == [];
  }

  /** Reconstructing from a proof that starts with `sibling` is one fold step
      followed by the rest of the proof. */
  lemma ReconstructCons(h: Hash, running: Digest, sibling: Digest, rest: seq<Digest>, index: int)
    ensures Reconstruct(h, running, [sibling] + rest, index)
         == Reconstruct(h, FoldStep(h, running, sibling, index), rest, index / 2)
  {
    assert ([sibling] + rest)[1..] == rest;
  }

  /** Folding the node at `i` with its sibling, in position order, gives the
      parent `build_tree` computes for the pair. */
  lemma FoldStepIsParent(h: Hash, level: seq<Digest>, i: nat)
    requires i < |level| && Sibling(i) < |level|
    ensures 2 * (i / 2) < |level|
    ensures FoldStep(h, level[i], level[Sibling(i)], i) == Parent(h, level, i / 2)
  {
    if i % 2 == 0 {
      assert 2 * (i / 2) == i && Sibling(i) == i + 1;
    } else {
      assert 2 * (i / 2) == i - 1 && Sibling(i) == i - 1;
    }
  }

  /** The main theorem: in a freshly built tree, folding leaf `i` with
      `get_proof(i)` gives back the root whenever `i`'s path has a sibling at
      every level below the root. */
  lemma {:induction false} ProofReconstructsRoot(h: Hash, leaves: seq<Digest>, i: nat)
    requires i < |leaves|
    requires Complete(BuildLevels(h, leaves), i)
    ensures Reconstruct(h, leaves[i], ProofOf(BuildLevels(h, leaves), i), i)
         == RootOf(BuildLevels(h, leaves))
    decreases |leaves|
  {
    var t := BuildLevels(h, leaves);
    if |leaves| >= 2 {
      var next := NextLevel(h, leaves);
      var rest := BuildLevels(h, next);
      BuildLevelsUnfold(h, leaves);
      assert t[0] == leaves && t[1..] == rest;
      var sibling := leaves[Sibling(i)];
      assert ProofOf(t, i) == [sibling] + ProofOf(rest, i / 2);
      FoldStepIsParent(h, leaves, i);
      assert FoldStep(h, leaves[i], sibling, i) == next[i / 2];
      ReconstructCons(h, leaves[i], sibling, ProofOf(rest, i / 2), i);
      ProofReconstructsRoot(h, next, i / 2);
      assert RootOf(t) == RootOf(rest);
    }
  }

  /** Index `i` of a freshly built tree has a complete path whenever it lies
      below a power of two that does not exceed the number of leaves. */
  lemma {:induction false} LeftSubtreePathsComplete(h: Hash, leaves: seq<Digest>, m: nat, i: nat)
    requires Pow2(m) <= |leaves|
    requires i < Pow2(m)
    ensures Complete(BuildLevels(h, leaves), i)
    decreases |leaves|
  {
    var t := BuildLevels(h, leaves);
    if |leaves| >= 2 {
      var next := NextLevel(h, leaves);
      assert t[1..] == BuildLevels(h, next);
      if m == 0 {
        LeftSubtreePathsComplete(h, next, 0, i / 2);
      } else {
        assert Pow2(m) == 2 * Pow2(m - 1);
        LeftSubtreePathsComplete(h, next, m - 1, i / 2);
      }
    }
  }

  /** When the number of leaves is a power of two, every index has a complete
      path, so every proof has one digest per level below the root. */
  lemma PowerOfTwoPathsComplete(h: Hash, leaves: seq<Digest>, m: nat, i: nat)
    requires |leaves| == Pow2(m)
    requires i < |leaves|
    ensures Complete(BuildLevels(h, leaves), i)
    ensures |ProofOf(BuildLevels(h, leaves), i)| == |BuildLevels(h, leaves)| - 1
  {
    LeftSubtreePathsComplete(h, leaves, m, i);
    ProofLength(BuildLevels(h, leaves), i);
  }

  /** Every ancestor position of a leaf exists in a freshly built tree. */
  lemma {:induction false} BuiltPathFits(h: Hash, leaves: seq<Digest>, i: nat)
    requires i < |leaves|
    ensures PathFits(BuildLevels(h, leaves), i)
    decreases |leaves|
  {
    var t := BuildLevels(h, leaves);
    if |leaves| >= 2 {
      var next := NextLevel(h, leaves);
      var rest := BuildLevels(h, next);
      assert t[1..] == rest;
      BuiltPathFits(h, next, i / 2);
      forall k | 0 <= k < |t|
        ensures Shr(i, k) < |t[k]|
      {
        if k > 0 {
          assert t[k] == rest[k - 1];
        }
      }
    }
  }
}
