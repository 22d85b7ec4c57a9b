/** The `MerkleTree` class of merkle_tree.py: the secrets, their salts, the
    leaf digests and every level of the tree, kept as sequence values that
    the methods reassign. */
module Merkle {
  import opened Digests
  import opened Levels
  import opened Maintenance

  /** `os.urandom(16)`: every salt is 16 bytes. */
  const SaltLength: nat := 16

  /** `b"deleted"`, hashed with the salt of a tombstoned leaf. */
  const Deleted: Bytes := [0x64, 0x65, 0x6c, 0x65, 0x74, 0x65, 0x64]

  /** `NoLevels` is the `None` that `get_root` returns for an empty tree;
      `IndexError` is the exception Python raises. */
  datatype Error = IndexError | NoLevels

  datatype Result<T> = Ok(value: T) | Err(error: Error)

  /** The leaf list `__init__` computes: `H(secret + salt)` for each pair. */
  function LeafDigests(h: Hash, secrets: seq<Bytes>, salts: seq<Bytes>): seq<Digest>
    requires |salts| == |secrets|
  {
    seq(|secrets|, i requires 0 <= i < |secrets| => h(secrets[i] + salts[i]))
  }

  /** A leaf is the digest of its secret and salt, or, once tombstoned, of
      `b"deleted"` and the salt, with the secret emptied. */
  predicate LeafMatches(h: Hash, secret: Bytes, salt: Bytes, leaf: Digest)
  {
    leaf == h(secret + salt) || (secret == [] && leaf == h(Deleted + salt))
  }

  /** The round trip both protocols rely on: in a tree freshly built from
      `secrets` and `salts`, leaf `i` is `H(secrets[i] + salts[i])`, and
      folding it with `get_proof(i)` gives the root whenever `i`'s path has a
      sibling at every level below the root. */
  lemma FreshLeafProofVerifies(h: Hash, secrets: seq<Bytes>, salts: seq<Bytes>, i: nat)
    requires |salts| == |secrets| && i < |secrets|
    requires Complete(BuildLevels(h, LeafDigests(h, secrets, salts)), i)
    ensures var t := BuildLevels(h, LeafDigests(h, secrets, salts));
      t[0][i] == h(secrets[i] + salts[i])
      && Reconstruct(h, t[0][i], ProofOf(t, i), i) == RootOf(t)
  {
    ProofReconstructsRoot(h, LeafDigests(h, secrets, salts), i);
  }

  /** `tree.append([])` when level `j` does not exist yet, then
      `tree[j].append(x)`. */
  method PushToLevel(levels: Tree, j: nat, x: Digest) returns (r: Tree)
    requires 1 <= j <= |levels|
    ensures r == AppendToLevel(levels, j, x)
  {
    r := levels;
    if |r| <= j {
      r := r + [[]];
    }
    r := r[j := r[j] + [x]];
  }

  /** The loop of `incremental_update`, on a copy of the levels: climbs from
      the last leaf through the levels that exist when it starts, appending
      one digest per level, and stops after pushing an even tail node up
      unchanged. The class passes `ValueOrdered(H)` as `combine`, the
      hash of the two digests in byte order. */
  method ClimbAppending(combine: Combine, start: Tree, newLeaf: Digest) returns (levels: Tree)
    requires |start| >= 1 && |start[0]| >= 1
    ensures levels == IncrementalUpdateOf(combine, start, newLeaf)
  {
    levels := start;
    var currentHash := newLeaf;
    var currentIndex: nat := |start[0]| - 1;
    var levelCount := |start|;
    var levelIndex := 0;
    while levelIndex < levelCount
      invariant levelIndex <= levelCount <= |levels|
      invariant UpdateFrom(combine, levels, levelIndex, levelCount, currentHash, currentIndex)
             == IncrementalUpdateOf(combine, start, newLeaf)
      decreases levelCount - levelIndex
    {
      var level := levels[levelIndex];
      if currentIndex % 2 == 0 && currentIndex + 1 == |level| {
        UpdateFromTail(combine, levels, levelIndex, levelCount, currentHash, currentIndex);
        levels := PushToLevel(levels, levelIndex + 1, currentHash);
        break;
      }
      var siblingIndex := Sibling(currentIndex);
      var siblingHash := if siblingIndex < |level| then level[siblingIndex] else currentHash;
      var parentHash := combine(currentHash, siblingHash);
      UpdateFromStep(combine, levels, levelIndex, levelCount, currentHash, currentIndex, siblingHash);
      levels := PushToLevel(levels, levelIndex + 1, parentHash);
      currentHash := parentHash;
      currentIndex := currentIndex / 2;
      levelIndex := levelIndex + 1;
    }
  }

  /** The loop of `rebuild_affected_paths`, on a copy of the levels:
      overwrites the ancestor of leaf `index` on every level above the leaves
      with `combine` of the node below and its sibling. It keeps every
      level's length, changes nothing off the path, and raises IndexError
      (`ok == false`) when an ancestor position is past the end of its
      level, keeping the writes already made. */
  method ClimbRewriting(combine: Combine, start: Tree, index: nat) returns (levels: Tree, ok: bool)
    requires |start| >= 1 && index < |start[0]|
    ensures (levels, ok) == RebuildFrom(combine, start, 0, start[0][index], index)
  {
    levels := start;
    var currentHash := start[0][index];
    var currentIndex: nat := index;
    var levelIndex: nat := 0;
    ok := true;
    while levelIndex < |levels| - 1
      invariant levelIndex < |levels| == |start|
      invariant currentIndex < |levels[levelIndex]|
      invariant RebuildFrom(combine, levels, levelIndex, currentHash, currentIndex)
             == RebuildFrom(combine, start, 0, start[0][index], index)
    {
      var level := levels[levelIndex];
      var siblingIndex := Sibling(currentIndex);
      var siblingHash := if siblingIndex < |level| then level[siblingIndex] else currentHash;
      var parentHash := combine(currentHash, siblingHash);
      if currentIndex / 2 >= |levels[levelIndex + 1]| {
        ok := false;
        break;
      }
      RebuildFromStep(combine, levels, levelIndex, currentHash, currentIndex, siblingHash);
      levels := levels[levelIndex + 1 := levels[levelIndex + 1][currentIndex / 2 := parentHash]];
      currentHash := parentHash;
      currentIndex := currentIndex / 2;
      levelIndex := levelIndex + 1;
    }
  }

  class MerkleTree {
    /** `hash_function`. */
    const H: Hash
    var secrets: seq<Bytes>
    var salts: seq<Bytes>
    var leaves: seq<Digest>
    /** All levels; `tree[0]` is the very list `leaves` (the source stores
        the same list object twice), so every change to `leaves` is a change
        to `tree[0]`. */
    var tree: Tree

    /** What every public method keeps: one salt of 16 bytes and one leaf per
        secret, each leaf matching its secret and salt, and level 0 of the
        tree being the leaf list. */
    ghost predicate Valid()
      reads this
    {
      && |salts| == |secrets| == |leaves|
      && (forall i :: 0 <= i < |salts| ==> |salts[i]| == SaltLength)
      && (forall i :: 0 <= i < |leaves| ==> LeafMatches(H, secrets[i], salts[i], leaves[i]))
      && |tree| >= 1
      && tree[0] == leaves
    }

    /** `__init__`, with the salts `os.urandom` would draw given as input. */
    constructor (hash: Hash, secrets: seq<Bytes>, salts: seq<Bytes>)
      requires |salts| == |secrets|
      requires forall i :: 0 <= i < |salts| ==> |salts[i]| == SaltLength
      ensures Valid()
      ensures H == hash && this.secrets == secrets && this.salts == salts
      ensures leaves == LeafDigests(hash, secrets, salts)
      ensures tree == BuildLevels(hash, leaves)
    {
      H := hash;
      this.secrets := secrets;
      this.salts := salts;
      leaves := LeafDigests(hash, secrets, salts);
      tree := [];
      new;
      BuildTree();
    }

    /** `build_tree`: pairs up levels from the leaves until a level has at
        most one entry. */
    method BuildTree()
      modifies this`tree
      ensures tree == BuildLevels(H, leaves)
    {
      var level := leaves;
      tree := [level];
      ghost var below: Tree := [];
      while |level| > 1
        invariant tree == below + [level]
        invariant below + BuildLevels(H, level) == BuildLevels(H, leaves)
        decreases |level|
      {
        var nextLevel := PairUp(level);
        BuildLevelsStep(H, below, level, nextLevel);
        tree := tree + [nextLevel];
        below := below + [level];
        level := nextLevel;
      }
      BuildLevelsStep(H, below, level, level);
    }

    /** The inner loop of `build_tree`: entry `j` of the next level hashes
        entries `2j` and `2j + 1`, or entry `2j` twice at an odd tail. */
    method PairUp(level: seq<Digest>) returns (nextLevel: seq<Digest>)
      ensures nextLevel == NextLevel(H, level)
    {
      nextLevel := [];
      var i := 0;
      while i < |level|
        invariant i == 2 * |nextLevel| <= |level| + 1
        invariant forall j :: 0 <= j < |nextLevel| ==> nextLevel[j] == Parent(H, level, j)
      {
        var left := level[i];
        var right := if i + 1 < |level| then level[i + 1] else left;
        nextLevel := nextLevel + [H(left + right)];
        i := i + 2;
      }
    }

    /** `get_root`: the first digest of the last level. */
    function GetRoot(): (r: Result<Digest>)
      reads this
      ensures |tree| == 0 <==> r == Err(NoLevels)
      ensures r == Err(IndexError) <==> |tree| >= 1 && |tree[|tree| - 1]| == 0
      ensures r.Ok? <==> |tree| >= 1 && |tree[|tree| - 1]| >= 1
      ensures r.Ok? ==> r.value == tree[|tree| - 1][0]
    {
      if |tree| == 0 then Err(NoLevels)
      else if |tree[|tree| - 1]| == 0 then Err(IndexError)
      else Ok(RootOf(tree))
    }

    /** `get_proof`: walks every level but the last, collecting the sibling
        of the node on `index`'s path when it exists. */
    method GetProof(index: nat) returns (proof: seq<Digest>)
      ensures proof == ProofOf(tree, index)
    {
      var levels := tree;
      proof := [];
      var nodeIndex := index;
      var k := 0;
      while k + 1 < |levels|
        invariant k <= |levels|
        invariant proof + ProofOf(levels[k..], nodeIndex) == ProofOf(levels, index)
      {
        var level := levels[k];
        var siblingIndex := Sibling(nodeIndex);
        ghost var before := proof;
        if siblingIndex < |level| {
          proof := proof + [level[siblingIndex]];
        }
        ProofOfAdvance(levels, k, nodeIndex, before, proof);
        nodeIndex := nodeIndex / 2;
        k := k + 1;
      }
      ProofOfEnd(levels, k, nodeIndex, proof);
    }

    /** `add_secret`: appends the secret, its salt and its leaf (and so the
        leaf to level 0), then runs `incremental_update`. */
    method AddSecret(newSecret: Bytes, salt: Bytes)
      requires Valid() && |salt| == SaltLength
      modifies this
      ensures Valid()
      ensures secrets == old(secrets) + [newSecret]
      ensures salts == old(salts) + [salt]
      ensures leaves == old(leaves) + [H(newSecret + salt)]
      ensures tree == IncrementalUpdateOf(ValueOrdered(H), old(tree)[0 := leaves], H(newSecret + salt))
      ensures old(GetRoot()).Ok? ==> GetRoot().Ok?
    {
      var newLeaf := H(newSecret + salt);
      secrets := secrets + [newSecret];
      salts := salts + [salt];
      leaves := leaves + [newLeaf];
      tree := tree[0 := leaves];
      ghost var grown := tree;
      IncrementalUpdate(newLeaf);
      if |grown[|grown| - 1]| >= 1 {
        IncrementalUpdateKeepsRoot(ValueOrdered(H), grown, newLeaf);
      }
    }

    /** `incremental_update`: runs the climb on the current levels, whose
        level 0 is the leaf list with the new leaf already appended. */
    method IncrementalUpdate(newLeaf: Digest)
      requires |tree| >= 1 && tree[0] == leaves && |leaves| >= 1
      modifies this`tree
      ensures |tree| >= 1 && tree[0] == old(tree)[0]
      ensures tree == IncrementalUpdateOf(ValueOrdered(H), old(tree), newLeaf)
    {
      UpdateFromKeepsBelow(ValueOrdered(H), tree, 0, |tree|, newLeaf, |tree[0]| - 1);
      tree := ClimbAppending(ValueOrdered(H), tree, newLeaf);
    }

    /** `remove_secret`: empties the secret, replaces the leaf (and so level
        0) with `H(b"deleted" + salt)`, then runs `rebuild_affected_paths`.
        `ok == false` is the IndexError the rebuild can raise; the writes
        made before it stay. */
    method RemoveSecret(index: nat) returns (ok: bool)
      requires Valid() && index < |leaves|
      modifies this
      ensures Valid()
      ensures secrets == old(secrets)[index := []]
      ensures salts == old(salts)
      ensures leaves == old(leaves)[index := H(Deleted + salts[index])]
      ensures (tree, ok) == RebuildFrom(ValueOrdered(H), old(tree)[0 := leaves], 0, leaves[index], index)
      ensures ok <==> PathFits(old(tree), index)
      ensures old(GetRoot()).Ok? ==> GetRoot().Ok?
      ensures !ok ==> GetRoot() == old(GetRoot())
    {
      secrets := secrets[index := []];
      leaves := leaves[index := H(Deleted + salts[index])];
      tree := tree[0 := leaves];
      ghost var marked := tree;
      ok := RebuildAffectedPaths(index);
      RebuildFromLengths(ValueOrdered(H), marked, 0, leaves[index], index);
      RebuildFromKeepsBelow(ValueOrdered(H), marked, 0, leaves[index], index);
      RebuildFinishesIffPathFits(ValueOrdered(H), old(tree), leaves[index], index);
      RebuildFromFailKeepsTop(ValueOrdered(H), marked, 0, leaves[index], index);
    }

    /** `rebuild_affected_paths`: runs the rewriting climb from leaf
        `index` on the current levels. */
    method RebuildAffectedPaths(index: nat) returns (ok: bool)
      requires |tree| >= 1 && tree[0] == leaves && index < |leaves|
      modifies this`tree
      ensures (tree, ok) == RebuildFrom(ValueOrdered(H), old(tree), 0, leaves[index], index)
    {
      tree, ok := ClimbRewriting(ValueOrdered(H), tree, index);
    }
  }
}
