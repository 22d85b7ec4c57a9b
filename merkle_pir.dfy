/** The private-information-retrieval wrapper of merkle_pir.py: a
    `MerkleTree` over the records, a query that returns a record with its
    proof, and the client's check of that proof. */
module MerklePir {
  import opened Digests
  import opened Levels
  import opened Merkle

  class MerklePIR {
    const tree: MerkleTree
    /** The root read once, when the tree is built. */
    const root: Digest

    /** `__init__`: builds the tree over the records (with the given salts)
        and reads its root. An empty list makes `get_root` raise, so it is
        excluded. */
    constructor (hash: Hash, records: seq<Bytes>, salts: seq<Bytes>)
      requires |records| >= 1 && |salts| == |records|
      requires forall i :: 0 <= i < |salts| ==> |salts[i]| == SaltLength
      ensures tree.Valid() && fresh(tree)
      ensures tree.H == hash && tree.secrets == records && tree.salts == salts
      ensures tree.tree == BuildLevels(hash, LeafDigests(hash, records, salts))
      ensures tree.GetRoot() == Ok(root)
    {
      var t := new MerkleTree(hash, records, salts);
      tree := t;
      root := t.GetRoot().value;
    }

    /** `query`: the record itself and the proof for its leaf. */
    method Query(index: nat) returns (record: Bytes, proof: seq<Digest>)
      requires index < |tree.secrets|
      ensures record == tree.secrets[index]
      ensures proof == ProofOf(tree.tree, index)
    {
      proof := tree.GetProof(index);
      record := tree.secrets[index];
    }

    /** `verify`: recomputes the leaf from the record and the stored salt and
        accepts exactly when folding it with the proof gives `root`. */
    method Verify(root: Digest, record: Bytes, proof: seq<Digest>, index: nat) returns (ok: bool)
      requires index < |tree.salts|
      ensures ok <==> Reconstruct(tree.H, tree.H(record + tree.salts[index]), proof, index) == root
    {
      var leaf := tree.H(record + tree.salts[index]);
      var computedRoot := leaf;
      var nodeIndex: int := index;
      for j := 0 to |proof|
        invariant Reconstruct(tree.H, computedRoot, proof[j..], nodeIndex)
               == Reconstruct(tree.H, leaf, proof, index)
      {
        var sibling := proof[j];
        assert proof[j..][1..] == proof[j + 1..];
        if nodeIndex % 2 == 0 {
          computedRoot := tree.H(computedRoot + sibling);
        } else {
          computedRoot := tree.H(sibling + computedRoot);
        }
        nodeIndex := nodeIndex / 2;
      }
      ok := computedRoot == root;
    }
  }

  /** A query and its check on a freshly built store: the client accepts
      record `i` against the stored root whenever `i`'s path has a sibling
      at every level below the root. */
  method FreshQueryVerifies(hash: Hash, records: seq<Bytes>, salts: seq<Bytes>, i: nat)
    returns (record: Bytes, ok: bool)
    requires |records| >= 1 && |salts| == |records| && i < |records|
    requires forall k :: 0 <= k < |salts| ==> |salts[k]| == SaltLength
    requires Complete(BuildLevels(hash, LeafDigests(hash, records, salts)), i)
    ensures record == records[i]
    ensures ok
  {
    var pir := new MerklePIR(hash, records, salts);
    var proof;
    record, proof := pir.Query(i);
    FreshLeafProofVerifies(hash, records, salts, i);
    ok := pir.Verify(pir.root, record, proof, i);
  }

  /** The store sizes the benchmark runs, all queried at index 500. */
  predicate BenchmarkSize(n: nat)
  {
    n == 10000 || n == 100000 || n == 1000000
  }

  /** At every benchmark size, index 500 lies in the first 512 leaves, a
      complete subtree, so its path has a sibling at every level. */
  lemma BenchmarkIndexComplete(h: Hash, leaves: seq<Digest>)
    requires BenchmarkSize(|leaves|)
    ensures Complete(BuildLevels(h, leaves), 500)
  {
    assert Pow2(9) == 512;
    LeftSubtreePathsComplete(h, leaves, 9, 500);
  }

  /** The benchmark's round: at every benchmark size, the query for record
      500 verifies against the stored root. */
  method BenchmarkRound(hash: Hash, records: seq<Bytes>, salts: seq<Bytes>) returns (ok: bool)
    requires BenchmarkSize(|records|) && |salts| == |records|
    requires forall k :: 0 <= k < |salts| ==> |salts[k]| == SaltLength
    ensures ok
  {
    BenchmarkIndexComplete(hash, LeafDigests(hash, records, salts));
    var record;
    record, ok := FreshQueryVerifies(hash, records, salts, 500);
  }

  /** After the owner removes record `index`, a query returns the empty
      record in its place. */
  method QueryAfterRemoval(pir: MerklePIR, index: nat) returns (record: Bytes)
    requires pir.tree.Valid() && index < |pir.tree.secrets|
    modifies pir.tree
    ensures record == []
  {
    var ok := pir.tree.RemoveSecret(index);
    var proof;
    record, proof := pir.Query(index);
  }
}
