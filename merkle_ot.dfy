/** The oblivious-transfer wrapper of merkle_ot.py: a `MerkleTree` with a
    cached root, the sender's answer to a request, and the receiver's check
    of that answer against the root. */
module MerkleOT {
  import opened Digests
  import opened Levels
  import opened Maintenance
  import opened Merkle

  class MerkleBasedOT {
    const merkleTree: MerkleTree
    /** The root as last read from the tree. */
    var root: Digest

    /** The tree keeps its own invariant and the cached root is its root. */
    ghost predicate Valid()
      reads this, merkleTree
    {
      merkleTree.Valid() && merkleTree.GetRoot() == Ok(root)
    }

    /** `__init__`: builds the tree (with the given salts) and caches its
        root. An empty list makes `get_root` raise, so it is excluded. */
    constructor (hash: Hash, secrets: seq<Bytes>, salts: seq<Bytes>)
      requires |secrets| >= 1 && |salts| == |secrets|
      requires forall i :: 0 <= i < |salts| ==> |salts[i]| == SaltLength
      ensures Valid() && fresh(merkleTree)
      ensures merkleTree.H == hash && merkleTree.secrets == secrets && merkleTree.salts == salts
      ensures merkleTree.tree == BuildLevels(hash, LeafDigests(hash, secrets, salts))
      ensures root == RootOf(merkleTree.tree)
    {
      var t := new MerkleTree(hash, secrets, salts);
      merkleTree := t;
      root := t.GetRoot().value;
    }

    /** `add_secret`: adds to the tree, then re-reads the root. */
    method AddSecret(newSecret: Bytes, salt: Bytes)
      requires Valid() && |salt| == SaltLength
      modifies this, merkleTree
      ensures Valid()
      ensures merkleTree.secrets == old(merkleTree.secrets) + [newSecret]
      ensures merkleTree.salts == old(merkleTree.salts) + [salt]
      ensures merkleTree.leaves == old(merkleTree.leaves) + [merkleTree.H(newSecret + salt)]
      ensures merkleTree.tree
           == IncrementalUpdateOf(ValueOrdered(merkleTree.H), old(merkleTree.tree)[0 := merkleTree.leaves],
                                  merkleTree.H(newSecret + salt))
    {
      merkleTree.AddSecret(newSecret, salt);
      root := merkleTree.GetRoot().value;
    }

    /** `remove_secret`: tombstones the leaf, then re-reads the root. When the
        tree's rebuild raises (`ok == false`) the root is not re-read, so the
        cached one stays; it is still the tree's root, because the failing
        write, at or below the top level, is never carried out. */
    method RemoveSecret(index: nat) returns (ok: bool)
      requires Valid() && index < |merkleTree.leaves|
      modifies this, merkleTree
      ensures Valid()
      ensures merkleTree.secrets == old(merkleTree.secrets)[index := []]
      ensures merkleTree.salts == old(merkleTree.salts)
      ensures merkleTree.leaves
           == old(merkleTree.leaves)[index := merkleTree.H(Deleted + merkleTree.salts[index])]
      ensures (merkleTree.tree, ok)
           == RebuildFrom(ValueOrdered(merkleTree.H), old(merkleTree.tree)[0 := merkleTree.leaves], 0,
                          merkleTree.leaves[index], index)
      ensures ok <==> PathFits(old(merkleTree.tree), index)
      ensures !ok ==> root == old(root)
    {
      ok := merkleTree.RemoveSecret(index);
      if ok {
        root := merkleTree.GetRoot().value;
      }
    }

    /** `get_root`: the cached root, which is the tree's root. */
    function GetRoot(): (r: Digest)
      reads this, merkleTree
      ensures Valid() ==> merkleTree.GetRoot() == Ok(r)
    {
      root
    }

    /** `sender_response`: the leaf, its proof and its salt. The leaf is the
        digest of the secret and salt, or the tombstone of a removed one. */
    method SenderResponse(index: nat) returns (leaf: Digest, proof: seq<Digest>, salt: Bytes)
      requires merkleTree.Valid() && index < |merkleTree.leaves|
      ensures proof == ProofOf(merkleTree.tree, index)
      ensures leaf == merkleTree.leaves[index] && salt == merkleTree.salts[index]
      ensures LeafMatches(merkleTree.H, merkleTree.secrets[index], salt, leaf)
    {
      proof := merkleTree.GetProof(index);
      leaf := merkleTree.leaves[index];
      salt := merkleTree.salts[index];
    }

    /** `receiver_verify`: accepts exactly when the leaf is the digest of the
        secret and the salt and folding it with the proof, in position
        order, gives the root. */
    method ReceiverVerify(root: Digest, leaf: Digest, proof: seq<Digest>, salt: Bytes,
                          secret: Bytes, index: int) returns (ok: bool)
      ensures ok <==> leaf == merkleTree.H(secret + salt)
                      && Reconstruct(merkleTree.H, leaf, proof, index) == root
    {
      var expectedLeaf := merkleTree.H(secret + salt);
      if leaf != expectedLeaf {
        return false;
      }
      var computedRoot := leaf;
      var nodeIndex := index;
      for j := 0 to |proof|
        invariant Reconstruct(merkleTree.H, computedRoot, proof[j..], nodeIndex)
               == Reconstruct(merkleTree.H, leaf, proof, index)
      {
        var sibling := proof[j];
        assert proof[j..][1..] == proof[j + 1..];
        if nodeIndex % 2 == 0 {
          computedRoot := merkleTree.H(computedRoot + sibling);
        } else {
          computedRoot := merkleTree.H(sibling + computedRoot);
        }
        nodeIndex := nodeIndex / 2;
      }
      ok := computedRoot == root;
    }
  }

  /** One exchange on a freshly built tree: the receiver accepts the
      sender's answer for secret `i` whenever `i`'s path has a sibling at
      every level below the root. */
  method FreshExchange(hash: Hash, secrets: seq<Bytes>, salts: seq<Bytes>, i: nat) returns (ok: bool)
    requires |secrets| >= 1 && |salts| == |secrets| && i < |secrets|
    requires forall k :: 0 <= k < |salts| ==> |salts[k]| == SaltLength
    requires Complete(BuildLevels(hash, LeafDigests(hash, secrets, salts)), i)
    ensures ok
  {
    var ot := new MerkleBasedOT(hash, secrets, salts);
    var leaf, proof, salt := ot.SenderResponse(i);
    FreshLeafProofVerifies(hash, secrets, salts, i);
    ok := ot.ReceiverVerify(ot.GetRoot(), leaf, proof, salt, secrets[i], i);
  }
}
