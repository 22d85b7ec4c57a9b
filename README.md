# Merkle-tree secrets store, oblivious transfer and PIR in Dafny

This project models the Merkle-tree core of a small Python code base:

- `MerkleTree` (merkle_tree.py). It holds salted secrets, their leaf digests
  `H(secret + salt)` and every level of the tree.
- `MerkleBasedOT` (merkle_ot.py). It wraps a tree with a cached root, answers
  a request with a leaf, its proof and its salt, and lets the receiver check
  that answer.
- `MerklePIR` (merkle_pir.py). It wraps a tree over records, answers a query
  with the record and its proof, and lets the client check it.

The hash function (BLAKE3 in the source) is a parameter `h: Bytes -> Bytes`.
Every theorem holds for any hash function. The random salts are inputs of 16
bytes.

Modules, one per file:

- `Digests` (digests.dfy) holds byte strings, Python's ordering on them
  (`LexLess`) and two ways of combining child digests:
  - `PositionalCombine`, `H(left + right)`, used by `build_tree` and both
    verifiers;
  - `SortedCombine`, `H(min + max)`, used by `incremental_update` and
    `rebuild_affected_paths`; `ValueOrdered(h)` is the same combine as a
    function value of type `Combine`.
- `Levels` (levels.dfy) holds the list of levels that `build_tree` makes
  (`BuildLevels`), `get_root` (`RootOf`), `get_proof` (`ProofOf`) and the
  verifiers' fold (`Reconstruct`). It proves the round trip from leaf and
  proof back to the root.
- `Maintenance` (maintenance.dfy) holds what `incremental_update`
  (`UpdateFrom`) and `rebuild_affected_paths` (`RebuildFrom`) do to the
  levels, as functions of the levels they start from. They take the pair
  combine as a parameter, and every lemma about them holds for any combine;
  the tree passes `ValueOrdered(H)`.
- `Merkle` (merkle_tree.dfy) holds the `MerkleTree` class. Its fields hold
  the lists as sequence values, which its methods reassign; each method is
  proved equal to the functions above.
  The climbing loops of `incremental_update` and `rebuild_affected_paths`
  are the methods `ClimbAppending` and `ClimbRewriting`, which work on a
  copy of the levels; the class methods store their result in `tree`.
- `MerkleOT` (merkle_ot.dfy) and `MerklePir` (merkle_pir.dfy) hold the two
  protocol classes and end-to-end exchanges.

The model reproduces the source's behaviour as written, including:

- `get_proof` omits the sibling when a node is an unpaired tail.
  `build_tree` hashes such a node with itself.
- `add_secret` only appends: it visits only the levels that exist when it
  starts, and may add one new level, holding one digest.
  It uses the value-ordered combine, not the positional one.
  When the new leaf lands at an even position it is pushed up unchanged
  and the loop stops, so the root can stay what it was.
- `remove_secret` overwrites the leaf's ancestors with the value-ordered
  combine. It raises IndexError when an ancestor position is past the end
  of its level. The writes made before that stay. `RebuildFrom` and
  `RemoveSecret` report the exception as `ok == false`.
- `get_root` raises IndexError on a tree built from no secrets
  (`Merkle.MerkleTree.GetRoot` returns `Err(IndexError)`).

In the source, level 0 of `tree` is the same list object as `leaves`. The
class keeps both as value fields with `Valid()` requiring
`tree[0] == leaves`. Every write to `leaves` is followed by the same write
to `tree[0]`.

## Model

| member | source | states |
|---|---|---|
| `Digests.MinMaxSplitPair` | merkle_tree.py:81 | `min` and `max` on bytes return the two arguments, as a multiset, with the `min` one not larger |
| `Digests.SortedCombineSymmetric` | merkle_tree.py:112 | the value-ordered parent digest is the same whichever child is the current node |
| `Digests.SortedCombineIsPositionalWhenOrdered` | merkle_tree.py:81 | the value-ordered parent equals the positional parent of `build_tree` whenever the left child is not larger than the right |
| `Levels.BuildLevels` | merkle_tree.py:21-33 | `build_tree` makes `Height(n)` levels, level 0 is the leaf list, and for at least one leaf the top level holds exactly one digest (the root) |
| `Levels.BuildLevelsShape` | merkle_tree.py:26-33 | every level below the top has at least two entries, and the level above is its pairing: `ceil(len/2)` entries, entry `j` hashing entries `2j` and `2j+1` (or `2j` twice) |
| `Levels.HeightIsCeilLog2` | merkle_tree.py:26-33 | `n` leaves give `1 + ceil(log2 n)` levels: `n <= 2^(Height-1)` and `2^(Height-2) < n` for `n >= 2` |
| `Levels.SingleLeafTree` | merkle_tree.py:24-26 | one leaf gives the one-level tree, whose root is the leaf and whose proof is empty |
| `Levels.ProofLength` | merkle_tree.py:42-47 | a proof has at most one digest per level below the top, and exactly that many if and only if every level has a sibling on the path |
| `Levels.CompleteIffSiblingsExist` | merkle_tree.py:42-46 | a path is complete if and only if each sibling index `(i >> k) ^ 1` exists on its level below the top |
| `Levels.CompleteProofEntries` | merkle_tree.py:42-46 | on a complete path the proof has one digest per level below the top, and entry `k` is the digest at `(i >> k) ^ 1` on level `k` |
| `Levels.ProofReconstructsRoot` | merkle_tree.py:38-47 | in a freshly built tree, folding leaf `i` with `get_proof(i)` in position order gives the root, whenever `i`'s path is complete |
| `Levels.LeftSubtreePathsComplete` | merkle_tree.py:38-47 | every index below a power of two not exceeding the leaf count has a complete path |
| `Levels.PowerOfTwoPathsComplete` | merkle_tree.py:38-47 | with a power-of-two leaf count, every path is complete and every proof has one digest per level below the root |
| `Levels.BuiltPathFits` | merkle_tree.py:21-33 | in a freshly built tree, every ancestor position `i >> k` of a leaf exists on its level |
| `Maintenance.UpdateFromLevelCount` | merkle_tree.py:73-75 | the update adds no level, or exactly one new level holding a single digest |
| `Maintenance.UpdateFromKeepsBelow` | merkle_tree.py:68-90 | the update leaves the levels up to the one it starts from unchanged |
| `Maintenance.UpdateFromExtendsLevels` | merkle_tree.py:75-86 | each existing level gains at most one digest, and its old entries stay as a prefix |
| `Maintenance.UpdateFromKeepsTop` | merkle_tree.py:68-90 | a non-empty top level stays non-empty after the update, and a new top level holds a digest |
| `Maintenance.UpdateFromOnlyAppends` | merkle_tree.py:68-90 | `incremental_update` only appends: it keeps the levels below the current one, adds at most one digest to each existing level and keeps its old entries as a prefix, and adds at most one new level, holding one digest |
| `Maintenance.IncrementalUpdateKeepsRoot` | merkle_tree.py:62-90 | after the update, level 0 is unchanged and a tree that had a root still has one |
| `Maintenance.EvenNewLeafLeavesRootStale` | merkle_tree.py:72-76 | a new leaf at an even position is appended unchanged to level 1 and the loop stops, so with two levels or more the root is what it was before |
| `Maintenance.OddNewLeafExtendsLevelOne` | merkle_tree.py:77-86 | a new leaf at an odd position appends to level 1 the value-ordered combine of the leaf and its left neighbour |
| `Maintenance.OddFreshTreeOvergrows` | merkle_tree.py:68-90 | adding a leaf to a fresh tree with an odd count `n >= 3` leaves level 1 with one digest more than `build_tree` makes for `n + 1` leaves |
| `Maintenance.RebuildFromLengths` | merkle_tree.py:106-117 | `rebuild_affected_paths` keeps the number of levels and the length of every level |
| `Maintenance.RebuildFromKeepsBelow` | merkle_tree.py:106-117 | the rebuild leaves the levels up to the one it starts from unchanged |
| `Maintenance.RebuildFromKeepsOffPath` | merkle_tree.py:113 | the rebuild changes no digest that is not an ancestor `leaf >> j` of the leaf |
| `Maintenance.RebuildFromFinishes` | merkle_tree.py:106-117 | the rebuild finishes if and only if every ancestor position above the start level exists; otherwise it raises IndexError |
| `Maintenance.RebuildFinishesIffPathFits` | merkle_tree.py:92-117 | replacing leaf `i` and rebuilding finishes if and only if every ancestor position of `i` exists in the levels before the replacement |
| `Maintenance.PathRepairedFromEveryLevel` | merkle_tree.py:106-117 | a repaired path is repaired at each level: every ancestor is the combine of the node below it and that node's sibling (or itself) |
| `Maintenance.RebuildFromRepairsFirst` | merkle_tree.py:107-113 | the first round writes the correct ancestor one level up, and no later round overwrites it |
| `Maintenance.RebuildFromFailKeepsTop` | merkle_tree.py:106-117 | when the rebuild raises IndexError, the failing write is at or below the top level and is never carried out, so the top level (and the root) is unchanged |
| `Maintenance.RebuildRepairsEveryAncestor` | merkle_tree.py:106-117 | when the rebuild finishes, the ancestor on every level above the start is the combine of the node below it and that node's sibling (or itself) |
| `Maintenance.RebuildFromRepairsPath` | merkle_tree.py:106-117 | when the rebuild finishes, every ancestor is the combine of the node below it and that node's sibling, or of the node with itself at an unpaired tail |
| `Maintenance.RemoveNewLeafAfterAddRaises` | merkle_tree.py:113 | on a fresh tree of `4q` leaves, adding a secret and then removing it makes the rebuild raise IndexError, because level 2 never grew |
| `Maintenance.FreshRemoveFinishes` | merkle_tree.py:101-117 | on a freshly built tree, removing any leaf rebuilds its whole path without raising |
| `Merkle.FreshLeafProofVerifies` | merkle_tree.py:14-19 | in a tree built from secrets and salts, leaf `i` is `H(secret_i + salt_i)`, and folding it with its proof gives the root when the path is complete |
| `Merkle.PushToLevel` | merkle_tree.py:73-75 | adds a level when level `j` is missing, then appends the digest to level `j`, as `AppendToLevel` |
| `Merkle.ClimbAppending` | merkle_tree.py:65-90 | the climbing loop, on a copy of the levels, returns exactly `IncrementalUpdateOf` of the levels it started from |
| `Merkle.ClimbRewriting` | merkle_tree.py:103-117 | the overwrite loop, on a copy of the levels, returns exactly `RebuildFrom` of the levels it started from, with `ok == false` for the IndexError |
| `Merkle.MerkleTree.constructor` | merkle_tree.py:14-19 | stores the secrets and salts, computes one leaf per secret and builds the levels; `Valid()` holds |
| `Merkle.MerkleTree.BuildTree` | merkle_tree.py:21-33 | the level-pairing loop leaves `tree` equal to `BuildLevels` of the leaves |
| `Merkle.MerkleTree.PairUp` | merkle_tree.py:27-31 | the inner loop of `build_tree` yields the next level: `ceil(len/2)` positional parents |
| `Merkle.MerkleTree.GetRoot` | merkle_tree.py:35-36 | `Err(NoLevels)` (Python's `None`) exactly when there are no levels, `Err(IndexError)` exactly when the top level is empty, and otherwise `Ok` of `tree[-1][0]` |
| `Merkle.MerkleTree.GetProof` | merkle_tree.py:38-47 | the loop over all levels but the last returns exactly `ProofOf(tree, index)` and changes nothing |
| `Merkle.MerkleTree.AddSecret` | merkle_tree.py:49-60 | appends secret, salt and leaf (so level 0 grows too), then the tree is the incremental update of the old levels; `Valid()` is kept and a root stays available |
| `Merkle.MerkleTree.IncrementalUpdate` | merkle_tree.py:62-90 | leaves `tree` equal to `IncrementalUpdateOf` of the old levels under the value-ordered combine, with level 0 unchanged |
| `Merkle.MerkleTree.RemoveSecret` | merkle_tree.py:92-99 | empties the secret and replaces the leaf (and level 0) by `H(b"deleted" + salt)`, then rebuilds; it finishes if and only if every ancestor position exists; `Valid()` is kept either way, and when the rebuild raises the root is unchanged |
| `Merkle.MerkleTree.RebuildAffectedPaths` | merkle_tree.py:101-117 | leaves `tree` and `ok` equal to `RebuildFrom` of the old levels under the value-ordered combine |
| `MerkleOT.MerkleBasedOT.constructor` | merkle_ot.py:6-8 | builds the tree from the secrets and caches its root |
| `MerkleOT.MerkleBasedOT.AddSecret` | merkle_ot.py:10-12 | adds the secret, its salt and its leaf `H(secret + salt)` to the tree, whose levels become the incremental update of the old ones, and the cached root is the tree's new root |
| `MerkleOT.MerkleBasedOT.RemoveSecret` | merkle_ot.py:14-16 | removes the secret, tombstones its leaf and rebuilds as `MerkleTree.RemoveSecret` does; `Valid()` holds either way: on success the cached root is the tree's new root, and when the tree raises the cached root is left as it was and is still the tree's root |
| `MerkleOT.MerkleBasedOT.GetRoot` | merkle_ot.py:18-19 | the cached root is the tree's root |
| `MerkleOT.MerkleBasedOT.SenderResponse` | merkle_ot.py:21-25 | returns leaf `index`, `get_proof(index)` and salt `index`; the leaf is `H(secret + salt)` or a tombstone |
| `MerkleOT.MerkleBasedOT.ReceiverVerify` | merkle_ot.py:27-39 | accepts if and only if the leaf is `H(secret + salt)` and the position-ordered fold of leaf and proof equals the root |
| `MerkleOT.FreshExchange` | merkle_ot.py:55-58 | on a fresh tree, the receiver accepts the sender's response for any secret whose path is complete |
| `MerklePir.MerklePIR.constructor` | merkle_pir.py:9-11 | builds the tree from the records and records its root |
| `MerklePir.MerklePIR.Query` | merkle_pir.py:13-17 | returns record `index` and `get_proof(index)` |
| `MerklePir.MerklePIR.Verify` | merkle_pir.py:19-30 | accepts if and only if folding `H(record + salt_index)` with the proof in position order gives `root` |
| `MerklePir.FreshQueryVerifies` | merkle_pir.py:13-30 | on a fresh store, querying record `i` returns it, and its proof verifies against the stored root when the path is complete |
| `MerklePir.BenchmarkIndexComplete` | test_pir.py:14-15 | at 10000, 100000 and 1000000 records, index 500 has a complete path |
| `MerklePir.BenchmarkRound` | test_pir.py:25-35 | at every benchmark size, the query for record 500 verifies against the stored root |
| `MerklePir.QueryAfterRemoval` | merkle_pir.py:13-17 | after the record is removed from the tree, a query returns the empty record |

## Left out

- Salt generation (`os.urandom(16)`): salts are inputs, required to be 16 bytes long.
- BLAKE3: the hash function is a parameter. merkle_pir.py redefines its own `hash_function` with the same body, so one `H` serves both.
- In-place writes to `self.tree` inside the loops of `incremental_update` and `rebuild_affected_paths`: the loops run on a copy of the levels, stored back into `tree` once they end. No other code runs in between, so the final state is the same.
- Object identity: the lists are sequence values, reassigned by the methods rather than mutated. The aliasing of `tree[0]` and `leaves` is mirrored by writing both. The caller's list that becomes `secrets` is not shared.
- `Merkle.MerkleTree.RemoveSecret`: negative indices, which Python counts from the end, are not modelled. An index past the end raises before any change in Python and is excluded by the precondition.
- `MerkleOT.MerkleBasedOT.SenderResponse`: negative indices are not modelled. An index past the end is excluded by the precondition.
- `MerklePir.MerklePIR.Query`: negative indices are not modelled. An index past the end is excluded by the precondition.
- `MerklePir.MerklePIR.Verify`: negative indices are not modelled. An index past the end is excluded by the precondition.
- `Merkle.MerkleTree.GetProof`: negative indices, which Python reads from the end of each level, are not modelled; the index is a `nat`. An index past the end is handled as in Python, by the sibling guard.
- `Merkle.MerkleTree.IncrementalUpdate`: a direct call on a tree with no leaves, which raises IndexError in Python at the sibling lookup, is excluded by the precondition; `add_secret`, its only caller, always appends a leaf first.
- Empty secret or record lists in `MerkleBasedOT` and `MerklePIR`: construction would raise IndexError from `get_root`, so the constructors exclude them.
- The `__main__` demonstrations print results. In merkle_ot.py they also call `receiver_verify` with too few arguments. `MerkleOT.FreshExchange` models the exchange they intend.
- Timing and printing in test_pir.py and the naive PIR baseline (naive_pir.py): not part of this model. docxfile.py is not part of this model either.
- The unused `ThreadPoolExecutor` import: no concurrency is modelled.
