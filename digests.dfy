/** Byte strings, Python's ordering on them, and the two ways the tree combines
    two child digests into a parent digest. */
module Digests {

  /** Python `bytes`. */
  type Bytes = seq<bv8>

  /** A digest produced by the hash function (also `bytes` in the source). */
  type Digest = Bytes

  /** The hash function (BLAKE3 in the source). It is a parameter everywhere,
      so every result proved here holds for any hash function. */
  type Hash = Bytes -> Digest

  /** Python's `a < b` on `bytes`: lexicographic, a proper prefix is smaller. */
  predicate LexLess(a: Bytes, b: Bytes)
    decreases |a|
  {
    if |a| == 0 then |b| > 0
    else if |b| == 0 then false
    else if a[0] != b[0] then a[0] < b[0]
    else LexLess(a[1..], b[1..])
  }

  lemma {:induction false} LexLessIrreflexive(a: Bytes)
    ensures !LexLess(a, a)
    decreases |a|
  {
    if |a| > 0 {
      LexLessIrreflexive(a[1..]);
    }
  }

  lemma {:induction false} LexLessAsymmetric(a: Bytes, b: Bytes)
    ensures !(LexLess(a, b) && LexLess(b, a))
    decreases |a|
  {
    if |a| > 0 && |b| > 0 && a[0] == b[0] {
      LexLessAsymmetric(a[1..], b[1..]);
    }
  }

  lemma {:induction false} LexLessTotal(a: Bytes, b: Bytes)
    ensures a == b || LexLess(a, b) || LexLess(b, a)
    decreases |a|
  {
    if |a| > 0 && |b| > 0 && a[0] == b[0] {
      LexLessTotal(a[1..], b[1..]);
      if a[1..] == b[1..] {
        assert a == [a[0]] + a[1..];
        assert b == [b[0]] + b[1..];
      }
    }
  }

  /** Python's `min(a, b)`: the first argument unless the second is smaller. */
  function MinBytes(a: Bytes, b: Bytes): Bytes
  {
    if LexLess(b, a) then b else a
  }

  /** Python's `max(a, b)`: the first argument unless the second is larger. */
  function MaxBytes(a: Bytes, b: Bytes): Bytes
  {
    if LexLess(a, b) then b else a
  }

  /** `min` and `max` return the two arguments, in non-decreasing order. */
  lemma MinMaxSplitPair(a: Bytes, b: Bytes)
    ensures multiset{MinBytes(a, b), MaxBytes(a, b)} == multiset{a, b}
    ensures !LexLess(MaxBytes(a, b), MinBytes(a, b))
  {
    LexLessAsymmetric(a, b);
    LexLessIrreflexive(a);
    LexLessTotal(a, b);
  }

  /** The combine of tree construction and of both verifiers:
      `H(left + right)`, in position order. */
  function PositionalCombine(h: Hash, left: Digest, right: Digest): Digest
  {
    h(left + right)
  }

  /** The combine of incremental insertion and of tombstone repair:
      `H(min(a, b) + max(a, b))`, in value order. */
  function SortedCombine(h: Hash, a: Digest, b: Digest): Digest
  {
    h(MinBytes(a, b) + MaxBytes(a, b))
  }

  /** A way of making a parent digest from the running digest and the other
      child. The loops of `incremental_update` and `rebuild_affected_paths`
      are modelled for any combine; the tree runs them with `ValueOrdered`. */
  type Combine = (Digest, Digest) -> Digest

  /** `SortedCombine` under hash `h`, as the combine those loops use. */
  function ValueOrdered(h: Hash): Combine
  {
    (a, b) => SortedCombine(h, a, b)
  }

  /** The value-ordered combine does not depend on which child is the
      current node: it is symmetric in its two arguments. */
  lemma SortedCombineSymmetric(h: Hash, a: Digest, b: Digest)
    ensures SortedCombine(h, a, b) == SortedCombine(h, b, a)
  {
    LexLessAsymmetric(a, b);
    LexLessTotal(a, b);
  }

  /** The value-ordered combine agrees with the positional one whenever the
      left child is not larger than the right one. */
  lemma SortedCombineIsPositionalWhenOrdered(h: Hash, left: Digest, right: Digest)
    requires !LexLess(right, left)
    ensures SortedCombine(h, left, right) == PositionalCombine(h, left, right)
  {
    LexLessTotal(left, right);
  }
}
