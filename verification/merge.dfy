/**
 `Registers::merge` (src/lib.rs:187-193): the union of two summaries
 of the same precision is their register-wise maximum.
 */
module Merging {
  import opened Store

  /** `dst[i] = max(dst[i], src[i])` for every register. */
  function Merge(dst: seq<Byte>, src: seq<Byte>): (r: seq<Byte>)
    requires |dst| == |src|
    ensures |r| == |dst|
    ensures forall i :: 0 <= i < |r| ==> r[i] == Max(dst[i], src[i])
    ensures forall p :: WellFormed(p, dst) && WellFormed(p, src) ==> WellFormed(p, r)
  {
    seq(|dst|, i requires 0 <= i < |dst| => Max(dst[i], src[i]))
  }

  lemma MergeCommutative(a: seq<Byte>, b: seq<Byte>)
    requires |a| == |b|
    ensures Merge(a, b) == Merge(b, a)
  {
  }

  lemma MergeAssociative(a: seq<Byte>, b: seq<Byte>, c: seq<Byte>)
    requires |a| == |b| == |c|
    ensures Merge(Merge(a, b), c) == Merge(a, Merge(b, c))
  {
  }

  lemma MergeIdempotent(a: seq<Byte>)
    ensures Merge(a, a) == a
  {
  }

  /** The zero store is the identity of merge. */
  lemma MergeZeroIdentity(p: nat, a: seq<Byte>)
    requires Sized(p, a)
    ensures Merge(a, Zero(p)) == a
    ensures Merge(Zero(p), a) == a
  {
  }

  /**
   Merge is the least upper bound in the register-wise order: it lies
   above both inputs, and below every store that lies above both.
   */
  lemma MergeLeastUpperBound(a: seq<Byte>, b: seq<Byte>, c: seq<Byte>)
    requires |a| == |b|
    ensures Le(a, Merge(a, b)) && Le(b, Merge(a, b))
    ensures Le(a, c) && Le(b, c) <==> Le(Merge(a, b), c)
  {
  }

  /** Merging never decreases a register. */
  lemma MergeMonotone(a: seq<Byte>, a': seq<Byte>, b: seq<Byte>)
    requires |a| == |b| && Le(a, a')
    ensures Le(Merge(a, b), Merge(a', b))
  {
  }
}
