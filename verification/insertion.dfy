/**
 The hash-to-register part of `Registers::insert` (src/lib.rs:156-163)
 together with `get_rho` (src/lib.rs:305-309). The SipHash step that
 turns a value into the 64-bit hash `x` is not modelled: `x` is the input.
 */
module Insertion {
  import opened Wrappers
  import opened Bits
  import opened Store
  import opened Merging

  /** `x as usize & (REGISTERS - 1)`: the low P bits of the hash select the bucket. */
  function Bucket(p: nat, x: U64): (j: nat)
    requires ValidPrecision(p)
    ensures j < RegisterCount(p)
    ensures x == Tail(p, x) * RegisterCount(p) + j
  {
    x % Pow2(p)
  }

  /** `x >> PRECISION`: the remaining 64 - P bits of the hash. */
  function Tail(p: nat, x: U64): (w: U64)
    requires ValidPrecision(p)
    ensures w < Pow2(HashWidth - p)
  {
    Pow2Add(p, HashWidth - p);
    Pow2Is64();
    DivBelow(x, Pow2(p), Pow2(HashWidth - p));
    x / Pow2(p)
  }

  lemma DivBelow(x: nat, d: nat, k: nat)
    requires d > 0 && x < d * k
    ensures x / d < k
  {
  }

  /**
   `get_rho(w, max_width)`: `max_width - bit_length(w) + 1` in `u8`
   arithmetic (wrapping, as in a release build), followed by
   `assert!(rho > 0)`; `None` is the failed assertion.
   */
  function GetRho(w: U64, maxWidth: Byte): (r: Option<Byte>)
    ensures r.Some? ==> r.value > 0
    ensures BitLength(w) <= maxWidth < 255 ==> r == Some(maxWidth + 1 - BitLength(w))
  {
    var rho := (maxWidth - BitLength(w) + 1) % 256;
    if rho > 0 then Some(rho) else None
  }

  /**
   The run length recorded for hash `x`: one plus the number of
   leading zeros of the tail within its (64 - P)-bit window. The
   assertion in `get_rho` never fails on this path.
   */
  function Rho(p: nat, x: U64): (rho: Byte)
    requires ValidPrecision(p)
    ensures GetRho(Tail(p, x), HashWidth - p) == Some(rho)
    ensures 1 <= rho <= MaxRho(p)
    ensures rho == MaxRho(p) <==> Tail(p, x) == 0
    ensures rho == 1 + LeadingZeros(Tail(p, x), HashWidth - p)
  {
    var w := Tail(p, x);
    BitLengthAtMost(w, HashWidth - p);
    Pow2Is64();
    LeadingZerosWiden(w, HashWidth - p, HashWidth);
    GetRho(w, HashWidth - p).value
  }

  /** `insert` after hashing: `reg[j] = max(reg[j], rho)`. */
  function Insert(p: nat, regs: seq<Byte>, x: U64): (r: seq<Byte>)
    requires Sized(p, regs)
    ensures Sized(p, r)
    ensures r[Bucket(p, x)] == Max(regs[Bucket(p, x)], Rho(p, x))
    ensures forall i :: 0 <= i < |r| && i != Bucket(p, x) ==> r[i] == regs[i]
    ensures WellFormed(p, regs) ==> WellFormed(p, r)
  {
    var j := Bucket(p, x);
    var rho := Rho(p, x);
    if rho > regs[j] then regs[j := rho] else regs
  }

  /** Insertion never decreases a register. */
  lemma InsertMonotone(p: nat, regs: seq<Byte>, x: U64)
    requires Sized(p, regs)
    ensures Le(regs, Insert(p, regs, x))
  {
  }

  /** Inserting the same hash twice is inserting it once. */
  lemma InsertIdempotent(p: nat, regs: seq<Byte>, x: U64)
    requires Sized(p, regs)
    ensures Insert(p, Insert(p, regs, x), x) == Insert(p, regs, x)
  {
  }

  /** Two insertions commute. */
  lemma InsertCommutes(p: nat, regs: seq<Byte>, x: U64, y: U64)
    requires Sized(p, regs)
    ensures Insert(p, Insert(p, regs, x), y) == Insert(p, Insert(p, regs, y), x)
  {
  }

  /** Insertion preserves the register-wise order. */
  lemma InsertPreservesLe(p: nat, a: seq<Byte>, b: seq<Byte>, x: U64)
    requires Sized(p, a) && Le(a, b)
    ensures Le(Insert(p, a, x), Insert(p, b, x))
  {
  }

  /** Insertion into a merged store is insertion into one side, then merge. */
  lemma InsertIntoMerge(p: nat, a: seq<Byte>, b: seq<Byte>, x: U64)
    requires Sized(p, a) && Sized(p, b)
    ensures Insert(p, Merge(a, b), x) == Merge(Insert(p, a, x), b)
  {
  }

  /** Inserting a stream of hashes, first to last. */
  function InsertAll(p: nat, regs: seq<Byte>, xs: seq<U64>): (r: seq<Byte>)
    requires Sized(p, regs)
    ensures Sized(p, r)
    ensures Le(regs, r)
    ensures WellFormed(p, regs) ==> WellFormed(p, r)
    decreases |xs|
  {
    if xs == [] then regs else InsertAll(p, Insert(p, regs, xs[0]), xs[1..])
  }

  /** Inserting `xs + ys` is inserting `xs` and then `ys`. */
  lemma {:induction false} InsertAllAppend(p: nat, regs: seq<Byte>, xs: seq<U64>, ys: seq<U64>)
    requires Sized(p, regs)
    ensures InsertAll(p, regs, xs + ys) == InsertAll(p, InsertAll(p, regs, xs), ys)
    decreases |xs|
  {
    if xs == [] {
      assert xs + ys == ys;
    } else {
      assert (xs + ys)[1..] == xs[1..] + ys;
      InsertAllAppend(p, Insert(p, regs, xs[0]), xs[1..], ys);
    }
  }

  /** One insertion can be moved past a whole stream. */
  lemma {:induction false} InsertAllCommutesWithInsert(p: nat, regs: seq<Byte>, x: U64, ys: seq<U64>)
    requires Sized(p, regs)
    ensures InsertAll(p, Insert(p, regs, x), ys) == Insert(p, InsertAll(p, regs, ys), x)
    decreases |ys|
  {
    if ys != [] {
      InsertCommutes(p, regs, x, ys[0]);
      InsertAllCommutesWithInsert(p, Insert(p, regs, ys[0]), x, ys[1..]);
    }
  }

  /** Inserting `before + [x] + after` is inserting `x` right after `before`. */
  lemma InsertAllSplit(p: nat, regs: seq<Byte>, before: seq<U64>, x: U64, after: seq<U64>)
    requires Sized(p, regs)
    ensures InsertAll(p, regs, before + [x] + after)
         == InsertAll(p, Insert(p, InsertAll(p, regs, before), x), after)
  {
    InsertAllAppend(p, regs, before + [x], after);
    InsertAllAppend(p, regs, before, [x]);
  }

  /** Taking one hash out of the middle of a stream and inserting it last. */
  lemma InsertAllExtract(p: nat, regs: seq<Byte>, ys: seq<U64>, k: nat)
    requires Sized(p, regs) && k < |ys|
    ensures InsertAll(p, regs, ys) == Insert(p, InsertAll(p, regs, ys[..k] + ys[k + 1..]), ys[k])
  {
    var x, before, after := ys[k], ys[..k], ys[k + 1..];
    assert ys == before + [x] + after;
    InsertAllSplit(p, regs, before, x, after);
    InsertAllCommutesWithInsert(p, InsertAll(p, regs, before), x, after);
    InsertAllAppend(p, regs, before, after);
  }

  lemma MultisetRemove(xs: seq<U64>, ys: seq<U64>, k: nat)
    requires xs != [] && k < |ys| && ys[k] == xs[0]
    requires multiset(xs) == multiset(ys)
    ensures multiset(xs[1..]) == multiset(ys[..k] + ys[k + 1..])
  {
    var before, after := ys[..k], ys[k + 1..];
    assert ys == before + [ys[k]] + after;
    assert multiset(ys) == multiset(before + after) + multiset{ys[k]};
    assert xs == [xs[0]] + xs[1..];
    assert multiset(xs) == multiset(xs[1..]) + multiset{xs[0]};
    assert multiset(xs[1..]) == multiset(xs) - multiset{xs[0]};
  }

  /** The final store depends only on the multiset of inserted hashes, not their order. */
  lemma {:induction false} InsertAllOrderIndependent(p: nat, regs: seq<Byte>, xs: seq<U64>, ys: seq<U64>)
    requires Sized(p, regs)
    requires multiset(xs) == multiset(ys)
    ensures InsertAll(p, regs, xs) == InsertAll(p, regs, ys)
    decreases |xs|
  {
    if xs != [] {
      var x := xs[0];
      assert x in multiset(ys);
      var k :| 0 <= k < |ys| && ys[k] == x;
      var rest := ys[..k] + ys[k + 1..];
      MultisetRemove(xs, ys, k);
      InsertAllOrderIndependent(p, Insert(p, regs, x), xs[1..], rest);
      InsertAllCommutesWithInsert(p, regs, x, rest);
      InsertAllExtract(p, regs, ys, k);
    }
  }

  /** A stream inserted into a merged store: the merge can be done last. */
  lemma {:induction false} InsertAllIntoMerge(p: nat, a: seq<Byte>, b: seq<Byte>, xs: seq<U64>)
    requires Sized(p, a) && Sized(p, b)
    ensures InsertAll(p, Merge(a, b), xs) == Merge(InsertAll(p, a, xs), b)
    decreases |xs|
  {
    if xs != [] {
      InsertIntoMerge(p, a, b, xs[0]);
      InsertAllIntoMerge(p, Insert(p, a, xs[0]), b, xs[1..]);
    }
  }

  /**
   Merging the summaries of two streams gives the summary of the
   concatenated stream: merge is the union of the inputs.
   */
  lemma MergeIsUnion(p: nat, xs: seq<U64>, ys: seq<U64>)
    requires ValidPrecision(p)
    ensures InsertAll(p, Zero(p), xs + ys)
         == Merge(InsertAll(p, Zero(p), xs), InsertAll(p, Zero(p), ys))
  {
    var a := InsertAll(p, Zero(p), xs);
    InsertAllAppend(p, Zero(p), xs, ys);
    MergeZeroIdentity(p, a);
    InsertAllIntoMerge(p, Zero(p), a, ys);
    MergeCommutative(InsertAll(p, Zero(p), ys), a);
  }
}
