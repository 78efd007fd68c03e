/**
 The register store: `M = 2^P` byte-sized counters (the `Registers`
 trait and its `[u8; M]` instances, src/lib.rs:136-148, 254-284).
 */
module Store {
  import opened Bits

  /** A `u8` register cell. */
  type Byte = x: int | 0 <= x < 256

  /** The precisions the `Registers` trait admits (`4..=18`). */
  predicate ValidPrecision(p: nat) {
    4 <= p <= 18
  }

  /** `REGISTERS == 2^PRECISION`. */
  function RegisterCount(p: nat): nat {
    Pow2(p)
  }

  /** The largest run length insertion can record: 64 - P + 1. */
  function MaxRho(p: nat): nat
    requires ValidPrecision(p)
  {
    HashWidth - p + 1
  }

  /** A store of the right length for precision `p`. */
  predicate Sized(p: nat, regs: seq<Byte>) {
    ValidPrecision(p) && |regs| == RegisterCount(p)
  }

  /** A sized store whose every register is a run length insertion can produce. */
  predicate WellFormed(p: nat, regs: seq<Byte>) {
    Sized(p, regs) && forall i :: 0 <= i < |regs| ==> regs[i] <= MaxRho(p)
  }

  /** Register-wise order: every register of `a` is at most that of `b`. */
  predicate Le(a: seq<Byte>, b: seq<Byte>) {
    |a| == |b| && forall i :: 0 <= i < |a| ==> a[i] <= b[i]
  }

  function Max(a: Byte, b: Byte): (r: Byte)
    ensures a <= r && b <= r
    ensures r == a || r == b
  {
    if a < b then b else a
  }

  /** `R::zero()`: the fresh store every counter starts from. */
  function Zero(p: nat): (r: seq<Byte>)
    requires ValidPrecision(p)
    ensures WellFormed(p, r)
    ensures forall i :: 0 <= i < |r| ==> r[i] == 0
  {
    seq(RegisterCount(p), _ => 0)
  }

  /** `bytecount::count(registers, 0)`: how many registers are still zero. */
  function CountZeros(regs: seq<Byte>): (n: nat)
    ensures n == multiset(regs)[0]
    ensures n <= |regs|
    ensures n == |regs| <==> forall i :: 0 <= i < |regs| ==> regs[i] == 0
    ensures n == 0 <==> forall i :: 0 <= i < |regs| ==> regs[i] != 0
  {
    if regs == [] then 0
    else
      assert regs == regs[..|regs| - 1] + [regs[|regs| - 1]];
      (if regs[|regs| - 1] == 0 then 1 else 0) + CountZeros(regs[..|regs| - 1])
  }

  /** `clear`: `registers_mut().fill(0)` (src/lib.rs:196-198). */
  function Clear(regs: seq<Byte>): (r: seq<Byte>)
    ensures |r| == |regs|
    ensures forall i :: 0 <= i < |r| ==> r[i] == 0
    ensures CountZeros(r) == |regs|
    ensures forall p :: Sized(p, regs) ==> WellFormed(p, r) && r == Zero(p)
  {
    seq(|regs|, _ => 0)
  }

  /** A cleared store is the smallest store: it lies below every store. */
  lemma ClearIsBottom(regs: seq<Byte>, other: seq<Byte>)
    requires |other| == |regs|
    ensures Le(Clear(regs), other)
  {
  }
}
