/**
 The alphabet contract of `compress`/`decompress` (src/lib.rs:200-252).
 The arithmetic coder itself belongs to the `arcode` crate and is not
 modelled: a symbol stream stands for what is handed to it, and a
 decoded stream is assumed to hold only symbols of the model's alphabet.
 */
module Codec {
  import opened Bits
  import opened Store
  import opened Insertion

  /** `compression_symbols(precision) = 64 + 1 - precision`. */
  function CompressionSymbols(p: nat): nat
    requires ValidPrecision(p)
  {
    HashWidth + 1 - p
  }

  /** `sym.min(64 - PRECISION)`: the symbol handed to `encode`. */
  function EncodedSymbol(p: nat, reg: Byte): (s: nat)
    requires ValidPrecision(p)
    ensures s < CompressionSymbols(p)
    ensures s <= reg
    ensures s == reg <==> reg < CompressionSymbols(p)
    ensures reg >= CompressionSymbols(p) ==> s == CompressionSymbols(p) - 1
  {
    if reg < HashWidth - p then reg else HashWidth - p
  }

  /** The symbols handed to `encode`, one per register in index order. */
  function EncodedSymbols(p: nat, regs: seq<Byte>): (syms: seq<nat>)
    requires ValidPrecision(p)
    ensures |syms| == |regs|
    ensures forall i :: 0 <= i < |syms| ==> syms[i] < CompressionSymbols(p)
    ensures forall i :: 0 <= i < |syms| ==> (syms[i] == regs[i] <==> regs[i] < CompressionSymbols(p))
    ensures forall i :: 0 <= i < |syms| && regs[i] >= CompressionSymbols(p) ==> syms[i] == CompressionSymbols(p) - 1
  {
    seq(|regs|, i requires 0 <= i < |regs| => EncodedSymbol(p, regs[i]))
  }

  /** The symbols handed to `model.update_symbol`: the registers, unclamped. */
  function UpdatedSymbols(regs: seq<Byte>): (syms: seq<nat>)
    ensures |syms| == |regs|
    ensures forall i :: 0 <= i < |syms| ==> syms[i] == regs[i]
  {
    seq(|regs|, i requires 0 <= i < |regs| => regs[i])
  }

  /** `*decompressed = sym as u8`: a decoded symbol stream written back as registers. */
  function Decompressed(syms: seq<nat>): (regs: seq<Byte>)
    ensures |regs| == |syms|
    ensures forall i :: 0 <= i < |syms| && syms[i] < 256 ==> regs[i] == syms[i]
  {
    seq(|syms|, i requires 0 <= i < |syms| => syms[i] % 256)
  }

  /** The store reached by inserting the hash 0: register 0 holds 65 - P. */
  function TopStore(p: nat): (regs: seq<Byte>)
    requires ValidPrecision(p)
    ensures WellFormed(p, regs)
    ensures regs[0] == MaxRho(p) == CompressionSymbols(p)
  {
    Insert(p, Zero(p), 0)
  }

  /** The store reached by inserting the hash 2^P: register 0 holds 64 - P. */
  function BelowTopStore(p: nat): (regs: seq<Byte>)
    requires ValidPrecision(p)
    ensures WellFormed(p, regs)
    ensures regs[0] == MaxRho(p) - 1
  {
    Pow2Monotone(p, HashWidth - 1);
    Pow2Is64();
    var x: U64 := Pow2(p);
    assert Tail(p, x) == 1 && Bucket(p, x) == 0;
    BitLengthUnique(1, 1);
    Insert(p, Zero(p), x)
  }

  /**
   As written, the alphabet has no symbol for the run length 65 - P
   that insertion stores for a hash whose upper 64 - P bits are zero:
   no stream the decoder can produce restores that store, the clamp
   maps it onto the store holding 64 - P, and `update_symbol` is handed
   a symbol outside the alphabet.
   */
  lemma ClampedRoundTripFails(p: nat, syms: seq<nat>)
    requires ValidPrecision(p)
    requires forall i :: 0 <= i < |syms| ==> syms[i] < CompressionSymbols(p)
    ensures Decompressed(syms) != TopStore(p)
    ensures var below := BelowTopStore(p);
      && below != TopStore(p)
      && EncodedSymbols(p, below) == EncodedSymbols(p, TopStore(p))
    ensures UpdatedSymbols(TopStore(p))[0] >= CompressionSymbols(p)
  {
    if |syms| == |TopStore(p)| {
      assert Decompressed(syms)[0] < CompressionSymbols(p);
    }
  }

  /** The alphabet that covers every run length insertion can store: 66 - P symbols. */
  function WideSymbols(p: nat): nat
    requires ValidPrecision(p)
  {
    HashWidth + 2 - p
  }

  /**
   The intended encoding: every register of a well-formed store is a
   symbol of the wide alphabet, handed over unclamped, and writing the
   stream back gives the store again.
   */
  function WideEncodedSymbols(p: nat, regs: seq<Byte>): (syms: seq<nat>)
    requires WellFormed(p, regs)
    ensures |syms| == |regs|
    ensures forall i :: 0 <= i < |syms| ==> syms[i] < WideSymbols(p)
    ensures Decompressed(syms) == regs
  {
    seq(|regs|, i requires 0 <= i < |regs| => regs[i])
  }

  /** Any stream over the wide alphabet writes back a well-formed store. */
  lemma WideDecodeWellFormed(p: nat, syms: seq<nat>)
    requires ValidPrecision(p) && |syms| == RegisterCount(p)
    requires forall i :: 0 <= i < |syms| ==> syms[i] < WideSymbols(p)
    ensures WellFormed(p, Decompressed(syms))
    ensures WideEncodedSymbols(p, Decompressed(syms)) == syms
  {
  }
}
