# HyperLogLog register logic in Dafny

This project models the integer core of the `hyperloglog` crate (`src/lib.rs`). The crate is an approximate counter of distinct elements. Its state is a store of `M = 2^P` byte registers, with the precision `P` in `4..=18`.

The model covers:

- **Insertion.** This is the part of `Registers::insert` that runs after hashing. The 64-bit hash `x` is an input. Its low `P` bits pick the bucket `j`. The remaining tail `w` gives the run length `rho = (64 - P) - bit_length(w) + 1`, and `reg[j]` becomes `max(reg[j], rho)`.
- **Merge** (a register-wise maximum) and **clear** (a zero fill).
- **The estimator's regime switch**, over exact reals.
- **The six-nearest-neighbour search of `estimate_bias`.** This is a binary-search partition point, a clamped window of ±6, and a two-pointer shrink down to six indices. The loop is modelled twice: as a recursive reference function (`Bias.Shrink`) and as the imperative loop of the source (`Bias.ShrinkLoop`), which is proved equal to the reference.
- **The alphabet contract of the compressor.** There are `65 - P` symbols, and every register is clamped to `64 - P` before it is encoded.

Registers are `seq<Byte>`, where `Byte` is `0..255`. A store is `Sized` when its length is `2^P`. It is `WellFormed` when, in addition, every register is at most `65 - P`.

The compressor assumes register values `0..=64 - P`: its alphabet has `compression_symbols(P) = 65 - P` symbols (src/lib.rs:250-252), and every register is clamped to `64 - P` before encoding (src/lib.rs:214). But `get_rho` returns `65 - P` when the tail is zero, and `insert` stores that value. The model follows the code. The "## Findings" section explains the consequence for the compressor.

Modelling choices:

- The hash is a `U64`, an integer in `[0, 2^64)`. The mask `x & (REGISTERS - 1)` is modelled as `x % 2^P`, and the shift `x >> PRECISION` as `x / 2^P`. These are the usual identities for unsigned values. `bit_length` is modelled as `64 - leading_zeros`, where the leading zeros are counted by an independent scan that starts at the most significant bit.
- `get_rho` uses wrapping `u8` arithmetic, as in a release build. Its `assert!(rho > 0)` becomes `None`.
- Floating point is replaced by `real`. The natural logarithm is a parameter (`ln: real -> real`). The constant tables for one precision (threshold, sorted raw estimates, biases) are a parameter (`Estimator.Tables`).

## Model

| member | source | states |
|---|---|---|
| Bits.LeadingZeros | src/lib.rs:301-303 | the number of leading zero bits of `x` in a `width`-bit window: at most `width`; `x` fits in `width - r` bits and, unless `r == width`, its highest set bit is bit `width - r - 1`; the count is `width` exactly when `x == 0` |
| Bits.BitLength | src/lib.rs:301-303 | `bit_length(x) = 64 - leading_zeros(x)` is at most 64, is 0 exactly for 0, and satisfies `2^(r-1) <= x < 2^r` for `x > 0` |
| Bits.BitLengthAtMost | src/lib.rs:301-303 | a value below `2^k` has a bit length of at most `k` |
| Bits.BitLengthUnique | src/lib.rs:301-303 | the bit length is the only `n` with `2^(n-1) <= x < 2^n` |
| Bits.LeadingZerosWiden | src/lib.rs:158-159 | leading zeros of a `k`-bit value in a wider window are the extra top bits plus its leading zeros within `k` bits |
| Store.Zero | src/lib.rs:260-262 | `R::zero()` is a well-formed store of `2^P` registers, all zero |
| Store.CountZeros | src/lib.rs:168 | the zero count is the number of registers equal to 0 (the multiplicity of 0); it is at most the length; it equals the length exactly when every register is zero, and is 0 exactly when none is |
| Store.Clear | src/lib.rs:196-198 | after `clear` the length is unchanged, every register is 0, the zero count equals `REGISTERS`, and the result is the fresh store |
| Store.ClearIsBottom | src/lib.rs:196-198 | a cleared store lies register-wise below every store of the same length |
| Merging.Merge | src/lib.rs:188-193 | each register becomes `max(dst[i], src[i])`; the length is kept; well-formedness is kept |
| Merging.MergeCommutative | src/lib.rs:188-193 | `merge(a, b) == merge(b, a)` |
| Merging.MergeAssociative | src/lib.rs:188-193 | `merge(merge(a, b), c) == merge(a, merge(b, c))` |
| Merging.MergeIdempotent | src/lib.rs:188-193 | `merge(a, a) == a` |
| Merging.MergeZeroIdentity | src/lib.rs:188-193 | the all-zero store is a left and right identity of merge |
| Merging.MergeLeastUpperBound | src/lib.rs:188-193 | merge lies above both inputs, and it lies below `c` exactly when both inputs do |
| Merging.MergeMonotone | src/lib.rs:188-193 | merging into a larger store gives a larger result |
| Insertion.Bucket | src/lib.rs:157 | the bucket index is below `REGISTERS`, and `x == tail * 2^P + bucket`, so the register write is in bounds |
| Insertion.Tail | src/lib.rs:158 | the tail `x >> P` fits in `64 - P` bits |
| Insertion.GetRho | src/lib.rs:305-309 | a returned run length is positive; when `bit_length(w) <= max_width < 255`, the assertion holds and the result is `max_width + 1 - bit_length(w)` |
| Insertion.Rho | src/lib.rs:158-159 | on the insert path `get_rho` never fails; `rho` lies in `[1, 65 - P]`, equals `65 - P` exactly when the tail is 0, and is one plus the leading zeros of the tail in its `(64 - P)`-bit window |
| Insertion.Insert | src/lib.rs:156-163 | `reg[j]` becomes `max(reg[j], rho)` for the bucket `j`; every other register is unchanged; size and well-formedness are kept |
| Insertion.InsertMonotone | src/lib.rs:160-163 | insertion never decreases any register |
| Insertion.InsertIdempotent | src/lib.rs:160-163 | inserting the same hash twice equals inserting it once |
| Insertion.InsertCommutes | src/lib.rs:160-163 | two insertions commute |
| Insertion.InsertPreservesLe | src/lib.rs:160-163 | insertion is monotone in the register-wise order |
| Insertion.InsertIntoMerge | src/lib.rs:156-193 | inserting into `merge(a, b)` equals inserting into `a` and then merging `b` |
| Insertion.InsertAll | tests/tests.rs:73-75 | inserting a stream of hashes keeps the size and well-formedness, and never lowers a register |
| Insertion.InsertAllAppend | tests/tests.rs:73-75 | inserting `xs + ys` is inserting `xs` and then `ys` |
| Insertion.InsertAllCommutesWithInsert | src/lib.rs:160-163 | one insertion can be moved past a whole stream |
| Insertion.InsertAllSplit | tests/tests.rs:73-75 | inserting `before + [x] + after` is inserting `x` right after `before` |
| Insertion.InsertAllExtract | src/lib.rs:160-163 | any hash of a stream can be taken out and inserted last |
| Insertion.InsertAllOrderIndependent | src/lib.rs:156-163 | two streams with the same multiset of hashes give the same store |
| Insertion.InsertAllIntoMerge | src/lib.rs:156-193 | a stream inserted into a merged store can be merged last |
| Insertion.MergeIsUnion | src/lib.rs:187-193 | merging the summaries of two streams gives the summary of their concatenation |
| Bias.CountBelowSplits | src/lib.rs:315-316 | in a sorted vector, the entries below `e` are exactly the first `CountBelow(v, e)` entries |
| Bias.SplitUnique | src/lib.rs:316 | a vector has at most one split point for `e` |
| Bias.PartitionPoint | src/lib.rs:316 | binary search returns the partition point: entries before it are below `e`, entries from it on are not, and it equals the reference count |
| Bias.InitialWindow | src/lib.rs:318-323 | the clamped window contains `pp`, stays within `[pp - 6, pp + 6]` and `[0, len]`, and holds at least six indices whenever `len >= 6` |
| Bias.Step | src/lib.rs:326-331 | one shrink step removes exactly one index, from one end |
| Bias.Shrink | src/lib.rs:325-332 | the shrink terminates (the width decreases) with exactly six indices inside the starting window |
| Bias.StepKeepsNearest | src/lib.rs:326-331 | the endpoint one step drops is at least as far from the estimate as every index it keeps |
| Bias.KeepsNearestTransitive | src/lib.rs:325-332 | the nearest-neighbour relation between windows composes over successive steps |
| Bias.ShrinkKeepsNearest | src/lib.rs:325-332 | every index the shrink drops is at least as far from the estimate as every index it keeps |
| Bias.BiasWindow | src/lib.rs:316-332 | the averaged window has six indices, lies within the vector, and lies within six places of the partition point |
| Bias.BiasWindowSpec | src/lib.rs:311-334 | for sorted tables, the six averaged indices are in bounds, within ±6 of the partition point, and nearest to the estimate among the clamped window |
| Bias.BiasWindowNearest | src/lib.rs:315-332 | for sorted tables, the ±6 window around the partition point loses no nearer entry: the six averaged indices are nearest to the estimate among the whole vector |
| Bias.ShrinkLoop | src/lib.rs:318-332 | the imperative two-pointer loop ends with `max - min == 6`, `max <= len` and `pp - 6 <= min`, `max <= pp + 6`, and it gives the same window as the reference shrink |
| Bias.SumRange | src/lib.rs:334 | the loop sum over `min..max` equals the reference sum of that slice |
| Bias.ComputeBias | src/lib.rs:311-335 | the imperative `estimate_bias` gives the reference mean bias of the six nearest neighbours, `Bias.EstimateBias`; that functional reference is the one `Estimator.Estimate` uses |
| Estimator.Alpha | src/lib.rs:290-299 | `get_alpha` lies strictly between 0.6 and 0.75 for every admitted precision |
| Estimator.HarmonicSum | src/lib.rs:178 | the sum of `2^-reg` is positive for a non-empty store, at most the register count, and equal to it exactly when every register is zero |
| Estimator.HarmonicSumAntitone | src/lib.rs:178 | a store that is larger register by register has a smaller harmonic sum |
| Estimator.RawFormula | src/lib.rs:179 | `alpha * M^2 / sum` is at least `alpha * M` whenever `0 < sum <= M` |
| Estimator.RawFormulaAntitone | src/lib.rs:179 | a smaller sum gives a larger raw estimate |
| Estimator.RawEstimate | src/lib.rs:178-179 | the raw estimate is at least `alpha * M` |
| Estimator.RawEstimateMonotone | src/lib.rs:177-179 | raising registers never lowers the raw estimate |
| Estimator.InsertNeverLowersRawEstimate | src/lib.rs:156-179 | an insertion never lowers the raw estimate |
| Estimator.Estimate | src/lib.rs:166-185 | the estimate of an all-zero store is exactly 0 (when `ln(1) == 0` and the threshold is not negative); with no zero register and a raw estimate above `5 * M`, the raw estimate is returned unchanged |
| Estimator.ClearedEstimateIsZero | tests/tests.rs:77-78 | after `clear` the estimate is exactly 0 |
| Codec.EncodedSymbol | src/lib.rs:214 | the symbol handed to `encode` is below `compression_symbols(P) = 65 - P` and at most the register; it equals the register exactly when the register is in the alphabet, and is `64 - P` otherwise |
| Codec.EncodedSymbols | src/lib.rs:211-218 | one symbol per register, in index order, every symbol in the alphabet, and each equal to its register exactly when the register is in the alphabet, and `64 - P` otherwise |
| Codec.UpdatedSymbols | src/lib.rs:219 | `update_symbol` receives the registers unclamped |
| Codec.Decompressed | src/lib.rs:238-242 | a decoded stream is written back one register per symbol, keeping every symbol below 256 |
| Codec.TopStore | src/lib.rs:156-163 | inserting the hash 0 gives a well-formed store whose register 0 holds `65 - P`, one past the alphabet |
| Codec.ClampedRoundTripFails | src/lib.rs:250-252 | as written, no decodable stream restores the store of `TopStore`; the clamp maps it onto a different store; and `update_symbol` receives a symbol outside the alphabet |
| Codec.WideEncodedSymbols | src/lib.rs:211-219 | with an alphabet of `66 - P` symbols and no clamp, every register of a well-formed store is a symbol, and writing the stream back restores the store |
| Codec.WideDecodeWellFormed | src/lib.rs:238-242 | every stream over the wide alphabet writes back a well-formed store, and encoding that store gives the stream again |

## Left out

- SipHash-1-3 hashing of the inserted value (src/lib.rs:152-154) is a foreign library. Insertion takes the 64-bit hash as its input.
- The mask and the shift on `x` are not modelled as bit-vector operations. They are integer `%` and `/` by `2^P`, which is the same for unsigned values.
- `get_rho` in a debug build would panic on `u8` overflow. The model uses release-build wrapping arithmetic. On the insert path neither overflows.
- The arithmetic coder, the frequency model, `BitWriter`/`BitReader`, byte padding and the decode error for a short input (src/lib.rs:200-245) all belong to the `arcode` crate. That crate is not part of this model. Only the symbols handed to it, and the write-back of decoded symbols, are modelled. No byte-level round trip is stated.
- The serde/base64 envelope and the thread-local buffer (src/lib.rs:52-134) are wrappers over foreign crates.
- Floating point is left out: `f64` rounding, `ln`, `powi`, and `HyperLogLog::estimate`'s `.round() as u64` (src/lib.rs:42-44). Values are exact reals, and `ln` is a parameter.
- The constant tables in `weights` are not part of this model. One precision's row is a parameter. Indexing the tables by `P - 4` is not modelled.
- Bias.ComputeBias requires at least six reference points. With fewer, the source loop cannot reach a width of 6; it would index out of bounds or underflow. The crate's tables are longer than that.
- Estimator.Estimate: its contract states the all-zero case and the large-range case only. The linear-counting and bias-corrected branches are given by the body and the lemmas about its parts.
- The statistical accuracy tests, the hash-dependent scenario tests (tests/tests.rs) and the fuzz harness depend on real hash values and floating point. They are left out.
- Merge and clear are in-place loops in the source. They are modelled as pure functions on sequences.

## Findings

| source | as written | input that shows it | evidently intended | confidence | as-written member | corrected member |
|---|---|---|---|---|---|---|
| src/lib.rs:250-252 | the compressor's alphabet has `65 - P` symbols (`0..=64 - P`), and `compress` clamps every register to `64 - P` (line 214) | a hash below `2^P`, e.g. `x = 0`: `insert` stores `rho = 65 - P` in register 0. No decoded symbol can restore that value, so the summary does not round-trip through compression. `update_symbol` also receives `65 - P`, which is outside the alphabet | an alphabet of `66 - P` symbols with no clamp, so every value `insert` can store is a symbol | medium, not executed | Codec.ClampedRoundTripFails | Codec.WideEncodedSymbols |
