# Golomb-coded set filters, modelled in Dafny

This project models the core of `rust-bitcoin-gcs`, an early draft of the
Golomb-Coded Set (GCS) filters of BIP 158. A filter is built from a list of
byte strings ("entries") in five steps:

1. Hash each entry to a 64-bit value.
2. Map the hash into `[0, N * 2^P)` with Lemire's multiply-and-shift
   reduction.
3. Sort the values.
4. Take the differences between consecutive values.
5. Write each difference as a Golomb-Rice codeword, most significant bit
   first: the quotient by `2^P` as one-bits, then a zero-bit, then the P
   low bits.

The crate has two entry collectors:

- The `Builder` in `src/lib.rs` keeps its entries in a set.
- The `Builder` in `src/builder.rs` appends entries to a list. Its
  basic-filter function adds one group of entries per transaction of a
  block: the transaction id, then the outpoints its inputs spend (skipped
  for the coinbase), then its output scripts.

Modules:

- `MachineInts`: the Rust integer types as newtypes, plus the shifts, the
  mask `&` and little-endian byte order the code uses.
- `Sorting`: `Vec::sort` as a function with its sortedness and permutation
  contract, and an element-wise map.
- `GolombRice`: codewords, their concatenation and length, the differences
  of a sorted list and their running totals, and the packing of bits into
  bytes. It also holds a decoder that exists only to specify the format:
  the crate itself has no decoder.
- `Gcs` (`src/lib.rs`): `reduce`, the `Filter` record, `Filter::build` as an
  imperative method proved equal to a functional specification
  `BuildSpec`, `Filter::from_bytes`, and the set-based `Builder` class.
- `BasicFilter` (`src/builder.rs`): the list-based `Builder` class, the
  36-byte outpoint serialisation it writes into an array, and
  `build_basic_filter` over an abstract block.

What the model proves about a built filter:

- It decodes to its N reduced hash values, in ascending order. Each value
  is below `N * 2^P`.
- It depends only on the multiset of entries, so any order of a set of
  entries gives the same filter.
- Duplicate entries are kept.
- Its byte length is that of the concatenated codewords, rounded up to
  whole bytes.

This draft differs from the final BIP 158 in several places; the model
follows the code:

- BIP 158 takes a false-positive parameter M separately from P (for basic
  filters, P = 19 and M = 784931). Here M is fixed at `2^P`, so
  `modulus_np = N << P`, and `DEFAULT_P` is 20.
- BIP 158 serialises a filter as N in CompactSize form followed by the
  bit stream. Here N is a separate field and the bytes hold only the coded
  bits.
- BIP 158 keys SipHash-2-4 with the first 16 bytes of the block hash. Here
  the hasher is created with its default keys, and the filter key is
  accepted but never used.
- BIP 158 builds a filter from a set of distinct items. Here
  `Filter::build` keeps duplicate entries; only the `src/lib.rs` builder
  collapses duplicates, by storing entries in a set.
- BIP 158 defines membership queries. Here `is_member` and `is_member_any`
  are `unimplemented!()`, and the crate has no decoder.
- The basic filter of BIP 158 holds the output scripts and the scripts the
  inputs spend. Here `build_basic_filter` adds each transaction's id, the
  outpoints its inputs spend and its output scripts.

The code panics (an `assert!`) when P is above 32 and when a filter would
have more than `u32::MAX` entries.

Environment boundaries come in as parameters:

- The SipHash function `hash: seq<u8> -> u64` is a parameter of every
  build.
- Each transaction's id and the block hash are fields of the abstract
  block record.

## Model

| member | source | states |
|---|---|---|
| MachineInts.Shl64NoWrap | src/lib.rs:133 | with n below 2^32 and p <= 32 the shift `n << p` loses no bits: it equals n * 2^p |
| MachineInts.Shr64 | src/lib.rs:165 | x >> s is the quotient q with q * 2^s <= x < (q + 1) * 2^s |
| MachineInts.BitAndLowMask | src/lib.rs:161 | masking with 2^p - 1 keeps exactly x mod 2^p |
| MachineInts.LeValueOfLeBytes | src/builder.rs:78 | writing v to w little-endian bytes and reading them back gives v mod 2^(8w) |
| MachineInts.LeBytesOfLeValue | src/builder.rs:37-38 | reading bytes little-endian and writing the value back to as many bytes gives the same bytes |
| Sorting.Sort | src/lib.rs:148 | the sorted list is ascending, a permutation of the input and as long as it |
| Sorting.SortedUnique | src/lib.rs:148 | two ascending lists holding the same multiset are equal, so the result of sorting is unique |
| Sorting.SortPermutationInvariant | src/lib.rs:148 | sorting two rearrangements of a list gives the same list |
| Sorting.MapPermutation | src/lib.rs:141-147 | hashing a rearranged entry list rearranges the values the same way |
| GolombRice.Shl64Bits | src/lib.rs:161 | `x << s` on a u64 drops the s most significant bits of x and brings in s zero-bits at the bottom |
| GolombRice.ShiftBits | src/lib.rs:133 | multiplying by 2^s modulo 2^w moves the w bits of x up s places, losing the top s and filling in zero-bits |
| GolombRice.ValueOfBitsBE | src/lib.rs:178 | the p bits written for a remainder, read most significant first, give the remainder's p low bits |
| GolombRice.BitsBEOfValue | src/lib.rs:178 | a bit string is the big-endian writing of its own value |
| GolombRice.CodewordStructure | src/lib.rs:161-178 | a codeword is q = d / 2^p one-bits, one zero-bit and then p bits whose value r satisfies q * 2^p + r == d, for q + 1 + p bits in all |
| GolombRice.EncodeAllConcat | src/lib.rs:158-179 | the codewords of a list appear in list order: encoding a + b is encoding a followed by encoding b |
| GolombRice.EncodeAllLength | src/lib.rs:158-179 | the bit length of the encoded list is the sum of q_i + 1 + p over its elements |
| GolombRice.DeltasNonNegativeIffSorted | src/lib.rs:148-166 | every difference `*v - last_value` is non-negative exactly when the list is sorted, so a sorted list causes no u64 underflow |
| GolombRice.PrefixSumsOfDeltas | src/lib.rs:155-166 | the running totals of the written differences give back the sorted value list |
| GolombRice.DeltasOfPrefixSums | src/lib.rs:155-166 | conversely, the differences of a list of running totals are the summed numbers |
| GolombRice.PackBits | src/lib.rs:157 | n bits pack into (n + 7) / 8 bytes |
| GolombRice.UnpackPackBits | src/lib.rs:157-182 | unpacking packed bits gives the bits back, followed only by the zero padding of the last byte |
| GolombRice.PackUnpackBytes | src/lib.rs:157-182 | packing the bits of a byte string gives back that byte string |
| GolombRice.DecodeUnaryOfUnary | src/lib.rs:170-174 | a run of q one-bits closed by a zero-bit reads back as q, with the rest of the stream untouched |
| GolombRice.DecodeCodewordRoundTrip | src/lib.rs:161-178 | reading one codeword back from the stream yields the difference it was written for, with the rest of the stream untouched |
| GolombRice.DecodeAllRoundTrip | src/lib.rs:158-179 | reading as many codewords as ds holds back from the encoding of ds yields ds in order, with whatever followed untouched |
| Gcs.Reduce | src/lib.rs:244-246 | reduce(x, n) is floor(x * n / 2^64) computed in 128 bits: below n when n > 0, and 0 when n == 0 |
| Gcs.ReduceBounds | src/lib.rs:244-246 | the 128-bit product does not overflow and its high half fits a u64 and is below n when n > 0 |
| Gcs.Modulus | src/lib.rs:133 | `u64::from(n) << p` is n * 2^p for p <= 32 |
| Gcs.HashedValues | src/lib.rs:140-147 | the value list has one entry per datum, in datum order: the datum's hash reduced into the modulus |
| Gcs.Filter.FromBytes | src/lib.rs:188-197 | N, P and the bytes are kept as given; the modulus is N * 2^P; the filter is empty exactly when N == 0; P above 32 panics |
| Gcs.Filter.IsEmpty | src/lib.rs:210-212 | for a filter the crate makes, being empty (N == 0) is the same as having modulus 0 |
| Gcs.Filter.Build | src/lib.rs:121-185 | the built filter is the filter the specification yields, with N equal to the entry count, the given P and modulus N * 2^P; no entries give modulus 0 and no bytes; too many entries or P above 32 panic |
| Gcs.BuildSpec | src/lib.rs:121-185 | the specified filter has N = entry count, the given P and modulus N * 2^P; it is empty exactly when there are no entries, and then has modulus 0 and no bytes |
| Gcs.WriteCodes | src/lib.rs:150-182 | the loop over sorted values writes the packed codewords of their consecutive differences; `last_value` is always the previous value |
| Gcs.WriteCodeword | src/lib.rs:158-178 | one loop pass appends exactly the codeword of v - last_value: the quotient in unary, a zero-bit and the p-bit remainder |
| Gcs.MaskFacts | src/lib.rs:161-165 | the mask gives d mod 2^p, no larger than d, and shifting the rounded-down difference gives d / 2^p |
| Gcs.CodewordStep | src/lib.rs:158-166 | the j-th difference is the j-th sorted value minus the previous one, and its codeword extends the encoding of the first j differences |
| Gcs.FilterValues | src/lib.rs:140-148 | the stored values are sorted, one per entry, each below N * 2^P |
| Gcs.BuildDecodes | src/lib.rs:121-185 | decoding the built filter's bytes as N codewords and summing them up gives exactly the sorted reduced hash values |
| Gcs.DecodedInRange | src/lib.rs:140-147 | the built filter decodes to N values, each in [0, N * 2^P) |
| Gcs.BuildOrderIndependent | src/lib.rs:121-148 | permuting the entries yields the identical filter: same N, P, modulus and bytes |
| Gcs.BuildSize | src/lib.rs:150-182 | for every entry list, including the empty one, the filter holds (sum of q_i + 1 + P, plus 7) / 8 bytes |
| Gcs.BuildKeepsDuplicates | src/lib.rs:126-127 | the same entry twice gives N = 2 and two equal decoded values: duplicates are not collapsed |
| Gcs.Builder.constructor | src/lib.rs:29-35 | a new builder has P = 0, an all-zero 16-byte key and no entries |
| Gcs.Builder.DeriveKey | src/lib.rs:49-53 | the key becomes the first 16 bytes of the hash; P and the entries are unchanged |
| Gcs.Builder.SetKey | src/lib.rs:56-59 | only the key changes |
| Gcs.Builder.SetP | src/lib.rs:66-70 | only P changes; P above 32 panics |
| Gcs.Builder.AddEntry | src/lib.rs:73-76 | the entry set gains the entry; adding one already present changes nothing |
| Gcs.Builder.Key | src/lib.rs:86-88 | returns the builder's 16-byte key |
| Gcs.Builder.Build | src/lib.rs:93-100 | the filter has N = number of distinct entries and the builder's P, and equals the filter built from every enumeration of the set, so the iteration order does not matter |
| Gcs.EnumerationExists | src/lib.rs:94-97 | every entry set has an enumeration, so the filter `Builder::build` promises exists |
| BasicFilter.ReadU64LE | src/builder.rs:37-38 | the u64 read from 8 bytes is the one whose little-endian bytes are those 8 bytes |
| BasicFilter.OutpointEntry | src/builder.rs:72-82 | an outpoint entry is 36 bytes long |
| BasicFilter.OutpointEntryFields | src/builder.rs:72-82 | an outpoint entry holds the 32 txid bytes, then the index truncated to u32 in little-endian order |
| BasicFilter.OutpointEntryInjective | src/builder.rs:72-82 | equal outpoint entries have the same txid and the same index modulo 2^32 |
| BasicFilter.InputEntriesAt | src/builder.rs:145-151 | the k-th input contributes the entry of the outpoint (prev_hash, prev_index) |
| BasicFilter.OutputEntriesAt | src/builder.rs:157-161 | the k-th output contributes its script bytes |
| BasicFilter.InputEntriesStep | src/builder.rs:145-152 | handling one more input appends its outpoint entry |
| BasicFilter.OutputEntriesStep | src/builder.rs:157-161 | handling one more output appends its script |
| BasicFilter.TxEntries | src/builder.rs:137-162 | a transaction contributes one entry, plus one per input unless it is the coinbase, plus one per output |
| BasicFilter.TxEntriesLayout | src/builder.rs:137-162 | a transaction's entries are its txid, then for non-coinbase transactions one outpoint per input in input order, then one script per output in output order |
| BasicFilter.TxEntryOfInput | src/builder.rs:141-153 | entry 1 + k of a non-coinbase transaction is the outpoint of its k-th input |
| BasicFilter.TxEntryOfOutput | src/builder.rs:155-161 | the outputs' scripts follow the txid and, unless it is the coinbase, the inputs |
| BasicFilter.BlockEntries | src/builder.rs:137-162 | the block contributes as many entries as the pre-count says |
| BasicFilter.BlockEntriesStep | src/builder.rs:137-162 | handling transaction k appends its entries, as coinbase exactly when k == 0 |
| BasicFilter.BlockEntriesPrefix | src/builder.rs:137-162 | the entries of the first k transactions begin the block's entries |
| BasicFilter.BlockEntriesLayout | src/builder.rs:124-162 | the entries of transaction k sit right after those of the transactions before it, in block order; only the first transaction's inputs are skipped |
| BasicFilter.Builder.constructor | src/builder.rs:22-28 | a new builder has P = 0, key (0, 0) and no entries |
| BasicFilter.Builder.DeriveKey | src/builder.rs:36-41 | the key is the two little-endian u64 words of hash[0..8] and hash[8..16], whose bytes are the first 16 bytes of the hash; P and the entries are unchanged |
| BasicFilter.Builder.SetKey | src/builder.rs:44-47 | only the key changes |
| BasicFilter.Builder.SetP | src/builder.rs:54-58 | only P changes; P above 32 panics |
| BasicFilter.Builder.Reserve | src/builder.rs:61-64 | the entries, P and the key are unchanged |
| BasicFilter.Builder.AddEntry | src/builder.rs:67-70 | exactly one copy of the entry is appended after the earlier ones, duplicates included |
| BasicFilter.Builder.AddOutpoint | src/builder.rs:72-82 | the 36-byte outpoint entry is appended and nothing else changes |
| BasicFilter.Builder.AddHash | src/builder.rs:84-89 | the hash's 32 bytes are appended and nothing else changes |
| BasicFilter.Builder.Key | src/builder.rs:99-101 | returns the builder's key pair |
| BasicFilter.Builder.Build | src/builder.rs:106-108 | the filter is built from the entries in insertion order with the builder's P |
| BasicFilter.WriteU32LE | src/builder.rs:78 | the four bytes at the offset become v in little-endian order and the rest of the buffer is unchanged |
| BasicFilter.CountEntries | src/builder.rs:119-130 | the pre-count equals the number of entries the block contributes |
| BasicFilter.BuildBasicFilter | src/builder.rs:111-165 | the basic filter is the filter with P = 20 built from the block's entries in block order |
| BasicFilter.AddBlockEntries | src/builder.rs:137-162 | the entry loop appends the entries of every transaction in block order, the first as the coinbase |
| BasicFilter.AddTransaction | src/builder.rs:138-161 | one pass appends the txid, then each input's outpoint unless it is the coinbase, then each output's script |

## Left out

- SipHash-2-4 is not modelled. It is the function parameter `hash`, applied
  to the entry bytes alone, because the hasher is created with its default
  keys and the filter key is ignored.
- The bit writer of the `bitstream_io` crate is not part of this model.
  Bits are collected in a `seq<bool>`. The filter bytes are those bits
  packed most significant bit first, with the last byte filled up with
  zero-bits (`GolombRice.PackBits`). How that library flushes a partial
  final byte is outside the code shown, so this packing is an assumption.
  `UnpackPackBits` states the properties at the bit level as well.
- `Vec::sort` is modelled as the function `Sorting.Sort`, specified by its
  result (ascending and a permutation), not as an in-place algorithm. It is
  library code not shown.
- `Builder::random_key` (src/lib.rs:41-43) is left out: it only panics.
- `Filter::is_member` and `Filter::is_member_any` (src/lib.rs:218-229) are
  left out: they are `unimplemented!()`. The decoder in `GolombRice` is a
  specification device, not a model of crate code.
- The accessors `Filter::n`, `Filter::p` and `Filter::as_bytes` are the
  fields of the `Filter` datatype. `Filter::is_empty` is the member
  `Filter.IsEmpty`.
- `Builder::build` in src/lib.rs visits its `HashSet` in an order the
  model leaves open. The method picks the elements one by one with `:|`.
  Its contract holds for every enumeration of the set.
- The set-based builder stores its 16-byte key as a `seq<u8>` of length
  `KEY_SIZE`, not as a fixed-size array.
- The builder methods of the crate return `&mut Builder` for chaining. The
  methods here return nothing and update the object in place.
- The type parameter `D` of `add_entry` in src/lib.rs has no counterpart:
  nothing uses it.
- src/builder.rs:107 passes a `(u64, u64)` key to a `Filter::build` that
  takes `[u8; 16]`. `Gcs.Filter.Build` takes a key of any type. This is
  harmless because the key is never used.
- Bitcoin library types are abstract records. Each transaction carries its
  id, inputs (previous txid and output index) and output scripts. The
  block carries its hash and its transactions. No consensus encoding and
  no double-SHA256 are modelled.
- `script_pubkey.data()` is taken to give the script's bytes, which the
  abstract `TxOut.script` holds.
- The usize counter of `build_basic_filter` is an unbounded `nat`. A usize
  overflow would need more than 2^64 entries and is not modelled.
- tests/vectors.rs is not part of this model. It decodes JSON, hex and
  blocks, compares against real SipHash output, and calls a
  `Filter::from_nbytes` that src/lib.rs does not define.
- The panicking `assert!`s are modelled as `requires` clauses: P <= 32 in
  `Filter::build`, `Filter::from_bytes` and both builders' `set_p`
  (src/lib.rs:67, src/lib.rs:124, src/lib.rs:189, src/builder.rs:55), and
  at most `u32::MAX` entries in `Filter::build` (src/lib.rs:123). The model
  does not describe what a panic does; it only shows that no call meeting
  the `requires` panics.
- Some loops of the source are separate methods here:
  - The coding loop of `Filter::build` (src/lib.rs:158-179) is
    `WriteCodes`. Its body, including the inner `while value > 0` loop, is
    `WriteCodeword`.
  - The hashing loop (src/lib.rs:141-147) stays inline in
    `Gcs.Filter.Build`.
  - The counting loop of `build_basic_filter` (src/builder.rs:121-130) is
    `CountEntries`.
  - Its entry loop (src/builder.rs:137-162) is `AddBlockEntries`, with
    the body of one transaction in `AddTransaction`.
- In the source the coding loop sets `last_value = *v` (src/lib.rs:166)
  before writing the bits. `WriteCodes` updates `lastValue` after
  `WriteCodeword` returns. The bits written are the same, because they
  depend only on the difference, which is computed before the update in
  both.
