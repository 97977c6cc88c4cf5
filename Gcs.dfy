/** The filter crate's library file: the multiply-and-shift range
    reduction, the `Filter` record with its construction from entries
    (hash, reduce into [0, N * 2^P), sort, take differences, Golomb-Rice
    code them) and from stored bytes, and the `Builder` that collects
    entries in a set.

    SipHash-2-4 with the hasher's default keys is the parameter `hash`: the
    filter key is passed to `Build` but never used, so the hash of an entry
    depends on its bytes alone. */
module Gcs {
  import opened MachineInts
  import opened Sorting
  import opened GolombRice

  const KEY_SIZE: nat := 16
  /** Default collision probability 2^-20. */
  const DEFAULT_P: u8 := 20

  // ---- Range reduction ----

  /** Maps x uniformly onto [0, n): the high 64 bits of the 128-bit product
      x * n, then truncated to 64 bits. */
  function Reduce(x: u64, n: u64): (r: u64)
    ensures r as int == (x as int * n as int) / TWO_64
    ensures n > 0 ==> r < n
    ensures n == 0 ==> r == 0
  {
    ReduceBounds(x, n);
    var product := x as u128 * n as u128;
    ((product as int / TWO_64) % TWO_64) as u64
  }

  lemma {:induction false} ReduceBounds(x: u64, n: u64)
    ensures x as int * n as int < TWO_128
    ensures (x as int * n as int) / TWO_64 < TWO_64
    ensures n > 0 ==> (x as int * n as int) / TWO_64 < n as int
  {
    var a, b := x as int, n as int;
    MulMonotone(a, b, TWO_64 - 1);
    MulMonotone(TWO_64 - 1, a, TWO_64 - 1);
    assert a * b <= (TWO_64 - 1) * (TWO_64 - 1);
    DivBelow(a * b, TWO_64, TWO_64);
    if n > 0 {
      MulStrict(a, b, TWO_64);
      DivBelow(a * b, b, TWO_64);
    }
  }

  /** a < b * c implies a / c < b. */
  lemma {:induction false} DivBelow(a: nat, b: nat, c: nat)
    requires c > 0 && a < b * c
    ensures a / c < b
  {
    DivModSplit(a, c);
    if a / c >= b {
      MulMonotone(c, b, a / c);
    }
  }

  // ---- The filter record ----

  /** A serialised Golomb-coded set: N, P, the range N * 2^P the values were
      reduced into, and the coded bytes. */
  datatype Filter = Filter(n: u32, p: u8, modulusNP: u64, data: seq<u8>)
  {
    /** Every filter the crate makes has P <= 32 and modulus N * 2^P. */
    ghost predicate Valid()
    {
      p <= 32 && modulusNP as int == n as int * Pow2(p as nat)
    }

    /** A filter is empty when it holds no entries; for a filter the crate
        makes that is the same as a modulus of 0, so every entry would
        reduce to 0. */
    function IsEmpty(): (empty: bool)
      ensures Valid() ==> (empty <==> modulusNP == 0)
    {
      MulNonZero(Pow2(p as nat), n as int);
      n == 0
    }

    /** A filter made from an already built set: N, P and the bytes are kept
        as given and the modulus is computed from them. */
    static function FromBytes(n: u32, p: u8, data: seq<u8>): (f: Filter)
      requires p <= 32
      ensures f.n == n && f.p == p && f.data == data
      ensures f.Valid()
      ensures f.IsEmpty() <==> n == 0
    {
      Filter(n, p, Modulus(n, p), data)
    }

    /** Builds a filter from a list of entries. Panics (here: requires) when
        there are more than u32::MAX entries or P exceeds 32. The key is
        accepted and ignored, whatever its type. */
    static method Build<K>(p: u8, key: K, data: seq<seq<u8>>, hash: seq<u8> -> u64) returns (filter: Filter)
      requires |data| <= U32_MAX
      requires p <= 32
      ensures filter == BuildSpec(p, data, hash)
      ensures filter.Valid() && filter.n as int == |data| && filter.p == p
      ensures |data| == 0 ==> filter.modulusNP == 0 && filter.data == []
    {
      filter := Filter(|data| as u32, p, 0, []);
      Shl64NoWrap(filter.n as u64, filter.p as nat);
      filter := filter.(modulusNP := Shl64(filter.n as u64, filter.p as nat));

      if filter.IsEmpty() {
        return;
      }

      var values: seq<u64> := [];
      var i := 0;
      while i < |data|
        invariant 0 <= i <= |data|
        invariant values == HashedValues(data[..i], hash, filter.modulusNP)
      {
        var v := hash(data[i]);
        v := Reduce(v, filter.modulusNP);
        values := values + [v];
        i := i + 1;
      }
      assert data[..i] == data;
      values := Sort(values);

      var bytes := WriteCodes(values, filter.p);
      filter := filter.(data := bytes);
    }
  }

  /** `u64::from(n) << p`, the range a filter of n entries reduces into. */
  function Modulus(n: u32, p: u8): (m: u64)
    requires p <= 32
    ensures m as int == n as int * Pow2(p as nat)
  {
    Shl64NoWrap(n as u64, p as nat);
    Shl64(n as u64, p as nat)
  }

  // ---- Specification of Filter::build ----

  /** Each entry's hash, reduced into [0, modulus), in entry order. */
  function HashedValues(data: seq<seq<u8>>, hash: seq<u8> -> u64, modulus: u64): (r: seq<u64>)
    ensures |r| == |data|
    ensures forall k :: 0 <= k < |r| ==> r[k] == Reduce(hash(data[k]), modulus)
  {
    Map(d => Reduce(hash(d), modulus), data)
  }

  /** The differences of a sorted list, all of them non-negative. */
  function SortedDeltas(values: seq<u64>): (r: seq<nat>)
    requires Sorted(values)
    ensures r == Deltas(values)
  {
    DeltasNonNegativeIffSorted(values);
    Deltas(values)
  }

  /** The bits a filter body holds for the given entries. */
  function FilterBits(p: u8, data: seq<seq<u8>>, hash: seq<u8> -> u64): seq<bool>
    requires |data| <= U32_MAX && p <= 32
  {
    var values := Sort(HashedValues(data, hash, Modulus(|data| as u32, p)));
    EncodeAll(SortedDeltas(values), p as nat)
  }

  /** The filter that building from these entries yields. */
  function BuildSpec(p: u8, data: seq<seq<u8>>, hash: seq<u8> -> u64): (f: Filter)
    requires |data| <= U32_MAX && p <= 32
    ensures f.Valid() && f.n as int == |data| && f.p == p
    ensures f.IsEmpty() <==> |data| == 0
    ensures |data| == 0 ==> f.modulusNP == 0 && f.data == []
  {
    var n := |data| as u32;
    Filter(n, p, Modulus(n, p), if n == 0 then [] else PackBits(FilterBits(p, data, hash)))
  }

  /** What a reader of the filter's bytes recovers: N codewords decoded and
      summed up again into the values they encode. */
  ghost function DecodedValues(f: Filter): Option<seq<int>>
  {
    match DecodeAll(UnpackBytes(f.data), f.n as nat, f.p as nat)
    case None => None
    case Some(res) => Some(PrefixSums(res.0))
  }

  // ---- Filter::build ----

  /** The block that writes the sorted values into the filter bitstream:
      for each value, the codeword of its difference to the previous one (no
      underflow, as the list is sorted). */
  method WriteCodes(values: seq<u64>, p: u8) returns (data: seq<u8>)
    requires Sorted(values) && p <= 32
    ensures data == PackBits(EncodeAll(SortedDeltas(values), p as nat))
  {
    var bits: seq<bool> := [];
    var lastValue: u64 := 0;
    var j := 0;
    while j < |values|
      invariant 0 <= j <= |values|
      invariant lastValue == if j == 0 then 0 else values[j - 1]
      invariant bits == EncodeAll(SortedDeltas(values)[..j], p as nat)
    {
      var v := values[j];
      ghost var delta := CodewordStep(values, j, p as nat);
      bits := WriteCodeword(bits, v, lastValue, p);
      lastValue := v;
      j := j + 1;
    }
    assert SortedDeltas(values)[..j] == SortedDeltas(values);
    data := PackBits(bits);
  }

  /** One pass of the coding loop: the difference between v and the last
      value, its quotient by 2^p written as a run of one-bits closed by a
      zero-bit, then its p low bits most significant first. */
  method WriteCodeword(bits: seq<bool>, v: u64, lastValue: u64, p: u8) returns (out: seq<bool>)
    requires lastValue <= v && p <= 32
    ensures out == bits + Codeword((v - lastValue) as nat, p as nat)
  {
    Shl64NoWrap(1, p as nat);
    var mask: u64 := Shl64(1, p as nat) - 1;
    MaskFacts(v - lastValue, mask, p as nat);
    var remainder: u64 := BitAnd((v - lastValue) as nat, mask as nat) as u64;
    var value: u64 := Shr64(v - lastValue - remainder, p as nat);

    ghost var q := value;
    out := bits;
    while value > 0
      invariant value <= q
      invariant out == bits + Unary((q - value) as nat)
    {
      out := out + [true];
      value := value - 1;
    }
    out := out + [false];
    out := out + BitsBE(remainder as nat, p as nat);
    AppendCodeword(bits, (v - lastValue) as nat, p as nat, q as nat, remainder as nat);
  }

  /** What the mask and the shift in the coding loop compute: the p low bits
      of delta and the quotient delta / 2^p. */
  lemma {:induction false} MaskFacts(delta: u64, mask: u64, p: nat)
    requires p <= 32 && mask as int == Pow2(p) - 1
    ensures BitAnd(delta as nat, mask as nat) == delta as int % Pow2(p) <= delta as int
    ensures (delta as int - delta as int % Pow2(p)) / Pow2(p) == delta as int / Pow2(p)
  {
    BitAndLowMask(delta as nat, p);
    BitAndBound(delta as nat, mask as nat);
    QuotientOfRoundedDown(delta as nat, Pow2(p));
  }

  /** The unary quotient, the stop bit and the remainder written one after
      the other form the codeword. */
  lemma {:induction false} AppendCodeword(before: seq<bool>, d: nat, p: nat, q: nat, r: nat)
    requires q == d / Pow2(p) && r == d % Pow2(p)
    ensures before + Unary(q) + [false] + BitsBE(r, p) == before + Codeword(d, p)
  {
  }

  /** Rounding d down to a multiple of m and dividing by m is d / m. */
  lemma {:induction false} QuotientOfRoundedDown(d: nat, m: nat)
    requires m > 0
    ensures (d - d % m) / m == d / m
  {
    DivModSplit(d, m);
    DivModUnique(d - d % m, m, d / m, 0);
  }

  /** The j-th difference of a sorted list is the j-th value minus the one
      before it (0 for the first), and appending its codeword extends the
      encoding of the first j differences to the first j + 1. */
  lemma {:induction false} CodewordStep(values: seq<u64>, j: nat, p: nat) returns (delta: nat)
    requires Sorted(values) && j < |values|
    ensures delta == values[j] as int - (if j == 0 then 0 else values[j - 1] as int)
    ensures var ds := SortedDeltas(values);
      EncodeAll(ds[..j + 1], p) == EncodeAll(ds[..j], p) + Codeword(delta, p)
  {
    var ds := SortedDeltas(values);
    delta := ds[j];
    assert ds[..j + 1][..j] == ds[..j];
  }

  // ---- Properties of the built filter ----

  /** The reduced values, sorted: what the filter stores. */
  function FilterValues(p: u8, data: seq<seq<u8>>, hash: seq<u8> -> u64): (r: seq<u64>)
    requires |data| <= U32_MAX && p <= 32
    ensures Sorted(r) && |r| == |data|
    ensures forall k :: 0 <= k < |r| ==> r[k] < Modulus(|data| as u32, p)
  {
    var modulus := Modulus(|data| as u32, p);
    var hashed := HashedValues(data, hash, modulus);
    var r := Sort(hashed);
    forall k | 0 <= k < |r| ensures r[k] < modulus {
      assert r[k] in multiset(hashed);
    }
    r
  }

  /** A filter built from entries decodes to its N reduced hash values in
      ascending order, each below N * 2^P: the coded bytes lose nothing. */
  lemma {:induction false} BuildDecodes(p: u8, data: seq<seq<u8>>, hash: seq<u8> -> u64)
    requires |data| <= U32_MAX && p <= 32
    ensures DecodedValues(BuildSpec(p, data, hash)) == Some(Ints(FilterValues(p, data, hash)))
  {
    var f := BuildSpec(p, data, hash);
    var values := FilterValues(p, data, hash);
    if |data| == 0 {
      assert UnpackBytes(f.data) == [];
      assert PrefixSums([]) == Ints(values);
    } else {
      var ds := SortedDeltas(values);
      var bits := FilterBits(p, data, hash);
      assert f.data == PackBits(bits);
      UnpackPackBits(bits);
      DecodeAllRoundTrip(ds, p as nat, Zeros(Padding(|bits|)));
      PrefixSumsOfDeltas(values);
    }
  }

  /** Every decoded value lies in [0, N * 2^P). */
  lemma {:induction false} DecodedInRange(p: u8, data: seq<seq<u8>>, hash: seq<u8> -> u64)
    requires |data| <= U32_MAX && p <= 32
    ensures var f := BuildSpec(p, data, hash);
      DecodedValues(f).Some? &&
      |DecodedValues(f).value| == f.n as int &&
      forall k :: 0 <= k < f.n as int ==> 0 <= DecodedValues(f).value[k] < f.modulusNP as int
  {
    BuildDecodes(p, data, hash);
  }

  /** The filter depends on the entries only as a multiset: listing them in
      another order builds the same bytes. */
  lemma {:induction false} BuildOrderIndependent(p: u8, a: seq<seq<u8>>, b: seq<seq<u8>>, hash: seq<u8> -> u64)
    requires |a| <= U32_MAX && p <= 32
    requires multiset(a) == multiset(b)
    ensures |b| == |a|
    ensures BuildSpec(p, a, hash) == BuildSpec(p, b, hash)
  {
    assert |a| == |multiset(a)| == |multiset(b)| == |b|;
    var modulus := Modulus(|a| as u32, p);
    var f := d => Reduce(hash(d), modulus);
    MapPermutation(f, a, b);
    SortPermutationInvariant(HashedValues(a, hash, modulus), HashedValues(b, hash, modulus));
  }

  /** The coded size: one codeword per entry, packed into whole bytes. */
  lemma {:induction false} BuildSize(p: u8, data: seq<seq<u8>>, hash: seq<u8> -> u64)
    requires |data| <= U32_MAX && p <= 32
    ensures var ds := SortedDeltas(FilterValues(p, data, hash));
      |BuildSpec(p, data, hash).data| == (CodeLength(ds, p as nat) + 7) / 8
  {
    var ds := SortedDeltas(FilterValues(p, data, hash));
    EncodeAllLength(ds, p as nat);
  }

  /** Entries are not deduplicated: the same entry twice gives a filter with
      N = 2 whose two decoded values are equal. */
  lemma {:induction false} BuildKeepsDuplicates(p: u8, x: seq<u8>, hash: seq<u8> -> u64)
    requires p <= 32
    ensures var f := BuildSpec(p, [x, x], hash);
      var v := Reduce(hash(x), Modulus(2, p)) as int;
      f.n == 2 && DecodedValues(f) == Some([v, v])
  {
    var data := [x, x];
    var m := Modulus(|data| as u32, p);
    assert m == Modulus(2, p);
    var v := Reduce(hash(x), m);
    var hashed := HashedValues(data, hash, m);
    assert hashed == [v, v];
    var values := FilterValues(p, data, hash);
    assert values == Sort(hashed);
    assert Sorted([v, v]);
    SortedUnique(values, [v, v]);
    assert Ints(values) == [v as int, v as int];
    BuildDecodes(p, [x, x], hash);
  }

  // ---- The entry-set builder ----

  /** s lists the elements of S, each exactly once, in some order. */
  ghost predicate Enumerates(s: seq<seq<u8>>, S: set<seq<u8>>)
  {
    multiset(s) == multiset(S)
  }

  /** A builder collecting distinct entries, a key of KEY_SIZE bytes and P. */
  class Builder {
    var p: u8
    var key: seq<u8>
    var data: set<seq<u8>>

    ghost predicate Valid()
      reads this
    {
      p <= 32 && |key| == KEY_SIZE
    }

    /** P = 0, an all-zero key and no entries. */
    constructor ()
      ensures Valid()
      ensures p == 0 && key == seq(KEY_SIZE, _ => 0 as u8) && data == {}
    {
      p := 0;
      key := seq(KEY_SIZE, _ => 0 as u8);
      data := {};
    }

    /** The key becomes the first KEY_SIZE bytes of a 32-byte block hash. */
    method DeriveKey(hash: seq<u8>)
      requires Valid() && |hash| == 32
      modifies this
      ensures Valid()
      ensures key == hash[..KEY_SIZE] && p == old(p) && data == old(data)
    {
      key := hash[..KEY_SIZE];
    }

    method SetKey(newKey: seq<u8>)
      requires Valid() && |newKey| == KEY_SIZE
      modifies this
      ensures Valid()
      ensures key == newKey && p == old(p) && data == old(data)
    {
      key := newKey;
    }

    /** Sets P; a P above 32 panics. */
    method SetP(newP: u8)
      requires Valid() && newP <= 32
      modifies this
      ensures Valid()
      ensures p == newP && key == old(key) && data == old(data)
    {
      p := newP;
    }

    /** Inserts an entry into the set: adding one that is already there
        changes nothing. */
    method AddEntry(entry: seq<u8>)
      requires Valid()
      modifies this
      ensures Valid()
      ensures data == old(data) + {entry} && p == old(p) && key == old(key)
      ensures old(entry in data) ==> data == old(data)
    {
      data := data + {entry};
    }

    method Key() returns (k: seq<u8>)
      requires Valid()
      ensures k == key && |k| == KEY_SIZE
    {
      k := key;
    }

    /** Lists the entries in whatever order the set yields them and builds
        the filter from that list. Every order gives the same filter. */
    method Build(hash: seq<u8> -> u64) returns (f: Filter)
      requires Valid() && |data| <= U32_MAX
      ensures f.n as int == |data| && f.p == p && f.Valid()
      ensures forall s :: Enumerates(s, data) ==> |s| <= U32_MAX && f == BuildSpec(p, s, hash)
    {
      var slices: seq<seq<u8>> := [];
      var rest := data;
      while rest != {}
        invariant rest <= data
        invariant multiset(slices) + multiset(rest) == multiset(data)
        decreases |rest|
      {
        var datum :| datum in rest;
        assert multiset(rest) == multiset(rest - {datum}) + multiset{datum};
        slices := slices + [datum];
        rest := rest - {datum};
      }
      assert |slices| == |multiset(slices)| == |multiset(data)| == |data|;
      f := Filter.Build(p, key, slices, hash);
      forall s | Enumerates(s, data) ensures |s| <= U32_MAX && f == BuildSpec(p, s, hash) {
        BuildOrderIndependent(p, slices, s, hash);
      }
    }
  }

  /** Every set of entries has an enumeration, so the filter Builder.Build
      promises exists. */
  lemma {:induction false} EnumerationExists(S: set<seq<u8>>)
    ensures exists s :: Enumerates(s, S)
    decreases |S|
  {
    if S == {} {
      assert Enumerates([], S);
    } else {
      var x :| x in S;
      EnumerationExists(S - {x});
      var s :| Enumerates(s, S - {x});
      assert multiset(S) == multiset(S - {x}) + multiset{x};
      assert Enumerates(s + [x], S);
    }
  }
}
