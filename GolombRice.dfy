/** The bit-level format a GCS filter body has: the consecutive differences
    of the sorted values, each written as a Golomb-Rice codeword (a unary
    quotient of one-bits, a terminating zero-bit, then a P-bit remainder
    most significant bit first), packed into bytes most significant bit
    first. The decoder here is a specification device only: the crate
    itself has no decoder, and it serves to state that the encoding loses
    nothing. */
module GolombRice {
  import opened MachineInts
  import opened Sorting

  datatype Option<T> = None | Some(value: T)

  /** q one-bits. */
  function Unary(q: nat): (r: seq<bool>)
    ensures |r| == q
    ensures forall i :: 0 <= i < q ==> r[i]
  {
    if q == 0 then [] else Unary(q - 1) + [true]
  }

  function Zeros(k: nat): (r: seq<bool>)
    ensures |r| == k
    ensures forall i :: 0 <= i < k ==> !r[i]
  {
    if k == 0 then [] else Zeros(k - 1) + [false]
  }

  /** The w low bits of v, most significant first. */
  function BitsBE(v: nat, w: nat): (r: seq<bool>)
    ensures |r| == w
  {
    if w == 0 then [] else BitsBE(v / 2, w - 1) + [v % 2 == 1]
  }

  /** The number whose binary digits, most significant first, are bits. */
  function ValueBE(bits: seq<bool>): (r: nat)
    ensures r < Pow2(|bits|)
  {
    if bits == [] then 0
    else 2 * ValueBE(bits[..|bits| - 1]) + (if bits[|bits| - 1] then 1 else 0)
  }

  /** Reading back the w bits written for v gives v's w low bits. */
  lemma {:induction false} ValueOfBitsBE(v: nat, w: nat)
    ensures ValueBE(BitsBE(v, w)) == v % Pow2(w)
  {
    if w > 0 {
      var b := BitsBE(v, w);
      assert b[..w - 1] == BitsBE(v / 2, w - 1);
      ValueOfBitsBE(v / 2, w - 1);
      ModDouble(v, Pow2(w - 1));
    }
  }

  /** Writing the value of a bit string back to as many bits gives that string. */
  lemma {:induction false} BitsBEOfValue(bits: seq<bool>)
    ensures BitsBE(ValueBE(bits), |bits|) == bits
  {
    if bits != [] {
      var n := |bits|;
      var v := ValueBE(bits);
      var low := if bits[n - 1] then 1 else 0;
      DivModUnique(v, 2, ValueBE(bits[..n - 1]), low);
      BitsBEOfValue(bits[..n - 1]);
      assert bits == bits[..n - 1] + [bits[n - 1]];
    }
  }

  /** The w bits of v split into its w - k high bits and its k low bits. */
  lemma {:induction false} BitsBESplit(v: nat, w: nat, k: nat)
    requires k <= w
    ensures BitsBE(v, w) == BitsBE(Quotient(v, k), w - k) + BitsBE(v, k)
  {
    if k > 0 {
      BitsBESplit(v / 2, w - 1, k - 1);
      assert Quotient(v / 2, k - 1) == Quotient(v, k) by {
        ModMul(v, 2, Pow2(k - 1));
      }
      assert BitsBE(v, w) == BitsBE(v / 2, w - 1) + [v % 2 == 1];
      assert BitsBE(v, k) == BitsBE(v / 2, k - 1) + [v % 2 == 1];
    }
  }

  /** The w bits written for v depend only on v mod 2^w. */
  lemma {:induction false} BitsBEOfMod(v: nat, w: nat)
    ensures BitsBE(v % Pow2(w), w) == BitsBE(v, w)
  {
    ValueOfBitsBE(v, w);
    BitsBEOfValue(BitsBE(v, w));
  }

  /** Doubling modulo 2^w moves every bit up one place, dropping the top bit
      and bringing in a zero-bit at the bottom. */
  lemma {:induction false} BitsBEDouble(v: nat, w: nat)
    requires w >= 1
    ensures BitsBE((2 * v) % Pow2(w), w) == BitsBE(v, w)[1..] + [false]
  {
    var h := Pow2(w - 1);
    var u := (2 * v) % Pow2(w);
    assert u == 2 * (v % h) by {
      ModDouble(2 * v, h);
    }
    assert u / 2 == v % h && u % 2 == 0 by {
      DivModUnique(u, 2, v % h, 0);
    }
    assert BitsBE(u, w) == BitsBE(u / 2, w - 1) + [u % 2 == 1];
    BitsBEOfMod(v, w - 1);
    BitsBESplit(v, w, w - 1);
  }

  /** Multiplying by 2^s modulo 2^w moves the w bits of x up s places:
      the s most significant fall off and s zero-bits come in below. */
  lemma {:induction false} ShiftBits(x: nat, s: nat, w: nat)
    requires s <= w
    ensures BitsBE((x * Pow2(s)) % Pow2(w), w) == BitsBE(x, w)[s..] + Zeros(s)
  {
    var bits := BitsBE(x, w);
    if s == 0 {
      BitsBEOfMod(x, w);
      assert bits[0..] == bits;
    } else {
      var m := Pow2(w);
      var y := x * Pow2(s - 1);
      ShiftBits(x, s - 1, w);
      assert x * Pow2(s) == 2 * y by {
        MulAssoc(x, 2, Pow2(s - 1));
      }
      assert (x * Pow2(s)) % m == (2 * (y % m)) % m by {
        ModDoubleStep(y, m);
      }
      BitsBEDouble(y % m, w);
      assert Zeros(s) == Zeros(s - 1) + [false];
      assert (bits[s - 1..] + Zeros(s - 1))[1..] == bits[s..] + Zeros(s - 1);
    }
  }

  /** `x << s` on a u64 drops the s most significant bits of x and fills in
      s zero-bits at the least significant end. */
  lemma Shl64Bits(x: u64, s: nat)
    requires s < 64
    ensures BitsBE(Shl64(x, s) as nat, 64) == BitsBE(x as nat, 64)[s..] + Zeros(s)
  {
    Pow2Words();
    ShiftBits(x as nat, s, 64);
  }

  /** d / 2^p, which is never negative. */
  function Quotient(d: nat, p: nat): (q: nat)
    ensures q == d / Pow2(p)
  {
    var m := Pow2(p);
    DivBounds(d, m);
    d / m
  }

  /** The Golomb-Rice codeword of d with remainder width p. */
  function Codeword(d: nat, p: nat): seq<bool>
  {
    Unary(Quotient(d, p)) + [false] + BitsBE(d % Pow2(p), p)
  }

  /** A codeword is q = d / 2^p one-bits, one zero-bit and the p low bits of
      d most significant first, with q * 2^p + remainder == d. */
  lemma CodewordStructure(d: nat, p: nat)
    ensures var c, q := Codeword(d, p), d / Pow2(p);
      && |c| == q + 1 + p
      && (forall i :: 0 <= i < q ==> c[i])
      && !c[q]
      && ValueBE(c[q + 1..]) == d % Pow2(p)
      && q * Pow2(p) + ValueBE(c[q + 1..]) == d
  {
    var c, q := Codeword(d, p), d / Pow2(p);
    var u, b := Unary(q), BitsBE(d % Pow2(p), p);
    assert c == u + [false] + b;
    assert c[q + 1..] == b;
    assert forall i :: 0 <= i < q ==> c[i] == u[i];
    assert c[q] == false;
    ValueOfBitsBE(d % Pow2(p), p);
    ModOfMod(d, Pow2(p));
    DivModSplit(d, Pow2(p));
  }

  lemma ModOfMod(x: nat, m: nat)
    requires m > 0
    ensures (x % m) % m == x % m
  {
  }

  lemma DivModSplit(x: nat, m: nat)
    requires m > 0
    ensures (x / m) * m + x % m == x
  {
  }

  /** The codewords of ds, one after another in list order. */
  function EncodeAll(ds: seq<nat>, p: nat): seq<bool>
  {
    if ds == [] then [] else EncodeAll(ds[..|ds| - 1], p) + Codeword(ds[|ds| - 1], p)
  }

  /** Encoding one more value appends its codeword. */
  lemma EncodeAllSnoc(s: seq<nat>, d: nat, p: nat)
    ensures EncodeAll(s + [d], p) == EncodeAll(s, p) + Codeword(d, p)
  {
    assert (s + [d])[..|s|] == s;
  }

  lemma {:induction false} EncodeAllConcat(a: seq<nat>, b: seq<nat>, p: nat)
    ensures EncodeAll(a + b, p) == EncodeAll(a, p) + EncodeAll(b, p)
    decreases |b|
  {
    if b == [] {
      assert a + b == a;
    } else {
      var init, last := b[..|b| - 1], b[|b| - 1];
      var x, y, z := EncodeAll(a, p), EncodeAll(init, p), Codeword(last, p);
      assert EncodeAll(b, p) == y + z by {
        assert b == init + [last];
        EncodeAllSnoc(init, last, p);
      }
      assert EncodeAll(a + b, p) == (x + y) + z by {
        assert a + b == (a + init) + [last];
        EncodeAllSnoc(a + init, last, p);
        EncodeAllConcat(a, init, p);
      }
    }
  }

  /** Number of bits the codewords of ds take: the sum of q_i + 1 + p. */
  function CodeLength(ds: seq<nat>, p: nat): nat
  {
    if ds == [] then 0
    else CodeLength(ds[..|ds| - 1], p) + Quotient(ds[|ds| - 1], p) + 1 + p
  }

  lemma {:induction false} EncodeAllLength(ds: seq<nat>, p: nat)
    ensures |EncodeAll(ds, p)| == CodeLength(ds, p)
  {
    if ds != [] {
      EncodeAllLength(ds[..|ds| - 1], p);
    }
  }

  /** First value, then the differences between neighbours. */
  function Deltas(s: seq<u64>): (r: seq<int>)
    ensures |r| == |s|
  {
    seq(|s|, k requires 0 <= k < |s| => if k == 0 then s[0] as int else s[k] as int - s[k - 1] as int)
  }

  /** All differences are non-negative exactly when the list is sorted, so
      subtracting the previous value never underflows on a sorted list. */
  lemma DeltasNonNegativeIffSorted(s: seq<u64>)
    ensures (forall k :: 0 <= k < |s| ==> Deltas(s)[k] >= 0) <==> Sorted(s)
  {
    if forall k :: 0 <= k < |s| ==> Deltas(s)[k] >= 0 {
      forall k | 0 < k < |s| ensures s[k - 1] <= s[k] {
        assert Deltas(s)[k] >= 0;
      }
      forall i, j | 0 <= i < j < |s| ensures s[i] <= s[j] {
        AdjacentToSorted(s, i, j);
      }
    }
  }

  lemma {:induction false} AdjacentToSorted(s: seq<u64>, i: nat, j: nat)
    requires i <= j < |s|
    requires forall k :: 0 < k < |s| ==> s[k - 1] <= s[k]
    ensures s[i] <= s[j]
  {
    if i < j {
      AdjacentToSorted(s, i, j - 1);
      assert s[j - 1] <= s[j];
    }
  }

  function Sum(ds: seq<int>): int
  {
    if ds == [] then 0 else Sum(ds[..|ds| - 1]) + ds[|ds| - 1]
  }

  /** The running totals of ds. */
  function PrefixSums(ds: seq<int>): (r: seq<int>)
    ensures |r| == |ds|
  {
    seq(|ds|, k requires 0 <= k < |ds| => Sum(ds[..k + 1]))
  }

  /** The values of s as unbounded integers. */
  function Ints(s: seq<u64>): (r: seq<int>)
    ensures |r| == |s| && forall k :: 0 <= k < |s| ==> r[k] == s[k] as int
  {
    seq(|s|, k requires 0 <= k < |s| => s[k] as int)
  }

  /** Summing the differences up again gives back the list. */
  lemma PrefixSumsOfDeltas(s: seq<u64>)
    ensures PrefixSums(Deltas(s)) == Ints(s)
  {
    forall k | 0 <= k < |s| ensures Sum(Deltas(s)[..k + 1]) == s[k] as int {
      SumDeltasPrefix(s, k);
    }
  }

  lemma {:induction false} SumDeltasPrefix(s: seq<u64>, k: nat)
    requires k < |s|
    ensures Sum(Deltas(s)[..k + 1]) == s[k] as int
  {
    var d := Deltas(s);
    if k > 0 {
      assert d[..k + 1][..k] == d[..k];
      SumDeltasPrefix(s, k - 1);
    }
  }

  /** Taking differences of running totals gives back the list. */
  lemma DeltasOfPrefixSums(ds: seq<int>, s: seq<u64>)
    requires |s| == |ds| && forall k :: 0 <= k < |s| ==> s[k] as int == PrefixSums(ds)[k]
    ensures Deltas(s) == ds
  {
    if |s| > 0 {
      assert ds[..1][..0] == [];
      assert Sum(ds[..1]) == ds[0];
      assert PrefixSums(ds)[0] == Sum(ds[..1]);
    }
    forall k | 0 < k < |s| ensures Deltas(s)[k] == ds[k] {
      assert ds[..k + 1][..k] == ds[..k];
      assert PrefixSums(ds)[k] == Sum(ds[..k]) + ds[k];
    }
  }

  /** Packs bits into bytes, most significant bit first, filling the last
      byte up with zero-bits. */
  function PackBits(bits: seq<bool>): (r: seq<u8>)
    ensures |r| == (|bits| + 7) / 8
    decreases |bits|
  {
    Pow2Byte();
    if bits == [] then []
    else if |bits| < 8 then [ValueBE(bits + Zeros(8 - |bits|)) as u8]
    else [ValueBE(bits[..8]) as u8] + PackBits(bits[8..])
  }

  /** The bits of bytes, most significant bit of each first. */
  function UnpackBytes(bytes: seq<u8>): (r: seq<bool>)
    ensures |r| == 8 * |bytes|
  {
    if bytes == [] then [] else BitsBE(bytes[0] as nat, 8) + UnpackBytes(bytes[1..])
  }

  lemma UnpackCons(b: u8, rest: seq<u8>)
    ensures UnpackBytes([b] + rest) == BitsBE(b as nat, 8) + UnpackBytes(rest)
  {
    assert ([b] + rest)[1..] == rest;
  }

  /** Unpacking packed bits gives them back, followed by the zero padding. */
  lemma {:induction false} UnpackPackBits(bits: seq<bool>)
    ensures UnpackBytes(PackBits(bits)) == bits + Zeros(Padding(|bits|))
    decreases |bits|
  {
    if bits == [] {
      assert bits + Zeros(0) == [];
    } else if |bits| < 8 {
      UnpackPackShort(bits);
    } else {
      var rest := PackBits(bits[8..]);
      assert PackBits(bits) == [ValueBE(bits[..8]) as u8] + rest;
      UnpackCons(ValueBE(bits[..8]) as u8, rest);
      BitsBEOfValue(bits[..8]);
      UnpackPackBits(bits[8..]);
      PaddingShift(|bits|);
      assert bits == bits[..8] + bits[8..];
    }
  }

  lemma UnpackPackShort(bits: seq<bool>)
    requires 0 < |bits| < 8
    ensures UnpackBytes(PackBits(bits)) == bits + Zeros(Padding(|bits|))
  {
    var full := bits + Zeros(8 - |bits|);
    assert |full| == 8;
    Pow2Byte();
    var v := ValueBE(full);
    assert v < TWO_8;
    var b := v as u8;
    assert PackBits(bits) == [b];
    UnpackSingle(b);
    BitsBEOfValue(full);
    assert UnpackBytes(PackBits(bits)) == full;
    PaddingShort(|bits|);
  }

  lemma UnpackSingle(b: u8)
    ensures UnpackBytes([b]) == BitsBE(b as nat, 8)
  {
    assert [b][1..] == [];
  }

  /** The number of zero-bits that fill up the last byte of n bits. */
  function Padding(n: nat): nat
  {
    (8 - n % 8) % 8
  }

  lemma PaddingShort(n: nat)
    requires 0 < n < 8
    ensures Padding(n) == 8 - n
  {
  }

  lemma PaddingShift(n: nat)
    requires n >= 8
    ensures Padding(n - 8) == Padding(n)
  {
  }

  /** Packing the bits of bytes gives back the bytes. */
  lemma {:induction false} PackUnpackBytes(bytes: seq<u8>)
    ensures PackBits(UnpackBytes(bytes)) == bytes
  {
    if bytes != [] {
      assert UnpackBytes(bytes) == BitsBE(bytes[0] as nat, 8) + UnpackBytes(bytes[1..]);
      PackBitsCons(bytes[0], UnpackBytes(bytes[1..]));
      PackUnpackBytes(bytes[1..]);
      assert bytes == [bytes[0]] + bytes[1..];
    }
  }

  /** The eight bits of a byte in front of more bits pack into that byte. */
  lemma PackBitsCons(b: u8, rest: seq<bool>)
    ensures PackBits(BitsBE(b as nat, 8) + rest) == [b] + PackBits(rest)
  {
    var first := BitsBE(b as nat, 8);
    var bits := first + rest;
    assert bits[..8] == first && bits[8..] == rest;
    assert ValueBE(first) == b as int by {
      Pow2Byte();
      ValueOfBitsBE(b as nat, 8);
    }
    assert PackBits(bits) == [ValueBE(bits[..8]) as u8] + PackBits(bits[8..]);
  }

  // ---- Decoding: a specification of what the bits mean ----

  /** Counts the one-bits in front of the first zero-bit. */
  ghost function DecodeUnary(bits: seq<bool>): Option<(nat, seq<bool>)>
  {
    if bits == [] then None
    else if !bits[0] then Some((0, bits[1..]))
    else match DecodeUnary(bits[1..])
      case None => None
      case Some(res) => Some((res.0 + 1, res.1))
  }

  /** Reads one codeword: the unary quotient, then p remainder bits. */
  ghost function DecodeCodeword(bits: seq<bool>, p: nat): Option<(nat, seq<bool>)>
  {
    match DecodeUnary(bits)
    case None => None
    case Some(res) =>
      var (q, rest) := res;
      if |rest| < p then None
      else Some((q * Pow2(p) + ValueBE(rest[..p]), rest[p..]))
  }

  /** Reads count codewords one after the other. */
  ghost function DecodeAll(bits: seq<bool>, count: nat, p: nat): Option<(seq<nat>, seq<bool>)>
    decreases count
  {
    if count == 0 then Some(([], bits))
    else match DecodeCodeword(bits, p)
      case None => None
      case Some(first) =>
        match DecodeAll(first.1, count - 1, p)
        case None => None
        case Some(more) => Some(([first.0] + more.0, more.1))
  }

  lemma {:induction false} DecodeUnaryOfUnary(q: nat, tail: seq<bool>)
    ensures DecodeUnary(Unary(q) + [false] + tail) == Some((q, tail))
  {
    var bits := Unary(q) + [false] + tail;
    if q > 0 {
      assert bits[1..] == Unary(q - 1) + [false] + tail;
      DecodeUnaryOfUnary(q - 1, tail);
    } else {
      assert bits[1..] == tail;
    }
  }

  /** Decoding a codeword gives the value it was written for. */
  lemma DecodeCodewordRoundTrip(d: nat, p: nat, tail: seq<bool>)
    ensures DecodeCodeword(Codeword(d, p) + tail, p) == Some((d, tail))
  {
    var m := Pow2(p);
    var q, r := Quotient(d, p), d % m;
    var rest := BitsBE(r, p) + tail;
    assert Codeword(d, p) + tail == Unary(q) + [false] + rest;
    DecodeUnaryOfUnary(q, rest);
    assert rest[..p] == BitsBE(r, p) && rest[p..] == tail;
    ValueOfBitsBE(r, p);
    ModOfMod(d, m);
    assert ValueBE(rest[..p]) == r;
    DivBounds(d, m);
    assert m as int * q + r == d;
    assert q as int * m == m as int * q;
  }

  /** Decoding |ds| codewords from the encoding of ds gives back ds, in
      order, and leaves whatever followed untouched. */
  lemma {:induction false} DecodeAllRoundTrip(ds: seq<nat>, p: nat, tail: seq<bool>)
    ensures DecodeAll(EncodeAll(ds, p) + tail, |ds|, p) == Some((ds, tail))
  {
    if ds != [] {
      assert ds == [ds[0]] + ds[1..];
      EncodeAllConcat([ds[0]], ds[1..], p);
      assert EncodeAll([ds[0]], p) == Codeword(ds[0], p) by {
        assert [ds[0]][..0] == [];
      }
      assert EncodeAll(ds, p) + tail == Codeword(ds[0], p) + (EncodeAll(ds[1..], p) + tail);
      DecodeCodewordRoundTrip(ds[0], p, EncodeAll(ds[1..], p) + tail);
      DecodeAllRoundTrip(ds[1..], p, tail);
    } else {
      assert EncodeAll(ds, p) + tail == tail;
    }
  }
}
