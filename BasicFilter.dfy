/** The crate's builder file: a second `Builder` that appends entries to a
    list in insertion order and keys the filter with two little-endian
    64-bit words, the 36-byte outpoint serialisation, and the basic block
    filter, which adds every transaction's id, the outpoints its inputs
    spend (not for the coinbase) and its output scripts.

    The block is an abstract record: transactions with their ids, inputs
    (the spent transaction's id and output index) and output scripts. */
module BasicFilter {
  import opened MachineInts
  import opened Sorting
  import opened Gcs

  /** A double-SHA256 digest: 32 bytes. */
  type Hash32 = s: seq<u8> | |s| == 32 witness seq(32, _ => 0 as u8)

  const TXID_SIZE: nat := 32
  const OUTPOINT_SIZE: nat := 36

  datatype TxIn = TxIn(prevHash: Hash32, prevIndex: u32)
  datatype TxOut = TxOut(script: seq<u8>)
  datatype Transaction = Transaction(txid: Hash32, input: seq<TxIn>, output: seq<TxOut>)
  datatype Block = Block(blockHash: Hash32, txdata: seq<Transaction>)

  /** A reference to a transaction output; the index is a 64-bit usize. */
  datatype OutPoint = OutPoint(txid: Hash32, index: u64)

  // ---- Byte order ----

  /** Reads 8 bytes as a little-endian u64. */
  function ReadU64LE(bytes: seq<u8>): (r: u64)
    requires |bytes| == 8
    ensures LeBytes(r as nat, 8) == bytes
  {
    Pow2Words();
    LeBytesOfLeValue(bytes);
    LeValue(bytes) as u64
  }

  /** The entry for an outpoint: the 32 txid bytes, then the index
      truncated to 32 bits, least significant byte first. */
  function OutpointEntry(op: OutPoint): (e: seq<u8>)
    ensures |e| == OUTPOINT_SIZE
  {
    op.txid + LeBytes(op.index as nat % TWO_32, 4)
  }

  /** Reading an outpoint entry back: its first 32 bytes are the txid and
      its last 4 bytes, read little-endian, are the index modulo 2^32. */
  lemma {:induction false} OutpointEntryFields(op: OutPoint)
    ensures OutpointEntry(op)[..TXID_SIZE] == op.txid
    ensures LeValue(OutpointEntry(op)[TXID_SIZE..]) == op.index as int % TWO_32
  {
    var e := OutpointEntry(op);
    assert e[TXID_SIZE..] == LeBytes(op.index as nat % TWO_32, 4);
    LeValueOfLeBytes(op.index as nat % TWO_32, 4);
    Pow2Words();
  }

  /** An outpoint entry determines the txid and the index modulo 2^32. */
  lemma {:induction false} OutpointEntryInjective(a: OutPoint, b: OutPoint)
    requires OutpointEntry(a) == OutpointEntry(b)
    ensures a.txid == b.txid && a.index as int % TWO_32 == b.index as int % TWO_32
  {
    OutpointEntryFields(a);
    OutpointEntryFields(b);
    assert OutpointEntry(a)[..TXID_SIZE] == OutpointEntry(b)[..TXID_SIZE];
    assert OutpointEntry(a)[TXID_SIZE..] == OutpointEntry(b)[TXID_SIZE..];
  }

  // ---- The entries of a block ----

  /** The outpoint entries of a transaction's inputs, in input order. */
  function InputEntries(ins: seq<TxIn>): (r: seq<seq<u8>>)
    ensures |r| == |ins|
  {
    Map((i: TxIn) => OutpointEntry(OutPoint(i.prevHash, i.prevIndex as u64)), ins)
  }

  /** The script entries of a transaction's outputs, in output order. */
  function OutputEntries(outs: seq<TxOut>): (r: seq<seq<u8>>)
    ensures |r| == |outs|
  {
    Map((o: TxOut) => o.script, outs)
  }

  lemma {:induction false} InputEntriesAt(ins: seq<TxIn>, k: nat)
    requires k < |ins|
    ensures InputEntries(ins)[k] == OutpointEntry(OutPoint(ins[k].prevHash, ins[k].prevIndex as u64))
  {
  }

  lemma {:induction false} OutputEntriesAt(outs: seq<TxOut>, k: nat)
    requires k < |outs|
    ensures OutputEntries(outs)[k] == outs[k].script
  {
  }

  lemma {:induction false} InputEntriesStep(ins: seq<TxIn>, j: nat)
    requires j < |ins|
    ensures InputEntries(ins[..j + 1])
         == InputEntries(ins[..j]) + [OutpointEntry(OutPoint(ins[j].prevHash, ins[j].prevIndex as u64))]
  {
    var a, b := InputEntries(ins[..j + 1]), InputEntries(ins[..j]);
    assert forall k :: 0 <= k < j ==> a[k] == b[k];
  }

  lemma {:induction false} OutputEntriesStep(outs: seq<TxOut>, j: nat)
    requires j < |outs|
    ensures OutputEntries(outs[..j + 1]) == OutputEntries(outs[..j]) + [outs[j].script]
  {
    var a, b := OutputEntries(outs[..j + 1]), OutputEntries(outs[..j]);
    assert forall k :: 0 <= k < j ==> a[k] == b[k];
  }

  /** How many entries a transaction contributes: its id, its inputs unless
      it is the coinbase, its outputs. */
  function TxCount(tx: Transaction, coinbase: bool): nat
  {
    1 + (if coinbase then 0 else |tx.input|) + |tx.output|
  }

  /** The entries of one transaction: the txid, the outpoints its inputs
      spend unless it is the coinbase, the scripts of its outputs. */
  function TxEntries(tx: Transaction, coinbase: bool): (r: seq<seq<u8>>)
    ensures |r| == TxCount(tx, coinbase)
  {
    [tx.txid] + (if coinbase then [] else InputEntries(tx.input)) + OutputEntries(tx.output)
  }

  /** Where each entry of a transaction sits: the txid first, then one
      outpoint per input in input order (none for the coinbase), then one
      script per output in output order. */
  lemma {:induction false} TxEntriesLayout(tx: Transaction, coinbase: bool)
    ensures TxEntries(tx, coinbase)[0] == tx.txid
    ensures !coinbase ==> forall k :: 0 <= k < |tx.input| ==>
      TxEntries(tx, coinbase)[1 + k]
        == OutpointEntry(OutPoint(tx.input[k].prevHash, tx.input[k].prevIndex as u64))
    ensures forall k :: 0 <= k < |tx.output| ==>
      TxEntries(tx, coinbase)[1 + (if coinbase then 0 else |tx.input|) + k] == tx.output[k].script
  {
    if !coinbase {
      forall k | 0 <= k < |tx.input|
        ensures TxEntries(tx, coinbase)[1 + k]
          == OutpointEntry(OutPoint(tx.input[k].prevHash, tx.input[k].prevIndex as u64))
      {
        TxEntryOfInput(tx, k);
      }
    }
    forall k | 0 <= k < |tx.output|
      ensures TxEntries(tx, coinbase)[1 + (if coinbase then 0 else |tx.input|) + k] == tx.output[k].script
    {
      TxEntryOfOutput(tx, coinbase, k);
    }
  }

  /** The entry of input k of a transaction other than the coinbase. */
  lemma TxEntryOfInput(tx: Transaction, k: nat)
    requires k < |tx.input|
    ensures TxEntries(tx, false)[1 + k]
      == OutpointEntry(OutPoint(tx.input[k].prevHash, tx.input[k].prevIndex as u64))
  {
    var ins := InputEntries(tx.input);
    var head := [tx.txid] + ins;
    ConcatIndex([tx.txid], ins, k);
    ConcatFront(head, OutputEntries(tx.output), 1 + k);
    InputEntriesAt(tx.input, k);
  }

  /** The entry of output k of a transaction. */
  lemma TxEntryOfOutput(tx: Transaction, coinbase: bool, k: nat)
    requires k < |tx.output|
    ensures TxEntries(tx, coinbase)[1 + (if coinbase then 0 else |tx.input|) + k] == tx.output[k].script
  {
    var ins: seq<seq<u8>> := if coinbase then [] else InputEntries(tx.input);
    var head := [tx.txid] + ins;
    assert |head| == 1 + (if coinbase then 0 else |tx.input|);
    ConcatIndex(head, OutputEntries(tx.output), k);
    OutputEntriesAt(tx.output, k);
  }

  lemma ConcatIndex<T>(x: seq<T>, y: seq<T>, k: nat)
    requires k < |y|
    ensures (x + y)[|x| + k] == y[k]
  {
  }

  lemma ConcatFront<T>(x: seq<T>, y: seq<T>, k: nat)
    requires k < |x|
    ensures (x + y)[k] == x[k]
  {
  }

  /** The number of entries the transactions contribute. */
  function EntryCount(txs: seq<Transaction>): nat
  {
    if txs == [] then 0
    else EntryCount(txs[..|txs| - 1]) + TxCount(txs[|txs| - 1], |txs| == 1)
  }

  /** The entries of a list of transactions, the first being the coinbase:
      one group of entries per transaction, in block order. */
  function BlockEntries(txs: seq<Transaction>): (r: seq<seq<u8>>)
    ensures |r| == EntryCount(txs)
  {
    if txs == [] then []
    else BlockEntries(txs[..|txs| - 1]) + TxEntries(txs[|txs| - 1], |txs| == 1)
  }

  /** Adding transaction k after the first k appends its entries. */
  lemma {:induction false} BlockEntriesStep(txs: seq<Transaction>, k: nat)
    requires k < |txs|
    ensures BlockEntries(txs[..k + 1]) == BlockEntries(txs[..k]) + TxEntries(txs[k], k == 0)
  {
    assert txs[..k + 1][..k] == txs[..k];
  }

  /** The entries of the first k transactions are a prefix of the block's. */
  lemma {:induction false} BlockEntriesPrefix(txs: seq<Transaction>, k: nat)
    requires k <= |txs|
    ensures EntryCount(txs[..k]) <= EntryCount(txs)
    ensures BlockEntries(txs)[..EntryCount(txs[..k])] == BlockEntries(txs[..k])
    decreases |txs|
  {
    if k == |txs| {
      assert txs[..k] == txs;
    } else {
      var init := txs[..|txs| - 1];
      assert init[..k] == txs[..k];
      BlockEntriesPrefix(init, k);
      assert BlockEntries(txs) == BlockEntries(init) + TxEntries(txs[|txs| - 1], |txs| == 1);
    }
  }

  /** The entries of transaction k sit right after those of the first k:
      the coinbase's inputs never appear, every other transaction's do. */
  lemma {:induction false} BlockEntriesLayout(txs: seq<Transaction>, k: nat)
    requires k < |txs|
    ensures EntryCount(txs[..k]) + TxCount(txs[k], k == 0) <= EntryCount(txs)
    ensures BlockEntries(txs)[EntryCount(txs[..k])..EntryCount(txs[..k]) + TxCount(txs[k], k == 0)]
         == TxEntries(txs[k], k == 0)
  {
    var whole, a, b := BlockEntries(txs), BlockEntries(txs[..k]), TxEntries(txs[k], k == 0);
    BlockEntriesPrefix(txs, k + 1);
    BlockEntriesStep(txs, k);
    assert |a| + |b| == EntryCount(txs[..k + 1]);
    assert whole[..|a| + |b|] == a + b;
    SliceOfPrefix(whole, a, b);
    assert |a| == EntryCount(txs[..k]) && |b| == TxCount(txs[k], k == 0);
  }

  /** If a + b starts s, then b sits in s right after a. */
  lemma {:induction false} SliceOfPrefix<T>(s: seq<T>, a: seq<T>, b: seq<T>)
    requires |a| + |b| <= |s| && s[..|a| + |b|] == a + b
    ensures s[|a|..|a| + |b|] == b
  {
    assert s[|a|..|a| + |b|] == s[..|a| + |b|][|a|..];
  }

  // ---- The entry-list builder ----

  /** A builder collecting entries in insertion order, duplicates included. */
  class Builder {
    var p: u8
    var key: (u64, u64)
    var data: seq<seq<u8>>

    ghost predicate Valid()
      reads this
    {
      p <= 32
    }

    constructor ()
      ensures Valid()
      ensures p == 0 && key == (0, 0) && data == []
    {
      p := 0;
      key := (0, 0);
      data := [];
    }

    /** The key becomes the first 16 bytes of the hash read as two
        little-endian u64 words. */
    method DeriveKey(hash: Hash32)
      requires Valid()
      modifies this
      ensures Valid()
      ensures key == (ReadU64LE(hash[0..8]), ReadU64LE(hash[8..16]))
      ensures LeBytes(key.0 as nat, 8) + LeBytes(key.1 as nat, 8) == hash[..16]
      ensures p == old(p) && data == old(data)
    {
      var key0 := ReadU64LE(hash[0..8]);
      var key1 := ReadU64LE(hash[8..16]);
      key := (key0, key1);
      assert hash[..16] == hash[0..8] + hash[8..16];
    }

    method SetKey(newKey: (u64, u64))
      requires Valid()
      modifies this
      ensures Valid()
      ensures key == newKey && p == old(p) && data == old(data)
    {
      key := newKey;
    }

    /** Sets P; a P above 32 panics. */
    method SetP(newP: u8)
      requires Valid() && newP <= 32
      modifies this
      ensures Valid()
      ensures p == newP && key == old(key) && data == old(data)
    {
      p := newP;
    }

    /** Makes room for n more entries; the entries themselves stay as they are. */
    method Reserve(n: nat)
      requires Valid()
      modifies this
      ensures Valid()
      ensures data == old(data) && p == old(p) && key == old(key)
    {
    }

    /** Appends one copy of the entry. */
    method AddEntry(entry: seq<u8>)
      requires Valid()
      modifies this
      ensures Valid()
      ensures data == old(data) + [entry] && p == old(p) && key == old(key)
    {
      data := data + [entry];
    }

    /** Serialises the outpoint into a 36-byte buffer and appends it. */
    method AddOutpoint(outpoint: OutPoint)
      requires Valid()
      modifies this
      ensures Valid()
      ensures data == old(data) + [OutpointEntry(outpoint)] && p == old(p) && key == old(key)
    {
      var txid := outpoint.txid;
      var index: u32 := (outpoint.index as int % TWO_32) as u32;

      var entry := new u8[OUTPOINT_SIZE](_ => 0);
      forall k | 0 <= k < TXID_SIZE {
        entry[k] := txid[k];
      }
      WriteU32LE(entry, TXID_SIZE, index);
      assert entry[..] == txid + LeBytes(index as nat, 4) by {
        assert entry[..][..TXID_SIZE] == txid;
        assert entry[..][TXID_SIZE..] == entry[TXID_SIZE..TXID_SIZE + 4];
      }

      AddEntry(entry[..]);
    }

    /** Appends the 32 bytes of a hash. */
    method AddHash(hash: Hash32)
      requires Valid()
      modifies this
      ensures Valid()
      ensures data == old(data) + [hash] && p == old(p) && key == old(key)
    {
      AddEntry(hash);
    }

    method Key() returns (k: (u64, u64))
      ensures k == key
    {
      k := key;
    }

    /** Builds the filter from the entries in insertion order. */
    method Build(hash: seq<u8> -> u64) returns (f: Filter)
      requires Valid() && |data| <= U32_MAX
      ensures f == BuildSpec(p, data, hash)
    {
      f := Filter.Build(p, key, data, hash);
    }
  }

  /** Stores v in little-endian order into buf[at..at + 4], leaving the
      rest of buf as it was. */
  method WriteU32LE(buf: array<u8>, at: nat, v: u32)
    requires at + 4 <= buf.Length
    modifies buf
    ensures buf[at..at + 4] == LeBytes(v as nat, 4)
    ensures forall k :: 0 <= k < buf.Length && !(at <= k < at + 4) ==> buf[k] == old(buf[k])
  {
    buf[at] := (v as int % TWO_8) as u8;
    buf[at + 1] := (v as int / TWO_8 % TWO_8) as u8;
    buf[at + 2] := (v as int / TWO_8 / TWO_8 % TWO_8) as u8;
    buf[at + 3] := (v as int / TWO_8 / TWO_8 / TWO_8 % TWO_8) as u8;
    var x := v as nat;
    assert LeBytes(x / TWO_8 / TWO_8 / TWO_8, 1) == [buf[at + 3]];
    assert LeBytes(x / TWO_8 / TWO_8, 2) == [buf[at + 2], buf[at + 3]];
    assert LeBytes(x / TWO_8, 3) == [buf[at + 1], buf[at + 2], buf[at + 3]];
    assert LeBytes(x, 4) == [buf[at], buf[at + 1], buf[at + 2], buf[at + 3]];
  }

  // ---- The basic block filter ----

  /** The pre-count of entries: per transaction one, plus its inputs unless
      it is the coinbase, plus its outputs. */
  method CountEntries(txs: seq<Transaction>) returns (n: nat)
    ensures n == EntryCount(txs) == |BlockEntries(txs)|
  {
    n := 0;
    var i := 0;
    while i < |txs|
      invariant 0 <= i <= |txs|
      invariant n == EntryCount(txs[..i])
    {
      var tx := txs[i];
      assert txs[..i + 1][..i] == txs[..i];
      n := n + 1;
      if i != 0 {
        n := n + |tx.input|;
      }
      n := n + |tx.output|;
      i := i + 1;
    }
    assert txs[..i] == txs;
  }

  /** The basic filter of a block: P = 20, the key derived from the block
      hash, and the block's entries in order. More than u32::MAX entries
      panic. */
  method BuildBasicFilter(block: Block, hash: seq<u8> -> u64) returns (f: Filter)
    requires EntryCount(block.txdata) <= U32_MAX
    ensures f == BuildSpec(DEFAULT_P, BlockEntries(block.txdata), hash)
  {
    var txs := block.txdata;
    var builder := new Builder();
    builder.SetP(DEFAULT_P);
    builder.DeriveKey(block.blockHash);

    var n := CountEntries(txs);
    builder.Reserve(n);

    AddBlockEntries(builder, txs);
    assert builder.data == BlockEntries(txs);
    f := builder.Build(hash);
  }

  /** The entry loop of the basic filter: the entries of every transaction
      in block order, the first one being the coinbase. */
  method AddBlockEntries(builder: Builder, txs: seq<Transaction>)
    requires builder.Valid()
    modifies builder
    ensures builder.Valid() && builder.p == old(builder.p) && builder.key == old(builder.key)
    ensures builder.data == old(builder.data) + BlockEntries(txs)
  {
    ghost var start := builder.data;
    var i := 0;
    while i < |txs|
      invariant 0 <= i <= |txs|
      invariant builder.Valid() && builder.p == old(builder.p) && builder.key == old(builder.key)
      invariant builder.data == start + BlockEntries(txs[..i])
    {
      AddTransaction(builder, txs[i], i == 0);
      BlockEntriesStep(txs, i);
      AppendGroup(start, BlockEntries(txs[..i]), TxEntries(txs[i], i == 0));
      i := i + 1;
    }
    assert txs[..i] == txs;
  }

  /** The body of the block loop: the txid, then an outpoint per input
      unless the transaction is the coinbase, then a script per output. */
  method AddTransaction(builder: Builder, tx: Transaction, coinbase: bool)
    requires builder.Valid()
    modifies builder
    ensures builder.Valid() && builder.p == old(builder.p) && builder.key == old(builder.key)
    ensures builder.data == old(builder.data) + TxEntries(tx, coinbase)
  {
    builder.AddHash(tx.txid);
    ghost var prefix := builder.data;

    ghost var inputs: seq<seq<u8>> := [];
    if !coinbase {
      var j := 0;
      while j < |tx.input|
        invariant 0 <= j <= |tx.input|
        invariant builder.Valid() && builder.p == old(builder.p) && builder.key == old(builder.key)
        invariant builder.data == prefix + InputEntries(tx.input[..j])
      {
        var txin := tx.input[j];
        var outpoint := OutPoint(txin.prevHash, txin.prevIndex as u64);
        builder.AddOutpoint(outpoint);
        InputEntriesStep(tx.input, j);
        AppendAssoc(prefix, InputEntries(tx.input[..j]), OutpointEntry(outpoint));
        j := j + 1;
      }
      assert tx.input[..j] == tx.input;
      inputs := InputEntries(tx.input);
    }

    ghost var before := builder.data;
    assert before == prefix + inputs;
    var j := 0;
    while j < |tx.output|
      invariant 0 <= j <= |tx.output|
      invariant builder.Valid() && builder.p == old(builder.p) && builder.key == old(builder.key)
      invariant builder.data == before + OutputEntries(tx.output[..j])
    {
      builder.AddEntry(tx.output[j].script);
      OutputEntriesStep(tx.output, j);
      AppendAssoc(before, OutputEntries(tx.output[..j]), tx.output[j].script);
      j := j + 1;
    }
    assert tx.output[..j] == tx.output;
    assert TxEntries(tx, coinbase) == [tx.txid] + inputs + OutputEntries(tx.output);
    GroupAssoc(old(builder.data), [tx.txid], inputs, OutputEntries(tx.output));
  }

  lemma {:induction false} AppendAssoc<T>(x: seq<T>, y: seq<T>, e: T)
    ensures (x + y) + [e] == x + (y + [e])
  {
  }

  lemma {:induction false} AppendGroup<T>(x: seq<T>, y: seq<T>, z: seq<T>)
    ensures (x + y) + z == x + (y + z)
  {
  }

  lemma {:induction false} GroupAssoc<T>(w: seq<T>, x: seq<T>, y: seq<T>, z: seq<T>)
    ensures ((w + x) + y) + z == w + ((x + y) + z)
  {
  }
}
