/**
 * The FEC decoder stage: a batch of shares of one chunk is slotted by
 * ShareIndex into an array of `total` shards, the library reconstructs the
 * data shards, the first `required` of them are copied end to end into a
 * fresh buffer, and the padding is cut off the end.
 */
module FecDecoder {
  import opened Wire
  import opened Structs
  import opened Erasure
  import FecEncoder

  /** The run-time panics the worker body can hit. */
  datatype Panic =
    | ShareIndexOutOfRange  // shares[chunk.ShareIndex] with ShareIndex >= total
    | EmptyBatch            // chunks[0] of an empty batch
    | PaddingExceedsData    // data[:len(data)-DataPadding] with too large a padding

  /** What one batch leads to: an output chunk, a logged reconstruction error, or a panic. */
  datatype DecodeOutcome = Emitted(chunk: Chunk) | Dropped | Panicked(reason: Panic)

  predicate IndicesInRange(chunks: seq<Chunk>, n: nat) {
    forall j | 0 <= j < |chunks| :: chunks[j].shareIndex < n
  }

  /** The shard array after the slotting loop: each share's Data in slot ShareIndex, later ones overwriting. */
  function Slots(chunks: seq<Chunk>, n: nat): (r: seq<seq<Byte>>)
    requires IndicesInRange(chunks, n)
    ensures |r| == n
  {
    if chunks == [] then seq(n, _ => [])
    else
      var last := chunks[|chunks| - 1];
      Slots(chunks[..|chunks| - 1], n)[last.shareIndex := last.data]
  }

  /** Go's copy(buf[at:], src): as many bytes of src as fit, the rest of buf unchanged. */
  function CopyAt(buf: seq<Byte>, at: nat, src: seq<Byte>): (r: seq<Byte>)
    requires at <= |buf|
    ensures |r| == |buf|
    ensures forall t | 0 <= t < |buf| :: r[t] == if at <= t < at + |src| then src[t - at] else buf[t]
  {
    var m := if |buf| - at < |src| then |buf| - at else |src|;
    buf[..at] + src[..m] + buf[at + m..]
  }

  /**
   * The output buffer after the copy loop has run for the first i shards:
   * make([]byte, len*|shards|), then shard s copied in at s*len for each s < i.
   */
  function Assemble(shards: seq<seq<Byte>>, len: nat, i: nat): (r: seq<Byte>)
    requires i <= |shards|
    ensures |r| == |shards| * len
  {
    if i == 0 then Zeros(|shards| * len)
    else
      MulMonotone(i - 1, |shards|, len);
      CopyAt(Assemble(shards, len, i - 1), (i - 1) * len, shards[i - 1])
  }

  /** The first k slots after ReconstructData has filled them in. */
  function Restored(rs: ReedSolomon, slots: seq<seq<Byte>>, k: nat): (r: seq<seq<Byte>>)
    ensures |r| == k && forall i | 0 <= i < k :: r[i] == rs.restored(slots, i)
  {
    seq(k, i requires 0 <= i < k => rs.restored(slots, i))
  }

  /** What the worker body does with one batch. */
  function DecodeBatch(rs: ReedSolomon, k: nat, n: nat, chunks: seq<Chunk>): (r: DecodeOutcome)
    requires ValidParams(k, n)
  {
    if !IndicesInRange(chunks, n) then Panicked(ShareIndexOutOfRange)
    else if chunks == [] then Panicked(EmptyBatch)
    else
      var slots := Slots(chunks, n);
      if !rs.reconstructs(slots) then Dropped
      else
        var restored := Restored(rs, slots, k);
        var data := Assemble(restored, |restored[0]|, k);
        var first := chunks[0];
        if first.dataPadding > |data| then Panicked(PaddingExceedsData)
        else Emitted(Chunk(first.path, first.hash, false, first.dataOffset, 0, 0, data[..|data| - first.dataPadding]))
  }

  /** The slotting loop: shares[chunk.ShareIndex] = chunk.Data, or the index panic. */
  method FillSlots(total: nat, chunks: seq<Chunk>) returns (shares: array<seq<Byte>>, inRange: bool)
    ensures fresh(shares) && shares.Length == total
    ensures inRange == IndicesInRange(chunks, total)
    ensures inRange ==> shares[..] == Slots(chunks, total)
  {
    shares := new seq<Byte>[total](_ => []);
    for j := 0 to |chunks|
      invariant IndicesInRange(chunks[..j], total)
      invariant shares[..] == Slots(chunks[..j], total)
    {
      var index := chunks[j].shareIndex;
      if index >= total {
        return shares, false;
      }
      assert chunks[..j + 1][..j] == chunks[..j];
      shares[index] := chunks[j].data;
    }
    assert chunks[..|chunks|] == chunks;
    inRange := true;
  }

  /** One copy(data[at:], shard), byte by byte. */
  method CopyInto(data: array<Byte>, at: nat, shard: seq<Byte>)
    requires at <= data.Length
    modifies data
    ensures data[..] == CopyAt(old(data[..]), at, shard)
  {
    var m := if data.Length - at < |shard| then data.Length - at else |shard|;
    for t := 0 to m
      invariant forall p | 0 <= p < data.Length :: data[p] == if at <= p < at + t then shard[p - at] else old(data[p])
    {
      data[at + t] := shard[t];
    }
  }

  /** The copy loop: copy(data[i*len:], shard) for each of the first `required` shards. */
  method CopyOut(shards: seq<seq<Byte>>, len: nat) returns (data: array<Byte>)
    ensures fresh(data)
    ensures data[..] == Assemble(shards, len, |shards|)
  {
    data := new Byte[|shards| * len](_ => 0);
    assert data[..] == Assemble(shards, len, 0);
    for i := 0 to |shards|
      invariant data[..] == Assemble(shards, len, i)
    {
      CopyShard(data, shards, len, i);
    }
  }

  /** One round of the copy loop: shard i lands at i*len. */
  method CopyShard(data: array<Byte>, shards: seq<seq<Byte>>, len: nat, i: nat)
    requires i < |shards| && data[..] == Assemble(shards, len, i)
    modifies data
    ensures data[..] == Assemble(shards, len, i + 1)
  {
    MulMonotone(i, |shards|, len);
    var at: nat := i * len;
    CopyInto(data, at, shards[i]);
  }

  /** The worker body on one batch. */
  method DecodeStep(rs: ReedSolomon, required: nat, total: nat, chunks: seq<Chunk>) returns (outcome: DecodeOutcome)
    requires ValidParams(required, total)
    ensures outcome == DecodeBatch(rs, required, total, chunks)
  {
    var shares, inRange := FillSlots(total, chunks);
    if !inRange {
      return Panicked(ShareIndexOutOfRange);
    }
    var slots := shares[..];
    if !rs.reconstructs(slots) {
      if |chunks| == 0 {
        return Panicked(EmptyBatch);
      }
      return Dropped;
    }
    // ReconstructData fills in the data shards.
    for i := 0 to required
      invariant forall s | 0 <= s < i :: shares[s] == rs.restored(slots, s)
    {
      shares[i] := rs.restored(slots, i);
    }
    assert shares[..required] == Restored(rs, slots, required);
    var data := CopyOut(shares[..required], |shares[0]|);
    if |chunks| == 0 {
      return Panicked(EmptyBatch);
    }
    var first := chunks[0];
    if first.dataPadding > data.Length {
      return Panicked(PaddingExceedsData);
    }
    return Emitted(Chunk(first.path, first.hash, false, first.dataOffset, 0, 0, data[..data.Length - first.dataPadding]));
  }

  /** The chunks a worker has sent on, and whether it has died on a panic. */
  datatype Run = Run(output: seq<Chunk>, panicked: bool)

  /** The worker over a sequence of batches: output accumulates until the first panic. */
  function DecodeAll(rs: ReedSolomon, k: nat, n: nat, batches: seq<seq<Chunk>>): Run
    requires ValidParams(k, n)
  {
    if batches == [] then Run([], false)
    else
      var prev := DecodeAll(rs, k, n, batches[..|batches| - 1]);
      if prev.panicked then prev
      else match DecodeBatch(rs, k, n, batches[|batches| - 1])
        case Emitted(c) => Run(prev.output + [c], false)
        case Dropped => prev
        case Panicked(_) => Run(prev.output, true)
  }

  /**
   * Worker: builds the decoder (which fails, ending the worker with no output,
   * unless 1 <= required <= total <= MAX_SHARDS), then decodes batch after batch.
   */
  method Worker(rs: ReedSolomon, required: int, total: int, batches: seq<seq<Chunk>>) returns (run: Run)
    ensures !ValidParams(required, total) ==> run == Run([], false)
    ensures ValidParams(required, total) ==> run == DecodeAll(rs, required, total, batches)
  {
    run := Run([], false);
    if !(1 <= required <= total <= MAX_SHARDS) {
      return;
    }
    for j := 0 to |batches|
      invariant run == DecodeAll(rs, required, total, batches[..j])
      invariant !run.panicked
    {
      assert batches[..j + 1][..j] == batches[..j];
      var outcome := DecodeStep(rs, required, total, batches[j]);
      match outcome
      case Emitted(c) =>
        run := Run(run.output + [c], false);
      case Dropped =>
      case Panicked(_) =>
        run := Run(run.output, true);
        PanicIsFinal(rs, required, total, batches, j + 1);
        return;
    }
    assert batches[..|batches|] == batches;
  }

  /** A worker that has panicked sends nothing more. */
  lemma {:induction false} PanicIsFinal(rs: ReedSolomon, k: nat, n: nat, batches: seq<seq<Chunk>>, j: nat)
    requires ValidParams(k, n) && j <= |batches| && DecodeAll(rs, k, n, batches[..j]).panicked
    ensures DecodeAll(rs, k, n, batches) == DecodeAll(rs, k, n, batches[..j])
  {
    if j < |batches| {
      var init := batches[..|batches| - 1];
      assert init[..j] == batches[..j];
      PanicIsFinal(rs, k, n, init, j);
    } else {
      assert batches[..j] == batches;
    }
  }

  // ---------------------------------------------------------------------------
  // The shard array

  /** The slot numbers a batch names. */
  function Indices(chunks: seq<Chunk>): set<nat>
  {
    set j | 0 <= j < |chunks| :: chunks[j].shareIndex
  }

  /** A slot holds the Data of the last share naming it. */
  lemma {:induction false} SlotsLastWins(chunks: seq<Chunk>, n: nat, j: nat)
    requires IndicesInRange(chunks, n) && j < |chunks|
    requires forall l | j < l < |chunks| :: chunks[l].shareIndex != chunks[j].shareIndex
    ensures Slots(chunks, n)[chunks[j].shareIndex] == chunks[j].data
  {
    if j < |chunks| - 1 {
      SlotsLastWins(chunks[..|chunks| - 1], n, j);
    }
  }

  /** A slot no share names stays empty (a lost shard). */
  lemma {:induction false} SlotsUnnamedEmpty(chunks: seq<Chunk>, n: nat, i: nat)
    requires IndicesInRange(chunks, n) && i < n && i !in Indices(chunks)
    ensures Slots(chunks, n)[i] == []
  {
    if chunks != [] {
      var init := chunks[..|chunks| - 1];
      assert Indices(init) <= Indices(chunks) by {
        forall x | x in Indices(init) ensures x in Indices(chunks) {
          var l :| 0 <= l < |init| && init[l].shareIndex == x;
          assert chunks[l].shareIndex == x;
        }
      }
      SlotsUnnamedEmpty(init, n, i);
    }
  }

  /** Every filled slot holds the Data of some share naming it. */
  lemma {:induction false} SlotsComeFromShares(chunks: seq<Chunk>, n: nat, i: nat)
    requires IndicesInRange(chunks, n) && i < n && Slots(chunks, n)[i] != []
    ensures exists j | 0 <= j < |chunks| :: chunks[j].shareIndex == i && chunks[j].data == Slots(chunks, n)[i]
  {
    var last := chunks[|chunks| - 1];
    if last.shareIndex != i {
      var init := chunks[..|chunks| - 1];
      SlotsComeFromShares(init, n, i);
      var j :| 0 <= j < |init| && init[j].shareIndex == i && init[j].data == Slots(init, n)[i];
      assert chunks[j] == init[j];
    }
  }

  /** The filled slots are among the named ones, and are all of them when no share is empty. */
  lemma PresentSlots(chunks: seq<Chunk>, n: nat)
    requires IndicesInRange(chunks, n)
    ensures Present(Slots(chunks, n)) <= Indices(chunks)
    ensures (forall j | 0 <= j < |chunks| :: chunks[j].data != []) ==> Present(Slots(chunks, n)) == Indices(chunks)
  {
    var slots := Slots(chunks, n);
    forall i | i in Present(slots) ensures i in Indices(chunks) {
      SlotsComeFromShares(chunks, n, i);
    }
    if forall j | 0 <= j < |chunks| :: chunks[j].data != [] {
      forall i | i in Indices(chunks) ensures i in Present(slots) {
        var j :| 0 <= j < |chunks| && chunks[j].shareIndex == i;
        var l := LastNaming(chunks, j);
        SlotsLastWins(chunks, n, l);
      }
    }
  }

  /** The position of the last share with the same slot number as share j. */
  function LastNaming(chunks: seq<Chunk>, j: nat): (l: nat)
    requires j < |chunks|
    ensures j <= l < |chunks| && chunks[l].shareIndex == chunks[j].shareIndex
    ensures forall m | l < m < |chunks| :: chunks[m].shareIndex != chunks[j].shareIndex
    decreases |chunks| - j
  {
    if forall m | j < m < |chunks| :: chunks[m].shareIndex != chunks[j].shareIndex then j
    else
      var m :| j < m < |chunks| && chunks[m].shareIndex == chunks[j].shareIndex;
      LastNaming(chunks, m)
  }

  // ---------------------------------------------------------------------------
  // The output buffer

  /** With shards of one length, the copy loop lays them end to end. */
  lemma {:induction false} AssembleIsConcat(shards: seq<seq<Byte>>, len: nat, i: nat)
    requires i <= |shards| && forall s | 0 <= s < |shards| :: |shards[s]| == len
    ensures Assemble(shards, len, i) == Concat(shards[..i]) + Zeros((|shards| - i) * len)
  {
    if i > 0 {
      AssembleIsConcat(shards, len, i - 1);
      AssembleStep(shards, len, i, |shards| - i);
    } else {
      assert shards[..0] == [];
    }
  }

  /** One round of the copy loop puts shard i - 1 right after the shards before it. */
  lemma AssembleStep(shards: seq<seq<Byte>>, len: nat, i: nat, after: nat)
    requires 0 < i <= |shards| && forall s | 0 <= s < |shards| :: |shards[s]| == len
    requires after == |shards| - i
    requires Assemble(shards, len, i - 1) == Concat(shards[..i - 1]) + Zeros((after + 1) * len)
    ensures Assemble(shards, len, i) == Concat(shards[..i]) + Zeros(after * len)
  {
    MulSucc(after, len);
    var rest: nat := after * len;
    var prefix := Concat(shards[..i - 1]);
    ConcatLength(shards[..i - 1], len);
    assert |prefix| == (i - 1) * len;
    CopyOverZeros(prefix, shards[i - 1], rest);
    ConcatLast(shards[..i]);
    assert shards[..i][..i - 1] == shards[..i - 1];
  }

  lemma ConcatLast(ss: seq<seq<Byte>>)
    requires ss != []
    ensures Concat(ss) == Concat(ss[..|ss| - 1]) + ss[|ss| - 1]
  {
  }

  lemma MulSucc(a: nat, b: nat)
    ensures (a + 1) * b == b + a * b && a * b >= 0
  {
  }

  /** Copying a shard over the zeros that follow a prefix. */
  lemma CopyOverZeros(prefix: seq<Byte>, src: seq<Byte>, rest: nat)
    ensures CopyAt(prefix + Zeros(|src| + rest), |prefix|, src) == prefix + src + Zeros(rest)
  {
    var buf := prefix + Zeros(|src| + rest);
    assert buf[..|prefix|] == prefix;
    assert buf[|prefix| + |src|..] == Zeros(rest);
    assert src[..|src|] == src;
  }

  // ---------------------------------------------------------------------------
  // Properties of one batch

  /**
   * An output chunk takes Path, Hash and DataOffset from the batch's first share,
   * has ShareIndex, DataPadding and Encrypted zero, and is the reconstructed
   * data shards' total length less the first share's DataPadding.
   */
  lemma EmittedChunkFields(rs: ReedSolomon, k: nat, n: nat, chunks: seq<Chunk>)
    requires ValidParams(k, n) && DecodeBatch(rs, k, n, chunks).Emitted?
    ensures chunks != [] && IndicesInRange(chunks, n)
    ensures var o := DecodeBatch(rs, k, n, chunks).chunk;
      && o.path == chunks[0].path && o.hash == chunks[0].hash && o.dataOffset == chunks[0].dataOffset
      && !o.encrypted && o.shareIndex == 0 && o.dataPadding == 0
      && |o.data| == k * |rs.restored(Slots(chunks, n), 0)| - chunks[0].dataPadding
  {
  }

  /**
   * When the reconstructed data shards share one length (as ReconstructData
   * leaves them), the output Data is their concatenation with the last
   * DataPadding bytes dropped.
   */
  lemma EmittedDataIsConcat(rs: ReedSolomon, k: nat, n: nat, chunks: seq<Chunk>)
    requires ValidParams(k, n) && DecodeBatch(rs, k, n, chunks).Emitted?
    requires IndicesInRange(chunks, n)
    requires forall i | 0 <= i < k :: |rs.restored(Slots(chunks, n), i)| == |rs.restored(Slots(chunks, n), 0)|
    ensures var whole := Concat(Restored(rs, Slots(chunks, n), k));
      && chunks[0].dataPadding <= |whole|
      && DecodeBatch(rs, k, n, chunks).chunk.data == whole[..|whole| - chunks[0].dataPadding]
  {
    var restored := Restored(rs, Slots(chunks, n), k);
    forall s | 0 <= s < k ensures |restored[s]| == |restored[0]| {
      assert restored[s] == rs.restored(Slots(chunks, n), s);
    }
    AssembleAll(restored, |restored[0]|);
  }

  /** After the whole copy loop the buffer is the shards laid end to end. */
  lemma AssembleAll(shards: seq<seq<Byte>>, len: nat)
    requires forall s | 0 <= s < |shards| :: |shards[s]| == len
    ensures Assemble(shards, len, |shards|) == Concat(shards)
  {
    AssembleIsConcat(shards, len, |shards|);
    assert shards[..|shards|] == shards;
    var whole := Concat(shards);
    assert whole + Zeros(0) == whole;
  }

  /** Subsets are no larger. */
  lemma {:induction false} SubsetCardinality(a: set<nat>, b: set<nat>)
    requires a <= b
    ensures |a| <= |b|
  {
    if a != {} {
      var x :| x in a;
      SubsetCardinality(a - {x}, b - {x});
    }
  }

  /** With fewer than `required` distinct share indices, nothing is emitted. */
  lemma TooFewSharesEmitNothing(rs: ReedSolomon, k: nat, n: nat, chunks: seq<Chunk>)
    requires Sound(rs, k, n) && |Indices(chunks)| < k
    ensures !DecodeBatch(rs, k, n, chunks).Emitted?
  {
    if IndicesInRange(chunks, n) {
      PresentSlots(chunks, n);
      SubsetCardinality(Present(Slots(chunks, n)), Indices(chunks));
    }
  }

  // ---------------------------------------------------------------------------
  // Encoder and decoder together

  /** Each share of an encoded chunk is slot i's codeword shard, ShareIndex i, and not empty. */
  lemma EncodedShare(rs: ReedSolomon, k: nat, n: nat, c: Chunk, s: Chunk)
    requires Sound(rs, k, n) && |c.data| > 0
    requires s in FecEncoder.EncodeChunk(rs, k, n, c)
    ensures var ds := Split(c.data + Zeros(FecEncoder.Padding(|c.data|, k)), k).value;
      && s.shareIndex < n && s.data == Codeword(rs, ds, n)[s.shareIndex] && s.data != []
      && s.dataPadding == FecEncoder.Padding(|c.data|, k)
      && s.path == c.path && s.hash == c.hash && s.dataOffset == c.dataOffset
  {
    var shares := FecEncoder.EncodeChunk(rs, k, n, c);
    var ds := Split(c.data + Zeros(FecEncoder.Padding(|c.data|, k)), k).value;
    var i :| 0 <= i < |shares| && shares[i] == s;
    FecEncoder.ShareIndexIsSlot(rs, k, n, c, i);
    FecEncoder.SharesCarryMetadata(rs, k, n, c, i);
    FecEncoder.DataSharesAreSplit(rs, k, n, c);
    assert FecEncoder.Payloads(shares)[i] == s.data;
    if i >= k {
      assert |rs.parity(ds, i - k)| == |ds[0]|;
    }
  }

  /** The slots filled from shares of one encoded chunk are a received copy of its codeword. */
  lemma SlotsOfEncodedShares(rs: ReedSolomon, k: nat, n: nat, c: Chunk, batch: seq<Chunk>)
    requires Sound(rs, k, n) && |c.data| > 0
    requires forall j | 0 <= j < |batch| :: batch[j] in FecEncoder.EncodeChunk(rs, k, n, c)
    ensures IndicesInRange(batch, n)
    ensures var ds := Split(c.data + Zeros(FecEncoder.Padding(|c.data|, k)), k).value;
      && Received(Slots(batch, n), Codeword(rs, ds, n))
      && Present(Slots(batch, n)) == Indices(batch)
  {
    var ds := Split(c.data + Zeros(FecEncoder.Padding(|c.data|, k)), k).value;
    var cw := Codeword(rs, ds, n);
    forall j | 0 <= j < |batch|
      ensures batch[j].shareIndex < n && batch[j].data == cw[batch[j].shareIndex] && batch[j].data != []
    {
      EncodedShare(rs, k, n, c, batch[j]);
    }
    var slots := Slots(batch, n);
    forall i | 0 <= i < n && slots[i] != [] ensures slots[i] == cw[i] {
      SlotsComeFromShares(batch, n, i);
    }
    PresentSlots(batch, n);
  }

  /**
   * Round trip: any batch of shares of one encoded chunk that names at least
   * `required` distinct slots decodes to the chunk's Path, Hash, DataOffset and
   * exact unpadded Data (Encrypted, DataPadding and ShareIndex zero).
   */
  lemma EncodeDecodeRoundTrip(rs: ReedSolomon, k: nat, n: nat, c: Chunk, batch: seq<Chunk>)
    requires Sound(rs, k, n) && |c.data| > 0
    requires forall j | 0 <= j < |batch| :: batch[j] in FecEncoder.EncodeChunk(rs, k, n, c)
    requires |Indices(batch)| >= k
    ensures DecodeBatch(rs, k, n, batch) == Emitted(Chunk(c.path, c.hash, false, c.dataOffset, 0, 0, c.data))
  {
    var pad := FecEncoder.Padding(|c.data|, k);
    var padded := c.data + Zeros(pad);
    var ds := Split(padded, k).value;
    SlotsOfEncodedShares(rs, k, n, c, batch);
    var slots := Slots(batch, n);
    assert Recovers(rs, ds, slots);
    var restored := Restored(rs, slots, k);
    assert restored == ds;
    assert batch != [];
    EncodedShare(rs, k, n, c, batch[0]);
    AssembleSplit(c.data, k);
    DecodeRecovered(rs, k, n, batch, c.data, pad);
  }

  /** Copying out the shards of the encoder's split gives the padded data back. */
  lemma AssembleSplit(data: seq<Byte>, k: nat)
    requires k >= 1 && |data| > 0
    ensures var padded := data + Zeros(FecEncoder.Padding(|data|, k));
      var ds := Split(padded, k).value;
      Assemble(ds, |ds[0]|, k) == padded
  {
    var padded := data + Zeros(FecEncoder.Padding(|data|, k));
    var ds := Split(padded, k).value;
    var len := |ds[0]|;
    AssembleIsConcat(ds, len, k);
    assert ds[..k] == ds;
    assert (|ds| - k) * len == 0;
    SplitConcat(padded, k);
  }

  /** The tail of the worker body once the data shards are back and lay out as data plus padding. */
  lemma DecodeRecovered(rs: ReedSolomon, k: nat, n: nat, batch: seq<Chunk>, data: seq<Byte>, pad: nat)
    requires ValidParams(k, n) && IndicesInRange(batch, n) && batch != []
    requires rs.reconstructs(Slots(batch, n))
    requires var restored := Restored(rs, Slots(batch, n), k);
      Assemble(restored, |restored[0]|, k) == data + Zeros(pad)
    requires batch[0].dataPadding == pad
    ensures DecodeBatch(rs, k, n, batch) == Emitted(Chunk(batch[0].path, batch[0].hash, false, batch[0].dataOffset, 0, 0, data))
  {
    var whole := data + Zeros(pad);
    assert whole[..|whole| - pad] == data;
  }
}
