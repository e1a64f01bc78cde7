/**
 * The FEC encoder stage: each chunk's data is zero-padded to a multiple of
 * `required`, split into `required` data shards, extended with
 * `total - required` parity shards, and sent on as `total` share records.
 */
module FecEncoder {
  import opened Wire
  import opened Structs
  import opened Erasure

  /** The padding rule: the fewest zero bytes that make `required` divide the length. */
  function Padding(len: nat, k: nat): (r: nat)
    requires k >= 1
    ensures r < k && (len + r) % k == 0
    ensures r == 0 <==> len % k == 0
    ensures len == 0 ==> r == 0
  {
    PaddingAligns(len, k);
    (k - len % k) % k
  }

  lemma PaddingAligns(len: nat, k: nat)
    requires k >= 1
    ensures (len + (k - len % k) % k) % k == 0
    ensures len == 0 ==> (k - len % k) % k == 0
  {
    var m := len % k;
    ModUnique(k, 1, 0, k);
    ModUnique(0, 0, 0, k);
    if m != 0 {
      assert (k - m) % k == k - m;
      assert len == (len / k) * k + m;
      assert len + (k - m) == (len / k + 1) * k;
      ModUnique(len + (k - m), len / k + 1, 0, k);
    }
  }

  /** Euclidean division has one quotient and one remainder. */
  lemma ModUnique(x: int, q: int, r: int, k: int)
    requires k >= 1 && x == q * k + r && 0 <= r < k
    ensures x % k == r
  {
    var q', r' := x / k, x % k;
    assert x == q' * k + r';
    assert (q - q') * k == r' - r;
    if q > q' {
      MulMonotone(1, q - q', k);
    } else if q < q' {
      MulMonotone(1, q' - q, k);
    }
  }

  /** The share record for slot i: Encrypted is not carried over and stays false. */
  function ShareRecord(c: Chunk, padding: nat, i: nat, data: seq<Byte>): Chunk
  {
    Chunk(c.path, c.hash, false, c.dataOffset, padding % U32_LIMIT, i % U32_LIMIT, data)
  }

  /** The payloads of a run of share records. */
  function Payloads(shares: seq<Chunk>): (r: seq<seq<Byte>>)
    ensures |r| == |shares| && forall i | 0 <= i < |shares| :: r[i] == shares[i].data
  {
    seq(|shares|, i requires 0 <= i < |shares| => shares[i].data)
  }

  /**
   * The records the worker emits for one chunk: the codeword of the padded data,
   * one record per slot, or none when Split refuses empty data.
   */
  function EncodeChunk(rs: ReedSolomon, k: nat, n: nat, c: Chunk): (r: seq<Chunk>)
    requires ValidParams(k, n)
    ensures |c.data| == 0 <==> r == []
    ensures |c.data| > 0 ==> |r| == n
  {
    var pad := Padding(|c.data|, k);
    var padded := c.data + Zeros(pad);
    var split := Split(padded, k);
    if split.None? then
      assert |c.data| == 0;
      []
    else
      var cw := Codeword(rs, split.value, n);
      var r := seq(n, i requires 0 <= i < n => ShareRecord(c, pad, i, cw[i]));
      r
  }

  /** Everything the worker emits for a run of input chunks, in order. */
  function EncodeAll(rs: ReedSolomon, k: nat, n: nat, input: seq<Chunk>): seq<Chunk>
    requires ValidParams(k, n)
  {
    if input == [] then []
    else EncodeAll(rs, k, n, input[..|input| - 1]) + EncodeChunk(rs, k, n, input[|input| - 1])
  }

  /**
   * Worker: builds the encoder (which fails, emitting nothing, unless
   * 1 <= required <= total <= MAX_SHARDS), then for each input chunk pads, splits, encodes
   * and pushes the `total` share records.
   */
  method Worker(rs: ReedSolomon, required: int, total: int, input: seq<Chunk>) returns (output: seq<Chunk>)
    ensures !ValidParams(required, total) ==> output == []
    ensures ValidParams(required, total) ==> output == EncodeAll(rs, required, total, input)
  {
    output := [];
    if !(1 <= required <= total <= MAX_SHARDS) {
      return;
    }
    var j := 0;
    while j < |input|
      invariant 0 <= j <= |input|
      invariant output == EncodeAll(rs, required, total, input[..j])
    {
      var chunk := input[j];
      var records := EncodeOne(rs, required, total, chunk);
      EncodeAllStep(rs, required, total, input, j);
      output := output + records;
      j := j + 1;
    }
    assert input[..j] == input;
  }

  /** One chunk: pad, split, encode and push its share records. */
  method EncodeOne(rs: ReedSolomon, required: nat, total: nat, chunk: Chunk) returns (records: seq<Chunk>)
    requires ValidParams(required, total)
    ensures records == EncodeChunk(rs, required, total, chunk)
  {
    var padding := Padding(|chunk.data|, required);
    var data := chunk.data + Zeros(padding);
    var shares := Split(data, required);
    records := [];
    if shares.Some? {
      records := EmitShares(chunk, padding, Codeword(rs, shares.value, total));
    }
  }

  lemma EncodeAllStep(rs: ReedSolomon, k: nat, n: nat, input: seq<Chunk>, j: nat)
    requires ValidParams(k, n) && j < |input|
    ensures EncodeAll(rs, k, n, input[..j + 1]) == EncodeAll(rs, k, n, input[..j]) + EncodeChunk(rs, k, n, input[j])
  {
    assert input[..j + 1][..j] == input[..j];
  }

  /** The send loop: one share record per shard, slot by slot. */
  method EmitShares(c: Chunk, padding: nat, shards: seq<seq<Byte>>) returns (records: seq<Chunk>)
    ensures records == seq(|shards|, i requires 0 <= i < |shards| => ShareRecord(c, padding, i, shards[i]))
  {
    records := [];
    for i := 0 to |shards|
      invariant records == seq(i, s requires 0 <= s < i => ShareRecord(c, padding, s, shards[s]))
    {
      records := records + [ShareRecord(c, padding, i, shards[i])];
    }
  }

  // ---------------------------------------------------------------------------
  // Properties of one chunk's shares

  /**
   * Every share copies Path, Hash and DataOffset, has Encrypted false, carries
   * the padding and its own slot number (both as uint32).
   */
  lemma SharesCarryMetadata(rs: ReedSolomon, k: nat, n: nat, c: Chunk, i: nat)
    requires ValidParams(k, n) && |c.data| > 0 && i < n
    ensures var s := EncodeChunk(rs, k, n, c)[i];
      && s.path == c.path && s.hash == c.hash && s.dataOffset == c.dataOffset
      && !s.encrypted
      && s.dataPadding == Padding(|c.data|, k) % U32_LIMIT
      && s.shareIndex == i % U32_LIMIT
  {
  }

  /** Share i has ShareIndex i and DataPadding is the padding itself: below MAX_SHARDS the uint32 conversions never wrap. */
  lemma ShareIndexIsSlot(rs: ReedSolomon, k: nat, n: nat, c: Chunk, i: nat)
    requires ValidParams(k, n) && |c.data| > 0 && i < n
    ensures EncodeChunk(rs, k, n, c)[i].shareIndex == i
    ensures EncodeChunk(rs, k, n, c)[i].dataPadding == Padding(|c.data|, k)
  {
    SharesCarryMetadata(rs, k, n, c, i);
    ModBelow(i, U32_LIMIT);
    ModBelow(Padding(|c.data|, k), U32_LIMIT);
  }

  lemma ModBelow(x: nat, m: nat)
    requires x < m
    ensures x % m == x
  {
  }

  /**
   * The encoder's shares are systematic: their payloads are the codeword of the
   * split of the padded data, so the first `required` of them laid end to end
   * are the data followed by `padding` zero bytes.
   */
  lemma DataSharesAreSplit(rs: ReedSolomon, k: nat, n: nat, c: Chunk)
    requires ValidParams(k, n) && |c.data| > 0
    ensures var padded := c.data + Zeros(Padding(|c.data|, k));
      && Payloads(EncodeChunk(rs, k, n, c)) == Codeword(rs, Split(padded, k).value, n)
      && Concat(Payloads(EncodeChunk(rs, k, n, c))[..k]) == padded
  {
    var pad := Padding(|c.data|, k);
    var padded := c.data + Zeros(pad);
    var ds := Split(padded, k).value;
    var cw := Codeword(rs, ds, n);
    var p := Payloads(EncodeChunk(rs, k, n, c));
    assert p == cw;
    assert cw[..k] == ds;
    SplitConcat(padded, k);
  }

  /**
   * All payloads have the same length, (len(Data) + padding) / required: the
   * data shards by Split, the parity shards by the library's contract.
   */
  lemma SharesHaveEqualLength(rs: ReedSolomon, k: nat, n: nat, c: Chunk, i: nat)
    requires ValidParams(k, n) && ParityMatches(rs, k, n) && |c.data| > 0 && i < n
    ensures |EncodeChunk(rs, k, n, c)[i].data| * k == |c.data| + Padding(|c.data|, k)
  {
    var padded := c.data + Zeros(Padding(|c.data|, k));
    SplitCodewordLength(rs, k, n, padded, i);
    PayloadIsCodeword(rs, k, n, c, i);
    SplitShardLength(padded, k);
  }

  /** Share i carries slot i of the codeword of the split padded data. */
  lemma PayloadIsCodeword(rs: ReedSolomon, k: nat, n: nat, c: Chunk, i: nat)
    requires ValidParams(k, n) && |c.data| > 0 && i < n
    ensures var padded := c.data + Zeros(Padding(|c.data|, k));
      EncodeChunk(rs, k, n, c)[i].data == Codeword(rs, Split(padded, k).value, n)[i]
  {
  }

  /** Every slot of the codeword of a split is as long as the split's shards. */
  lemma SplitCodewordLength(rs: ReedSolomon, k: nat, n: nat, data: seq<Byte>, i: nat)
    requires ValidParams(k, n) && ParityMatches(rs, k, n) && |data| > 0 && i < n
    ensures |Codeword(rs, Split(data, k).value, n)[i]| == |Split(data, k).value[0]|
  {
    CodewordShardLength(rs, k, n, Split(data, k).value, i);
  }

  /** Every slot of a codeword is as long as the data shards. */
  lemma CodewordShardLength(rs: ReedSolomon, k: nat, n: nat, ds: seq<seq<Byte>>, i: nat)
    requires ValidParams(k, n) && ParityMatches(rs, k, n) && DataShards(ds, k) && i < n
    ensures |Codeword(rs, ds, n)[i]| == |ds[0]|
  {
    var cw := Codeword(rs, ds, n);
    if i < k {
      assert cw[i] == cw[..k][i];
    } else {
      assert cw[i] == rs.parity(ds, i - k);
    }
  }

  /** When `required` divides the length, Split's shards cover the data exactly. */
  lemma SplitShardLength(data: seq<Byte>, k: nat)
    requires k >= 1 && |data| > 0 && |data| % k == 0
    ensures |Split(data, k).value[0]| * k == |data|
  {
    var ds := Split(data, k).value;
    SplitConcat(data, k);
    ConcatLength(ds, |ds[0]|);
  }
}
