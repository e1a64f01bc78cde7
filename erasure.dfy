/**
 * The erasure-coding library (github.com/klauspost/reedsolomon) as the FEC
 * stages use it: New's parameter check, Split, Encode and ReconstructData.
 *
 * Split is plain slicing and is defined here. The Galois-field arithmetic of
 * Encode and ReconstructData is not modelled: a `ReedSolomon` value stands for
 * one encoder object, and `Sound` is the contract the library documents for
 * it — parity shards have the data shards' length, any `required` intact shards
 * of a codeword give back its data shards, and fewer make reconstruction fail.
 */
module Erasure {
  import opened Wire
  import opened Wrappers

  /**
   * The most shards New accepts: 256, the size of GF(2^8). Every release of the
   * library refuses more with ErrMaxShardNum (later releases only above 256
   * when they cannot fall back to GF(2^16)).
   */
  const MAX_SHARDS: nat := 256

  /**
   * reedsolomon.New(required, total-required) returns an encoder, not an error:
   * at least one data shard, no negative parity count, and at most MAX_SHARDS
   * shards in all.
   */
  predicate ValidParams(required: int, total: int) {
    1 <= required <= total <= MAX_SHARDS
  }

  /** Data shards as Split leaves them: k of them, all of one nonzero length. */
  predicate DataShards(ds: seq<seq<Byte>>, k: nat) {
    && k >= 1 && |ds| == k && |ds[0]| > 0
    && forall i | 0 <= i < k :: |ds[i]| == |ds[0]|
  }

  /**
   * One encoder object. `parity(ds, j)` is what Encode writes into parity slot j
   * for data shards ds; ReconstructData on a slot array (an empty slot is a lost
   * shard) returns nil exactly when `reconstructs` holds, and then data slot i
   * holds `restored(slots, i)`.
   */
  datatype ReedSolomon = ReedSolomon(
    parity: (seq<seq<Byte>>, nat) -> seq<Byte>,
    reconstructs: seq<seq<Byte>> -> bool,
    restored: (seq<seq<Byte>>, nat) -> seq<Byte>)

  lemma MulMonotone(a: nat, b: nat, c: nat)
    requires a <= b
    ensures a * c <= b * c
  {
  }

  /** The shard length Split uses: ceil(d / k), which is exact when k divides d. */
  lemma CeilDivision(d: nat, k: nat)
    requires d >= 1 && k >= 1
    ensures var per := (d + k - 1) / k;
      per >= 1 && d <= per * k && (d % k == 0 ==> per * k == d)
  {
    var per := (d + k - 1) / k;
    var rem := (d + k - 1) % k;
    assert per * k + rem == d + k - 1 && 0 <= rem < k;
    if d % k == 0 {
      var m := d / k;
      assert m * k == d;
      if per > m {
        MulMonotone(m + 1, per, k);
      } else if per < m {
        MulMonotone(per + 1, m, k);
      }
      assert per == m;
    }
  }

  /** The bytes of shard i when data is cut into shards of `per` bytes. */
  function Slice(data: seq<Byte>, per: nat, i: nat): (r: seq<Byte>)
    requires (i + 1) * per <= |data|
    ensures |r| == per
  {
    data[i * per..(i + 1) * per]
  }

  /** The first i shards of `per` bytes each. */
  function Shards(data: seq<Byte>, per: nat, i: nat): (r: seq<seq<Byte>>)
    requires i * per <= |data|
    ensures |r| == i && forall j | 0 <= j < i :: |r[j]| == per
  {
    seq(i, j requires 0 <= j < i => MulMonotone(j + 1, i, per); Slice(data, per, j))
  }

  /**
   * Split: the data, zero-padded to a multiple of `required`, cut into `required`
   * equal shards. Empty data is refused (ErrShortData).
   */
  function Split(data: seq<Byte>, k: nat): (r: Option<seq<seq<Byte>>>)
    requires k >= 1
    ensures r.Some? <==> |data| > 0
    ensures r.Some? ==> DataShards(r.value, k)
  {
    if |data| == 0 then None
    else
      var per := (|data| + k - 1) / k;
      CeilDivision(|data|, k);
      Some(Shards(data + Zeros(per * k - |data|), per, k))
  }

  /** The shards laid end to end. */
  function Concat(ss: seq<seq<Byte>>): (r: seq<Byte>)
  {
    if ss == [] then [] else Concat(ss[..|ss| - 1]) + ss[|ss| - 1]
  }

  lemma {:induction false} ConcatLength(ss: seq<seq<Byte>>, len: nat)
    requires forall i | 0 <= i < |ss| :: |ss[i]| == len
    ensures |Concat(ss)| == |ss| * len
  {
    if ss != [] {
      ConcatLength(ss[..|ss| - 1], len);
      MulStep(|ss|, len);
    }
  }

  lemma MulStep(a: nat, b: nat)
    requires a >= 1
    ensures (a - 1) * b + b == a * b
  {
  }

  lemma {:induction false} ConcatOfSlices(data: seq<Byte>, per: nat, i: nat)
    requires i * per <= |data|
    ensures Concat(Shards(data, per, i)) == data[..i * per]
  {
    if i > 0 {
      var ss := Shards(data, per, i);
      MulMonotone(i - 1, i, per);
      assert ss[..i - 1] == Shards(data, per, i - 1);
      ConcatOfSlices(data, per, i - 1);
      MulStep(i, per);
      assert data[..i * per] == data[..(i - 1) * per] + data[(i - 1) * per..i * per];
    }
  }

  /**
   * Split is systematic: its shards laid end to end are the data followed by
   * the zero padding, and exactly the data when `required` divides its length.
   */
  lemma SplitConcat(data: seq<Byte>, k: nat)
    requires k >= 1 && |data| > 0
    ensures var ds := Split(data, k).value;
      && Concat(ds) == data + Zeros(|ds[0]| * k - |data|)
      && (|data| % k == 0 ==> Concat(ds) == data)
  {
    var per := (|data| + k - 1) / k;
    CeilDivision(|data|, k);
    var padded := data + Zeros(per * k - |data|);
    ConcatOfSlices(padded, per, k);
    assert padded[..k * per] == padded;
  }

  /** The k data shards followed by the n - k parity shards Encode computes from them. */
  function Codeword(rs: ReedSolomon, ds: seq<seq<Byte>>, n: nat): (r: seq<seq<Byte>>)
    requires |ds| <= n
    ensures |r| == n && r[..|ds|] == ds
    ensures forall j | |ds| <= j < n :: r[j] == rs.parity(ds, j - |ds|)
  {
    ds + seq(n - |ds|, j requires 0 <= j < n - |ds| => rs.parity(ds, j))
  }

  /** The slot indices holding a shard. */
  function Present(slots: seq<seq<Byte>>): set<nat>
  {
    set i: nat | i < |slots| && slots[i] != []
  }

  /** Every slot is either lost (empty) or holds the codeword's shard unchanged. */
  predicate Received(slots: seq<seq<Byte>>, cw: seq<seq<Byte>>) {
    |slots| == |cw| && forall i | 0 <= i < |slots| :: slots[i] == [] || slots[i] == cw[i]
  }

  /** ReconstructData succeeds and restores exactly the data shards ds. */
  ghost predicate Recovers(rs: ReedSolomon, ds: seq<seq<Byte>>, slots: seq<seq<Byte>>) {
    rs.reconstructs(slots) && forall i | 0 <= i < |ds| :: rs.restored(slots, i) == ds[i]
  }

  /** Encode writes parity shards as long as the data shards. */
  ghost predicate ParityMatches(rs: ReedSolomon, k: nat, n: nat) {
    forall ds, j | DataShards(ds, k) && 0 <= j < n - k :: |rs.parity(ds, j)| == |ds[0]|
  }

  /** Any k intact shards of a codeword give its data shards back. */
  ghost predicate RecoversFromAnyK(rs: ReedSolomon, k: nat, n: nat)
    requires k <= n
  {
    forall ds, slots | DataShards(ds, k) && Received(slots, Codeword(rs, ds, n)) && |Present(slots)| >= k
      :: Recovers(rs, ds, slots)
  }

  /** With fewer than k shards ReconstructData returns an error. */
  ghost predicate FailsBelowK(rs: ReedSolomon, k: nat, n: nat) {
    forall slots | |slots| == n && |Present(slots)| < k :: !rs.reconstructs(slots)
  }

  /** The library's contract for an encoder built with New(k, n - k). */
  ghost predicate Sound(rs: ReedSolomon, k: nat, n: nat) {
    && ValidParams(k, n)
    && ParityMatches(rs, k, n)
    && RecoversFromAnyK(rs, k, n)
    && FailsBelowK(rs, k, n)
  }

  // ---------------------------------------------------------------------------
  // The contract is satisfiable: with one data shard, replication meets it.

  lemma PresentTail(slots: seq<seq<Byte>>)
    requires slots != [] && slots[0] == []
    ensures Present(slots) == {} <==> Present(slots[1..]) == {}
  {
    if i :| i in Present(slots) {
      assert i - 1 in Present(slots[1..]);
    }
    if i :| i in Present(slots[1..]) {
      assert i + 1 in Present(slots);
    }
  }

  function FirstPresent(slots: seq<seq<Byte>>): (r: Option<seq<Byte>>)
    ensures r.Some? <==> Present(slots) != {}
    ensures r.Some? ==> exists i | 0 <= i < |slots| :: slots[i] == r.value && r.value != []
  {
    if slots == [] then None
    else if slots[0] != [] then
      assert 0 in Present(slots);
      Some(slots[0])
    else
      var rest := FirstPresent(slots[1..]);
      PresentTail(slots);
      rest
  }

  /** Every parity shard is a copy of the single data shard. */
  function Replication(): ReedSolomon
  {
    ReedSolomon(
      (ds: seq<seq<Byte>>, j: nat) => if |ds| > 0 then ds[0] else [],
      (slots: seq<seq<Byte>>) => FirstPresent(slots).Some?,
      (slots: seq<seq<Byte>>, i: nat) => var f := FirstPresent(slots); if f.Some? then f.value else [])
  }

  lemma ReplicationIsSound(n: nat)
    requires 1 <= n <= MAX_SHARDS
    ensures Sound(Replication(), 1, n)
  {
    var rs := Replication();
    forall ds, slots | DataShards(ds, 1) && Received(slots, Codeword(rs, ds, n)) && |Present(slots)| >= 1
      ensures Recovers(rs, ds, slots)
    {
      var cw := Codeword(rs, ds, n);
      assert forall i | 0 <= i < n :: cw[i] == ds[0];
      assert Present(slots) != {};
    }
    forall slots | |slots| == n && |Present(slots)| < 1
      ensures !rs.reconstructs(slots)
    {
    }
  }
}
