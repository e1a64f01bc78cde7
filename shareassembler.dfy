/**
 * The share assembler: shares arriving from the network are buffered per
 * (Hash, DataOffset); as soon as a buffer holds `required` shares they leave
 * together as one batch for the FEC decoder. A manager sweep drops entries
 * that have had no share for more than 10 seconds. Time is in Unix seconds.
 */
module ShareAssembler {
  import opened Wire
  import opened Wrappers
  import opened Structs
  import Utils

  /** CacheKey: the share's file hash and chunk offset, and nothing else. */
  datatype CacheKey = CacheKey(hash: seq<Byte>, dataOffset: int)

  function KeyOf(c: Chunk): (k: CacheKey)
    ensures k.hash == c.hash && k.dataOffset == c.dataOffset
  {
    CacheKey(c.hash, c.dataOffset)
  }

  /**
   * CacheValue: the buffered share channel (front first, bounded by its
   * capacity) and the time of the last share (0 until the first has been pushed).
   */
  class CacheValue {
    var shares: seq<Chunk>
    var lastUpdated: int
    const capacity: nat

    constructor (capacity: nat)
      ensures shares == [] && lastUpdated == 0 && this.capacity == capacity
    {
      shares := [];
      lastUpdated := 0;
      this.capacity := capacity;
    }

    /** value.Shares <- chunk; value.LastUpdated.Store(now). */
    method Push(c: Chunk, now: int)
      requires |shares| < capacity
      modifies this
      ensures shares == old(shares) + [c] && lastUpdated == now
    {
      shares := shares + [c];
      lastUpdated := now;
    }

    /** The drain loop: n receives from the front of the channel. */
    method Drain(n: int) returns (batch: seq<Chunk>)
      requires n <= |shares|
      modifies this
      ensures batch + shares == old(shares)
      ensures |batch| == if n > 0 then n else 0
      ensures lastUpdated == old(lastUpdated)
    {
      batch := [];
      var i := 0;
      while i < n
        invariant 0 <= i <= (if n > 0 then n else 0)
        invariant batch + shares == old(shares) && |batch| == i
        invariant lastUpdated == old(lastUpdated)
      {
        batch := batch + [shares[0]];
        shares := shares[1..];
        i := i + 1;
      }
    }
  }

  // ---------------------------------------------------------------------------
  // The cache as a value

  /** The contents of one cache entry. */
  datatype Entry = Entry(shares: seq<Chunk>, lastUpdated: int)

  /** The cache after one share has arrived, the batch it released, and whether the push blocked. */
  datatype Arrival = Arrival(cache: map<CacheKey, Entry>, batch: Option<seq<Chunk>>, blocked: bool)

  /**
   * One worker step on the cache's contents: find or create the share's entry,
   * push the share (blocking for good if the buffer is full), stamp the entry,
   * and release the first `required` shares once there are that many.
   */
  function Arrive(cache: map<CacheKey, Entry>, c: Chunk, now: int, required: int, capacity: nat): (a: Arrival)
    ensures KeyOf(c) in a.cache && a.cache.Keys == cache.Keys + {KeyOf(c)}
  {
    var key := KeyOf(c);
    var entry := if key in cache then cache[key] else Entry([], 0);
    if |entry.shares| >= capacity then Arrival(cache[key := entry], None, true)
    else
      var buffered := entry.shares + [c];
      if |buffered| >= required then
        var n := if required > 0 then required else 0;
        Arrival(cache[key := Entry(buffered[n..], now)], Some(buffered[..n]), false)
      else
        Arrival(cache[key := Entry(buffered, now)], None, false)
  }

  /** Arrive when the push goes through: the entry becomes `post`, whatever the batch. */
  lemma ArriveUpdates(cache: map<CacheKey, Entry>, c: Chunk, now: int, required: int, capacity: nat, post: Entry)
    requires var key := KeyOf(c);
      var entry := if key in cache then cache[key] else Entry([], 0);
      var buffered := entry.shares + [c];
      && |entry.shares| < capacity && post.lastUpdated == now
      && (|buffered| >= required ==> post.shares == buffered[(if required > 0 then required else 0)..])
      && (|buffered| < required ==> post.shares == buffered)
    ensures Arrive(cache, c, now, required, capacity).cache == cache[KeyOf(c) := post]
  {
  }

  /** Creating the share's (empty) entry before the arrival changes nothing. */
  lemma ArriveAfterLookup(cache: map<CacheKey, Entry>, c: Chunk, now: int, required: int, capacity: nat)
    ensures var key := KeyOf(c);
      Arrive(cache[key := if key in cache then cache[key] else Entry([], 0)], c, now, required, capacity)
      == Arrive(cache, c, now, required, capacity)
  {
  }

  /** An entry the sweep drops: stamped, and idle for more than 10 seconds. */
  predicate Stale(e: Entry, now: int) {
    e.lastUpdated != 0 && now - e.lastUpdated > 10
  }

  /** The manager's sweep on the cache's contents. */
  function Sweep(cache: map<CacheKey, Entry>, now: int): (r: map<CacheKey, Entry>)
    ensures forall k :: k in r <==> k in cache && !Stale(cache[k], now)
    ensures forall k | k in r :: r[k] == cache[k]
  {
    map k | k in cache && !Stale(cache[k], now) :: cache[k]
  }

  /** The sweep after visiting the keys `ks` only, in order. */
  ghost function SweptBy(cache: map<CacheKey, Entry>, ks: seq<CacheKey>, now: int): map<CacheKey, Entry>
  {
    if ks == [] then cache
    else
      var key := ks[|ks| - 1];
      var m := SweptBy(cache, ks[..|ks| - 1], now);
      if key in m && Stale(m[key], now) then m - {key} else m
  }

  /** After visiting `ks`, exactly the stale entries among them are gone; the rest are untouched. */
  lemma {:induction false} SweptByKeeps(cache: map<CacheKey, Entry>, ks: seq<CacheKey>, now: int)
    ensures forall k :: k in SweptBy(cache, ks, now) <==> k in cache && (k in ks ==> !Stale(cache[k], now))
    ensures forall k | k in SweptBy(cache, ks, now) :: SweptBy(cache, ks, now)[k] == cache[k]
  {
    if ks != [] {
      var init := ks[..|ks| - 1];
      SweptByKeeps(cache, init, now);
      assert forall x :: x in ks <==> x in init || x == ks[|ks| - 1] by {
        assert ks == init + [ks[|ks| - 1]];
      }
    }
  }

  /** Visiting the next key of `ks`: it is dropped if it is still there and stale. */
  lemma SweptByStep(cache: map<CacheKey, Entry>, ks: seq<CacheKey>, i: nat, now: int)
    requires i < |ks|
    ensures SweptBy(cache, ks[..i + 1], now) ==
      var m := SweptBy(cache, ks[..i], now);
      if ks[i] in m && Stale(m[ks[i]], now) then m - {ks[i]} else m
  {
    assert ks[..i + 1][..i] == ks[..i];
  }

  /** Once every key has been visited, the sweep is complete. */
  lemma SweptByAll(cache: map<CacheKey, Entry>, ks: seq<CacheKey>, now: int)
    requires forall k | k in cache :: k in ks
    ensures SweptBy(cache, ks[..|ks|], now) == Sweep(cache, now)
  {
    assert ks[..|ks|] == ks;
    SweptByKeeps(cache, ks, now);
  }

  /** Every buffered share sits under its own key. */
  predicate Keyed(cache: map<CacheKey, Entry>) {
    forall k, i | k in cache && 0 <= i < |cache[k].shares| :: KeyOf(cache[k].shares[i]) == k
  }

  /** Every buffer holds fewer than `required` shares. */
  predicate BelowRequired(cache: map<CacheKey, Entry>, required: int) {
    forall k | k in cache :: |cache[k].shares| < required
  }

  /** The buffer at `k`; a missing entry buffers nothing. */
  function Buffered(cache: map<CacheKey, Entry>, k: CacheKey): (r: seq<Chunk>)
    ensures k !in cache ==> r == []
  {
    if k in cache then cache[k].shares else []
  }

  /** Shares that differ only in path, index, padding or data go to the same entry. */
  lemma KeyIgnoresPath(c1: Chunk, c2: Chunk)
    ensures KeyOf(c1) == KeyOf(c2) <==> c1.hash == c2.hash && c1.dataOffset == c2.dataOffset
  {
  }

  /** An arrival touches its own key only; every other entry is kept as it was. */
  lemma ArriveKeepsOthers(cache: map<CacheKey, Entry>, c: Chunk, now: int, required: int, capacity: nat)
    ensures var a := Arrive(cache, c, now, required, capacity);
      forall k | k in cache && k != KeyOf(c) :: a.cache[k] == cache[k]
  {
  }

  /**
   * The push blocks exactly when the buffer is full, and then nothing changes.
   * Otherwise the share joins the back of its buffer, the entry is stamped, and a
   * batch leaves exactly when the buffer reaches `required`: the batch followed by
   * what stays buffered is the old buffer followed by the share.
   */
  lemma ArriveAppends(cache: map<CacheKey, Entry>, c: Chunk, now: int, required: int, capacity: nat)
    ensures var a := Arrive(cache, c, now, required, capacity);
      var key := KeyOf(c);
      var before := Buffered(cache, key);
      && (a.blocked <==> |before| >= capacity)
      && (a.blocked ==> a.batch == None && Buffered(a.cache, key) == before)
      && (a.blocked && key in cache ==> a.cache == cache)
      && (!a.blocked ==>
            && a.cache[key].lastUpdated == now
            && (a.batch.Some? <==> |before| + 1 >= required)
            && (a.batch.Some? && required >= 1 ==> |a.batch.value| == required)
            && (if a.batch.Some? then a.batch.value else []) + a.cache[key].shares == before + [c])
  {
    var a := Arrive(cache, c, now, required, capacity);
    var key := KeyOf(c);
    var before := Buffered(cache, key);
    if !a.blocked && a.batch.Some? {
      var buffered := before + [c];
      var n := if required > 0 then required else 0;
      assert a.batch.value == buffered[..n] && a.cache[key].shares == buffered[n..];
      assert buffered[..n] + buffered[n..] == buffered;
    }
  }

  /**
   * With 1 <= required <= capacity and every buffer below `required`, the push
   * never blocks and every buffer stays below `required`.
   */
  lemma ArriveStaysBelowRequired(cache: map<CacheKey, Entry>, c: Chunk, now: int, required: int, capacity: nat)
    requires 1 <= required <= capacity
    requires BelowRequired(cache, required)
    ensures var a := Arrive(cache, c, now, required, capacity);
      !a.blocked && BelowRequired(a.cache, required)
  {
    var key := KeyOf(c);
    var a := Arrive(cache, c, now, required, capacity);
    ArriveAppends(cache, c, now, required, capacity);
    ArriveKeepsOthers(cache, c, now, required, capacity);
    assert |Buffered(cache, key)| < required;
    if a.batch.Some? {
      assert |a.batch.value| + |a.cache[key].shares| == |Buffered(cache, key)| + 1;
    }
  }

  /** An arrival keeps every buffered share under its own key. */
  lemma ArriveKeepsKeyed(cache: map<CacheKey, Entry>, c: Chunk, now: int, required: int, capacity: nat)
    requires Keyed(cache)
    ensures var a := Arrive(cache, c, now, required, capacity);
      && Keyed(a.cache)
      && (a.batch.Some? ==> forall i | 0 <= i < |a.batch.value| :: KeyOf(a.batch.value[i]) == KeyOf(c))
  {
    var key := KeyOf(c);
    var a := Arrive(cache, c, now, required, capacity);
    var buffered := Buffered(cache, key) + [c];
    assert forall i | 0 <= i < |buffered| :: KeyOf(buffered[i]) == key;
  }

  /** The sweep only drops entries, so what holds of every entry still holds. */
  lemma SweepKeepsInvariants(cache: map<CacheKey, Entry>, now: int, required: int)
    ensures Keyed(cache) ==> Keyed(Sweep(cache, now))
    ensures BelowRequired(cache, required) ==> BelowRequired(Sweep(cache, now), required)
    ensures Sweep(Sweep(cache, now), now) == Sweep(cache, now)
  {
  }

  // ---------------------------------------------------------------------------
  // A run of arrivals

  /** The cache, the batches released in order, and whether the worker got stuck. */
  datatype Run = Run(cache: map<CacheKey, Entry>, batches: seq<seq<Chunk>>, blocked: bool)

  /**
   * The worker's steps over the arriving shares, in order, all stamped with
   * one `now` and with no manager sweep between them; a blocked push ends the
   * run.
   */
  function ArriveAll(cache: map<CacheKey, Entry>, cs: seq<Chunk>, now: int, required: int, capacity: nat): (r: Run)
    ensures cs == [] ==> r == Run(cache, [], false)
  {
    if cs == [] then Run(cache, [], false)
    else
      var prev := ArriveAll(cache, cs[..|cs| - 1], now, required, capacity);
      if prev.blocked then prev
      else
        var a := Arrive(prev.cache, cs[|cs| - 1], now, required, capacity);
        Run(a.cache, prev.batches + (if a.batch.Some? then [a.batch.value] else []), a.blocked)
  }

  /** The shares of `cs` that belong to entry `k`, in order. */
  function SharesFor(cs: seq<Chunk>, k: CacheKey): (r: seq<Chunk>)
    ensures |r| <= |cs|
    ensures forall i | 0 <= i < |r| :: KeyOf(r[i]) == k
  {
    if cs == [] then []
    else SharesFor(cs[..|cs| - 1], k) + (if KeyOf(cs[|cs| - 1]) == k then [cs[|cs| - 1]] else [])
  }

  /** The batches whose first share belongs to entry `k`, concatenated in order. */
  function BatchesFor(bs: seq<seq<Chunk>>, k: CacheKey): (r: seq<Chunk>)
  {
    if bs == [] then []
    else
      var b := bs[|bs| - 1];
      BatchesFor(bs[..|bs| - 1], k) + (if b != [] && KeyOf(b[0]) == k then b else [])
  }

  /** A batch of `required` shares, all of one entry. */
  predicate Batch(b: seq<Chunk>, required: int) {
    |b| == required && required >= 1 && forall i | 0 <= i < |b| :: KeyOf(b[i]) == KeyOf(b[0])
  }

  /**
   * With 1 <= required <= capacity no push in a run blocks, every buffer stays
   * below `required`, shares stay under their own key, and every batch holds
   * exactly `required` shares of one entry.
   */
  lemma {:induction false} ArriveAllNeverBlocks(cache: map<CacheKey, Entry>, cs: seq<Chunk>, now: int,
                                                required: int, capacity: nat)
    requires 1 <= required <= capacity
    requires Keyed(cache) && BelowRequired(cache, required)
    ensures var r := ArriveAll(cache, cs, now, required, capacity);
      && !r.blocked && Keyed(r.cache) && BelowRequired(r.cache, required)
      && (forall j | 0 <= j < |r.batches| :: Batch(r.batches[j], required))
  {
    if cs != [] {
      var init := cs[..|cs| - 1];
      var c := cs[|cs| - 1];
      ArriveAllNeverBlocks(cache, init, now, required, capacity);
      var prev := ArriveAll(cache, init, now, required, capacity);
      ArriveAppends(prev.cache, c, now, required, capacity);
      ArriveStaysBelowRequired(prev.cache, c, now, required, capacity);
      ArriveKeepsKeyed(prev.cache, c, now, required, capacity);
    }
  }

  /** One arrival, seen from entry `k`: its share, if it is k's, joins k's delivered-then-buffered stream. */
  lemma ArriveStreamFor(cache: map<CacheKey, Entry>, bs: seq<seq<Chunk>>, c: Chunk, now: int,
                        required: int, capacity: nat, k: CacheKey)
    requires 1 <= required <= capacity
    requires Keyed(cache) && BelowRequired(cache, required)
    ensures var a := Arrive(cache, c, now, required, capacity);
      var extra := if a.batch.Some? then [a.batch.value] else [];
      BatchesFor(bs + extra, k) + Buffered(a.cache, k)
      == BatchesFor(bs, k) + Buffered(cache, k) + (if KeyOf(c) == k then [c] else [])
  {
    var a := Arrive(cache, c, now, required, capacity);
    ArriveAppends(cache, c, now, required, capacity);
    ArriveKeepsOthers(cache, c, now, required, capacity);
    ArriveStaysBelowRequired(cache, c, now, required, capacity);
    ArriveKeepsKeyed(cache, c, now, required, capacity);
    if a.batch.Some? {
      var b := a.batch.value;
      assert (bs + [b])[..|bs|] == bs;
      assert KeyOf(b[0]) == KeyOf(c);
      if KeyOf(c) == k {
        assert BatchesFor(bs + [b], k) == BatchesFor(bs, k) + b;
      } else {
        assert BatchesFor(bs + [b], k) == BatchesFor(bs, k);
      }
    } else {
      assert bs + [] == bs;
    }
  }

  lemma AppendAssoc(a: seq<Chunk>, b: seq<Chunk>, c: seq<Chunk>)
    ensures a + b + c == a + (b + c)
  {
  }

  /**
   * Between two sweeps, every share is delivered exactly once and in order:
   * for each entry, the batches released for it followed by what it still
   * buffers are what it buffered at the start followed by its arriving
   * shares. A sweep is not part of such a run; one that removes a part-filled
   * entry drops the shares it buffered (see Sweep).
   */
  lemma {:induction false} ArriveAllDeliversInOrder(cache: map<CacheKey, Entry>, cs: seq<Chunk>, now: int,
                                                    required: int, capacity: nat, k: CacheKey)
    requires 1 <= required <= capacity
    requires Keyed(cache) && BelowRequired(cache, required)
    ensures var r := ArriveAll(cache, cs, now, required, capacity);
      BatchesFor(r.batches, k) + Buffered(r.cache, k) == Buffered(cache, k) + SharesFor(cs, k)
  {
    if cs != [] {
      var init := cs[..|cs| - 1];
      var c := cs[|cs| - 1];
      ArriveAllDeliversInOrder(cache, init, now, required, capacity, k);
      ArriveAllNeverBlocks(cache, init, now, required, capacity);
      var prev := ArriveAll(cache, init, now, required, capacity);
      var a := Arrive(prev.cache, c, now, required, capacity);
      var extra := if a.batch.Some? then [a.batch.value] else [];
      var mine := if KeyOf(c) == k then [c] else [];
      assert ArriveAll(cache, cs, now, required, capacity) == Run(a.cache, prev.batches + extra, a.blocked);
      assert SharesFor(cs, k) == SharesFor(init, k) + mine;
      ArriveStreamFor(prev.cache, prev.batches, c, now, required, capacity, k);
      var start, early := Buffered(cache, k), SharesFor(init, k);
      assert BatchesFor(prev.batches + extra, k) + Buffered(a.cache, k) == start + early + mine;
      AppendAssoc(start, early, mine);
    }
  }

  // ---------------------------------------------------------------------------
  // The stage as an object

  class ShareAssembler {
    const required: int
    const total: int
    const cache: Utils.RWMutexMap<CacheKey, CacheValue?>
    var output: seq<seq<Chunk>>
    /** What the cache holds, entry by entry. */
    ghost var contents: map<CacheKey, Entry>

    /** The buffer capacity of every entry: make(chan *Chunk, total*2). */
    function Capacity(): nat
      requires total >= 0
    {
      total * 2
    }

    /**
     * Every key maps to its own live CacheValue of the stage's capacity, whose
     * buffer and stamp are the contents at that key.
     */
    ghost predicate Valid()
      reads this, cache, cache.dirty.Values
    {
      && total >= 0
      && cache.zero == null
      && cache.dirty.Keys == contents.Keys
      && (forall k | k in cache.dirty ::
            && cache.dirty[k] != null && cache.dirty[k].capacity == Capacity()
            && cache.dirty[k].shares == contents[k].shares
            && cache.dirty[k].lastUpdated == contents[k].lastUpdated)
      && (forall k1, k2 | k1 in cache.dirty && k2 in cache.dirty && k1 != k2 :: cache.dirty[k1] != cache.dirty[k2])
    }

    constructor (required: int, total: int)
      requires total >= 0
      ensures Valid() && contents == map[] && output == []
      ensures this.required == required && this.total == total
    {
      this.required := required;
      this.total := total;
      cache := new Utils.RWMutexMap(null);
      output := [];
      contents := map[];
    }

    /** The share's entry, created empty (and unstamped) when the key is new. */
    method Lookup(key: CacheKey) returns (value: CacheValue)
      requires Valid()
      modifies this, cache
      ensures Valid() && output == old(output)
      ensures key in cache.dirty && value == cache.dirty[key]
      ensures contents == old(contents)[key := if key in old(contents) then old(contents)[key] else Entry([], 0)]
      ensures forall k | k in old(cache.dirty) :: k in cache.dirty && cache.dirty[k] == old(cache.dirty)[k]
      ensures key !in old(cache.dirty) ==> fresh(value)
    {
      var created := new CacheValue(Capacity());
      var actual, loaded := cache.LoadOrStore(key, created);
      value := actual;
      contents := contents[key := if key in contents then contents[key] else Entry([], 0)];
    }

    /** worker: one arriving share. */
    method Worker(c: Chunk, now: int) returns (blocked: bool)
      requires Valid()
      modifies this, cache, cache.dirty.Values
      ensures Valid()
      ensures var a := Arrive(old(contents), c, now, required, Capacity());
        && contents == a.cache && blocked == a.blocked
        && output == old(output) + (if a.batch.Some? then [a.batch.value] else [])
    {
      var key := CacheKey(c.hash, c.dataOffset);
      var value := Lookup(key);
      if |value.shares| >= value.capacity {
        // The push into the full buffer never completes.
        return true;
      }
      assert key in old(cache.dirty) ==> value == old(cache.dirty)[key];
      ArriveAfterLookup(old(contents), c, now, required, Capacity());
      Deliver(key, value, c, now);
      blocked := false;
    }

    /** The push that goes through, and the batch it may release. */
    method Deliver(key: CacheKey, value: CacheValue, c: Chunk, now: int)
      requires Valid() && key in cache.dirty && value == cache.dirty[key]
      requires key == KeyOf(c) && |value.shares| < value.capacity
      modifies this, value
      ensures Valid()
      ensures var a := Arrive(old(contents), c, now, required, Capacity());
        && contents == a.cache
        && output == old(output) + (if a.batch.Some? then [a.batch.value] else [])
    {
      ghost var buffered := value.shares + [c];
      value.Push(c, now);
      // TryLock always succeeds without a competing worker.
      if |value.shares| >= required {
        var shares := value.Drain(required);
        output := output + [shares];
        assert shares == buffered[..|shares|] && value.shares == buffered[|shares|..];
      }
      ghost var post := Entry(value.shares, value.lastUpdated);
      ArriveUpdates(old(contents), c, now, required, Capacity(), post);
      contents := contents[key := post];
    }

    /** One key of the manager's sweep: load it and delete it if its entry is stale. */
    method SweepKey(key: CacheKey, now: int)
      requires Valid()
      modifies this, cache
      ensures Valid() && output == old(output)
      ensures contents == if key in old(contents) && Stale(old(contents)[key], now)
        then old(contents) - {key} else old(contents)
    {
      var value, ok := cache.Load(key);
      if ok && value.lastUpdated != 0 && now - value.lastUpdated > 10 {
        cache.Delete(key);
        contents := contents - {key};
      }
    }

    /** manager: one tick of the sweep, deleting every stale entry. */
    method Manager(now: int)
      requires Valid()
      modifies this, cache
      ensures Valid()
      ensures contents == Sweep(old(contents), now)
      ensures output == old(output)
    {
      var keys := cache.Keys();
      ghost var before := contents;
      var i := 0;
      while i < |keys|
        invariant 0 <= i <= |keys|
        invariant Valid() && output == old(output)
        invariant contents == SweptBy(before, keys[..i], now)
      {
        SweepKey(keys[i], now);
        SweptByStep(before, keys, i, now);
        i := i + 1;
      }
      SweptByAll(before, keys, now);
    }
  }
}
