/**
 * The file writer stage: each decoded chunk is written at its offset into a
 * temp file named after the file's path and hash, and the temp file is kept in
 * a cache stamped with the time of the last write. A manager sweep hands every
 * temp file idle for more than 30 seconds to the file closer. Time is in
 * nanoseconds, as time.Time carries it.
 */
module FileWriter {
  import opened Wire
  import opened Structs
  import Paths
  import Utils
  import FileSystem

  /** 30 seconds: time.Since(t).Seconds() > 30 holds exactly when more than this many nanoseconds passed. */
  const QUIET_NANOS: int := 30_000_000_000

  /** pathReplace: '/', '\' and ':' each become '_', one after the other. */
  function PathReplace(path: string): string
  {
    Paths.ReplaceChar(Paths.ReplaceChar(Paths.ReplaceChar(path, '/', '_'), '\\', '_'), ':', '_')
  }

  /** No separator or drive colon survives, and every other character stays where it was. */
  lemma PathReplaceIsSafe(path: string)
    ensures var r := PathReplace(path);
      && |r| == |path|
      && '/' !in r && '\\' !in r && ':' !in r
      && forall i | 0 <= i < |path| :: r[i] == if path[i] in "/\\:" then '_' else path[i]
  {
  }

  const HEX_DIGITS: string := "0123456789abcdef"

  /** fmt's %x of a byte array: two lower-case hex digits per byte, high nibble first. */
  function Hex(b: seq<Byte>): (r: string)
    ensures |r| == 2 * |b|
  {
    if b == [] then [] else [HEX_DIGITS[b[0] / 16], HEX_DIGITS[b[0] % 16]] + Hex(b[1..])
  }

  lemma HexDigitsDistinct(x: nat, y: nat)
    requires x < 16 && y < 16 && HEX_DIGITS[x] == HEX_DIGITS[y]
    ensures x == y
  {
  }

  /** Different hashes have different hex spellings. */
  lemma {:induction false} HexInjective(a: seq<Byte>, b: seq<Byte>)
    requires |a| == |b| && Hex(a) == Hex(b)
    ensures a == b
  {
    if a != [] {
      var ha, hb := Hex(a), Hex(b);
      assert ha[0] == hb[0] && ha[1] == hb[1];
      HexDigitsDistinct(a[0] / 16, b[0] / 16);
      HexDigitsDistinct(a[0] % 16, b[0] % 16);
      assert ha[2..] == Hex(a[1..]) && hb[2..] == Hex(b[1..]);
      HexInjective(a[1..], b[1..]);
      assert a == [a[0]] + a[1..] && b == [b[0]] + b[1..];
    }
  }

  lemma {:induction false} HexHasNoSlash(b: seq<Byte>)
    ensures '/' !in Hex(b)
  {
    if b != [] {
      HexHasNoSlash(b[1..]);
    }
  }

  /** The temp file's own name: pathReplace(Path) + "___" + hex(Hash) + ".tmp". */
  function TempBase(path: string, hash: seq<Byte>): string
  {
    PathReplace(path) + "___" + Hex(hash) + ".tmp"
  }

  /** filepath.Join(tempdir, fmt.Sprintf("%s___%x.tmp", pathReplace(Path), Hash)). */
  function TempName(tempdir: string, path: string, hash: seq<Byte>): string
  {
    Paths.Join([tempdir, TempBase(path, hash)])
  }

  /** The base name is a plain file name: not empty, not "." or "..", and free of '/'. */
  lemma TempBaseIsPlain(path: string, hash: seq<Byte>)
    ensures Paths.PlainName(TempBase(path, hash))
  {
    var base := TempBase(path, hash);
    PathReplaceIsSafe(path);
    HexHasNoSlash(hash);
    assert base == PathReplace(path) + "___" + Hex(hash) + ".tmp";
    assert |base| >= 7;
  }

  /** The temp file sits directly in tempdir: its name ends with the base name, whatever the path. */
  lemma TempNameEndsWithBase(tempdir: string, path: string, hash: seq<Byte>)
    ensures Paths.EndsWith(TempName(tempdir, path, hash), TempBase(path, hash))
    ensures tempdir == [] ==> TempName(tempdir, path, hash) == TempBase(path, hash)
  {
    TempBaseIsPlain(path, hash);
    Paths.JoinEndsWithName(tempdir, TempBase(path, hash));
    Paths.JoinNoDir(tempdir, TempBase(path, hash));
  }

  /**
   * The temp name determines the hash: chunks of files with different contents
   * never share a temp file.
   */
  lemma TempNameDeterminesHash(tempdir: string, p1: string, h1: seq<Byte>, p2: string, h2: seq<Byte>)
    requires |h1| == HASHSIZE && |h2| == HASHSIZE
    requires TempName(tempdir, p1, h1) == TempName(tempdir, p2, h2)
    ensures h1 == h2
  {
    TempNameEndsWithBase(tempdir, p1, h1);
    TempNameEndsWithBase(tempdir, p2, h2);
    BaseEndsWithHash(p1, h1);
    BaseEndsWithHash(p2, h2);
    SameEnding(TempName(tempdir, p1, h1), TempBase(p1, h1), Hex(h1) + ".tmp", TempBase(p2, h2), Hex(h2) + ".tmp");
    assert Hex(h1) == (Hex(h1) + ".tmp")[..64];
    assert Hex(h2) == (Hex(h2) + ".tmp")[..64];
    HexInjective(h1, h2);
  }

  lemma BaseEndsWithHash(path: string, hash: seq<Byte>)
    ensures Paths.EndsWith(TempBase(path, hash), Hex(hash) + ".tmp")
  {
    assert TempBase(path, hash) == (PathReplace(path) + "___") + (Hex(hash) + ".tmp");
    Paths.EndsWithConcat(PathReplace(path) + "___", Hex(hash) + ".tmp");
  }

  /** Two endings of the same length of one name are the same. */
  lemma SameEnding(name: string, b1: string, t1: string, b2: string, t2: string)
    requires Paths.EndsWith(name, b1) && Paths.EndsWith(b1, t1)
    requires Paths.EndsWith(name, b2) && Paths.EndsWith(b2, t2)
    requires |t1| == |t2|
    ensures t1 == t2
  {
    Paths.EndsWithTrans(name, b1, t1);
    Paths.EndsWithTrans(name, b2, t2);
  }

  /**
   * The cache key is not the path itself: paths that differ only where one has
   * '/', '\' or ':' and the other '_' share the temp file of a common hash.
   */
  lemma SeparatorsShareTempName(tempdir: string, hash: seq<Byte>)
    ensures TempName(tempdir, "d/a_b", hash) == TempName(tempdir, "d/a/b", hash)
  {
    PathReplaceIsSafe("d/a_b");
    PathReplaceIsSafe("d/a/b");
    var r1, r2 := PathReplace("d/a_b"), PathReplace("d/a/b");
    assert r1 == r2 by {
      forall i | 0 <= i < 5 ensures r1[i] == r2[i] {
      }
    }
  }

  /** A temp file idle for more than 30 seconds at `now`. */
  predicate Idle(f: OpenTempFile, now: int) {
    now - f.lastUpdated > QUIET_NANOS
  }

  /** What the manager leaves in the cache: the entries that are not idle. */
  function Active(cache: map<string, OpenTempFile>, now: int): (r: map<string, OpenTempFile>)
    ensures forall k :: k in r <==> k in cache && !Idle(cache[k], now)
    ensures forall k | k in r :: r[k] == cache[k]
  {
    map k | k in cache && !Idle(cache[k], now) :: cache[k]
  }

  /** No entry that survives a sweep is idle, and a second sweep at the same time changes nothing. */
  lemma ActiveIsQuiet(cache: map<string, OpenTempFile>, now: int)
    ensures forall k | k in Active(cache, now) :: now - Active(cache, now)[k].lastUpdated <= QUIET_NANOS
    ensures Active(Active(cache, now), now) == Active(cache, now)
  {
  }

  /** The cache after the sweep has visited the keys `ks`, in order. */
  ghost function SweptBy(cache: map<string, OpenTempFile>, ks: seq<string>, now: int): map<string, OpenTempFile>
  {
    if ks == [] then cache
    else
      var k := ks[|ks| - 1];
      var m := SweptBy(cache, ks[..|ks| - 1], now);
      if k in cache && Idle(cache[k], now) then m - {k} else m
  }

  /** The idle entries among the keys `ks`, in visiting order. */
  ghost function IdleAlong(cache: map<string, OpenTempFile>, ks: seq<string>, now: int): seq<OpenTempFile>
  {
    if ks == [] then []
    else
      var k := ks[|ks| - 1];
      IdleAlong(cache, ks[..|ks| - 1], now) + (if k in cache && Idle(cache[k], now) then [cache[k]] else [])
  }

  /** After visiting `ks`, exactly the idle entries among them are gone; the rest are untouched. */
  lemma {:induction false} SweptByKeeps(cache: map<string, OpenTempFile>, ks: seq<string>, now: int)
    ensures forall k :: k in SweptBy(cache, ks, now) <==> k in cache && !(k in ks && Idle(cache[k], now))
    ensures forall k | k in SweptBy(cache, ks, now) :: SweptBy(cache, ks, now)[k] == cache[k]
  {
    if ks != [] {
      var init := ks[..|ks| - 1];
      SweptByKeeps(cache, init, now);
      assert forall x :: x in ks <==> x in init || x == ks[|ks| - 1] by {
        assert ks == init + [ks[|ks| - 1]];
      }
    }
  }

  /** Visiting one more key, not visited before. */
  lemma SweepStep(cache: map<string, OpenTempFile>, ks: seq<string>, k: string, now: int)
    requires k !in ks
    ensures var m := SweptBy(cache, ks, now);
      && (k in m <==> k in cache) && (k in m ==> m[k] == cache[k])
      && SweptBy(cache, ks + [k], now) == if k in cache && Idle(cache[k], now) then m - {k} else m
    ensures IdleAlong(cache, ks + [k], now)
      == IdleAlong(cache, ks, now) + if k in cache && Idle(cache[k], now) then [cache[k]] else []
  {
    SweptByKeeps(cache, ks, now);
    assert (ks + [k])[..|ks|] == ks;
  }

  /** Once every key has been visited, the active entries are what is left. */
  lemma SweptAll(cache: map<string, OpenTempFile>, ks: seq<string>, now: int)
    requires forall k | k in cache :: k in ks
    ensures SweptBy(cache, ks, now) == Active(cache, now)
  {
    SweptByKeeps(cache, ks, now);
  }

  /** Every entry is keyed by its own temp file name. */
  predicate KeyedByName(cache: map<string, OpenTempFile>) {
    forall k | k in cache :: cache[k].tempFile == k
  }

  /** Visiting distinct keys, the idle entries come out once each, and nothing else does. */
  lemma {:induction false} IdleAlongExactlyOnce(cache: map<string, OpenTempFile>, ks: seq<string>, now: int)
    requires KeyedByName(cache)
    requires forall i, j | 0 <= i < j < |ks| :: ks[i] != ks[j]
    ensures var out := IdleAlong(cache, ks, now);
      && (forall f :: f in out <==> f.tempFile in ks && f.tempFile in cache && cache[f.tempFile] == f && Idle(f, now))
      && (forall i, j | 0 <= i < j < |out| :: out[i].tempFile != out[j].tempFile)
      && (forall i | 0 <= i < |out| :: out[i].tempFile in ks)
  {
    if ks != [] {
      var init := ks[..|ks| - 1];
      var k := ks[|ks| - 1];
      IdleAlongExactlyOnce(cache, init, now);
      assert k !in init;
      assert forall x :: x in ks <==> x in init || x == k;
    }
  }

  /** The next key of a sweep over distinct keys has not been visited yet. */
  lemma NextKey(keys: seq<string>, i: nat)
    requires i < |keys|
    requires forall a, b | 0 <= a < b < |keys| :: keys[a] != keys[b]
    ensures keys[..i + 1] == keys[..i] + [keys[i]]
    ensures keys[i] !in keys[..i]
  {
  }

  /** A sweep over every key, each once: the active entries stay and each idle entry comes out once. */
  lemma SweepOutcome(cache: map<string, OpenTempFile>, keys: seq<string>, now: int)
    requires KeyedByName(cache)
    requires forall i, j | 0 <= i < j < |keys| :: keys[i] != keys[j]
    requires forall k | k in cache :: k in keys
    ensures SweptBy(cache, keys[..|keys|], now) == Active(cache, now)
    ensures var out := IdleAlong(cache, keys[..|keys|], now);
      && (forall f :: f in out <==> f.tempFile in cache && cache[f.tempFile] == f && Idle(f, now))
      && (forall i, j | 0 <= i < j < |out| :: out[i].tempFile != out[j].tempFile)
  {
    assert keys[..|keys|] == keys;
    SweptAll(cache, keys, now);
    IdleAlongExactlyOnce(cache, keys, now);
  }

  class FileWriter {
    const tempdir: string
    const disk: FileSystem.Disk
    const cache: Utils.RWMutexMap<string, OpenTempFile>
    /** The temp files handed to the file closer, in order. */
    var output: seq<OpenTempFile>

    /** Every cached entry is the record of the temp file it is keyed by. */
    ghost predicate Valid()
      reads this, cache
    {
      forall k | k in cache.dirty :: cache.dirty[k].tempFile == k && !cache.dirty[k].encrypted
    }

    constructor (tempdir: string, disk: FileSystem.Disk)
      ensures Valid() && this.tempdir == tempdir && this.disk == disk
      ensures cache.dirty == map[] && output == []
    {
      this.tempdir := tempdir;
      this.disk := disk;
      cache := new Utils.RWMutexMap(OpenTempFile([], [], Zeros(HASHSIZE), false, 0));
      output := [];
    }

    /**
     * worker: one decoded chunk. `openOk` and `writeOk` are whether the
     * operating system lets OpenFile and WriteAt through; WriteAt also refuses
     * a negative offset. A refused open changes nothing; after a successful
     * open the file exists, and only a successful write updates the cache.
     */
    method Worker(c: Chunk, now: int, openOk: bool, writeOk: bool) returns (name: string, stored: bool)
      requires Valid()
      modifies disk, cache
      ensures Valid()
      ensures name == TempName(tempdir, c.path, c.hash)
      ensures stored <==> openOk && writeOk && c.dataOffset >= 0
      ensures !openOk ==> disk.files == old(disk.files)
      ensures openOk && !stored ==> disk.files == old(disk.files)[name := old(disk.Content(name))]
      ensures stored ==> disk.files == old(disk.files)[name := FileSystem.WriteAt(old(disk.Content(name)), c.dataOffset, c.data)]
      ensures stored ==> cache.dirty == old(cache.dirty)[name := OpenTempFile(name, c.path, c.hash, false, now)]
      ensures !stored ==> cache.dirty == old(cache.dirty)
    {
      name := Paths.Join([tempdir, PathReplace(c.path) + "___" + Hex(c.hash) + ".tmp"]);
      if !openOk {
        return name, false;
      }
      disk.Create(name);
      if !writeOk || c.dataOffset < 0 {
        return name, false;
      }
      disk.Write(name, c.dataOffset, c.data);
      cache.Store(name, OpenTempFile(name, c.path, c.hash, false, now));
      stored := true;
    }

    /** One key of the sweep: load it, and delete and send it on if it is idle. */
    method SweepKey(k: string, now: int) returns (value: OpenTempFile, removed: bool)
      requires Valid()
      modifies this, cache
      ensures Valid()
      ensures removed <==> k in old(cache.dirty) && Idle(old(cache.dirty)[k], now)
      ensures removed ==> value == old(cache.dirty)[k]
      ensures cache.dirty == if removed then old(cache.dirty) - {k} else old(cache.dirty)
      ensures output == old(output) + if removed then [value] else []
    {
      var ok;
      value, ok := cache.Load(k);
      removed := ok && now - value.lastUpdated > QUIET_NANOS;
      if removed {
        cache.Delete(k);
        output := output + [value];
      }
    }

    /**
     * manager: one tick. Every entry idle for more than 30 seconds is deleted
     * from the cache and sent to the closer, once; the others stay as they were.
     */
    method Manager(now: int) returns (finalized: seq<OpenTempFile>)
      requires Valid()
      modifies this, cache
      ensures Valid()
      ensures cache.dirty == Active(old(cache.dirty), now)
      ensures forall f :: f in finalized <==>
        f.tempFile in old(cache.dirty) && old(cache.dirty)[f.tempFile] == f && Idle(f, now)
      ensures forall i, j | 0 <= i < j < |finalized| :: finalized[i].tempFile != finalized[j].tempFile
      ensures output == old(output) + finalized
    {
      ghost var before := cache.dirty;
      var keys := cache.Keys();
      finalized := [];
      var i := 0;
      while i < |keys|
        invariant 0 <= i <= |keys|
        invariant Valid()
        invariant cache.dirty == SweptBy(before, keys[..i], now)
        invariant finalized == IdleAlong(before, keys[..i], now)
        invariant output == old(output) + finalized
      {
        var k := keys[i];
        NextKey(keys, i);
        SweepStep(before, keys[..i], k, now);
        var value, removed := SweepKey(k, now);
        if removed {
          finalized := finalized + [value];
        }
        i := i + 1;
      }
      SweepOutcome(before, keys, now);
    }
  }
}
