/**
 * The generic locked map (RWMutexMap) and formatFilePath. The map's lock only
 * orders concurrent callers; sequentially each method is one step on the
 * `dirty` map.
 */
module Utils {
  import Paths

  /** formatFilePath: the text after the last '/', or the whole path when it has none. */
  function FormatFilePath(path: string): (r: string)
    ensures '/' !in r
    ensures |r| <= |path| && path[|path| - |r|..] == r
    ensures |r| < |path| ==> path[|path| - |r| - 1] == '/'
    ensures '/' !in path ==> r == path
  {
    var parts := Paths.SplitOn(path, '/');
    LastPartIsSuffix(path);
    Paths.SplitPartsLackSeparator(path, '/');
    if '/' in path then parts[|parts| - 1]
    else
      Paths.SplitWithoutSeparator(path, '/');
      parts[|parts| - 1]
  }

  lemma {:induction false} LastPartIsSuffix(path: string)
    ensures var parts := Paths.SplitOn(path, '/'); var r := parts[|parts| - 1];
      && |r| <= |path| && path[|path| - |r|..] == r
      && (|r| < |path| ==> path[|path| - |r| - 1] == '/')
  {
    if path != [] {
      LastPartIsSuffix(path[..|path| - 1]);
    }
  }

  /** The cut of a Unix path. */
  lemma UnixPathKeepsFileName()
    ensures FormatFilePath("/a/b/c/d.tmp") == "d.tmp"
  {
  }

  /** A Windows-style path has no '/', so formatFilePath hands it back whole. */
  lemma BackslashPathIsKept()
    ensures FormatFilePath("C:\\a\\b\\c\\d.tmp") == "C:\\a\\b\\c\\d.tmp"
  {
  }

  /**
   * RWMutexMap[K, V]: `dirty` is the map; `zero` is V's zero value, which Load
   * and LoadAndDelete return for an absent key.
   */
  class RWMutexMap<K(==), V(==)> {
    var dirty: map<K, V>
    const zero: V

    /** The zero value of the struct: an empty map. */
    constructor (zero: V)
      ensures dirty == map[] && this.zero == zero
    {
      dirty := map[];
      this.zero := zero;
    }

    /** Load: the stored value and true, or the zero value and false. */
    method Load(key: K) returns (value: V, ok: bool)
      ensures ok <==> key in dirty
      ensures ok ==> value == dirty[key]
      ensures !ok ==> value == zero
    {
      ok := key in dirty;
      value := if ok then dirty[key] else zero;
    }

    /** Store: key now maps to value; no other key changes. */
    method Store(key: K, value: V)
      modifies this
      ensures dirty == old(dirty)[key := value]
    {
      dirty := dirty[key := value];
    }

    /** LoadOrStore: an existing value wins; otherwise value is inserted. */
    method LoadOrStore(key: K, value: V) returns (actual: V, loaded: bool)
      modifies this
      ensures loaded <==> key in old(dirty)
      ensures loaded ==> actual == old(dirty)[key] && dirty == old(dirty)
      ensures !loaded ==> actual == value && dirty == old(dirty)[key := value]
    {
      loaded := key in dirty;
      if loaded {
        actual := dirty[key];
      } else {
        actual := value;
        dirty := dirty[key := value];
      }
    }

    /** LoadAndDelete: removes a present key and returns its value, else the zero value. */
    method LoadAndDelete(key: K) returns (value: V, loaded: bool)
      modifies this
      ensures loaded <==> key in old(dirty)
      ensures loaded ==> value == old(dirty)[key]
      ensures !loaded ==> value == zero
      ensures dirty == old(dirty) - {key}
    {
      loaded := key in dirty;
      if !loaded {
        return zero, false;
      }
      value := dirty[key];
      dirty := dirty - {key};
    }

    /** Delete: removes key and nothing else; deleting an absent key changes nothing. */
    method Delete(key: K)
      modifies this
      ensures dirty == old(dirty) - {key}
      ensures key !in old(dirty) ==> dirty == old(dirty)
    {
      dirty := dirty - {key};
    }

    /** The key snapshot Range takes, in the map's (unspecified) iteration order. */
    method Keys() returns (keys: seq<K>)
      ensures |keys| == |dirty|
      ensures forall i | 0 <= i < |keys| :: keys[i] in dirty
      ensures forall k | k in dirty :: k in keys
      ensures forall i, j | 0 <= i < j < |keys| :: keys[i] != keys[j]
    {
      keys := [];
      var remaining := dirty.Keys;
      while remaining != {}
        invariant remaining <= dirty.Keys
        invariant forall i | 0 <= i < |keys| :: keys[i] in dirty && keys[i] !in remaining
        invariant forall k | k in dirty :: k in keys || k in remaining
        invariant forall i, j | 0 <= i < j < |keys| :: keys[i] != keys[j]
        invariant |keys| + |remaining| == |dirty|
        decreases |remaining|
      {
        var k :| k in remaining;
        keys := keys + [k];
        remaining := remaining - {k};
      }
    }

    /**
     * Range with a callback that does not touch the map: f is applied to keys of
     * the snapshot, each at most once, until it returns false. `visited` lists
     * the keys f was applied to; all but the last returned true, and unless
     * every key was visited the last returned false.
     */
    method Range(f: (K, V) -> bool) returns (visited: seq<K>)
      ensures forall i | 0 <= i < |visited| :: visited[i] in dirty
      ensures forall i, j | 0 <= i < j < |visited| :: visited[i] != visited[j]
      ensures forall i | 0 <= i < |visited| - 1 :: f(visited[i], dirty[visited[i]])
      ensures || (forall k | k in dirty :: k in visited)
              || (|visited| > 0 && !f(visited[|visited| - 1], dirty[visited[|visited| - 1]]))
    {
      var keys := Keys();
      visited := [];
      var i := 0;
      while i < |keys|
        invariant 0 <= i <= |keys|
        invariant visited == keys[..i]
        invariant forall s | 0 <= s < i :: f(keys[s], dirty[keys[s]])
      {
        var k := keys[i];
        var v, ok := Load(k);
        // With a callback that leaves the map alone, every snapshot key is still present.
        if ok {
          visited := visited + [k];
          if !f(k, v) {
            return;
          }
        }
        i := i + 1;
      }
      assert keys[..|keys|] == keys;
    }
  }
}
