/**
 * The directory watcher's debounce cache: a change event records the file with
 * the time it was seen, and a tick queues for sending, once, every file that has
 * not changed for more than 30 seconds. Time is in nanoseconds; whether os.Stat
 * succeeds and reports a directory is an input to the event.
 */
module Watcher {

  /** 30 seconds: time.Since(t).Seconds() > 30 holds exactly when more than this many nanoseconds passed. */
  const QUIET_NANOS: int := 30_000_000_000

  /** A change notification: the path, and what os.Stat said about it. */
  datatype Event = Event(path: string, statOk: bool, isDir: bool, time: int)

  /** The cache after one event: only a regular file that Stat can see is (re)stamped. */
  function Notice(cache: map<string, int>, e: Event): (r: map<string, int>)
    ensures e.statOk && !e.isDir ==> r.Keys == cache.Keys + {e.path} && r[e.path] == e.time
    ensures !(e.statOk && !e.isDir) ==> r == cache
    ensures forall p | p in cache && p != e.path :: p in r && r[p] == cache[p]
  {
    if e.statOk && !e.isDir then cache[e.path := e.time] else cache
  }

  /** The cache after a run of events. */
  function NoticeAll(cache: map<string, int>, es: seq<Event>): map<string, int>
  {
    if es == [] then cache else Notice(NoticeAll(cache, es[..|es| - 1]), es[|es| - 1])
  }

  /** A file quiet for more than 30 seconds at `now`. */
  predicate Settled(lastChange: int, now: int) {
    now - lastChange > QUIET_NANOS
  }

  /** What a tick leaves in the cache: the files that changed within the last 30 seconds. */
  function Unsettled(cache: map<string, int>, now: int): (r: map<string, int>)
    ensures forall p :: p in r <==> p in cache && !Settled(cache[p], now)
    ensures forall p | p in r :: r[p] == cache[p]
  {
    map p | p in cache && !Settled(cache[p], now) :: cache[p]
  }

  /**
   * A file's entry holds the time of its last accepted event, however many
   * events came for it, and events for other paths leave it alone.
   */
  lemma {:induction false} LatestEventWins(cache: map<string, int>, es: seq<Event>, p: string, j: nat)
    requires j < |es| && es[j].path == p && es[j].statOk && !es[j].isDir
    requires forall l | j < l < |es| :: es[l].path == p ==> !(es[l].statOk && !es[l].isDir)
    ensures p in NoticeAll(cache, es) && NoticeAll(cache, es)[p] == es[j].time
  {
    if j < |es| - 1 {
      LatestEventWins(cache, es[..|es| - 1], p, j);
    }
  }

  /** With a clock that never goes back, an entry holds the latest time any accepted event for it was seen. */
  lemma {:induction false} EntryIsLatest(cache: map<string, int>, es: seq<Event>, p: string, j: nat)
    requires forall a, b | 0 <= a < b < |es| :: es[a].time <= es[b].time
    requires j < |es| && es[j].path == p && es[j].statOk && !es[j].isDir
    ensures p in NoticeAll(cache, es) && NoticeAll(cache, es)[p] >= es[j].time
  {
    var last := |es| - 1;
    if es[last].path == p && es[last].statOk && !es[last].isDir {
    } else {
      EntryIsLatest(cache, es[..last], p, j);
    }
  }

  /** A tick leaves no settled file behind, keeps the others unchanged, and a second tick does nothing. */
  lemma TickLeavesNoSettled(cache: map<string, int>, now: int)
    ensures forall p | p in Unsettled(cache, now) :: now - Unsettled(cache, now)[p] <= QUIET_NANOS
    ensures Unsettled(Unsettled(cache, now), now) == Unsettled(cache, now)
  {
  }

  class Watcher {
    var cache: map<string, int>
    /** The paths handed to QueueFileForSending, in order. */
    var queued: seq<string>

    constructor ()
      ensures cache == map[] && queued == []
    {
      cache := map[];
      queued := [];
    }

    /** worker, on a change event. */
    method OnEvent(e: Event)
      modifies this
      ensures cache == Notice(old(cache), e)
      ensures queued == old(queued)
    {
      if e.statOk && !e.isDir {
        cache := cache[e.path := e.time];
      }
    }

    /**
     * worker, on a tick: the range over the cache, in whatever order the map
     * yields its keys, deleting and queueing every settled file.
     */
    method OnTick(now: int)
      modifies this
      ensures cache == Unsettled(old(cache), now)
      ensures |queued| >= |old(queued)| && queued[..|old(queued)|] == old(queued)
      ensures forall p :: p in queued[|old(queued)|..] <==> p in old(cache) && Settled(old(cache)[p], now)
      ensures forall i, j | |old(queued)| <= i < j < |queued| :: queued[i] != queued[j]
    {
      ghost var before := cache;
      ghost var start := |queued|;
      var remaining := cache.Keys;
      while remaining != {}
        invariant remaining <= before.Keys
        invariant cache == map p | p in before && !(p !in remaining && Settled(before[p], now)) :: before[p]
        invariant |queued| >= start && queued[..start] == old(queued)
        invariant forall p :: p in queued[start..] <==> p in before && p !in remaining && Settled(before[p], now)
        invariant forall i, j | start <= i < j < |queued| :: queued[i] != queued[j]
        decreases |remaining|
      {
        var p :| p in remaining;
        if now - cache[p] > QUIET_NANOS {
          cache := cache - {p};
          assert (queued + [p])[start..] == queued[start..] + [p];
          queued := queued + [p];
        }
        remaining := remaining - {p};
      }
    }
  }
}
