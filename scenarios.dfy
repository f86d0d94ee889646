/**
 * Small concrete runs of the cache of cache/map-cache.js, each started from
 * a fresh cache: they pin down eviction order, duplicate keys, what `get`
 * can find, the polling flag and both outcomes of a sweep.
 */
module CacheScenarios {
  import opened Wrappers
  import opened Ring
  import opened Cache

  /** A cache of capacity 2 after `set a, b`: full, no eviction yet. */
  method TwoSets(now: int) returns (cache: MapCache<char, int>)
    ensures fresh(cache) && cache.Valid() && cache.maxSize == 2 && cache.size == 2 && cache.ring == [1, 0]
    ensures cache.lifetime == CacheLifetime
    ensures |cache.nodes| == 2 && cache.nodes[1].key == 'b'
    ensures cache.nodes[0].lastAccessed == now && cache.nodes[1].lastAccessed == now
  {
    cache := new MapCache<char, int>(2, CacheLifetime, (x: char, y: char) => x == y);
    var ok := cache.Set('a', 1, now);
    ok := cache.Set('b', 2, now);
    assert cache.ring == Spliced([0], 1) == [1, 0];
  }

  /** A cache of capacity 2 after `set a, b, c`. */
  method ThreeSets(now: int) returns (cache: MapCache<char, int>)
    ensures fresh(cache) && cache.Valid() && cache.ring == [2, 1]
    ensures |cache.nodes| == 3 && cache.nodes[1].key == 'b' && cache.nodes[2].key == 'c'
  {
    cache := TwoSets(now);
    var ok := cache.Set('c', 3, now);
    assert cache.ring == AfterSet([1, 0], 2, true) == [2, 1];
  }

  /** With capacity 2, `set a, b, c` evicts `a`: the ring read leftward
      from the cursor holds `c` then `b`. */
  method EvictOldestScenario(now: int) returns (size: nat, keys: seq<char>)
    ensures size == 2 && keys == ['c', 'b']
  {
    var cache := ThreeSets(now);
    size := cache.GetSize();
    var order := cache.Traverse(Some(Left), cache.insertion, cache.ring);
    LeftwardOrder(cache.ring);
    keys := [cache.nodes[order[0]].key, cache.nodes[order[1]].key];
  }

  /** `set` never looks for an equal key: setting `a` twice leaves two
      entries, the newer one at the cursor. */
  method DuplicateKeyScenario(now: int) returns (size: nat, newest: int)
    ensures size == 2 && newest == 2
  {
    var cache := new MapCache<char, int>(CacheSize, CacheLifetime, (x: char, y: char) => x == y);
    var ok := cache.Set('a', 1, now);
    ok := cache.Set('a', 2, now);
    size := cache.GetSize();
    newest := cache.nodes[cache.insertion.index].data;
  }

  /** `get` compares against the cursor only: after `set a, b` the key `b`
      is found but `a`, although cached, is missed. */
  method CursorOnlyGetScenario(now: int) returns (hit: Option<int>, miss: Option<int>)
    ensures hit == Some(2) && miss == None
  {
    var cache := new MapCache<char, int>(CacheSize, CacheLifetime, (x: char, y: char) => x == y);
    var ok := cache.Set('a', 1, now);
    ok := cache.Set('b', 2, now);
    miss := cache.Get('a', now);
    hit := cache.Get('b', now);
  }

  /** Once polling has been stopped, a later `set` does not start it again:
      the stored handle keeps `setValidating(true)` from doing anything. */
  method StoppedPollingScenario(now: int) returns (handle: bool, live: bool)
    ensures handle && !live
  {
    var cache := new MapCache<char, int>(CacheSize, CacheLifetime, (x: char, y: char) => x == y);
    var ok := cache.Set('a', 1, now);
    cache.SetValidating(false);
    ok := cache.Set('b', 2, now);
    handle, live := cache.validationPoll, cache.polling;
  }

  /** `setValidating()` called directly on an empty cache starts polling
      with a null cursor: the invariant that polling runs only while the
      cursor is set holds for the polling `set` starts, not for this. */
  method EmptyPollingScenario() returns (live: bool, cursorSet: bool)
    ensures live && !cursorSet
  {
    var cache := new MapCache<char, int>(CacheSize, CacheLifetime, (x: char, y: char) => x == y);
    cache.SetValidating(true);
    live, cursorSet := cache.polling, cache.insertion != Nil;
  }

  /** A sweep after the lifetime has passed since the only access resets
      the cache and stops polling; a sweep within the lifetime keeps the
      entry. */
  method SweepScenario(t: int) returns (expiredSize: int, expiredLive: bool, freshSize: int)
    ensures expiredSize == 0 && !expiredLive && freshSize == 1
  {
    var cache := new MapCache<char, int>(CacheSize, CacheLifetime, (x: char, y: char) => x == y);
    var ok := cache.Set('a', 1, t);
    cache.Validate(t + CacheLifetime + 1);
    expiredSize, expiredLive := cache.size, cache.polling;

    var other := new MapCache<char, int>(CacheSize, CacheLifetime, (x: char, y: char) => x == y);
    ok := other.Set('a', 1, t);
    other.Validate(t + CacheLifetime);
    freshSize := other.size;
  }

  /** A stale entry that is not the latest access is only marked dirty: it
      stays on the ring and is still counted, and the cursor settles on the
      fresh entry. */
  method StaleEntryKeptScenario() returns (size: int, dirty: bool, cursorKey: char)
    ensures size == 2 && dirty && cursorKey == 'b'
  {
    var cache := new MapCache<char, int>(CacheSize, CacheLifetime, (x: char, y: char) => x == y);
    var ok := cache.Set('a', 1, 0);
    ok := cache.Set('b', 2, 2 * CacheLifetime);
    cache.Validate(2 * CacheLifetime + 1);
    size, dirty, cursorKey := cache.size, cache.nodes[0].dirty, cache.nodes[cache.insertion.index].key;
  }

  /** Two entries stamped at the same instant: the sweep moves the cursor
      only on a strictly newer stamp, so it stays on `b`, the first node of
      the ring read from the old cursor. */
  method TiedStampScenario(now: int) returns (cursorKey: char)
    ensures cursorKey == 'b'
  {
    var cache := TwoSets(now);
    assert cache.latestAccessed.index in cache.ring;
    cache.Validate(now + 1);
    cursorKey := cache.nodes[cache.insertion.index].key;
  }
}
