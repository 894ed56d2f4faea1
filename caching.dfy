/**
 * A read-through cache whose entries expire after a fixed period without
 * access (src/CachingMap.ts).
 *
 * The first half of the module is the abstract behaviour of the cache on
 * values: an `Entry` is a cached value with the instant of its last access,
 * a `Cache` is the store together with the sweep countdown and the expiry
 * period, and `GetStep` is the effect of one `get` call. The second half is
 * the object-level model, the classes `CachedEntry` and `CachingMap`, whose
 * methods update their fields in place and are proved against `GetStep`.
 *
 * Time is an integer number of milliseconds supplied by the caller: `now` is
 * the instant at which `get` starts, `loadTime` the instant at which the
 * loader has returned. The loader is represented by its result, `loaded`,
 * which only the miss path looks at. Keys are the JSON fingerprints of the
 * logical keys, taken here as opaque strings.
 */
module Caching {
  import opened Wrappers

  /** Number of `get` calls the countdown starts from after each sweep. */
  const CLEAN_INTERVAL: int := 30

  /** The abstract state of one cached entry. */
  datatype Entry<V> = Entry(value: V, lastAccess: int)

  /** The abstract state of a cache instance. */
  datatype Cache<V> = Cache(store: map<string, Entry<V>>, cleanerTick: int, expireMillis: int)

  /** What one `get` call returns, and the cache it leaves behind. */
  datatype Lookup<V> = Lookup(result: Option<V>, after: Cache<V>)

  /** An entry is live at `now` while `now` is before its last access plus the expiry period. */
  predicate Live<V>(e: Entry<V>, now: int, expireMillis: int)
  {
    now < e.lastAccess + expireMillis
  }

  /** The store once every entry that is not live at `now` has been removed. */
  function Sweep<V>(store: map<string, Entry<V>>, now: int, expireMillis: int): map<string, Entry<V>>
  {
    map k | k in store && Live(store[k], now, expireMillis) :: store[k]
  }

  /** A sweep part-way through: the keys in `pending` have not been examined yet. */
  function PartialSweep<V>(store: map<string, Entry<V>>, pending: set<string>, now: int, expireMillis: int): map<string, Entry<V>>
  {
    map k | k in store && (k in pending || Live(store[k], now, expireMillis)) :: store[k]
  }

  /** Examining one more pending key removes it exactly when its entry is not live. */
  lemma PartialSweepStep<V>(store: map<string, Entry<V>>, pending: set<string>, k: string, now: int, expireMillis: int)
    requires k in pending && k in store
    ensures PartialSweep(store, pending - {k}, now, expireMillis) ==
              if Live(store[k], now, expireMillis) then PartialSweep(store, pending, now, expireMillis)
              else PartialSweep(store, pending, now, expireMillis) - {k}
  {
  }

  /** With nothing pending the partial sweep is the sweep; with everything pending, the store. */
  lemma PartialSweepEnds<V>(store: map<string, Entry<V>>, now: int, expireMillis: int)
    ensures PartialSweep(store, {}, now, expireMillis) == Sweep(store, now, expireMillis)
    ensures PartialSweep(store, store.Keys, now, expireMillis) == store
  {
  }

  /** The countdown after one call: the post-decrement test resets it when it was at most 0. */
  function NextTick(tick: int): int
  {
    if tick <= 0 then CLEAN_INTERVAL else tick - 1
  }

  /** The first step of `get`: count down, and sweep when the countdown ran out. */
  function Countdown<V>(c: Cache<V>, now: int): Cache<V>
  {
    Cache(if c.cleanerTick <= 0 then Sweep(c.store, now, c.expireMillis) else c.store,
          NextTick(c.cleanerTick), c.expireMillis)
  }

  /** `get` finds a live entry for `key` at `now` and answers without the loader. */
  predicate Hit<V>(c: Cache<V>, key: string, now: int)
  {
    key in c.store && Live(c.store[key], now, c.expireMillis)
  }

  /**
   * The rest of a `get(key, loader)` call as written, on the cache the countdown
   * left: on a live entry refresh its last access and return its value;
   * otherwise drop the key, and if the loader produced a value, store a new
   * entry only when there was no entry before (an expired entry receives the
   * value off the map).
   */
  function Serve<V>(d: Cache<V>, key: string, now: int, loaded: Option<V>, loadTime: int): Lookup<V>
  {
    if key in d.store && Live(d.store[key], now, d.expireMillis) then
      Lookup(Some(d.store[key].value), d.(store := d.store[key := d.store[key].(lastAccess := now)]))
    else if loaded.None? then
      Lookup(None, d.(store := d.store - {key}))
    else if key in d.store then
      Lookup(loaded, d.(store := d.store - {key}))
    else
      Lookup(loaded, d.(store := d.store[key := Entry(loaded.value, loadTime)]))
  }

  /** One `get(key, loader)` call as written: count down (and maybe sweep), then serve. */
  function GetStep<V>(c: Cache<V>, key: string, now: int, loaded: Option<V>, loadTime: int): Lookup<V>
  {
    Serve(Countdown(c, now), key, now, loaded, loadTime)
  }

  /**
   * `Serve` with the expired-refresh branch corrected: the refreshed entry,
   * touched at `now`, is put back under its key.
   */
  function ServeFixed<V>(d: Cache<V>, key: string, now: int, loaded: Option<V>, loadTime: int): Lookup<V>
  {
    if key in d.store && Live(d.store[key], now, d.expireMillis) then
      Lookup(Some(d.store[key].value), d.(store := d.store[key := d.store[key].(lastAccess := now)]))
    else if loaded.None? then
      Lookup(None, d.(store := d.store - {key}))
    else if key in d.store then
      Lookup(loaded, d.(store := d.store[key := Entry(loaded.value, now)]))
    else
      Lookup(loaded, d.(store := d.store[key := Entry(loaded.value, loadTime)]))
  }

  /** One `get` call with the expired-refresh branch corrected. */
  function GetStepFixed<V>(c: Cache<V>, key: string, now: int, loaded: Option<V>, loadTime: int): Lookup<V>
  {
    ServeFixed(Countdown(c, now), key, now, loaded, loadTime)
  }

  // ---------------------------------------------------------------------
  // Properties of one call
  // ---------------------------------------------------------------------

  /** The sweep keeps exactly the live entries, unchanged. */
  lemma SweepKeepsExactlyLive<V>(store: map<string, Entry<V>>, now: int, expireMillis: int, k: string)
    ensures k in Sweep(store, now, expireMillis) <==> k in store && Live(store[k], now, expireMillis)
    ensures k in Sweep(store, now, expireMillis) ==> Sweep(store, now, expireMillis)[k] == store[k]
  {
  }

  /** Sweeping twice at the same instant removes nothing more. */
  lemma SweepIdempotent<V>(store: map<string, Entry<V>>, now: int, expireMillis: int)
    ensures Sweep(Sweep(store, now, expireMillis), now, expireMillis) == Sweep(store, now, expireMillis)
  {
  }

  /** A later sweep removes at least the entries an earlier one removes. */
  lemma SweepLaterRemovesMore<V>(store: map<string, Entry<V>>, t1: int, t2: int, expireMillis: int)
    requires t1 <= t2
    ensures Sweep(store, t2, expireMillis).Keys <= Sweep(store, t1, expireMillis).Keys
  {
  }

  /** The sweep never removes the entry a call is about to hit. */
  lemma CountdownKeepsHit<V>(c: Cache<V>, key: string, now: int)
    ensures Hit(c, key, now) <==> Hit(Countdown(c, now), key, now)
    ensures Hit(c, key, now) ==> Countdown(c, now).store[key] == c.store[key]
    ensures Countdown(c, now).store.Keys <= c.store.Keys
    ensures Countdown(c, now).expireMillis == c.expireMillis
  {
    if c.cleanerTick <= 0 {
      SweepKeepsExactlyLive(c.store, now, c.expireMillis, key);
    }
  }

  /**
   * Hit path: on a live entry `get` returns the stored value whatever the loader
   * would produce, refreshes the entry's last access to `now`, and leaves the
   * set of keys as the countdown left it (unchanged when no sweep is due).
   */
  lemma HitPath<V>(c: Cache<V>, key: string, now: int,
                    loaded: Option<V>, loadTime: int, other: Option<V>, otherTime: int)
    requires Hit(c, key, now)
    ensures GetStep(c, key, now, loaded, loadTime) == GetStep(c, key, now, other, otherTime)
    ensures GetStep(c, key, now, loaded, loadTime).result == Some(c.store[key].value)
    ensures GetStep(c, key, now, loaded, loadTime).after.store.Keys == Countdown(c, now).store.Keys
    ensures c.cleanerTick > 0 ==> GetStep(c, key, now, loaded, loadTime).after.store.Keys == c.store.Keys
    ensures GetStep(c, key, now, loaded, loadTime).after.store[key] == Entry(c.store[key].value, now)
  {
    CountdownKeepsHit(c, key, now);
  }

  /** Miss path: without a live entry the answer is exactly what the loader produced. */
  lemma MissUsesLoader<V>(c: Cache<V>, key: string, now: int, loaded: Option<V>, loadTime: int)
    requires !Hit(c, key, now)
    ensures GetStep(c, key, now, loaded, loadTime).result == loaded
  {
    CountdownKeepsHit(c, key, now);
  }

  /** Absent results are never cached: after an absent load the key has no entry. */
  lemma AbsentNotCached<V>(c: Cache<V>, key: string, now: int, loadTime: int)
    requires !Hit(c, key, now)
    ensures GetStep(c, key, now, None, loadTime).result == None
    ensures key !in GetStep(c, key, now, None, loadTime).after.store
  {
    CountdownKeepsHit(c, key, now);
  }

  /** After an absent load, the next call for the same key consults the loader again. */
  lemma AbsentThenReload<V>(c: Cache<V>, key: string, now: int, loadTime: int,
                             now2: int, loaded2: Option<V>, loadTime2: int)
    requires !Hit(c, key, now)
    ensures GetStep(GetStep(c, key, now, None, loadTime).after, key, now2, loaded2, loadTime2).result == loaded2
  {
    AbsentNotCached(c, key, now, loadTime);
    MissUsesLoader(GetStep(c, key, now, None, loadTime).after, key, now2, loaded2, loadTime2);
  }

  /**
   * Cold miss with a present load (no entry left after the countdown): a new
   * entry holding the loaded value, last accessed at `loadTime`, is stored.
   */
  lemma ColdMissStores<V>(c: Cache<V>, key: string, now: int, v: V, loadTime: int)
    requires key !in Countdown(c, now).store
    ensures GetStep(c, key, now, Some(v), loadTime).result == Some(v)
    ensures GetStep(c, key, now, Some(v), loadTime).after.store
         == Countdown(c, now).store[key := Entry(v, loadTime)]
  {
  }

  /**
   * Expired entry with a present load and no sweep due: the loaded value is
   * returned but the key is no longer in the store (the refreshed entry is
   * never put back).
   */
  lemma ExpiredRefreshDropped<V>(c: Cache<V>, key: string, now: int, v: V, loadTime: int)
    requires key in c.store && !Live(c.store[key], now, c.expireMillis)
    requires c.cleanerTick > 0
    ensures GetStep(c, key, now, Some(v), loadTime).result == Some(v)
    ensures key !in GetStep(c, key, now, Some(v), loadTime).after.store
    ensures GetStep(c, key, now, Some(v), loadTime).after.store == c.store - {key}
  {
  }

  /**
   * A concrete run showing the cost: an entry cached at 0 with a one-second
   * expiry is refreshed at 1500, yet a call at 1600 loads again.
   */
  lemma ExpiredRefreshReloads()
    ensures var c0 := Cache(map["a" := Entry(1, 0)], 10, 1000);
            var o1 := GetStep(c0, "a", 1500, Some(2), 1500);
            var o2 := GetStep(o1.after, "a", 1600, Some(3), 1600);
            o1.result == Some(2) && o2.result == Some(3) && o2.after.store == map["a" := Entry(3, 1600)]
  {
  }

  /** The corrected step keeps every successfully loaded value in the store. */
  lemma FixedRefreshRetained<V>(c: Cache<V>, key: string, now: int, v: V, loadTime: int)
    requires !Hit(c, key, now)
    ensures GetStepFixed(c, key, now, Some(v), loadTime).result == Some(v)
    ensures key in GetStepFixed(c, key, now, Some(v), loadTime).after.store
    ensures GetStepFixed(c, key, now, Some(v), loadTime).after.store[key].value == v
  {
    CountdownKeepsHit(c, key, now);
  }

  /** The correction changes only what is stored, never what `get` returns. */
  lemma FixedAgreesOnResult<V>(c: Cache<V>, key: string, now: int, loaded: Option<V>, loadTime: int)
    ensures GetStepFixed(c, key, now, loaded, loadTime).result == GetStep(c, key, now, loaded, loadTime).result
    ensures GetStepFixed(c, key, now, loaded, loadTime).after.store.Keys
         == GetStep(c, key, now, loaded, loadTime).after.store.Keys + (if loaded.Some? then {key} else {})
  {
    CountdownKeepsHit(c, key, now);
  }

  /** Whether a sweep runs during a call never changes what the call returns. */
  lemma SweepInvisibleToResult<V>(c1: Cache<V>, c2: Cache<V>, key: string, now: int,
                                   loaded: Option<V>, loadTime: int)
    requires c1.store == c2.store && c1.expireMillis == c2.expireMillis
    ensures GetStep(c1, key, now, loaded, loadTime).result == GetStep(c2, key, now, loaded, loadTime).result
  {
    CountdownKeepsHit(c1, key, now);
    CountdownKeepsHit(c2, key, now);
    if Hit(c1, key, now) {
      HitPath(c1, key, now, loaded, loadTime, loaded, loadTime);
      HitPath(c2, key, now, loaded, loadTime, loaded, loadTime);
    } else {
      MissUsesLoader(c1, key, now, loaded, loadTime);
      MissUsesLoader(c2, key, now, loaded, loadTime);
    }
  }

  // ---------------------------------------------------------------------
  // Properties of runs of calls
  // ---------------------------------------------------------------------

  /** The countdown after `n` calls on a freshly constructed cache. */
  function TickAfter(n: nat): int
  {
    if n == 0 then CLEAN_INTERVAL else NextTick(TickAfter(n - 1))
  }

  /** Between calls the countdown stays within 0 .. CLEAN_INTERVAL. */
  lemma TickStaysInRange(tick: int)
    requires 0 <= tick <= CLEAN_INTERVAL
    ensures 0 <= NextTick(tick) <= CLEAN_INTERVAL
  {
  }

  /**
   * Sweep cadence: after `n` calls the countdown is 30 - n mod 31, so call
   * number n + 1 sweeps exactly when n + 1 is a multiple of 31 (the 31st call
   * and every 31 calls after).
   */
  lemma {:induction false} Cadence(n: nat)
    ensures TickAfter(n) == CLEAN_INTERVAL - n % (CLEAN_INTERVAL + 1)
    ensures 0 <= TickAfter(n) <= CLEAN_INTERVAL
    ensures TickAfter(n) <= 0 <==> (n + 1) % (CLEAN_INTERVAL + 1) == 0
  {
    if n > 0 {
      Cadence(n - 1);
      ModSuccessor(n - 1);
    }
    ModSuccessor(n);
  }

  /** The remainder modulo CLEAN_INTERVAL + 1 of a successor. */
  lemma ModSuccessor(m: nat)
    ensures (m + 1) % (CLEAN_INTERVAL + 1) ==
              if m % (CLEAN_INTERVAL + 1) == CLEAN_INTERVAL then 0 else m % (CLEAN_INTERVAL + 1) + 1
  {
    var q, r := m / (CLEAN_INTERVAL + 1), m % (CLEAN_INTERVAL + 1);
    assert m == (CLEAN_INTERVAL + 1) * q + r;
    if r == CLEAN_INTERVAL {
      assert m + 1 == (CLEAN_INTERVAL + 1) * (q + 1);
    } else {
      assert m + 1 == (CLEAN_INTERVAL + 1) * q + (r + 1);
    }
  }

  /** The results and the final cache of `get` calls on one key at the given instants. */
  function Replay<V>(c: Cache<V>, key: string, times: seq<int>, loaded: Option<V>): (seq<Option<V>>, Cache<V>)
    decreases |times|
  {
    if times == [] then ([], c)
    else
      var o := GetStep(c, key, times[0], loaded, times[0]);
      var rest := Replay(o.after, key, times[1..], loaded);
      ([o.result] + rest.0, rest.1)
  }

  /**
   * Sliding expiration: calls that each come less than the expiry period after
   * the previous access keep the entry alive indefinitely; every one of them
   * returns the stored value, and the entry ends up last accessed at the last call.
   */
  lemma {:induction false} SlidingWindow<V>(c: Cache<V>, key: string, times: seq<int>, loaded: Option<V>)
    requires key in c.store
    requires |times| > 0 ==> times[0] < c.store[key].lastAccess + c.expireMillis
    requires forall i :: 0 < i < |times| ==> times[i] < times[i - 1] + c.expireMillis
    ensures |Replay(c, key, times, loaded).0| == |times|
    ensures forall i :: 0 <= i < |times| ==> Replay(c, key, times, loaded).0[i] == Some(c.store[key].value)
    ensures key in Replay(c, key, times, loaded).1.store
    ensures Replay(c, key, times, loaded).1.store[key]
         == Entry(c.store[key].value, if times == [] then c.store[key].lastAccess else times[|times| - 1])
    ensures Replay(c, key, times, loaded).1.expireMillis == c.expireMillis
    decreases |times|
  {
    if times != [] {
      var o := GetStep(c, key, times[0], loaded, times[0]);
      HitPath(c, key, times[0], loaded, times[0], loaded, times[0]);
      CountdownKeepsHit(c, key, times[0]);
      var rest := times[1..];
      assert forall i :: 0 < i < |rest| ==> rest[i] < rest[i - 1] + o.after.expireMillis by {
        forall i | 0 < i < |rest| ensures rest[i] < rest[i - 1] + o.after.expireMillis {
          assert rest[i] == times[i + 1] && rest[i - 1] == times[i];
        }
      }
      SlidingWindow(o.after, key, rest, loaded);
      if rest != [] {
        assert rest[|rest| - 1] == times[|times| - 1];
      }
    }
  }

  /** An example run: expiry 1000 ms; loads of 1, 2 and 3 at 0, 0 and 1100 ms return 1, 1 and 3. */
  lemma ExampleScenario()
    ensures var c0 := Cache(map[], CLEAN_INTERVAL, 1000);
            var o1 := GetStep(c0, "a", 0, Some(1), 0);
            var o2 := GetStep(o1.after, "a", 0, Some(2), 0);
            var o3 := GetStep(o2.after, "a", 1100, Some(3), 1100);
            o1.result == Some(1) && o2.result == Some(1) && o3.result == Some(3)
  {
  }

  // ---------------------------------------------------------------------
  // The objects
  // ---------------------------------------------------------------------

  /**
   * One cached value, owned by the cache `parent` whose expiry period it uses.
   * The ghost `slot` records the key the entry was created for.
   */
  class CachedEntry<V> {
    const parent: CachingMap<V>
    ghost const slot: string
    var value: V
    var lastAccess: int

    /** A new entry holding `value`, last accessed at the construction instant `now`. */
    constructor (parent: CachingMap<V>, value: V, now: int, ghost slot: string)
      ensures this.parent == parent && this.slot == slot && this.value == value && lastAccess == now
    {
      this.parent := parent;
      this.slot := slot;
      this.value := value;
      lastAccess := now;
    }

    /** The abstract entry this object stands for. */
    function View(): Entry<V>
      reads this
    {
      Entry(value, lastAccess)
    }

    /** The liveness test; as a function it cannot change `lastAccess`. */
    function Check(now: int): (live: bool)
      reads this
      ensures live == Live(View(), now, parent.expireMillis)
    {
      var expiry := lastAccess + parent.expireMillis;
      now < expiry
    }

    /** The liveness test that also records `now` as the last access, live or not. */
    method CheckAndTouch(now: int) returns (live: bool)
      modifies this`lastAccess
      ensures live == old(Check(now))
      ensures lastAccess == now
    {
      var expiry := lastAccess + parent.expireMillis;
      var expired := now >= expiry;
      lastAccess := now;
      live := !expired;
    }
  }

  /** The cache object: a map from key fingerprints to entries, the expiry period and the sweep countdown. */
  class CachingMap<V> {
    var delegate: map<string, CachedEntry<V>>
    const expireMillis: int
    var cleanerTick: int
    /** The abstract store: what each entry object currently holds. */
    ghost var contents: map<string, Entry<V>>
    /** How many `get` calls this cache has served. */
    ghost var calls: nat
    /** The entry objects this cache has created (the ones in the map among them). */
    ghost var Repr: set<CachedEntry<V>>

    /**
     * The countdown is the one `calls` calls produce, every entry belongs to
     * this cache and sits under the key it was created for (so no entry object
     * is stored under two keys), and `contents` is what the entry objects hold.
     */
    ghost predicate Valid()
      reads this, Repr
    {
      && cleanerTick == TickAfter(calls)
      && 0 <= cleanerTick <= CLEAN_INTERVAL
      && delegate.Keys == contents.Keys
      && (forall k | k in delegate :: delegate[k] in Repr && delegate[k].parent == this && delegate[k].slot == k)
      && (forall k | k in delegate :: delegate[k].View() == contents[k])
    }

    /** The abstract cache. */
    ghost function Abstract(): Cache<V>
      reads this
    {
      Cache(contents, cleanerTick, expireMillis)
    }

    /** An empty cache with the given expiry period and a full countdown. */
    constructor (expireMillis: int)
      ensures Valid() && calls == 0 && fresh(Repr)
      ensures Abstract() == Cache(map[], CLEAN_INTERVAL, expireMillis)
    {
      delegate := map[];
      this.expireMillis := expireMillis;
      cleanerTick := CLEAN_INTERVAL;
      contents := map[];
      calls := 0;
      Repr := {};
    }

    /**
     * Removes exactly the entries that are not live at `now`; the remaining
     * entries are the same objects with their last access untouched.
     */
    method Clean(now: int)
      requires Valid()
      modifies this`delegate, this`contents
      ensures Valid()
      ensures forall k | k in delegate :: k in old(delegate) && delegate[k] == old(delegate)[k]
      ensures contents == Sweep(old(contents), now, expireMillis)
    {
      PartialSweepEnds(contents, now, expireMillis);
      var pending := delegate.Keys;
      while pending != {}
        invariant Valid()
        invariant pending <= delegate.Keys
        invariant forall k | k in delegate :: k in old(delegate) && delegate[k] == old(delegate)[k]
        invariant contents == PartialSweep(old(contents), pending, now, expireMillis)
        decreases pending
      {
        var k :| k in pending;
        PartialSweepStep(old(contents), pending, k, now, expireMillis);
        if !delegate[k].Check(now) {
          delegate := delegate - {k};
          contents := contents - {k};
        }
        pending := pending - {k};
      }
    }

    /**
     * The first lines of `get`: the post-decrement test of the countdown, which
     * resets it and sweeps when it was at most 0 before the call.
     */
    method CountDown(now: int)
      requires Valid()
      modifies this`delegate, this`contents, this`cleanerTick, this`calls
      ensures Valid()
      ensures calls == old(calls) + 1
      ensures old(cleanerTick) <= 0 <==> calls % (CLEAN_INTERVAL + 1) == 0
      ensures Abstract() == Countdown(old(Abstract()), now)
      ensures forall k | k in delegate :: k in old(delegate) && delegate[k] == old(delegate)[k]
    {
      Cadence(calls);
      Cadence(calls + 1);
      calls := calls + 1;
      var tick := cleanerTick;
      cleanerTick := cleanerTick - 1;
      if tick <= 0 {
        cleanerTick := CLEAN_INTERVAL;
        Clean(now);
      }
    }

    /** The key's entry, if any, leaves the map; every other key keeps its entry object. */
    method Delete(key: string)
      requires Valid()
      modifies this`delegate, this`contents
      ensures Valid()
      ensures contents == old(contents) - {key}
      ensures key !in delegate
      ensures forall k | k in delegate :: k in old(delegate) && delegate[k] == old(delegate)[k]
    {
      delegate := delegate - {key};
      contents := contents - {key};
    }

    /** A new entry holding `value`, constructed at `loadTime`, stored under a key that has none. */
    method Insert(key: string, value: V, loadTime: int)
      requires Valid() && key !in delegate
      modifies this`delegate, this`contents, this`Repr
      ensures Valid() && fresh(Repr - old(Repr))
      ensures contents == old(contents)[key := Entry(value, loadTime)]
      ensures key in delegate && fresh(delegate[key])
      ensures forall k | k in delegate && k != key :: k in old(delegate) && delegate[k] == old(delegate)[k]
    {
      var created := new CachedEntry(this, value, loadTime, key);
      delegate := delegate[key := created];
      contents := contents[key := created.View()];
      Repr := Repr + {created};
    }

    /**
     * A present load written into an entry that was removed from the map: the
     * map and the abstract store do not see it.
     */
    method AssignDetached(entry: CachedEntry<V>, value: V)
      requires Valid() && entry.slot !in delegate
      modifies entry`value
      ensures Valid()
      ensures entry.value == value && entry.lastAccess == old(entry.lastAccess)
    {
      entry.value := value;
    }

    /**
     * The refresh part of `get` (after a miss): the key's entry is removed from
     * the map and the loader's result returned; a present result goes into a new
     * entry, stored under the key, when there was no entry, and into the old,
     * now detached, entry otherwise.
     */
    method Refresh(key: string, entry: CachedEntry?<V>, loaded: Option<V>, loadTime: int) returns (r: Option<V>)
      requires Valid()
      requires entry == null <==> key !in delegate
      requires entry != null ==> delegate[key] == entry
      modifies this`delegate, this`contents, this`Repr, if entry == null then {} else {entry}
      ensures Valid() && fresh(Repr - old(Repr))
      ensures r == loaded
      ensures contents == if loaded.Some? && entry == null then old(contents)[key := Entry(loaded.value, loadTime)]
                          else old(contents) - {key}
      ensures forall k | k in delegate && k != key :: k in old(delegate) && delegate[k] == old(delegate)[k]
      ensures entry != null ==> key !in delegate && entry.lastAccess == old(entry.lastAccess)
      ensures entry != null && loaded.Some? ==> entry.value == loaded.value
      ensures entry == null && loaded.Some? ==> key in delegate && fresh(delegate[key])
    {
      Delete(key);
      if loaded.None? {
        return None;
      }
      if entry == null {
        Insert(key, loaded.value, loadTime);
      } else {
        AssignDetached(entry, loaded.value);
      }
      r := loaded;
    }

    /**
     * The lookup part of `get`, after the countdown: a live entry is touched and
     * its value returned; otherwise the entry (touched, if there was one) is
     * handed to `Refresh`.
     */
    method LookupOrRefresh(key: string, now: int, loaded: Option<V>, loadTime: int) returns (r: Option<V>)
      requires Valid()
      modifies this`delegate, this`contents, this`Repr, Repr
      ensures Valid() && fresh(Repr - old(Repr))
      ensures r == Serve(old(Abstract()), key, now, loaded, loadTime).result
      ensures contents == Serve(old(Abstract()), key, now, loaded, loadTime).after.store
      ensures forall k | k in delegate && k != key :: k in old(delegate) && delegate[k] == old(delegate)[k]
      ensures Hit(old(Abstract()), key, now) ==> key in delegate && delegate[key] == old(delegate)[key]
      ensures key in old(delegate) && !old(delegate[key].Check(now)) && loaded.Some? ==>
                key !in delegate && old(delegate)[key].value == loaded.value && old(delegate)[key].lastAccess == now
    {
      ghost var d := Abstract();
      var entry: CachedEntry?<V> := if key in delegate then delegate[key] else null;
      if entry != null {
        var live := entry.CheckAndTouch(now);
        assert live == Live(d.store[key], now, d.expireMillis);
        contents := contents[key := entry.View()];
        if live {
          r := Some(entry.value);
          return;
        }
      }
      ghost var before := contents;
      assert before - {key} == d.store - {key};
      r := Refresh(key, entry, loaded, loadTime);
    }

    /**
     * One `get` call with the clock at `now` and, on a miss, the loader's result
     * `loaded` returned at `loadTime`. Its result and new abstract state are those
     * of `GetStep`; the call sweeps exactly when its number is a multiple of 31;
     * entries that stay are the same objects; and an expired entry refreshed
     * without a sweep receives the loaded value and the touch time but is left
     * out of the map.
     */
    method Get(key: string, now: int, loaded: Option<V>, loadTime: int) returns (r: Option<V>)
      requires Valid()
      modifies this, Repr
      ensures Valid() && fresh(Repr - old(Repr))
      ensures calls == old(calls) + 1
      ensures old(cleanerTick) <= 0 <==> calls % (CLEAN_INTERVAL + 1) == 0
      ensures r == GetStep(old(Abstract()), key, now, loaded, loadTime).result
      ensures Abstract() == GetStep(old(Abstract()), key, now, loaded, loadTime).after
      ensures forall k | k in delegate && k in old(delegate) && k != key :: delegate[k] == old(delegate)[k]
      ensures Hit(old(Abstract()), key, now) ==> key in delegate && delegate[key] == old(delegate)[key]
      ensures old(cleanerTick) > 0 && key in old(delegate) && !old(delegate[key].Check(now)) && loaded.Some? ==>
                key !in delegate && old(delegate)[key].value == loaded.value && old(delegate)[key].lastAccess == now
    {
      CountDown(now);
      CountdownKeepsHit(old(Abstract()), key, now);
      r := LookupOrRefresh(key, now, loaded, loadTime);
    }
  }

  /**
   * A client of the cache object: a cache with a one-second expiry, asked for
   * "a" at 0 ms (loading 1), again at 0 ms (the loader would give 2) and at
   * 1100 ms (loading 3), answers 1, 1 and 3.
   */
  method ExampleClient() returns (r1: Option<int>, r2: Option<int>, r3: Option<int>)
    ensures r1 == Some(1) && r2 == Some(1) && r3 == Some(3)
  {
    var m := new CachingMap<int>(1000);
    r1 := m.Get("a", 0, Some(1), 0);
    r2 := m.Get("a", 0, Some(2), 0);
    r3 := m.Get("a", 1100, Some(3), 1100);
  }
}
