/** The cache: a map from string keys to items with an expiry time and a
    last-access time (Unix seconds), two scratch buffers reused by every
    eviction round, and the read, write and eviction operations over them.
    Locks and atomic loads are erased: every operation runs alone. The
    clock reading `now`, the random draws and the map's iteration order are
    parameters. */
module SCache {

  import opened Config
  import opened Times
  import opened Sampling

  datatype Option<T> = None | Some(value: T)

  /** The observable content of one item. */
  datatype Entry<V> = Entry(value: V, expires: int, accessed: int)

  /** A cached record. Only `accessed` is ever written after creation. */
  class Item<V> {
    const key: string
    const value: V
    const expires: int
    var accessed: int

    constructor (key: string, value: V, expires: int, accessed: int)
      ensures this.key == key && this.value == value
      ensures this.expires == expires && this.accessed == accessed
    {
      this.key := key;
      this.value := value;
      this.expires := expires;
      this.accessed := accessed;
    }
  }

  /** What `Get` answers on a store: a miss for an absent key or an entry
      whose expiry lies before `now`, the value otherwise. */
  function Lookup<V>(s: map<string, Entry<V>>, key: string, now: int): Option<V>
  {
    if key !in s || s[key].expires < now then None else Some(s[key].value)
  }

  /** The store after `Get`: a hit stamps the entry's access time; a miss,
      expired or not, changes nothing. */
  function AfterGet<V>(s: map<string, Entry<V>>, key: string, now: int): map<string, Entry<V>>
  {
    if Lookup(s, key, now).Some? then s[key := s[key].(accessed := now)] else s
  }

  /** The store after `Set`: a fresh entry replaces whatever the key held. */
  function AfterSet<V>(s: map<string, Entry<V>>, key: string, value: V, ttl: int, now: int): map<string, Entry<V>>
  {
    s[key := Entry(value, now + ttl, now)]
  }

  /** The store after `Fetch` with a producer yielding `(produced, failure)`. */
  function AfterFetch<V, E>(s: map<string, Entry<V>>, key: string, ttl: int, now: int, produced: V, failure: Option<E>): map<string, Entry<V>>
  {
    if Lookup(s, key, now).Some? then AfterGet(s, key, now)
    else if failure.None? then AfterSet(s, key, produced, ttl, now)
    else s
  }

  /** The expiry boundary: an entry is still served at the very second it
      expires and missed from the next second on. */
  lemma ExpiryBoundary<V>(s: map<string, Entry<V>>, key: string)
    requires key in s
    ensures Lookup(s, key, s[key].expires) == Some(s[key].value)
    ensures forall t :: t > s[key].expires ==> Lookup(s, key, t) == None
  {
  }

  /** A miss, expired entry or absent key alike, leaves the store as it
      was: an expired entry is not removed by reading it. */
  lemma GetMissKeepsStore<V>(s: map<string, Entry<V>>, key: string, now: int)
    requires Lookup(s, key, now) == None
    ensures AfterGet(s, key, now) == s
    ensures key in s ==> key in AfterGet(s, key, now) && s[key].expires < now
  {
  }

  /** A hit returns the stored value and stamps the access time of that one
      entry; no key is added or removed and no other entry changes. */
  lemma GetHitStamps<V>(s: map<string, Entry<V>>, key: string, now: int)
    requires Lookup(s, key, now).Some?
    ensures key in s && Lookup(s, key, now).value == s[key].value && now <= s[key].expires
    ensures AfterGet(s, key, now).Keys == s.Keys
    ensures AfterGet(s, key, now)[key] == Entry(s[key].value, s[key].expires, now)
    ensures forall k :: k in s && k != key ==> AfterGet(s, key, now)[k] == s[k]
  {
  }

  /** Reading never changes what any later read answers: `Get` only moves
      access times, which no read looks at. */
  lemma GetInvisible<V>(s: map<string, Entry<V>>, key: string, now: int, other: string, later: int)
    ensures Lookup(AfterGet(s, key, now), other, later) == Lookup(s, other, later)
  {
  }

  /** After `Set`, the key reads back the new value up to and including
      `now + ttl` and misses afterwards, whatever it held before. */
  lemma SetThenGet<V>(s: map<string, Entry<V>>, key: string, value: V, ttl: int, now: int, later: int)
    ensures Lookup(AfterSet(s, key, value, ttl, now), key, later)
            == if later <= now + ttl then Some(value) else None
  {
  }

  /** `Set` replaces the key's entry wholesale, adds at most that key and
      leaves every other entry alone. */
  lemma SetLeavesOthers<V>(s: map<string, Entry<V>>, key: string, value: V, ttl: int, now: int)
    ensures AfterSet(s, key, value, ttl, now).Keys == s.Keys + {key}
    ensures AfterSet(s, key, value, ttl, now)[key] == Entry(value, now + ttl, now)
    ensures forall k :: k in s && k != key ==> AfterSet(s, key, value, ttl, now)[k] == s[k]
  {
  }

  /** A second `Set` of the same key overwrites the first completely. */
  lemma SetOverwrites<V>(s: map<string, Entry<V>>, key: string, v1: V, ttl1: int, t1: int, v2: V, ttl2: int, t2: int)
    ensures AfterSet(AfterSet(s, key, v1, ttl1, t1), key, v2, ttl2, t2) == AfterSet(s, key, v2, ttl2, t2)
  {
  }

  /** `Fetch` on a hit is exactly a `Get`: the producer's outcome plays no
      part. */
  lemma FetchHitIsGet<V, E>(s: map<string, Entry<V>>, key: string, ttl: int, now: int, produced: V, failure: Option<E>)
    requires Lookup(s, key, now).Some?
    ensures AfterFetch(s, key, ttl, now, produced, failure) == AfterGet(s, key, now)
  {
  }

  /** `Fetch` on a miss with a successful producer stores its value, which
      a `Get` at the same instant then returns (for a non-negative `ttl`);
      a failing producer leaves the store unchanged. */
  lemma FetchMiss<V, E>(s: map<string, Entry<V>>, key: string, ttl: int, now: int, produced: V, failure: Option<E>)
    requires Lookup(s, key, now).None?
    ensures failure.None? ==> AfterFetch(s, key, ttl, now, produced, failure) == AfterSet(s, key, produced, ttl, now)
    ensures failure.None? && ttl >= 0 ==> Lookup(AfterFetch(s, key, ttl, now, produced, failure), key, now) == Some(produced)
    ensures failure.Some? ==> AfterFetch(s, key, ttl, now, produced, failure) == s
  {
  }

  /** The access times of every key of a store. */
  function AccessTimes<V>(s: map<string, Entry<V>>): map<string, int>
  {
    map k | k in s :: s[k].accessed
  }

  /** What one `prune` round does to the store, with both passes visiting
      every key once and a width of at least one: it removes at most
      `width` entries, each accessed no later than the threshold; every
      entry it keeps is unchanged; the threshold is one of the sampled
      times, the access time of an entry of the store, and no later than
      any sampled time; if it removes fewer
      than `width` entries, none of those kept was accessed at or before the
      threshold; and a non-empty sample makes the store strictly smaller. */
  lemma PruneEffect<V>(store: map<string, Entry<V>>, order: seq<string>, draws: seq<int>, order2: seq<string>, width: nat, stale: int)
    requires width >= 1
    requires Enumerates(order, store.Keys) && Enumerates(order2, store.Keys)
    requires |draws| == |order|
    ensures var acc := AccessTimes(store);
            var sample := Sample(acc, order, draws, width);
            var target := Threshold(sample, stale);
            var pruned := store - KeySet(Victims(acc, order2, target, width));
            && pruned.Keys <= store.Keys
            && (forall k :: k in pruned ==> pruned[k] == store[k])
            && |store| - width <= |pruned| <= |store|
            && (forall k :: k in store && k !in pruned ==> store[k].accessed <= target)
            && (sample != [] ==> target in sample && exists k :: k in store && store[k].accessed == target)
            && (forall x :: x in sample ==> target <= x)
            && (|pruned| > |store| - width ==> forall k :: k in pruned ==> store[k].accessed > target)
            && (sample != [] ==> |pruned| < |store|)
  {
    var acc := AccessTimes(store);
    var sample := Sample(acc, order, draws, width);
    var target := Threshold(sample, stale);
    var victims := Victims(acc, order2, target, width);
    EvictionRound(acc, order, draws, order2, width, stale);
    SampleFromVisited(acc, order, draws, width);
    VictimsQualify(acc, order2, target, width);
  }

  /** A store no larger than the width is sampled whole, whatever the
      draws `rand.Int31n(len(lookup))` returns: the sample holds the access
      time of every entry, and the threshold is the store's least access
      time, which makes such a round exact LRU. */
  lemma SmallStoreSampledWhole<V>(store: map<string, Entry<V>>, order: seq<string>, draws: seq<int>, width: nat, stale: int)
    requires Enumerates(order, store.Keys)
    requires |draws| == |order| && forall d :: d in draws ==> 0 <= d < |order|
    requires |store| <= width
    ensures var sample := Sample(AccessTimes(store), order, draws, width);
            var target := Threshold(sample, stale);
            && |sample| == |store|
            && (forall k :: k in store ==> store[k].accessed in sample)
            && (store != map[] ==> (exists k :: k in store && store[k].accessed == target)
                                   && forall k :: k in store ==> target <= store[k].accessed)
  {
    var acc := AccessTimes(store);
    assert forall k :: k in order ==> k in KeySet(order);
    SampleWhole(acc, order, draws, width);
    var sample := Sample(acc, order, draws, width);
    forall k | k in store
      ensures store[k].accessed in sample
    {
      assert k in KeySet(order);
      var i :| 0 <= i < |order| && order[i] == k;
      assert sample[i] == acc[k];
    }
    if store != map[] {
      var k0 :| k0 in store;
      assert store[k0].accessed in sample;
      SampleFromVisited(acc, order, draws, width);
    }
  }

  /** The entries a map of items holds. */
  ghost function View<V>(items: map<string, Item<V>>): map<string, Entry<V>>
    reads items.Values
  {
    map k | k in items :: Entry(items[k].value, items[k].expires, items[k].accessed)
  }

  class Cache<V> {
    const config: Configuration
    const times: array<int>
    const scratch: array<string>
    var lookup: map<string, Item<V>>

    /** Every key owns its own item, which records that key, and both
        buffers are exactly as long as the configured sample width. */
    ghost predicate Valid()
      reads this, config, lookup.Values
    {
      && times.Length == config.workSize
      && scratch.Length == config.workSize
      && (forall k :: k in lookup ==> lookup[k].key == k)
      && (forall k1, k2 :: k1 in lookup && k2 in lookup && k1 != k2 ==> lookup[k1] != lookup[k2])
    }

    /** The store as a value. */
    ghost function Snapshot(): map<string, Entry<V>>
      reads this, lookup.Values
    {
      View(lookup)
    }

    /** `New`: an empty store and two zeroed buffers of the configured
        width. A negative width makes Go's `make` panic, hence the
        precondition. The background sweeper is not started here. */
    constructor New(config: Configuration)
      requires config.workSize >= 0
      ensures Valid()
      ensures this.config == config
      ensures lookup == map[] && Snapshot() == map[]
      ensures fresh(times) && fresh(scratch)
      ensures times.Length == config.workSize && scratch.Length == config.workSize
      ensures forall i :: 0 <= i < times.Length ==> times[i] == 0
    {
      this.config := config;
      lookup := map[];
      times := new int[config.workSize](_ => 0);
      scratch := new string[config.workSize](_ => "");
    }

    /** `Get`: lazy expiry. A miss leaves everything as it was, an expired
        entry included; a hit stamps the entry's access time with `now`. */
    method Get(key: string, now: int) returns (r: Option<V>)
      requires Valid()
      modifies lookup.Values
      ensures Valid() && lookup.Keys == old(lookup.Keys)
      ensures r == Lookup(old(Snapshot()), key, now)
      ensures Snapshot() == AfterGet(old(Snapshot()), key, now)
    {
      if key !in lookup {
        return None;
      }
      var item := lookup[key];
      if item.expires < now {
        return None;
      }
      item.accessed := now;
      r := Some(item.value);
    }

    /** `Set`: a fresh item with the given value, accessed now and expiring
        `ttl` seconds from now, replaces whatever the key held. */
    method Set(key: string, value: V, ttl: int, now: int)
      requires Valid()
      modifies this
      ensures Valid()
      ensures Snapshot() == AfterSet(old(Snapshot()), key, value, ttl, now)
      ensures lookup.Keys == old(lookup.Keys) + {key}
      ensures fresh(lookup[key])
      ensures forall k :: k in lookup && k != key ==> k in old(lookup) && lookup[k] == old(lookup[k])
    {
      var item := new Item(key, value, now + ttl, now);
      lookup := lookup[key := item];
    }

    /** `Fetch`: get-or-produce. On a hit the producer's outcome is ignored;
        on a miss its value and error are returned as they are, and the
        value is stored only when there is no error. One clock reading
        serves both the lookup and the store. */
    method Fetch<E>(key: string, ttl: int, now: int, produced: V, failure: Option<E>) returns (value: V, err: Option<E>)
      requires Valid()
      modifies this, lookup.Values
      ensures Valid()
      ensures var hit := Lookup(old(Snapshot()), key, now);
              if hit.Some? then value == hit.value && err.None?
              else value == produced && err == failure
      ensures Snapshot() == AfterFetch(old(Snapshot()), key, ttl, now, produced, failure)
      ensures forall k :: k in lookup ==> (k in old(lookup) && lookup[k] == old(lookup[k])) || fresh(lookup[k])
    {
      var item := Get(key, now);
      if item.Some? {
        return item.value, None;
      }
      value, err := produced, failure;
      if err.None? {
        Set(key, value, ttl, now);
      }
    }

    /** `Clear`: every entry is discarded, expired or not. */
    method Clear()
      requires Valid()
      modifies this
      ensures Valid()
      ensures lookup == map[] && Snapshot() == map[]
    {
      lookup := map[];
    }

    /** `prune`, the approximate-LRU eviction round. `order` and `order2`
        are the orders in which its two `range` loops visit the keys and
        `draws` the values `rand.Int31n(len(lookup))` returns, one per key
        visited by the first loop. It samples up to `workSize` access
        times into `times`, sorts them in place, takes `times[0]` as the
        threshold, collects up to `workSize` keys accessed at or before
        the threshold into `scratch`, and deletes exactly those keys. A
        width of zero would make `times[0]` index out of range. */
    method Prune(order: seq<string>, draws: seq<int>, order2: seq<string>)
      requires Valid() && config.workSize >= 1
      requires Enumerates(order, lookup.Keys) && Enumerates(order2, lookup.Keys)
      requires |draws| == |order| && forall d :: d in draws ==> 0 <= d < |order|
      modifies this, times, scratch
      ensures Valid()
      ensures var acc := AccessTimes(old(Snapshot()));
              var sample := Sample(acc, order, draws, config.workSize);
              var victims := Victims(acc, order2, Threshold(sample, old(times[0])), config.workSize);
              && Sorted(times[..|sample|])
              && multiset(times[..|sample|]) == multiset(sample)
              && times[0] == Threshold(sample, old(times[0]))
              && times[|sample|..] == old(times[|sample|..])
              && scratch[..|victims|] == victims
              && scratch[|victims|..] == old(scratch[|victims|..])
              && Snapshot() == old(Snapshot()) - KeySet(victims)
      ensures forall k :: k in lookup ==> k in old(lookup) && lookup[k] == old(lookup[k])
    {
      ghost var store := Snapshot();
      ghost var acc := AccessTimes(store);
      ghost var sample := Sample(acc, order, draws, config.workSize);
      ghost var stale := times[..];
      var found := SampleSorted(order, draws, acc);
      var target := times[0];
      ghost var victims := Victims(acc, order2, Threshold(sample, stale[0]), config.workSize);
      ghost var sorted := times[..];
      found := VictimPass(order2, target, acc);
      assert Snapshot() == store;
      Evict(found);
      assert times[..] == sorted;
    }

    /** The first loop of `prune` followed by the in-place sort of what it
        sampled: the sorted sample's head is the threshold. */
    method SampleSorted(order: seq<string>, draws: seq<int>, ghost acc: map<string, int>) returns (found: nat)
      requires times.Length == config.workSize >= 1
      requires forall k :: k in order ==> k in lookup && k in acc && acc[k] == lookup[k].accessed
      requires |draws| == |order|
      modifies times
      ensures var sample := Sample(acc, order, draws, config.workSize);
              && found == |sample|
              && Sorted(times[..found]) && multiset(times[..found]) == multiset(sample)
              && times[found..] == old(times[found..])
              && times[0] == Threshold(sample, old(times[0]))
    {
      ghost var sample := Sample(acc, order, draws, config.workSize);
      found := SamplePass(order, draws, acc);
      Sort(times, found);
      if found > 0 {
        SortedHeadIsMin(times[..found], sample);
      } else {
        assert times[0] == times[found..][0];
      }
    }

    /** The first loop of `prune`: copies the access time of every visited
        entry whose draw does not exceed the width into `times`, and stops
        as soon as the width is reached. */
    method SamplePass(order: seq<string>, draws: seq<int>, ghost acc: map<string, int>) returns (found: nat)
      requires times.Length == config.workSize >= 1
      requires forall k :: k in order ==> k in lookup && k in acc && acc[k] == lookup[k].accessed
      requires |draws| == |order|
      modifies times
      ensures var sample := Sample(acc, order, draws, config.workSize);
              && found == |sample| && times[..found] == sample
              && times[found..] == old(times[found..])
    {
      ghost var taken: seq<int> := [];
      var ws := config.workSize;
      found := 0;
      var i := 0;
      while i < |order| && found < ws
        invariant 0 <= i <= |order|
        invariant found == |taken| <= ws
        invariant taken == Sample(acc, order[..i], draws[..i], ws)
        invariant forall j :: 0 <= j < found ==> times[j] == taken[j]
        invariant forall j :: found <= j < times.Length ==> times[j] == old(times[j])
      {
        assert order[..i + 1][..i] == order[..i] && draws[..i + 1][..i] == draws[..i];
        if draws[i] <= ws {
          times[found] := lookup[order[i]].accessed;
          taken := taken + [acc[order[i]]];
          found := found + 1;
        }
        i := i + 1;
      }
      if found == ws {
        SampleSaturated(acc, order, draws, ws, i);
      } else {
        assert order[..i] == order && draws[..i] == draws;
      }
      assert times[..found] == taken;
    }

    /** The second loop of `prune`: copies every visited key accessed at or
        before `target` into `scratch`, and stops as soon as the width is
        reached. */
    method VictimPass(order: seq<string>, target: int, ghost acc: map<string, int>) returns (found: nat)
      requires scratch.Length == config.workSize >= 1
      requires forall k :: k in order ==> k in lookup && k in acc && acc[k] == lookup[k].accessed
      modifies scratch
      ensures var victims := Victims(acc, order, target, config.workSize);
              && found == |victims| && scratch[..found] == victims
              && scratch[found..] == old(scratch[found..])
    {
      ghost var taken: seq<string> := [];
      var ws := config.workSize;
      found := 0;
      var i := 0;
      while i < |order| && found < ws
        invariant 0 <= i <= |order|
        invariant found == |taken| <= ws
        invariant taken == Victims(acc, order[..i], target, ws)
        invariant forall j :: 0 <= j < found ==> scratch[j] == taken[j]
        invariant forall j :: found <= j < scratch.Length ==> scratch[j] == old(scratch[j])
      {
        assert order[..i + 1][..i] == order[..i];
        var key := order[i];
        if lookup[key].accessed <= target {
          scratch[found] := key;
          taken := taken + [key];
          found := found + 1;
        }
        i := i + 1;
      }
      if found == ws {
        VictimsSaturated(acc, order, target, ws, i);
      } else {
        assert order[..i] == order;
      }
      assert scratch[..found] == taken;
    }

    /** The last loop of `prune`: deletes the first `found` keys of
        `scratch` from the store. */
    method Evict(found: nat)
      requires Valid() && found <= scratch.Length
      modifies this
      ensures Valid()
      ensures lookup == old(lookup) - KeySet(scratch[..found])
      ensures Snapshot() == old(Snapshot()) - KeySet(scratch[..found])
    {
      for i := 0 to found
        invariant lookup == old(lookup) - KeySet(scratch[..i])
      {
        assert KeySet(scratch[..i + 1]) == KeySet(scratch[..i]) + {scratch[i]};
        lookup := lookup - {scratch[i]};
      }
      assert View(lookup) == View(old(lookup)) - KeySet(scratch[..found]);
    }
  }
}
