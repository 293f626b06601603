/** Callers of the cache class: each method below builds a cache with the
    default settings and drives it through one of the scenarios that
    scache_test.go exercises, with `now` standing for the clock reading
    and durations in seconds. Their contracts are what the class's own
    contracts let a caller conclude. */
module Scenarios {

  import opened Config
  import opened SCache
  import opened Sampling

  /** `Get` on a key that was never set is a miss. */
  method MissOnUnknownKey(now: int) returns (r: Option<int>)
    ensures r == None
  {
    var config := new Configuration.Configure();
    var c := new Cache<int>.New(config);
    r := c.Get("not valid", now);
  }

  /** A value set with a ten-second lifetime is missed eleven seconds
      later. */
  method ExpiredIsMissed(now: int) returns (r: Option<int>)
    ensures r == None
  {
    var config := new Configuration.Configure();
    var c := new Cache<int>.New(config);
    c.Set("expired", 123, 10, now);
    r := c.Get("expired", now + 11);
  }

  /** A value set with a ten-second lifetime is served nine seconds later. */
  method LiveIsServed(now: int) returns (r: Option<int>)
    ensures r == Some(123)
  {
    var config := new Configuration.Configure();
    var c := new Cache<int>.New(config);
    c.Set("valid", 123, 10, now);
    r := c.Get("valid", now + 9);
  }

  /** Two keys are held until `Clear`, which leaves none. */
  method ClearEmpties(now: int) returns (before: nat, after: nat)
    ensures before == 2 && after == 0
  {
    var config := new Configuration.Configure();
    var c := new Cache<int>.New(config);
    c.Set("valid", 123, 10, now);
    c.Set("valid2", 55, 10, now);
    assert c.lookup.Keys == {"valid", "valid2"};
    before := |c.lookup|;
    c.Clear();
    after := |c.lookup|;
  }

  /** A second `Set` of a key replaces the first value. */
  method SetOverwritesValue(now: int) returns (r: Option<int>)
    ensures r == Some(2)
  {
    var config := new Configuration.Configure();
    var c := new Cache<int>.New(config);
    c.Set("valid", 1, 3600, now);
    c.Set("valid", 2, 3600, now);
    r := c.Get("valid", now);
  }

  /** `Fetch` of a live key returns the cached value and no error,
      whatever the producer would have given. */
  method FetchServesCached(now: int, produced: int, failure: Option<string>) returns (value: int, err: Option<string>)
    ensures value == 123 && err == None
  {
    var config := new Configuration.Configure();
    var c := new Cache<int>.New(config);
    c.Set("valid", 123, 3600, now);
    value, err := c.Fetch("valid", 3600, now, produced, failure);
  }

  /** `Fetch` of a missing key returns what the producer gave and stores
      it, so a following `Get` serves it. */
  method FetchLoadsOnMiss(now: int) returns (value: int, err: Option<string>, r: Option<int>)
    ensures value == 14495 && err == None
    ensures r == Some(14495)
  {
    var config := new Configuration.Configure();
    var c := new Cache<int>.New(config);
    value, err := c.Fetch("miss", 3600, now, 14495, None);
    r := c.Get("miss", now);
  }

  /** `Fetch` of a missing key with a failing producer hands back the
      producer's value and error as they are and stores nothing. */
  method FetchPassesError(now: int, produced: int) returns (value: int, err: Option<string>, r: Option<int>)
    ensures value == produced && err == Some("fetch fail")
    ensures r == None
  {
    var config := new Configuration.Configure();
    var c := new Cache<int>.New(config);
    value, err := c.Fetch("miss", 60, now, produced, Some("fetch fail"));
    r := c.Get("miss", now);
  }

  /** An eviction round followed by a read: the read sees the store the
      round left, that is the old store minus the victims. */
  method PruneThenGet(c: Cache<int>, order: seq<string>, draws: seq<int>, order2: seq<string>, key: string, now: int) returns (r: Option<int>)
    requires c.Valid() && c.config.workSize >= 1
    requires Enumerates(order, c.lookup.Keys) && Enumerates(order2, c.lookup.Keys)
    requires |draws| == |order| && forall d :: d in draws ==> 0 <= d < |order|
    modifies c, c.times, c.scratch, c.lookup.Values
    ensures var acc := AccessTimes(old(c.Snapshot()));
            var sample := Sample(acc, order, draws, c.config.workSize);
            var victims := Victims(acc, order2, Threshold(sample, old(c.times[0])), c.config.workSize);
            r == Lookup(old(c.Snapshot()) - KeySet(victims), key, now)
  {
    c.Prune(order, draws, order2);
    r := c.Get(key, now);
  }
}
