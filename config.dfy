/** The cache's settings builder: a small mutable record whose setters
    assign a field of the receiver and hand the receiver back, so calls
    can be chained. Durations are `time.Duration` values, i.e. integer
    nanoseconds. */
module Config {

  /** One second and one minute as `time.Duration` (nanoseconds). */
  const Second: int := 1_000_000_000
  const Minute: int := 60 * Second

  /** Go's integer division `a / b`, which truncates toward zero (Dafny's
      `/` is Euclidean). The contract pins the quotient down uniquely: the
      remainder has the sign of the dividend and is smaller than the divisor. */
  function TruncDiv(a: int, b: int): (q: int)
    requires b > 0
    ensures a >= 0 ==> 0 <= a - b * q < b
    ensures a < 0 ==> -b < a - b * q <= 0
  {
    if a >= 0 then a / b else -((-a) / b)
  }

  /** The sample width derived from a maximum item count: `count / 20`
      without any lower clamp. */
  function WorkSizeFor(count: int): (w: int)
    ensures w >= 1 <==> count >= 20
    ensures 0 <= count < 20 ==> w == 0
    ensures count >= 0 ==> 20 * w <= count < 20 * (w + 1)
  {
    TruncDiv(count, 20)
  }

  class Configuration {
    var workSize: int
    var maxItems: int
    var pruneFrequency: int

    /** The defaults: a sample width of 50, at most 1000 items, a sweep
        every five minutes. */
    constructor Configure()
      ensures workSize == 50 && maxItems == 1000 && pruneFrequency == 5 * Minute
      ensures workSize == WorkSizeFor(maxItems)
    {
      workSize := 50;
      maxItems := 1000;
      pruneFrequency := Minute * 5;
    }

    /** Sets the maximum item count and re-derives the sample width from
        it; the sweep interval is left alone. Returns the receiver. */
    method MaxItems(count: int) returns (r: Configuration)
      modifies this
      ensures r == this
      ensures maxItems == count && workSize == WorkSizeFor(count)
      ensures pruneFrequency == old(pruneFrequency)
    {
      maxItems := count;
      workSize := TruncDiv(count, 20);
      r := this;
    }

    /** Sets only the sweep interval. Returns the receiver. */
    method PruneFrequency(frequency: int) returns (r: Configuration)
      modifies this
      ensures r == this
      ensures pruneFrequency == frequency
      ensures maxItems == old(maxItems) && workSize == old(workSize)
    {
      pruneFrequency := frequency;
      r := this;
    }
  }

  /** A chained build `Configure().MaxItems(count).PruneFrequency(f)`
      yields exactly the derived width, and the width of a count from 0 to 19
      is zero, which leaves the cache's sample buffers empty. */
  method ConfigureChained(count: int, frequency: int) returns (c: Configuration)
    ensures fresh(c)
    ensures c.maxItems == count && c.pruneFrequency == frequency
    ensures c.workSize == WorkSizeFor(count)
    ensures 0 <= count < 20 ==> c.workSize == 0
  {
    c := new Configuration.Configure();
    var r := c.MaxItems(count);
    r := r.PruneFrequency(frequency);
    assert r == c;
  }
}
