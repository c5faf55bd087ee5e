/**
 * The expiring memoizer of `ooo.oshi.util.Memoizer`: a supplier that keeps
 * the value its delegate last produced together with the `System.nanoTime`
 * reading at which that value expires. An expiration of 0 means "never
 * computed"; a negative time-to-live means "keep forever".
 *
 * The clock reading `now` and the value the delegate would produce at this
 * call are parameters of `Get`. Every `long` operation wraps around as in
 * Java.
 */
module Memoizer {
  import opened Wrappers
  import opened JavaInt

  const NANOS_PER_MILLI: int := 1_000_000
  const NANOS_PER_MINUTE: int := 60_000_000_000

  /** Whether `get()` calls the delegate: never computed, or expired under a finite time-to-live. */
  predicate MustCompute(expirationNanos: Int64, now: Int64, ttlNanos: Int64)
  {
    expirationNanos == 0 || (ttlNanos >= 0 && Wrap64(now - expirationNanos) >= 0)
  }

  /** The expiration stored after a recomputation at `now`: `now + ttl`, moved off the sentinel 0. */
  function NextExpiration(now: Int64, ttlNanos: Int64): (r: Int64)
    ensures r != 0
    ensures (now + ttlNanos) % TWO_64 == 0 ==> r == 1
    ensures (now + ttlNanos) % TWO_64 != 0 ==> (r - (now + ttlNanos)) % TWO_64 == 0
  {
    var nanos := Wrap64(now + ttlNanos);
    if nanos == 0 then 1 else nanos
  }

  /**
   * A value computed at `now` with a finite time-to-live is still served,
   * without calling the delegate, at every clock reading less than `ttl`
   * nanoseconds later, even when `now + ttl` wraps around.
   */
  lemma FreshWithinTtl(now: Int64, later: Int64, ttlNanos: Int64)
    requires ttlNanos >= 0
    requires 0 <= later - now < ttlNanos
    ensures !MustCompute(NextExpiration(now, ttlNanos), later, ttlNanos)
  {
    var e := NextExpiration(now, ttlNanos);
    var d := later - now - ttlNanos;
    assert -TWO_63 <= d - 1 && d < 0;
    if (now + ttlNanos) % TWO_64 == 0 {
      assert (later - e - (d - 1)) % TWO_64 == 0 by {
        assert later - e - (d - 1) == now + ttlNanos;
      }
      WrapOfCongruent(later - e, d - 1);
    } else {
      assert (later - e - d) % TWO_64 == 0 by {
        assert (e - (now + ttlNanos)) % TWO_64 == 0;
        assert later - e - d == (now + ttlNanos) - e;
      }
      WrapOfCongruent(later - e, d);
    }
  }

  /**
   * Once more than `ttl` nanoseconds have passed since a recomputation (and
   * less than 2^63, so the wrapped difference is still non-negative), the
   * next `get()` calls the delegate again.
   */
  lemma StaleAfterTtl(now: Int64, later: Int64, ttlNanos: Int64)
    requires ttlNanos >= 0
    requires ttlNanos < later - now < ttlNanos + TWO_63
    ensures MustCompute(NextExpiration(now, ttlNanos), later, ttlNanos)
  {
    var e := NextExpiration(now, ttlNanos);
    var d := later - now - ttlNanos;
    if (now + ttlNanos) % TWO_64 == 0 {
      assert (later - e - (d - 1)) % TWO_64 == 0 by {
        assert later - e - (d - 1) == now + ttlNanos;
      }
      WrapOfCongruent(later - e, d - 1);
    } else {
      assert (later - e - d) % TWO_64 == 0 by {
        assert (e - (now + ttlNanos)) % TWO_64 == 0;
        assert later - e - d == (now + ttlNanos) - e;
      }
      WrapOfCongruent(later - e, d);
    }
  }

  /** Two integers congruent modulo 2^64 wrap to the same `long`. */
  lemma WrapOfCongruent(x: int, y: int)
    requires (x - y) % TWO_64 == 0
    requires -TWO_63 <= y < TWO_63
    ensures Wrap64(x) == y
  {
    var k := (x - y) / TWO_64;
    assert x == y + k * TWO_64;
    assert x % TWO_64 == y % TWO_64 by {
      ModShift(y, k);
    }
  }

  lemma ModShift(y: int, k: int)
    ensures (y + k * TWO_64) % TWO_64 == y % TWO_64
  {
  }

  /** The supplier that `memoize(original, ttlNanos)` returns. */
  class ExpiringMemoizer<T> {
    const ttlNanos: Int64
    var value: Option<T>
    var expirationNanos: Int64
    /** How many times the delegate has been called. */
    ghost var calls: nat

    ghost predicate Valid()
      reads this
    {
      (expirationNanos == 0 <==> value.None?) &&
      (value.None? <==> calls == 0) &&
      (ttlNanos < 0 ==> calls <= 1)
    }

    /** `memoize(original, ttlNanos)`: nothing computed yet. */
    constructor Memoize(ttlNanos: Int64)
      ensures Valid()
      ensures this.ttlNanos == ttlNanos && value == None && expirationNanos == 0 && calls == 0
    {
      this.ttlNanos := ttlNanos;
      value := None;
      expirationNanos := 0;
      calls := 0;
    }

    /** `memoize(original)`: the delegate is called once and its value kept forever. */
    constructor MemoizeForever()
      ensures Valid()
      ensures ttlNanos == -1 && value == None && expirationNanos == 0 && calls == 0
    {
      ttlNanos := -1;
      value := None;
      expirationNanos := 0;
      calls := 0;
    }

    /**
     * `get()`, run by one thread at a time. `delegateResult` is what the
     * delegate returns if it is called now.
     */
    method Get(now: Int64, delegateResult: T) returns (r: T)
      requires Valid()
      modifies this
      ensures Valid()
      ensures value == Some(r)
      ensures old(MustCompute(expirationNanos, now, ttlNanos)) ==>
        r == delegateResult && expirationNanos == NextExpiration(now, ttlNanos) &&
        calls == old(calls) + 1
      ensures !old(MustCompute(expirationNanos, now, ttlNanos)) ==>
        Some(r) == old(value) && expirationNanos == old(expirationNanos) && calls == old(calls)
      ensures old(calls) == 0 ==> r == delegateResult && calls == 1
      ensures ttlNanos < 0 && old(calls) > 0 ==> Some(r) == old(value) && calls == old(calls)
    {
      var nanos := expirationNanos;
      if nanos == 0 || (ttlNanos >= 0 && Wrap64(now - nanos) >= 0) {
        var t := delegateResult;
        calls := calls + 1;
        value := Some(t);
        nanos := Wrap64(now + ttlNanos);
        expirationNanos := if nanos == 0 then 1 else nanos;
        return t;
      }
      r := value.value;
    }
  }

  /** `queryExpirationConfig`: 300 milliseconds, in nanoseconds. */
  function QueryExpirationConfig(): (r: int)
    ensures r == 300 * NANOS_PER_MILLI
  {
    300_000_000
  }

  /**
   * `defaultExpiration()`: a read of the static supplier that memoizes
   * `queryExpirationConfig` for one minute.
   */
  method DefaultExpiration(defaultExpirationNanos: ExpiringMemoizer<int>, now: Int64) returns (r: int)
    requires defaultExpirationNanos.Valid()
    requires defaultExpirationNanos.ttlNanos == NANOS_PER_MINUTE
    requires defaultExpirationNanos.value.Some? ==> defaultExpirationNanos.value.value == QueryExpirationConfig()
    modifies defaultExpirationNanos
    ensures defaultExpirationNanos.Valid()
    ensures defaultExpirationNanos.value == Some(QueryExpirationConfig())
    ensures r == 300_000_000
  {
    r := defaultExpirationNanos.Get(now, QueryExpirationConfig());
  }
}
