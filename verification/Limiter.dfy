/** The limiter over many keys (internal/middleware/ratelimit.go): buckets made on demand, stale ones
  reaped when a new key finds the map full.  The class is the code; the functions above it are its
  specification; the lemmas say when reaping cannot be observed. */
module Limiter {
  import opened TokenBucket

  const SWEEP_SIZE := 10000
  const HOUR := 3600.0

  datatype Call = Call(key: string, now: real)

  type Buckets = map<string, Bucket>

  predicate Stale(b: Bucket, now: real) {
    now - b.last > HOUR
  }

  function Sweep(m: Buckets, now: real): Buckets {
    map k | k in m && !Stale(m[k], now) :: m[k]
  }

  /** The map just before the key's bucket is asked: swept if a new key finds it full. */
  function Settle(l: Limits, m: Buckets, c: Call): (r: Buckets)
    ensures c.key in r
  {
    if c.key in m then m
    else (if |m| >= SWEEP_SIZE then Sweep(m, c.now) else m)[c.key := Fresh(l, c.now)]
  }

  function Step(l: Limits, m: Buckets, c: Call): Buckets {
    var s := Settle(l, m, c);
    s[c.key := Next(l, s[c.key], c.now)]
  }

  predicate Decision(l: Limits, m: Buckets, c: Call) {
    Admits(l, Settle(l, m, c)[c.key], c.now)
  }

  /** The map that call `n` of a run finds. */
  function MapBefore(l: Limits, calls: seq<Call>, n: nat): Buckets
    requires n <= |calls|
  {
    if n == 0 then map[] else Step(l, MapBefore(l, calls, n - 1), calls[n - 1])
  }

  predicate LimiterDecision(l: Limits, calls: seq<Call>, n: nat)
    requires n < |calls|
  {
    Decision(l, MapBefore(l, calls, n), calls[n])
  }

  /** The readings at which `key` called, among the first n calls. */
  function TimesOf(calls: seq<Call>, key: string, n: nat): seq<real>
    requires n <= |calls|
  {
    if n == 0 then []
    else if calls[n - 1].key == key then TimesOf(calls, key, n - 1) + [calls[n - 1].now]
    else TimesOf(calls, key, n - 1)
  }

  /** What a bucket of its own, fed only this key's calls and never deleted, decides on call `n`. */
  predicate LoneDecision(l: Limits, calls: seq<Call>, n: nat)
    requires n < |calls|
  {
    var ts := TimesOf(calls, calls[n].key, n + 1);
    Admitted(l, ts, |ts| - 1)
  }

  predicate Sorted(calls: seq<Call>) {
    forall i, j | 0 <= i <= j < |calls| :: calls[i].now <= calls[j].now
  }

  /** No run with non-decreasing readings can tell the limiter from never-reaped buckets. */
  ghost predicate Transparent(l: Limits) {
    forall calls: seq<Call>, n: nat | Sorted(calls) && n < |calls| ::
      LimiterDecision(l, calls, n) == LoneDecision(l, calls, n)
  }

  // ---- The code ----

  class RateBucket {
    var tokens: real
    const capacity: real
    const refill: real
    var last: real

    constructor (tokens: real, capacity: real, refill: real, last: real)
      ensures View() == Bucket(tokens, last)
      ensures this.capacity == capacity && this.refill == refill
    {
      this.tokens, this.capacity, this.refill, this.last := tokens, capacity, refill, last;
    }

    function View(): Bucket
      reads this
    {
      Bucket(tokens, last)
    }

    method Allow(now: real) returns (admitted: bool)
      modifies this
      ensures admitted == Admits(Limits(capacity, refill), old(View()), now)
      ensures View() == Next(Limits(capacity, refill), old(View()), now)
    {
      var elapsed := now - last;
      assert elapsed * refill == Earned(Limits(capacity, refill), last, now);
      hide TokenBucket.Earned;
      tokens := Min(capacity, tokens + elapsed * refill);
      last := now;
      if tokens < 1.0 {
        return false;
      }
      tokens := tokens - 1.0;
      return true;
    }
  }

  class RateLimiter {
    var buckets: map<string, RateBucket>
    const capacity: real
    const refill: real
    var lastSweep: real

    ghost predicate Valid()
      reads this, buckets.Values
    {
      && (forall k | k in buckets :: buckets[k].capacity == capacity && buckets[k].refill == refill)
      && (forall j, k | j in buckets && k in buckets && j != k :: buckets[j] != buckets[k])
    }

    ghost function View(): Buckets
      reads this, buckets.Values
    {
      map k | k in buckets :: buckets[k].View()
    }

    constructor (capacity: real, refillPerSec: real, now: real)
      ensures Valid() && View() == map[]
      ensures this.capacity == capacity && refill == refillPerSec
    {
      buckets := map[];
      this.capacity, refill, lastSweep := capacity, refillPerSec, now;
    }

    method SweepLocked(now: real)
      requires Valid()
      modifies this`buckets, this`lastSweep
      ensures Valid() && buckets.Values <= old(buckets.Values) && buckets.Keys <= old(buckets.Keys)
      ensures View() == Sweep(old(View()), now)
      ensures forall k :: k in buckets <==> k in old(buckets) && now - old(buckets[k].last) <= 3600.0
    {
      var keys := buckets.Keys;
      while keys != {}
        invariant keys <= buckets.Keys <= old(buckets).Keys
        invariant forall k | k in buckets :: buckets[k] == old(buckets)[k]
        invariant forall k | k in old(buckets) ::
                    k in buckets <==> k in keys || !Stale(old(buckets)[k].View(), now)
        decreases keys
      {
        var key :| key in keys;
        if now - buckets[key].last > HOUR {
          buckets := buckets - {key};
        }
        keys := keys - {key};
      }
      lastSweep := now;
    }

    /** A bucket of its own for a key that has none. */
    method NewBucket(key: string, now: real) returns (bucket: RateBucket)
      requires Valid() && key !in buckets
      modifies this`buckets
      ensures Valid() && fresh(bucket) && buckets == old(buckets)[key := bucket]
      ensures View() == old(View())[key := Fresh(Limits(capacity, refill), now)]
    {
      bucket := new RateBucket(capacity, capacity, refill, now);
      buckets := buckets[key := bucket];
      assert View() == old(View())[key := bucket.View()];
    }

    /** The first half of Allow: find the key's bucket, or sweep a full map and make one. */
    method BucketFor(key: string, now: real) returns (bucket: RateBucket)
      requires Valid()
      modifies this`buckets, this`lastSweep
      ensures Valid() && fresh(buckets.Values - old(buckets.Values))
      ensures key in buckets && bucket == buckets[key]
      ensures View() == Settle(Limits(capacity, refill), old(View()), Call(key, now))
      ensures key in old(buckets) ==> View() == old(View())
      ensures key !in old(buckets) ==>
        View() == (if old(|buckets|) >= 10000 then Sweep(old(View()), now) else old(View()))
                    [key := Bucket(capacity, now)]
    {
      hide Sweep;
      assert View().Keys == buckets.Keys;
      if key in buckets {
        return buckets[key];
      }
      if |buckets| >= SWEEP_SIZE {
        SweepLocked(now);
      }
      bucket := NewBucket(key, now);
    }

    method Allow(key: string, now: real) returns (admitted: bool)
      requires Valid()
      modifies this`buckets, this`lastSweep, buckets.Values
      ensures Valid() && fresh(buckets.Values - old(buckets.Values))
      ensures admitted == Decision(Limits(capacity, refill), old(View()), Call(key, now))
      ensures View() == Step(Limits(capacity, refill), old(View()), Call(key, now))
    {
      hide Settle, TokenBucket.Next, Admits, Stale;
      var bucket := BucketFor(key, now);
      ghost var settled := View();
      admitted := bucket.Allow(now);
      assert View() == settled[key := bucket.View()];
    }
  }
}
