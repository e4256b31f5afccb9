/** When reaping stale buckets cannot be observed (internal/middleware/ratelimit.go). */
module SweepTransparency {
  import opened TokenBucket
  import opened Limiter

  // ---- An hour refills a bucket: the sweeping map simulates one never-reaped bucket per key ----

  /** After n calls the key's bucket is the lone one, or was reaped and the lone one is stale. */
  ghost predicate Simulates(l: Limits, calls: seq<Call>, key: string, n: nat)
    requires n <= |calls|
  {
    var ts := TimesOf(calls, key, n);
    var m := MapBefore(l, calls, n);
    if ts == [] then key !in m
    else
      var lone := Before(l, ts, |ts|);
      && n > 0
      && lone.tokens >= 0.0 && lone.last <= calls[n - 1].now
      && if key in m then m[key] == lone else Stale(lone, calls[n - 1].now)
  }

  /** A bucket idle for more than an hour decides, and ends up, as a new one would. */
  lemma StaleIsFull(l: Limits, b: Bucket, now: real)
    requires 3600.0 * l.refill >= l.capacity >= 0.0
    requires b.tokens >= 0.0 && Stale(b, now)
    ensures Refilled(l, b, now) == Refilled(l, Fresh(l, now), now) == l.capacity
  {
    var idle := now - b.last;
    assert idle * l.refill >= HOUR * l.refill;
    assert Earned(l, b.last, now) == idle * l.refill && Earned(l, now, now) == 0.0;
    hide Earned;
  }

  lemma LoneAfterCall(l: Limits, ts: seq<real>, now: real)
    ensures var us := ts + [now];
            Before(l, us, |us|) == Next(l, if ts == [] then Fresh(l, now) else Before(l, ts, |ts|), now)
    ensures Admitted(l, ts + [now], |ts|)
        == Admits(l, if ts == [] then Fresh(l, now) else Before(l, ts, |ts|), now)
  {
    if ts != [] {
      BeforeOfPrefix(l, ts, ts + [now], |ts|);
    }
  }

  lemma TokensStayNonNegative(l: Limits, b: Bucket, now: real)
    requires l.capacity >= 0.0 && l.refill >= 0.0 && b.tokens >= 0.0 && b.last <= now
    ensures Next(l, b, now).tokens >= 0.0
  {
    assert Earned(l, b.last, now) >= 0.0;
  }

  lemma SimulationStep(l: Limits, calls: seq<Call>, key: string, n: nat)
    requires Sorted(calls) && n < |calls|
    requires 3600.0 * l.refill >= l.capacity >= 0.0
    requires Simulates(l, calls, key, n)
    ensures Simulates(l, calls, key, n + 1)
    ensures calls[n].key == key ==> LimiterDecision(l, calls, n) == LoneDecision(l, calls, n)
  {
    var c, ts, m := calls[n], TimesOf(calls, key, n), MapBefore(l, calls, n);
    assert MapBefore(l, calls, n + 1) == Step(l, m, c);
    if c.key == key {
      LoneAfterCall(l, ts, c.now);
      var lone := if ts == [] then Fresh(l, c.now) else Before(l, ts, |ts|);
      if key !in m && ts != [] {
        StaleIsFull(l, lone, c.now);
      }
      TokensStayNonNegative(l, lone, c.now);
    }
  }

  lemma {:induction false} Simulation(l: Limits, calls: seq<Call>, key: string, n: nat)
    requires Sorted(calls) && n <= |calls|
    requires 3600.0 * l.refill >= l.capacity >= 0.0
    ensures Simulates(l, calls, key, n)
  {
    if n > 0 {
      Simulation(l, calls, key, n - 1);
      SimulationStep(l, calls, key, n - 1);
    }
  }

  lemma TransparentWhenHourRefills(l: Limits)
    requires 3600.0 * l.refill >= l.capacity >= 0.0
    ensures Transparent(l)
  {
    forall calls: seq<Call>, n: nat | Sorted(calls) && n < |calls|
      ensures LimiterDecision(l, calls, n) == LoneDecision(l, calls, n)
    {
      Simulation(l, calls, calls[n].key, n);
      SimulationStep(l, calls, calls[n].key, n);
    }
  }

  lemma TransparentWhenNothingIsAdmitted(l: Limits)
    requires l.capacity < 1.0
    ensures Transparent(l)
  {
  }

  // ---- An hour does not refill a bucket: one run that tells the difference ----

  // The run empties one bucket, lets 10000 other keys in, waits a little over an hour, has a new key
  // trigger the sweep, and then asks the first key for everything a full bucket would give.

  predicate SweepShows(l: Limits) {
    l.capacity >= 1.0 && 3600.0 * l.refill < l.capacity
  }

  function Whole(l: Limits): nat
    requires SweepShows(l)
  {
    l.capacity.Floor
  }

  /** Calls it takes to empty a full bucket: the whole tokens, then the fraction once it has grown to one. */
  function DrainLength(l: Limits): (n: nat)
    requires SweepShows(l)
    ensures n >= 1
  {
    Whole(l) + (if l.refill > 0.0 then 1 else 0)
  }

  function Offset(l: Limits, i: nat): (t: real)
    requires SweepShows(l) && i < DrainLength(l)
    ensures t >= 0.0
  {
    if i < Whole(l) then 0.0 else (1.0 - (l.capacity - Whole(l) as real)) / l.refill
  }

  function DrainTime(l: Limits): real
    requires SweepShows(l)
  {
    Offset(l, DrainLength(l) - 1)
  }

  /** More than an hour, and too short to refill a bucket. */
  function Idle(l: Limits): (t: real)
    requires SweepShows(l)
    ensures t > HOUR
  {
    if l.refill > 0.0 then (HOUR + l.capacity / l.refill) / 2.0 else HOUR + 1.0
  }

  function Name(i: nat): string {
    seq(i, _ => 'k')
  }

  function CallAt(l: Limits, i: nat): Call
    requires SweepShows(l) && i < 2 * DrainLength(l) + SWEEP_SIZE + 1
  {
    var d := DrainLength(l);
    if i < d then Call(Name(0), Offset(l, i))
    else if i < d + SWEEP_SIZE then Call(Name(i - d + 1), DrainTime(l))
    else if i == d + SWEEP_SIZE then Call(Name(i - d + 1), DrainTime(l) + Idle(l))
    else Call(Name(0), DrainTime(l) + Idle(l) + Offset(l, i - (d + SWEEP_SIZE + 1)))
  }

  function Telltale(l: Limits): (calls: seq<Call>)
    requires SweepShows(l)
  {
    seq(2 * DrainLength(l) + SWEEP_SIZE + 1,
        i requires 0 <= i < 2 * DrainLength(l) + SWEEP_SIZE + 1 => CallAt(l, i))
  }

  lemma TelltaleIsSorted(l: Limits)
    requires SweepShows(l)
    ensures Sorted(Telltale(l))
  {
  }

  /** A full bucket at `start` after i of its draining calls. */
  function Drained(l: Limits, start: real, i: nat): Bucket
    requires SweepShows(l) && i <= DrainLength(l)
  {
    if i <= Whole(l) then Bucket(l.capacity - i as real, start)
    else Bucket(0.0, start + Offset(l, i - 1))
  }

  lemma DrainStep(l: Limits, start: real, i: nat)
    requires SweepShows(l) && i < DrainLength(l)
    ensures Admits(l, Drained(l, start, i), start + Offset(l, i))
    ensures Next(l, Drained(l, start, i), start + Offset(l, i)) == Drained(l, start, i + 1)
    ensures Drained(l, start, 0) == Fresh(l, start) && Offset(l, 0) == 0.0
  {
    var b := Drained(l, start, i);
    if i < Whole(l) {
      EarnedAdds(l, start, start, start);
    } else {
      var missing := 1.0 - (l.capacity - Whole(l) as real);
      assert Earned(l, start, start + Offset(l, i)) == missing / l.refill * l.refill == missing;
    }
  }

  lemma {:induction false} LimiterDrains(l: Limits, n: nat)
    requires SweepShows(l) && n <= DrainLength(l)
    ensures MapBefore(l, Telltale(l), n) == if n == 0 then map[] else map[Name(0) := Drained(l, 0.0, n)]
  {
    hide Drained, Offset, Next, Admits;
    if n > 0 {
      LimiterDrains(l, n - 1);
      DrainStep(l, 0.0, n - 1);
    }
  }

  lemma DrainedMap(l: Limits)
    requires SweepShows(l)
    ensures var m := MapBefore(l, Telltale(l), DrainLength(l));
            m.Keys == {Name(0)} && m[Name(0)].last == DrainTime(l)
  {
    var d := DrainLength(l);
    LimiterDrains(l, d);
    DrainStep(l, 0.0, d - 1);
    hide Offset, Admits, Refilled, Drained;
    assert Drained(l, 0.0, d) == Next(l, Drained(l, 0.0, d - 1), 0.0 + DrainTime(l));
  }

  /** A new key's call leaves a map of buckets of its own instant as it is, plus one. */
  lemma StepOfFreshMap(l: Limits, m: Buckets, c: Call)
    requires c.key !in m && forall k | k in m :: m[k].last == c.now
    ensures Step(l, m, c).Keys == m.Keys + {c.key} && |Step(l, m, c)| == |m| + 1
    ensures forall k | k in Step(l, m, c) :: Step(l, m, c)[k].last == c.now
  {
    FreshMapIsNotSwept(m, c.now);
    hide Admits, Refilled, Sweep, Stale;
    var t := Step(l, m, c);
    assert t.Keys == m.Keys + {c.key};
    assert |t| == |t.Keys| && |m| == |m.Keys|;
  }

  lemma FreshMapIsNotSwept(m: Buckets, now: real)
    requires forall k | k in m :: m[k].last == now
    ensures Sweep(m, now) == m
  {
  }

  lemma {:induction false} CrowdArrives(l: Limits, n: nat)
    requires SweepShows(l) && n <= SWEEP_SIZE
    ensures var m := MapBefore(l, Telltale(l), DrainLength(l) + n);
            && |m| == n + 1
            && forall k | k in m :: |k| <= n && m[k].last == DrainTime(l)
  {
    hide Offset, Admits, Refilled, Step;
    var d, calls := DrainLength(l), Telltale(l);
    if n == 0 {
      DrainedMap(l);
    } else {
      hide Idle, DrainLength, Next, Drained;
      CrowdArrives(l, n - 1);
      var m, c := MapBefore(l, calls, d + n - 1), calls[d + n - 1];
      assert c == Call(Name(n), DrainTime(l)) && c.key !in m;
      StepOfFreshMap(l, m, c);
      assert MapBefore(l, calls, d + n) == Step(l, m, c);
    }
  }

  /** The next new key finds the map full, and every bucket in it stale. */
  lemma SweepForgets(l: Limits)
    requires SweepShows(l)
    ensures MapBefore(l, Telltale(l), DrainLength(l) + SWEEP_SIZE + 1).Keys == {Name(SWEEP_SIZE + 1)}
  {
    hide Offset, Next, Admits, Idle;
    var d, calls, start := DrainLength(l), Telltale(l), DrainTime(l) + Idle(l);
    CrowdArrives(l, SWEEP_SIZE);
    var m, c := MapBefore(l, calls, d + SWEEP_SIZE), calls[d + SWEEP_SIZE];
    assert c == Call(Name(SWEEP_SIZE + 1), start) && c.key !in m;
    assert Sweep(m, c.now) == map[];
    assert MapBefore(l, calls, d + SWEEP_SIZE + 1) == Step(l, m, c);
  }

  lemma StepOfSmallMap(l: Limits, m: Buckets, c: Call, b: Bucket)
    requires |m| < SWEEP_SIZE && b == if c.key in m then m[c.key] else Fresh(l, c.now)
    ensures Decision(l, m, c) == Admits(l, b, c.now)
    ensures Step(l, m, c) == m[c.key := Next(l, b, c.now)]
  {
  }

  /** So a second round of draining calls is admitted in full. */
  lemma {:induction false} LimiterDrainsAgain(l: Limits, n: nat)
    requires SweepShows(l) && n <= DrainLength(l)
    ensures MapBefore(l, Telltale(l), DrainLength(l) + SWEEP_SIZE + 1 + n).Keys
         == {Name(SWEEP_SIZE + 1)} + if n == 0 then {} else {Name(0)}
    ensures n > 0 ==>
      MapBefore(l, Telltale(l), DrainLength(l) + SWEEP_SIZE + 1 + n)[Name(0)]
        == Drained(l, DrainTime(l) + Idle(l), n)
    ensures n > 0 ==> LimiterDecision(l, Telltale(l), DrainLength(l) + SWEEP_SIZE + n)
  {
    hide Offset, Next, Admits, Drained, Idle, DrainLength, Step, Decision;
    if n == 0 {
      SweepForgets(l);
    } else {
      LimiterDrainsAgain(l, n - 1);
      var start, i := DrainTime(l) + Idle(l), DrainLength(l) + SWEEP_SIZE + n;
      DrainStep(l, start, n - 1);
      var m, c := MapBefore(l, Telltale(l), i), Telltale(l)[i];
      assert c == Call(Name(0), start + Offset(l, n - 1));
      assert Name(0) != Name(SWEEP_SIZE + 1) by {
        assert |Name(0)| != |Name(SWEEP_SIZE + 1)|;
      }
      assert |m.Keys| <= 2;
      StepOfSmallMap(l, m, c, Drained(l, start, n - 1));
      assert MapBefore(l, Telltale(l), i + 1) == Step(l, m, c);
    }
  }

  /** The readings the first key's own bucket gets over the run. */
  function OwnTimes(l: Limits): (ts: seq<real>)
    requires SweepShows(l)
    ensures |ts| == 2 * DrainLength(l)
  {
    var d := DrainLength(l);
    seq(2 * d, i requires 0 <= i < 2 * d =>
      if i < d then Offset(l, i) else DrainTime(l) + Idle(l) + Offset(l, i - d))
  }

  lemma {:induction false} OwnTimesOf(l: Limits, n: nat)
    requires SweepShows(l) && n <= |Telltale(l)|
    ensures var d := DrainLength(l);
            TimesOf(Telltale(l), Name(0), n)
              == OwnTimes(l)[..if n <= d then n else if n <= d + SWEEP_SIZE + 1 then d else n - (SWEEP_SIZE + 1)]
  {
    hide Offset, Idle, DrainLength;
    if n > 0 {
      OwnTimesOf(l, n - 1);
      var d, c := DrainLength(l), Telltale(l)[n - 1];
      if d < n <= d + SWEEP_SIZE + 1 {
        assert |c.key| == n - d;
      } else {
        var k := if n <= d then n else n - (SWEEP_SIZE + 1);
        assert c == Call(Name(0), OwnTimes(l)[k - 1]);
        assert OwnTimes(l)[..k] == OwnTimes(l)[..k - 1] + [OwnTimes(l)[k - 1]];
      }
    }
  }

  /** Admissions are paid for: calls i..j all admitted leave at most what was there plus what was earned. */
  lemma {:induction false} AdmissionsArePaid(l: Limits, ts: seq<real>, i: nat, j: nat)
    requires 0 < i <= j <= |ts|
    requires forall k | i <= k < j :: Admitted(l, ts, k)
    ensures Before(l, ts, j).tokens
         <= Before(l, ts, i).tokens + Earned(l, ts[i - 1], ts[j - 1]) - (j - i) as real
    ensures i < j ==> Before(l, ts, j).tokens >= 0.0
  {
    hide Earned;
    EarnedAdds(l, ts[i - 1], ts[i - 1], ts[i - 1]);
    if i < j {
      AdmissionsArePaid(l, ts, i, j - 1);
      EarnedAdds(l, ts[i - 1], ts[j - 2], ts[j - 1]);
      assert Admitted(l, ts, j - 1) && Before(l, ts, j - 1).last == ts[j - 2];
    }
  }

  lemma {:induction false} OwnBucketDrains(l: Limits, n: nat)
    requires SweepShows(l) && n <= DrainLength(l)
    ensures Before(l, OwnTimes(l), n) == Drained(l, 0.0, n)
  {
    hide Offset, Next, Admits, Drained, Idle;
    DrainStep(l, 0.0, if n == 0 then 0 else n - 1);
    if n > 0 {
      OwnBucketDrains(l, n - 1);
    }
  }

  /** What is left after draining, and earned until the second round ends, does not pay for that round. */
  lemma SecondRoundIsTooDear(l: Limits)
    requires SweepShows(l)
    ensures var d := DrainLength(l);
            var t := DrainTime(l);
            Drained(l, 0.0, d).tokens + Earned(l, t, t + Idle(l) + t) - d as real < 0.0
  {
    var t := DrainTime(l);
    assert Earned(l, t, t + Idle(l) + t) == Idle(l) * l.refill + t * l.refill;
    if l.refill > 0.0 {
      assert t * l.refill == 1.0 - (l.capacity - Whole(l) as real);
      assert Idle(l) * l.refill == (HOUR * l.refill + l.capacity / l.refill * l.refill) / 2.0;
      assert l.capacity / l.refill * l.refill == l.capacity;
    } else {
      assert Idle(l) * l.refill <= 0.0;
    }
  }

  lemma OwnBucketRefuses(l: Limits) returns (k: nat)
    requires SweepShows(l)
    ensures DrainLength(l) <= k < 2 * DrainLength(l) && !Admitted(l, OwnTimes(l), k)
  {
    hide Earned, Drained, Idle, Offset;
    var d, ts := DrainLength(l), OwnTimes(l);
    OwnBucketDrains(l, d);
    SecondRoundIsTooDear(l);
    if forall k | d <= k < 2 * d :: Admitted(l, ts, k) {
      AdmissionsArePaid(l, ts, d, 2 * d);
      assert false;
    }
    k :| d <= k < 2 * d && !Admitted(l, ts, k);
  }

  lemma TelltaleTells(l: Limits)
    requires SweepShows(l)
    ensures !Transparent(l)
  {
    hide Drained, Idle, Offset, Step, Decision, Earned;
    var d, calls := DrainLength(l), Telltale(l);
    var k := OwnBucketRefuses(l);
    var n := k + SWEEP_SIZE + 1;
    TelltaleIsSorted(l);
    LimiterDrainsAgain(l, k - d + 1);
    OwnTimesOf(l, n + 1);
    assert calls[n].key == Name(0);
    var ts := TimesOf(calls, Name(0), n + 1);
    assert ts == OwnTimes(l)[..k + 1];
    BeforeOfPrefix(l, ts, OwnTimes(l), k);
    assert LimiterDecision(l, calls, n) && !LoneDecision(l, calls, n);
  }

  /** Reaping is unobservable exactly when an idle hour refills a bucket or no bucket ever admits a call. */
  lemma TransparentIff(l: Limits)
    ensures Transparent(l) <==> l.capacity < 1.0 || 3600.0 * l.refill >= l.capacity
  {
    if l.capacity < 1.0 {
      TransparentWhenNothingIsAdmitted(l);
    } else if HOUR * l.refill >= l.capacity {
      TransparentWhenHourRefills(l);
    } else {
      TelltaleTells(l);
    }
  }

  /** The server's limiter, NewRateLimiter(120, 2), is transparent. */
  lemma ServerLimiterIsTransparent()
    ensures Transparent(Limits(120.0, 2.0))
  {
    TransparentIff(Limits(120.0, 2.0));
  }

  // ---- Few keys ----

  /** The keys of the first n calls. */
  function KeysOf(calls: seq<Call>, n: nat): set<string>
    requires n <= |calls|
  {
    set i | 0 <= i < n :: calls[i].key
  }

  /** The key's bucket is its never-reaped one. */
  ghost predicate OwnBucket(l: Limits, calls: seq<Call>, key: string, n: nat)
    requires n <= |calls|
  {
    var ts, m := TimesOf(calls, key, n), MapBefore(l, calls, n);
    if ts == [] then key !in m else key in m && m[key] == Before(l, ts, |ts|)
  }

  /** No sweep has happened. */
  ghost predicate Unswept(l: Limits, calls: seq<Call>, n: nat)
    requires n <= |calls|
  {
    && MapBefore(l, calls, n).Keys == KeysOf(calls, n)
    && forall key :: OwnBucket(l, calls, key, n)
  }

  lemma FewerKeys(a: set<string>, b: set<string>, key: string)
    requires a <= b && key in b && key !in a
    ensures |a| < |b|
  {
    SmallerSet(a, b - {key});
  }

  lemma {:induction false} SmallerSet(a: set<string>, b: set<string>)
    requires a <= b
    ensures |a| <= |b|
    decreases b
  {
    if a != {} {
      var x :| x in a;
      SmallerSet(a - {x}, b - {x});
    }
  }

  /** A map of fewer than 10000 buckets only grows. */
  lemma SettlesUnswept(l: Limits, m: Buckets, c: Call)
    requires c.key in m || |m| < 10000
    ensures var b := if c.key in m then m[c.key] else Fresh(l, c.now);
            && Step(l, m, c) == m[c.key := Next(l, b, c.now)]
            && Decision(l, m, c) == Admits(l, b, c.now)
  {
    hide TokenBucket.Next, Admits;
  }

  lemma OwnBucketStep(l: Limits, calls: seq<Call>, key: string, n: nat)
    requires n < |calls| && OwnBucket(l, calls, key, n)
    requires calls[n].key in MapBefore(l, calls, n) || |MapBefore(l, calls, n)| < 10000
    ensures OwnBucket(l, calls, key, n + 1)
    ensures key == calls[n].key ==> LimiterDecision(l, calls, n) == LoneDecision(l, calls, n)
  {
    var c, m := calls[n], MapBefore(l, calls, n);
    SettlesUnswept(l, m, c);
    LoneAfterCall(l, TimesOf(calls, c.key, n), c.now);
    assert MapBefore(l, calls, n + 1) == Step(l, m, c);
    hide Limiter.Step, Decision, Before, TokenBucket.Next, Admits, Admitted;
  }

  lemma KeysGrow(calls: seq<Call>, n: nat)
    requires n < |calls|
    ensures KeysOf(calls, n + 1) == KeysOf(calls, n) + {calls[n].key} <= KeysOf(calls, |calls|)
  {
  }

  lemma KeysFollow(l: Limits, calls: seq<Call>, n: nat)
    requires n < |calls| && MapBefore(l, calls, n).Keys == KeysOf(calls, n)
    requires calls[n].key in MapBefore(l, calls, n) || |MapBefore(l, calls, n)| < 10000
    ensures MapBefore(l, calls, n + 1).Keys == KeysOf(calls, n + 1)
  {
    SettlesUnswept(l, MapBefore(l, calls, n), calls[n]);
    KeysGrow(calls, n);
    assert MapBefore(l, calls, n + 1) == Step(l, MapBefore(l, calls, n), calls[n]);
    hide Limiter.Step, MapBefore, KeysOf, TokenBucket.Next;
  }

  lemma RoomForKey(l: Limits, calls: seq<Call>, n: nat)
    requires n < |calls| && |KeysOf(calls, |calls|)| <= 10000
    requires MapBefore(l, calls, n).Keys == KeysOf(calls, n)
    ensures calls[n].key in MapBefore(l, calls, n) || |MapBefore(l, calls, n)| < 10000
  {
    KeysGrow(calls, n);
    var m := MapBefore(l, calls, n);
    hide MapBefore, KeysOf;
    if calls[n].key !in m {
      FewerKeys(m.Keys, KeysOf(calls, |calls|), calls[n].key);
      assert |m| == |m.Keys|;
    }
  }

  lemma UnsweptStep(l: Limits, calls: seq<Call>, n: nat)
    requires n < |calls| && |KeysOf(calls, |calls|)| <= 10000 && Unswept(l, calls, n)
    ensures Unswept(l, calls, n + 1) && LimiterDecision(l, calls, n) == LoneDecision(l, calls, n)
  {
    RoomForKey(l, calls, n);
    KeysFollow(l, calls, n);
    hide OwnBucket, KeysOf, LimiterDecision, LoneDecision, MapBefore;
    var next := n + 1;
    forall key
      ensures OwnBucket(l, calls, key, next)
    {
      OwnBucketStep(l, calls, key, n);
    }
    OwnBucketStep(l, calls, calls[n].key, n);
  }

  lemma {:induction false} UnsweptAlways(l: Limits, calls: seq<Call>, n: nat)
    requires n <= |calls| && |KeysOf(calls, |calls|)| <= 10000
    ensures Unswept(l, calls, n)
  {
    if n > 0 {
      hide Unswept;
      UnsweptAlways(l, calls, n - 1);
      UnsweptStep(l, calls, n - 1);
    }
  }

  /** The sweep waits for 10000 buckets and a key more: a run with no more keys than that never meets it, for
      any limits and clock readings in any order. */
  lemma FewKeysSeeNoSweep(l: Limits, calls: seq<Call>, n: nat)
    requires n < |calls| && |KeysOf(calls, |calls|)| <= 10000
    ensures LimiterDecision(l, calls, n) == LoneDecision(l, calls, n)
  {
    UnsweptAlways(l, calls, n);
    UnsweptStep(l, calls, n);
    hide *;
  }

  // ---- The window bound through sweeps ----

  /** The key's calls among calls i..j, the last one excluded, that the limiter admits. */
  function AdmittedOf(l: Limits, calls: seq<Call>, key: string, i: nat, j: nat): nat
    requires i <= j <= |calls|
  {
    if i == j then 0
    else
      AdmittedOf(l, calls, key, i, j - 1) +
      (if calls[j - 1].key == key && LimiterDecision(l, calls, j - 1) then 1 else 0)
  }

  lemma {:induction false} TimesArePrefix(calls: seq<Call>, key: string, n: nat)
    requires n <= |calls|
    ensures TimesOf(calls, key, n) <= TimesOf(calls, key, |calls|)
    decreases |calls| - n
  {
    if n < |calls| {
      TimesArePrefix(calls, key, n + 1);
    }
  }

  /** Call n of the run is call |TimesOf(calls, key, n)| of its own key's run, with the same decision. */
  lemma CallInOwnRun(l: Limits, calls: seq<Call>, n: nat)
    requires Sorted(calls) && n < |calls| && Transparent(l)
    ensures var key := calls[n].key;
            var ts, p := TimesOf(calls, key, |calls|), |TimesOf(calls, key, n)|;
            && p < |ts| && ts[p] == calls[n].now
            && TimesOf(calls, key, n + 1) == ts[..p + 1]
            && Decisions(l, ts)[p] == LimiterDecision(l, calls, n)
  {
    var key := calls[n].key;
    var us, ts, p := TimesOf(calls, key, n + 1), TimesOf(calls, key, |calls|), |TimesOf(calls, key, n)|;
    TimesArePrefix(calls, key, n + 1);
    BeforeOfPrefix(l, us, ts, p);
    assert LimiterDecision(l, calls, n) == LoneDecision(l, calls, n);
  }

  lemma {:induction false} AdmittedOfIsCount(l: Limits, calls: seq<Call>, key: string, i: nat, j: nat)
    requires Sorted(calls) && i <= j <= |calls| && Transparent(l)
    ensures var ts := TimesOf(calls, key, |calls|);
            && |TimesOf(calls, key, i)| <= |TimesOf(calls, key, j)| <= |ts|
            && AdmittedOf(l, calls, key, i, j)
                 == Count(Decisions(l, ts), |TimesOf(calls, key, i)|, |TimesOf(calls, key, j)|)
  {
    hide Transparent, LimiterDecision;
    TimesArePrefix(calls, key, j);
    if i < j {
      AdmittedOfIsCount(l, calls, key, i, j - 1);
      if calls[j - 1].key == key {
        CallInOwnRun(l, calls, j - 1);
      }
    }
  }

  /** Whatever other keys do and however often the map is swept, no window of one key's calls that ends in
      an admission exceeds its budget. */
  lemma LimiterWindowBound(l: Limits, calls: seq<Call>, i: nat, j: nat)
    requires Sorted(calls) && i <= j < |calls| && calls[i].key == calls[j].key
    requires l.capacity < 1.0 || 3600.0 * l.refill >= l.capacity
    requires LimiterDecision(l, calls, j)
    ensures AdmittedOf(l, calls, calls[i].key, i, j + 1) as real
         <= l.capacity + Earned(l, calls[i].now, calls[j].now)
  {
    hide LimiterDecision, Transparent, Earned;
    var key := calls[i].key;
    TransparentIff(l);
    CallInOwnRun(l, calls, i);
    CallInOwnRun(l, calls, j);
    AdmittedOfIsCount(l, calls, key, i, j + 1);
    AdmittedOfIsCount(l, calls, key, i, j);
    WindowBound(l, TimesOf(calls, key, |calls|));
  }
}
