/** One token bucket (internal/middleware/ratelimit.go).

  Clock readings and tokens are reals.  Nothing here asks the readings to be ordered: they are taken
  before the lock, so a bucket can see them in any order. */
module TokenBucket {

  datatype Limits = Limits(capacity: real, refill: real)

  /** The two fields of a bucket that change: its tokens and the reading of its last call. */
  datatype Bucket = Bucket(tokens: real, last: real)

  function Min(a: real, b: real): real {
    if a < b then a else b
  }

  /** Tokens refilled between two readings; negative when the second reading is the earlier one. */
  function Earned(l: Limits, from: real, to: real): real {
    (to - from) * l.refill
  }

  lemma EarnedAdds(l: Limits, a: real, b: real, c: real)
    ensures Earned(l, a, b) + Earned(l, b, c) == Earned(l, a, c)
    ensures Earned(l, a, a) == 0.0
  {
    var x, y := b - a, c - b;
    assert x * l.refill + y * l.refill == (x + y) * l.refill;
  }

  function Fresh(l: Limits, now: real): Bucket {
    Bucket(l.capacity, now)
  }

  /** Tokens at the moment of the admission test. */
  function Refilled(l: Limits, b: Bucket, now: real): real {
    Min(l.capacity, b.tokens + Earned(l, b.last, now))
  }

  predicate Admits(l: Limits, b: Bucket, now: real) {
    Refilled(l, b, now) >= 1.0
  }

  function Next(l: Limits, b: Bucket, now: real): Bucket {
    Bucket(Refilled(l, b, now) - One(Admits(l, b, now)), now)
  }

  function One(admitted: bool): real {
    if admitted then 1.0 else 0.0
  }

  /** The bucket that call `n` of a run finds; it is created, full, at the first call. */
  function Before(l: Limits, ts: seq<real>, n: nat): Bucket
    requires n <= |ts| && ts != []
  {
    if n == 0 then Fresh(l, ts[0]) else Next(l, Before(l, ts, n - 1), ts[n - 1])
  }

  predicate Admitted(l: Limits, ts: seq<real>, n: nat)
    requires n < |ts|
  {
    Admits(l, Before(l, ts, n), ts[n])
  }

  /** All the decisions of one bucket over a run of clock readings. */
  function Decisions(l: Limits, ts: seq<real>): seq<bool> {
    seq(|ts|, n requires 0 <= n < |ts| => Admitted(l, ts, n))
  }

  /** Admissions among calls i..j, the last one excluded, of any decision sequence. */
  function Count(d: seq<bool>, i: nat, j: nat): nat
    requires i <= j <= |d|
  {
    if i == j then 0 else Count(d, i, j - 1) + (if d[j - 1] then 1 else 0)
  }

  /** What the window from call i up to (not including) call n leaves over at the reading of call n. */
  function Leftover(l: Limits, ts: seq<real>, d: seq<bool>, i: nat, n: nat): real
    requires i <= n < |ts| == |d|
  {
    l.capacity + Earned(l, ts[i], ts[n]) - Count(d, i, n) as real
  }

  /** The promise of a limiter: no window that ends in an admission exceeds its budget. */
  ghost predicate KeepsBound(l: Limits, ts: seq<real>, d: seq<bool>) {
    && |d| == |ts|
    && forall i, j | 0 <= i <= j < |ts| && d[j] ::
         Count(d, i, j + 1) as real <= l.capacity + Earned(l, ts[i], ts[j])
  }

  /** The level a bucket would show before call n had it taken the decisions d. */
  function Level(l: Limits, ts: seq<real>, d: seq<bool>, n: nat): real
    requires n < |ts| == |d|
  {
    if n == 0 then l.capacity
    else Min(l.capacity, Level(l, ts, d, n - 1) - One(d[n - 1]) + Earned(l, ts[n - 1], ts[n]))
  }

  lemma LeftoverStep(l: Limits, ts: seq<real>, d: seq<bool>, i: nat, n: nat)
    requires i <= n && n + 1 < |ts| == |d|
    ensures Leftover(l, ts, d, i, n + 1)
         == Leftover(l, ts, d, i, n) - One(d[n]) + Earned(l, ts[n], ts[n + 1])
  {
    hide Earned;
    EarnedAdds(l, ts[i], ts[n], ts[n + 1]);
  }

  /** For every decision sequence the level is the minimum, over all windows, of what they leave over. */
  lemma {:induction false} LevelIsMinimum(l: Limits, ts: seq<real>, d: seq<bool>, n: nat)
    requires n < |ts| == |d|
    ensures forall i | 0 <= i <= n :: Level(l, ts, d, n) <= Leftover(l, ts, d, i, n)
    ensures exists i | 0 <= i <= n :: Level(l, ts, d, n) == Leftover(l, ts, d, i, n)
  {
    hide Earned;
    EarnedAdds(l, ts[n], ts[n], ts[n]);
    if n == 0 {
      assert Leftover(l, ts, d, 0, 0) == l.capacity;
    } else {
      LevelIsMinimum(l, ts, d, n - 1);
      assert Leftover(l, ts, d, n, n) == l.capacity;
      forall i | 0 <= i < n
        ensures Level(l, ts, d, n) <= Leftover(l, ts, d, i, n)
      {
        LeftoverStep(l, ts, d, i, n - 1);
      }
      var k :| 0 <= k <= n - 1 && Level(l, ts, d, n - 1) == Leftover(l, ts, d, k, n - 1);
      LeftoverStep(l, ts, d, k, n - 1);
      var w := if Level(l, ts, d, n) == l.capacity then n else k;
      assert Level(l, ts, d, n) == Leftover(l, ts, d, w, n);
    }
  }

  /** The tokens of the bucket are its level under its own decisions. */
  lemma {:induction false} TokensAreLevel(l: Limits, ts: seq<real>, n: nat)
    requires n < |ts|
    ensures Refilled(l, Before(l, ts, n), ts[n]) == Level(l, ts, Decisions(l, ts), n)
  {
    hide Earned;
    EarnedAdds(l, ts[0], ts[0], ts[0]);
    if n > 0 {
      TokensAreLevel(l, ts, n - 1);
    }
  }

  /** Exactness: before the test of call n the tokens are the least leftover of all windows up to it. */
  lemma TokensAreMinimumOverWindows(l: Limits, ts: seq<real>, n: nat)
    requires n < |ts|
    ensures var tokens := Refilled(l, Before(l, ts, n), ts[n]);
            && (forall i | 0 <= i <= n :: tokens <= Leftover(l, ts, Decisions(l, ts), i, n))
            && (exists i | 0 <= i <= n :: tokens == Leftover(l, ts, Decisions(l, ts), i, n))
  {
    hide Earned;
    TokensAreLevel(l, ts, n);
    LevelIsMinimum(l, ts, Decisions(l, ts), n);
  }

  /** A call is refused exactly when admitting it would break the budget of some window. */
  lemma RefusedIffSomeWindowIsFull(l: Limits, ts: seq<real>, n: nat)
    requires n < |ts|
    ensures !Admitted(l, ts, n) <==>
            exists i :: 0 <= i <= n
              && Count(Decisions(l, ts), i, n) as real + 1.0 > l.capacity + Earned(l, ts[i], ts[n])
  {
    hide Earned;
    TokensAreMinimumOverWindows(l, ts, n);
    var d := Decisions(l, ts);
    if !Admitted(l, ts, n) {
      var i :| 0 <= i <= n && Refilled(l, Before(l, ts, n), ts[n]) == Leftover(l, ts, d, i, n);
      assert Count(d, i, n) as real + 1.0 > l.capacity + Earned(l, ts[i], ts[n]);
    } else {
      forall i | 0 <= i <= n
        ensures Count(d, i, n) as real + 1.0 <= l.capacity + Earned(l, ts[i], ts[n])
      {
        assert Refilled(l, Before(l, ts, n), ts[n]) <= Leftover(l, ts, d, i, n);
      }
    }
  }

  /** A decision sequence keeps the window bound exactly when it only admits at a level of one or more. */
  lemma KeepsBoundIffLevel(l: Limits, ts: seq<real>, d: seq<bool>)
    requires |d| == |ts|
    ensures KeepsBound(l, ts, d) <==> forall j | 0 <= j < |ts| && d[j] :: Level(l, ts, d, j) >= 1.0
  {
    hide Earned;
    forall j | 0 <= j < |ts| && d[j]
      ensures Level(l, ts, d, j) >= 1.0 <==>
              forall i | 0 <= i <= j :: Count(d, i, j + 1) as real <= l.capacity + Earned(l, ts[i], ts[j])
    {
      LevelIsMinimum(l, ts, d, j);
      forall i | 0 <= i <= j
        ensures Leftover(l, ts, d, i, j) - 1.0
             == l.capacity + Earned(l, ts[i], ts[j]) - Count(d, i, j + 1) as real
      {
      }
      if Level(l, ts, d, j) < 1.0 {
        var i :| 0 <= i <= j && Level(l, ts, d, j) == Leftover(l, ts, d, i, j);
        assert Count(d, i, j + 1) as real > l.capacity + Earned(l, ts[i], ts[j]);
      }
    }
  }

  /** The window bound over whole runs, whatever the order of the clock readings. */
  lemma WindowBound(l: Limits, ts: seq<real>)
    ensures KeepsBound(l, ts, Decisions(l, ts))
  {
    hide Earned;
    var d := Decisions(l, ts);
    forall j | 0 <= j < |ts| && d[j]
      ensures Level(l, ts, d, j) >= 1.0
    {
      TokensAreLevel(l, ts, j);
    }
    KeepsBoundIffLevel(l, ts, d);
  }

  lemma {:induction false} GreedyStaysAhead(l: Limits, ts: seq<real>, d: seq<bool>, n: nat)
    requires n < |ts| == |d|
    requires forall j | 0 <= j < |ts| && d[j] :: Level(l, ts, d, j) >= 1.0
    ensures var g := Decisions(l, ts);
            var lead := Count(g, 0, n) - Count(d, 0, n);
            lead >= 0 && Level(l, ts, d, n) - Level(l, ts, g, n) <= lead as real
  {
    hide Earned;
    if n > 0 {
      GreedyStaysAhead(l, ts, d, n - 1);
      TokensAreLevel(l, ts, n - 1);
    }
  }

  /** The limiter is the most permissive policy: one that keeps the bound on the same readings has never
      admitted more calls, at any point of the run. */
  lemma MostPermissive(l: Limits, ts: seq<real>, d: seq<bool>, n: nat)
    requires KeepsBound(l, ts, d)
    requires n <= |ts|
    ensures Count(d, 0, n) <= Count(Decisions(l, ts), 0, n)
  {
    hide Earned;
    KeepsBoundIffLevel(l, ts, d);
    if n > 0 {
      GreedyStaysAhead(l, ts, d, n - 1);
      TokensAreLevel(l, ts, n - 1);
    }
  }

  /** Two runs that agree on their first calls find the same bucket there. */
  lemma {:induction false} BeforeOfPrefix(l: Limits, ts: seq<real>, us: seq<real>, n: nat)
    requires n <= |ts| <= |us| && ts != []
    requires forall i | 0 <= i < |ts| :: ts[i] == us[i]
    ensures Before(l, ts, n) == Before(l, us, n)
  {
    if n > 0 {
      BeforeOfPrefix(l, ts, us, n - 1);
    }
  }
}
