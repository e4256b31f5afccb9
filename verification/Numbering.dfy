/** Issue and pull-request numbers (internal/collab/issues.go, internal/collab/pull_requests.go).

  A creation reads MAX(number) of its repository and then inserts the next number.  The two are separate
  steps here, so creations interleave; UNIQUE (repository_id, number) refuses an insert that lost. */
module Numbering {

  datatype Table = Issues | PullRequests

  /** A numbering sequence: one table of one repository. */
  datatype Series = Series(table: Table, repository: int)

  datatype Sys = Sys(numbers: map<Series, set<int>>, pending: map<(Series, nat), int>)
  {
    function Of(series: Series): set<int> {
      if series in numbers then numbers[series] else {}
    }
  }

  /** Each creation is a client of its own. */
  datatype Step =
    | ReadMax(series: Series, client: nat)
    | Insert(series: Series, client: nat)
    | Abandon(series: Series, client: nat)

  const START: Sys := Sys(map[], map[])

  /** COALESCE(MAX(number), 0). */
  ghost function MaxOf(numbers: set<int>): (max: int)
    ensures forall n | n in numbers :: n <= max
    ensures if numbers == {} then max == 0 else max in numbers
  {
    if !exists n :: n in numbers then 0
    else
      var n :| n in numbers;
      var rest := numbers - {n};
      assert forall m | m in numbers :: m == n || m in rest;
      if rest == {} || n > MaxOf(rest) then n else MaxOf(rest)
  }

  ghost predicate Inserts(s: Sys, step: Step) {
    && step.Insert? && (step.series, step.client) in s.pending
    && s.pending[(step.series, step.client)] + 1 !in s.Of(step.series)
  }

  ghost function Apply(s: Sys, step: Step): Sys {
    var c := (step.series, step.client);
    match step
    case ReadMax(series, _) => if c in s.pending then s else s.(pending := s.pending[c := MaxOf(s.Of(series))])
    case Abandon(_, _) => s.(pending := s.pending - {c})
    case Insert(series, _) =>
      if Inserts(s, step)
      then Sys(s.numbers[series := s.Of(series) + {s.pending[c] + 1}], s.pending - {c})
      else s.(pending := s.pending - {c})
  }

  ghost function After(steps: seq<Step>): Sys
    decreases |steps|
  {
    if steps == [] then START else Apply(After(steps[..|steps| - 1]), steps[|steps| - 1])
  }

  /** Successful creations in a series. */
  ghost function Created(steps: seq<Step>, series: Series): nat
    decreases |steps|
  {
    if steps == [] then 0
    else
      var step := steps[|steps| - 1];
      var before := steps[..|steps| - 1];
      Created(before, series) + (if step.series == series && Inserts(After(before), step) then 1 else 0)
  }

  function UpTo(n: nat): (s: set<int>)
    ensures forall i :: i in s <==> 1 <= i <= n
  {
    if n == 0 then {} else UpTo(n - 1) + {n}
  }

  /** No reader has seen a maximum above the present one. */
  ghost predicate ReadersBehind(s: Sys, series: Series, n: nat) {
    forall c | c in s.pending && c.0 == series :: 0 <= s.pending[c] <= n
  }

  /** Whatever interleaves, the numbers of a series are 1..n, n being its successful creations. */
  lemma {:induction false} Contiguous(steps: seq<Step>, series: Series)
    ensures After(steps).Of(series) == UpTo(Created(steps, series))
    ensures ReadersBehind(After(steps), series, Created(steps, series))
    decreases |steps|
  {
    if steps != [] {
      var before, step := steps[..|steps| - 1], steps[|steps| - 1];
      Contiguous(before, series);
      var s, n := After(before), Created(before, series);
      if step.series == series && Inserts(s, step) {
        assert s.pending[(series, step.client)] == n;
        assert UpTo(n + 1) == UpTo(n) + {n + 1};
      }
    }
  }

  function Only(steps: seq<Step>, series: Series): seq<Step>
    decreases |steps|
  {
    if steps == [] then []
    else
      var step := steps[|steps| - 1];
      Only(steps[..|steps| - 1], series) + (if step.series == series then [step] else [])
  }

  /** The two systems look alike to the clients of one series. */
  ghost predicate Alike(s: Sys, t: Sys, series: Series) {
    && s.Of(series) == t.Of(series)
    && forall c: (Series, nat) | c.0 == series ::
         (c in s.pending <==> c in t.pending) && (c in s.pending ==> s.pending[c] == t.pending[c])
  }

  lemma AppendStep(steps: seq<Step>, step: Step)
    ensures After(steps + [step]) == Apply(After(steps), step)
  {
    assert (steps + [step])[..|steps|] == steps;
  }

  lemma AlikeAfterOwnStep(s: Sys, t: Sys, step: Step)
    requires Alike(s, t, step.series)
    ensures Alike(Apply(s, step), Apply(t, step), step.series)
  {
  }

  lemma AlikeAfterOtherStep(s: Sys, t: Sys, step: Step, series: Series)
    requires Alike(s, t, series) && step.series != series
    ensures Alike(Apply(s, step), t, series)
  {
  }

  /** Issues, pull requests and repositories do not disturb each other: a series is as if its own steps
      were the whole run. */
  lemma {:induction false} SeriesAreIndependent(steps: seq<Step>, series: Series)
    ensures Alike(After(steps), After(Only(steps, series)), series)
    decreases |steps|
  {
    if steps != [] {
      var before, step := steps[..|steps| - 1], steps[|steps| - 1];
      SeriesAreIndependent(before, series);
      hide Alike, Apply;
      if step.series == series {
        AppendStep(Only(before, series), step);
        AlikeAfterOwnStep(After(before), After(Only(before, series)), step);
      } else {
        assert Only(before, series) + [] == Only(before, series);
        AlikeAfterOtherStep(After(before), After(Only(before, series)), step, series);
      }
    }
  }

  /** The creation that succeeds as the n-th of its series is given number n. */
  lemma NthCreationGetsN(steps: seq<Step>, step: Step)
    requires Inserts(After(steps), step)
    ensures After(steps).pending[(step.series, step.client)] + 1 == Created(steps + [step], step.series)
  {
    Contiguous(steps, step.series);
    assert (steps + [step])[..|steps|] == steps;
  }

  lemma MaxOfUpTo(n: nat)
    ensures MaxOf(UpTo(n)) == n
  {
    if n > 0 {
      assert n in UpTo(n);
    } else {
      assert UpTo(n) == {};
    }
  }

  lemma {:induction false} CreatedGrows(steps: seq<Step>, r: nat, series: Series)
    requires r <= |steps|
    ensures Created(steps[..r], series) <= Created(steps, series)
    decreases |steps|
  {
    if r < |steps| {
      var before := steps[..|steps| - 1];
      assert before[..r] == steps[..r];
      CreatedGrows(before, r, series);
    } else {
      assert steps[..r] == steps;
    }
  }

  /** What a creation has read stays with it while it does nothing. */
  lemma {:induction false} ReadStays(steps: seq<Step>, r: nat, series: Series, client: nat)
    requires r < |steps| && steps[r] == ReadMax(series, client) && (series, client) !in After(steps[..r]).pending
    requires forall i | r < i < |steps| :: steps[i].series != series || steps[i].client != client
    ensures (series, client) in After(steps).pending
    ensures After(steps).pending[(series, client)] == Created(steps[..r], series)
    decreases |steps|
  {
    var n := |steps| - 1;
    if r == n {
      Contiguous(steps[..r], series);
      MaxOfUpTo(Created(steps[..r], series));
    } else {
      assert steps[..n][..r] == steps[..r];
      ReadStays(steps[..n], r, series, client);
      hide MaxOf;
    }
  }

  /** A creation that has read the maximum gets the next number exactly when no other creation of its series
      has succeeded since its read; otherwise its insert is refused and nothing changes.  Other series do not matter. */
  lemma CreationSucceedsIff(steps: seq<Step>, r: nat, series: Series, client: nat)
    requires r < |steps| && steps[r] == ReadMax(series, client) && (series, client) !in After(steps[..r]).pending
    requires forall i | r < i < |steps| :: steps[i].series != series || steps[i].client != client
    ensures var before, after := After(steps), After(steps + [Insert(series, client)]);
            var n := Created(steps, series);
            && before.Of(series) == UpTo(n)
            && after.Of(series) == (if Created(steps[..r], series) == n then UpTo(n + 1) else UpTo(n))
            && (series, client) !in after.pending
  {
    AppendStep(steps, Insert(series, client));
    ReadStays(steps, r, series, client);
    Contiguous(steps, series);
    CreatedGrows(steps, r, series);
    hide After, Created, MaxOf;
    var n := Created(steps, series);
    assert UpTo(n + 1) == UpTo(n) + {n + 1};
  }

  /** A creation that gave up inserts nothing, and no number is lost by it. */
  lemma AbandonedInsertsNothing(steps: seq<Step>, series: Series, client: nat)
    ensures var after := After(steps + [Abandon(series, client)] + [Insert(series, client)]);
            && after.numbers == After(steps).numbers
            && Created(steps + [Abandon(series, client)] + [Insert(series, client)], series) == Created(steps, series)
  {
    var gone := steps + [Abandon(series, client)];
    AppendStep(steps, Abandon(series, client));
    AppendStep(gone, Insert(series, client));
    assert gone[..|steps|] == steps && (gone + [Insert(series, client)])[..|gone|] == gone;
    hide After, MaxOf;
  }
}
