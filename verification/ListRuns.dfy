/** List while others store and delete (internal/storage/storage.go).

  The walk reads each directory at one instant of a run and looks at each file it found there at a later
  one; in between, any steps of Puts, Deletes and crashes. */
module ListRuns {
  import opened LocalStore
  import opened NewestFirst
  import opened StoragePath
  import opened Wrappers
  import Atomic = AtomicStore

  // ---- When a file goes away ----

  /** Step j takes file f away: its Delete, or the Rename of its own temporary name. */
  ghost predicate RemovesAt(steps: seq<Atomic.Step>, j: nat, f: Atomic.Path) {
    && j < |steps|
    && (steps[j] == Atomic.Delete(f)
        || (steps[j].Rename? && f == Atomic.Tmp(steps[j].p) && Atomic.Commits(Atomic.At(steps, j), steps[j].p)))
  }

  /** Step j puts file f there, be it as a committed value or as a temporary file. */
  ghost predicate MakesAt(steps: seq<Atomic.Step>, j: nat, f: Atomic.Path) {
    && j < |steps|
    && ((steps[j] == Atomic.Rename(f) && Atomic.Commits(Atomic.At(steps, j), f))
        || (steps[j].Create? && f == Atomic.Tmp(steps[j].p) && Atomic.CreatesAt(steps, j, steps[j].p)))
  }

  lemma FileStep(steps: seq<Atomic.Step>, n: nat, f: Atomic.Path)
    requires n < |steps|
    ensures f in Atomic.At(steps, n + 1).files <==>
              MakesAt(steps, n, f) || (f in Atomic.At(steps, n).files && !RemovesAt(steps, n, f))
  {
    hide Atomic.Tmp;
  }

  /** Between r and v the file was taken away and not put back. */
  ghost predicate TakenAway(steps: seq<Atomic.Step>, r: nat, v: nat, f: Atomic.Path) {
    exists j | r <= j < v :: RemovesAt(steps, j, f) && NotMade(steps, j + 1, v, f)
  }

  ghost predicate NotMade(steps: seq<Atomic.Step>, from: nat, to: nat, f: Atomic.Path) {
    forall i | from <= i < to :: !MakesAt(steps, i, f)
  }

  lemma TakenAwayNext(steps: seq<Atomic.Step>, r: nat, v: nat, f: Atomic.Path)
    requires r <= v
    ensures TakenAway(steps, r, v + 1, f) <==>
              RemovesAt(steps, v, f) || (TakenAway(steps, r, v, f) && !MakesAt(steps, v, f))
  {
    hide RemovesAt, MakesAt;
    if RemovesAt(steps, v, f) {
      assert NotMade(steps, v + 1, v + 1, f);
    } else if TakenAway(steps, r, v, f) && !MakesAt(steps, v, f) {
      var j :| r <= j < v && RemovesAt(steps, j, f) && NotMade(steps, j + 1, v, f);
      assert NotMade(steps, j + 1, v + 1, f);
    }
    if TakenAway(steps, r, v + 1, f) && !RemovesAt(steps, v, f) {
      var j :| r <= j < v + 1 && RemovesAt(steps, j, f) && NotMade(steps, j + 1, v + 1, f);
      assert NotMade(steps, j + 1, v, f);
    }
  }

  /** A file that was there at r is not there at v exactly when it was taken away in between. */
  lemma {:induction false} GoneIff(steps: seq<Atomic.Step>, r: nat, v: nat, f: Atomic.Path)
    requires r <= v <= |steps| && f in Atomic.At(steps, r).files
    ensures f !in Atomic.At(steps, v).files <==> TakenAway(steps, r, v, f)
    decreases v
  {
    hide Atomic.At, RemovesAt, MakesAt, NotMade;
    if r < v {
      GoneIff(steps, r, v - 1, f);
      FileStep(steps, v - 1, f);
      TakenAwayNext(steps, r, v - 1, f);
      NotBoth(steps, v - 1, f);
      hide TakenAway;
    }
  }

  lemma NotBoth(steps: seq<Atomic.Step>, j: nat, f: Atomic.Path)
    ensures !(RemovesAt(steps, j, f) && MakesAt(steps, j, f))
  {
    hide Atomic.At, Atomic.Commits;
  }

  // ---- A walk in the middle of a run ----

  /** A walk of `dir` between steps `from` and `to`.  Visit i is made at instant at[i]; met(f) is the instant at
      which the directory of f is read.  What is visited is, once each, what those reads found. */
  datatype Tour = Tour(from: nat, to: nat, walk: seq<Visit>, at: seq<nat>, met: Atomic.Path -> nat)

  ghost predicate Honest(steps: seq<Atomic.Step>, dir: Atomic.Path, t: Tour) {
    && |t.at| == |t.walk| && t.from <= t.to <= |steps|
    && (forall f | dir <= f :: t.from <= t.met(f) <= t.to)
    && (forall i | 0 <= i < |t.walk| :: t.walk[i].Look? && Visits(steps, dir, t, i))
    && (forall i, j | 0 <= i < j < |t.walk| :: t.walk[i].path != t.walk[j].path)
    && (forall f | dir <= f && FoundAt(steps, t, f) :: exists i :: 0 <= i < |t.walk| && t.walk[i].path == f)
  }

  /** The read of its directory found the file. */
  ghost predicate FoundAt(steps: seq<Atomic.Step>, t: Tour, f: Atomic.Path) {
    t.met(f) <= |steps| && f in Atomic.At(steps, t.met(f)).files
  }

  ghost predicate Visits(steps: seq<Atomic.Step>, dir: Atomic.Path, t: Tour, i: nat)
    requires i < |t.walk| == |t.at| && t.walk[i].Look?
  {
    var f := t.walk[i].path;
    dir <= f && t.met(f) <= t.at[i] <= t.to && FoundAt(steps, t, f)
  }

  /** The store at the instant of each visit. */
  function Disks(steps: seq<Atomic.Step>, at: seq<nat>): seq<Disk>
    requires forall i | 0 <= i < |at| :: at[i] <= |steps|
  {
    seq(|at|, i requires 0 <= i < |at| => Disk(Atomic.At(steps, at[i]).files, {}))
  }

  /** Some file that the walk met was taken away before the walk looked at it. */
  ghost predicate Overtaken(steps: seq<Atomic.Step>, t: Tour)
    requires |t.at| == |t.walk| && forall i | 0 <= i < |t.walk| :: t.walk[i].Look?
  {
    exists i | 0 <= i < |t.walk| :: TakenAway(steps, t.met(t.walk[i].path), t.at[i], t.walk[i].path)
  }

  /** The file is there from the beginning of the walk to its end. */
  ghost predicate Stays(steps: seq<Atomic.Step>, t: Tour, f: Atomic.Path) {
    t.to <= |steps| && forall j | t.from <= j <= t.to :: f in Atomic.At(steps, j).files
  }

  lemma LookFails(steps: seq<Atomic.Step>, dir: Atomic.Path, t: Tour, i: nat)
    requires Honest(steps, dir, t) && i < |t.walk|
    ensures t.at[i] <= |steps|
    ensures t.walk[i].path !in Atomic.At(steps, t.at[i]).files <==>
              TakenAway(steps, t.met(t.walk[i].path), t.at[i], t.walk[i].path)
  {
    assert Visits(steps, dir, t, i);
    GoneIff(steps, t.met(t.walk[i].path), t.at[i], t.walk[i].path);
  }

  /** The files List would sort: everything the reads found, each as it was looked at - unless one of them
      had been taken away by then, and in that case nothing at all. */
  lemma OutcomeOfTour(steps: seq<Atomic.Step>, root: Atomic.Path, dir: Atomic.Path, t: Tour)
    requires Honest(steps, dir, t) && root <= dir
    ensures Below(t.walk, root) && forall i | 0 <= i < |t.at| :: t.at[i] <= |steps|
    ensures var r := Outcome(root, t.walk, Disks(steps, t.at));
            && r.Ok?
            && (Overtaken(steps, t) ==> r.value == [])
            && (!Overtaken(steps, t) ==>
                  && |r.value| == |t.walk|
                  && forall i | 0 <= i < |t.walk| ::
                       && t.walk[i].path in Atomic.At(steps, t.at[i]).files
                       && r.value[i].key == KeyOf(t.walk[i].path[|root|..])
                       && r.value[i].size == |Atomic.At(steps, t.at[i]).files[t.walk[i].path]|
                       && r.value[i].modified == t.walk[i].modified)
  {
    forall i | 0 <= i < |t.walk|
      ensures t.at[i] <= |steps| && root <= t.walk[i].path
      ensures t.walk[i].path !in Atomic.At(steps, t.at[i]).files <==>
                TakenAway(steps, t.met(t.walk[i].path), t.at[i], t.walk[i].path)
    {
      assert Visits(steps, dir, t, i);
      LookFails(steps, dir, t, i);
    }
    hide Atomic.At, TakenAway, Honest, KeyOf;
    var n := Reach(t.walk, Disks(steps, t.at));
    if n < |t.walk| {
      assert !Good(t.walk[n], Disks(steps, t.at)[n]);
    } else {
      assert forall i | 0 <= i < |t.walk| :: Good(t.walk[i], Disks(steps, t.at)[i]);
    }
  }

  /** Every file that is there throughout the walk is listed. */
  ghost predicate Complete(steps: seq<Atomic.Step>, root: Atomic.Path, dir: Atomic.Path, t: Tour, objects: seq<Object>)
    requires root <= dir
  {
    forall f | dir <= f && Stays(steps, t, f) :: exists o :: o in objects && o.key == KeyOf(f[|root|..])
  }

  lemma StayingIsVisited(steps: seq<Atomic.Step>, dir: Atomic.Path, t: Tour, f: Atomic.Path) returns (i: nat)
    requires Honest(steps, dir, t) && dir <= f && Stays(steps, t, f)
    ensures i < |t.walk| && t.walk[i].path == f
  {
    assert FoundAt(steps, t, f);
    i :| 0 <= i < |t.walk| && t.walk[i].path == f;
  }

  /** The listing is empty exactly when the reads found nothing or a file met was taken away before the look
      at it; and it is complete exactly when no such thing happened or there is nothing to miss. */
  lemma ListingIsCompleteIff(steps: seq<Atomic.Step>, root: Atomic.Path, dir: Atomic.Path, t: Tour)
    requires Honest(steps, dir, t) && root <= dir
    ensures Below(t.walk, root) && forall i | 0 <= i < |t.at| :: t.at[i] <= |steps|
    ensures var r := Outcome(root, t.walk, Disks(steps, t.at));
            && r.Ok?
            && (r.value == [] <==> t.walk == [] || Overtaken(steps, t))
            && (Complete(steps, root, dir, t, r.value) <==>
                  !Overtaken(steps, t) || !exists f :: dir <= f && Stays(steps, t, f))
  {
    OutcomeOfTour(steps, root, dir, t);
    hide Atomic.At, Outcome, Disks, Overtaken, KeyOf, Stays;
    var objects := Outcome(root, t.walk, Disks(steps, t.at)).value;
    if !Overtaken(steps, t) {
      forall f | dir <= f && Stays(steps, t, f)
        ensures exists o :: o in objects && o.key == KeyOf(f[|root|..])
      {
        var i := StayingIsVisited(steps, dir, t, f);
        assert objects[i] in objects && objects[i].key == KeyOf(f[|root|..]);
      }
    }
  }

  lemma NothingOvertakes(steps: seq<Atomic.Step>, dir: Atomic.Path, t: Tour, i: nat)
    requires Honest(steps, dir, t) && t.from == t.to && i < |t.walk|
    ensures t.at[i] == t.from && !TakenAway(steps, t.met(t.walk[i].path), t.at[i], t.walk[i].path)
    ensures dir <= t.walk[i].path && t.walk[i].path in Atomic.At(steps, t.from).files
  {
    assert Visits(steps, dir, t, i);
  }

  lemma QuietVisits(steps: seq<Atomic.Step>, dir: Atomic.Path, t: Tour, f: Atomic.Path)
    requires Honest(steps, dir, t) && t.from == t.to && dir <= f && f in Atomic.At(steps, t.from).files
    ensures exists i :: 0 <= i < |t.walk| && t.walk[i].path == f
  {
    assert FoundAt(steps, t, f);
  }

  lemma QuietObjects(steps: seq<Atomic.Step>, root: Atomic.Path, dir: Atomic.Path, t: Tour)
    requires Honest(steps, dir, t) && root <= dir && t.from == t.to
    ensures Below(t.walk, root) && forall i | 0 <= i < |t.at| :: t.at[i] <= |steps|
    ensures var r := Outcome(root, t.walk, Disks(steps, t.at));
            && r.Ok? && |r.value| == |t.walk|
            && forall i | 0 <= i < |t.walk| :: r.value[i].key == KeyOf(t.walk[i].path[|root|..])
  {
    OutcomeOfTour(steps, root, dir, t);
    forall i | 0 <= i < |t.walk|
      ensures !TakenAway(steps, t.met(t.walk[i].path), t.at[i], t.walk[i].path)
    {
      NothingOvertakes(steps, dir, t, i);
    }
    hide Atomic.At, Outcome, Disks, TakenAway, KeyOf, Honest;
  }

  lemma KeysOfRearranged(root: Atomic.Path, dir: Atomic.Path, files: set<Atomic.Path>, walk: seq<Visit>,
                         objects: seq<Object>, listed: seq<Object>)
    requires root <= dir && |objects| == |walk| && multiset(objects) == multiset(listed)
    requires forall i | 0 <= i < |walk| :: walk[i].Look? && dir <= walk[i].path && walk[i].path in files
    requires forall i | 0 <= i < |walk| :: objects[i].key == KeyOf(walk[i].path[|root|..])
    requires forall f | f in files && dir <= f :: exists i :: 0 <= i < |walk| && walk[i].path == f
    ensures (set o | o in listed :: o.key) == set f | f in files && dir <= f :: KeyOf(f[|root|..])
  {
    hide KeyOf;
    forall o | o in listed
      ensures exists f :: f in files && dir <= f && o.key == KeyOf(f[|root|..])
    {
      assert o in multiset(listed);
      var i :| 0 <= i < |objects| && objects[i] == o;
      var f := walk[i].path;
      assert f in files && dir <= f && o.key == KeyOf(f[|root|..]);
    }
    forall f | f in files && dir <= f
      ensures exists o :: o in listed && o.key == KeyOf(f[|root|..])
    {
      var i :| 0 <= i < |walk| && walk[i].path == f;
      assert objects[i] in multiset(objects);
      assert objects[i] in listed && objects[i].key == KeyOf(f[|root|..]);
    }
  }

  /** With nothing going on, List reports every committed key below the prefix and every temporary file left
      behind, and nothing else. */
  lemma QuietListing(keys: set<Atomic.Path>, steps: seq<Atomic.Step>, root: Atomic.Path, dir: Atomic.Path, t: Tour,
                     listed: seq<Object>)
    requires Atomic.Apart(keys) && Atomic.Uses(keys, steps)
    requires Honest(steps, dir, t) && root <= dir && t.from == t.to
    requires Below(t.walk, root) && forall i | 0 <= i < |t.at| :: t.at[i] <= |steps|
    requires var r := Outcome(root, t.walk, Disks(steps, t.at));
             r.Ok? && StableRearrangement(r.value, listed)
    ensures (set o | o in listed :: o.key)
         == set f | f in Atomic.FilesAfter(keys, steps, t.from) && dir <= f :: KeyOf(f[|root|..])
  {
    var files := Atomic.At(steps, t.from).files.Keys;
    Atomic.FilesAreThese(keys, steps, t.from);
    QuietObjects(steps, root, dir, t);
    forall f | f in files && dir <= f
      ensures exists i :: 0 <= i < |t.walk| && t.walk[i].path == f
    {
      QuietVisits(steps, dir, t, f);
    }
    forall i | 0 <= i < |t.walk|
      ensures dir <= t.walk[i].path && t.walk[i].path in files
    {
      NothingOvertakes(steps, dir, t, i);
    }
    var objects := Outcome(root, t.walk, Disks(steps, t.at)).value;
    RearrangementIsPermutation(objects, listed);
    hide Atomic.At, Atomic.FilesAfter, Outcome, Disks, KeyOf, StableRearrangement;
    KeysOfRearranged(root, dir, files, t.walk, objects, listed);
  }

  // ---- A listing that misses what is there ----

  /** A Put of q commits while the walk goes on: its temporary file is met, and gone when it is looked at. */
  function Commit(p: Atomic.Path, q: Atomic.Path): seq<Atomic.Step> {
    [Atomic.Begin(p, []), Atomic.Create(p), Atomic.Rename(p),
     Atomic.Begin(q, []), Atomic.Create(q), Atomic.Rename(q)]
  }

  lemma AtNext(steps: seq<Atomic.Step>, n: nat, step: Atomic.Step)
    requires n < |steps| && steps[n] == step
    ensures Atomic.At(steps, n + 1) == Atomic.Apply(Atomic.At(steps, n), step)
    ensures Atomic.At(steps, 0) == Atomic.START
  {
  }

  /** A Put of no bytes, from its beginning to its commit. */
  lemma PutNothing(s: Atomic.Sys, p: Atomic.Path)
    requires s.writers == map[]
    ensures var begun := Atomic.Apply(s, Atomic.Begin(p, []));
            var created := Atomic.Apply(begun, Atomic.Create(p));
            && created.files == s.files[Atomic.Tmp(p) := []]
            && Atomic.Apply(created, Atomic.Rename(p)).files == created.files[p := []] - {Atomic.Tmp(p)}
            && Atomic.Apply(created, Atomic.Rename(p)).writers == map[]
  {
    hide Atomic.Tmp;
    var created := Atomic.Apply(Atomic.Apply(s, Atomic.Begin(p, [])), Atomic.Create(p));
    assert created.writers == map[p := Atomic.Writer([], Atomic.Writing(0))];
    assert created.writers - {p} == map[];
  }

  lemma CommitStores(p: Atomic.Path, q: Atomic.Path)
    requires p != q && p != Atomic.Tmp(q) && q != Atomic.Tmp(p)
    ensures Atomic.At(Commit(p, q), 5).files == map[p := [], Atomic.Tmp(q) := []]
    ensures Atomic.At(Commit(p, q), 6).files == map[p := [], q := []]
  {
    var steps := Commit(p, q);
    hide Atomic.At, Atomic.Apply, Atomic.Tmp;
    AtNext(steps, 0, Atomic.Begin(p, []));
    AtNext(steps, 1, Atomic.Create(p));
    AtNext(steps, 2, Atomic.Rename(p));
    PutNothing(Atomic.START, p);
    assert Atomic.At(steps, 3).files == map[p := []];
    AtNext(steps, 3, Atomic.Begin(q, []));
    AtNext(steps, 4, Atomic.Create(q));
    AtNext(steps, 5, Atomic.Rename(q));
    PutNothing(Atomic.At(steps, 3), q);
  }

  /** The walk of that moment. */
  function Late(p: Atomic.Path, q: Atomic.Path): Tour {
    Tour(5, 6, [Look(p, 0), Look(Atomic.Tmp(q), 0)], [5, 6], f => 5)
  }

  lemma LateFinds(p: Atomic.Path, q: Atomic.Path, f: Atomic.Path)
    requires p != q && p != Atomic.Tmp(q) && q != Atomic.Tmp(p)
    ensures FoundAt(Commit(p, q), Late(p, q), f) <==> f == p || f == Atomic.Tmp(q)
  {
    CommitStores(p, q);
    hide Atomic.At, Atomic.Tmp;
  }

  lemma LateStays(p: Atomic.Path, q: Atomic.Path)
    requires p != q && p != Atomic.Tmp(q) && q != Atomic.Tmp(p)
    ensures Stays(Commit(p, q), Late(p, q), p)
  {
    CommitStores(p, q);
    hide Atomic.At, Atomic.Tmp;
  }

  lemma LateIsHonest(root: Atomic.Path, p: Atomic.Path, q: Atomic.Path)
    requires root <= p && root <= q && root <= Atomic.Tmp(q)
    requires p != q && p != Atomic.Tmp(q) && q != Atomic.Tmp(p)
    ensures Honest(Commit(p, q), root, Late(p, q))
  {
    var steps, t := Commit(p, q), Late(p, q);
    hide FoundAt, Atomic.Tmp;
    assert t.walk[0].path == p && t.walk[1].path == Atomic.Tmp(q);
    forall f
      ensures FoundAt(steps, t, f) <==> f == p || f == Atomic.Tmp(q)
    {
      LateFinds(p, q, f);
    }
    assert Visits(steps, root, t, 0) && Visits(steps, root, t, 1);
    hide Visits, Commit;
  }

  /** p is there all the time, and the listing is empty. */
  lemma ListingIsEmptied(root: Atomic.Path, p: Atomic.Path, q: Atomic.Path)
    requires root <= p && root <= q && root <= Atomic.Tmp(q)
    requires p != q && p != Atomic.Tmp(q) && q != Atomic.Tmp(p)
    ensures var steps, t := Commit(p, q), Late(p, q);
            && Honest(steps, root, t) && Stays(steps, t, p)
            && Outcome(root, t.walk, Disks(steps, t.at)) == Ok([])
  {
    var steps, t := Commit(p, q), Late(p, q);
    LateIsHonest(root, p, q);
    LateStays(p, q);
    CommitStores(p, q);
    LookFails(steps, root, t, 1);
    OutcomeOfTour(steps, root, root, t);
    hide Atomic.At, Atomic.Tmp, Honest, Outcome, TakenAway, Disks;
  }
}
