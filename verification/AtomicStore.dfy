/** Write-then-rename under crashes (internal/storage/storage.go).

  Each file operation of Put is a step of its own, writes can stop at any byte, and the process can die
  between any two steps.  Puts and deletes of different keys interleave; one key has one writer. */
module AtomicStore {
  import opened Wrappers

  newtype byte = x: int | 0 <= x < 256

  type Bytes = seq<byte>

  /** A file's path, component by component. */
  type Path = p: seq<string> | p != [] witness ["f"]

  const SUFFIX := ".tmp"

  function Tmp(p: Path): (t: Path)
    ensures |t| == |p| && t != p
  {
    assert |p[|p| - 1] + SUFFIX| != |p[|p| - 1]|;
    p[..|p| - 1] + [p[|p| - 1] + SUFFIX]
  }

  lemma TmpInjective(p: Path, q: Path)
    requires Tmp(p) == Tmp(q)
    ensures p == q
  {
    var n := |p| - 1;
    assert Tmp(p)[n] == p[n] + SUFFIX && Tmp(q)[n] == q[n] + SUFFIX;
    assert (p[n] + SUFFIX)[..|p[n]|] == p[n] && (q[n] + SUFFIX)[..|q[n]|] == q[n];
    assert Tmp(p)[..n] == p[..n] && Tmp(q)[..n] == q[..n];
    assert p == p[..n] + [p[n]] && q == q[..n] + [q[n]];
  }

  datatype Phase = Started | Writing(written: nat)

  datatype Writer = Writer(data: Bytes, phase: Phase)

  datatype Sys = Sys(files: map<Path, Bytes>, writers: map<Path, Writer>)
  {
    /** What Get reads. */
    function Get(p: Path): Option<Bytes> {
      if p in files then Some(files[p]) else None
    }
  }

  datatype Step =
    | Begin(p: Path, data: Bytes)
    | Create(p: Path)             // open the temporary file, truncating what is there
    | Write(p: Path, count: nat)  // any number of bytes at a time
    | Rename(p: Path)
    | Fail(p: Path)               // any operation of the Put returns an error
    | Delete(p: Path)
    | Crash                       // the process dies: writers vanish, files stay

  const START: Sys := Sys(map[], map[])

  /** The Put has written everything and its rename succeeds. */
  predicate Commits(s: Sys, p: Path) {
    && p in s.writers && s.writers[p].phase == Writing(|s.writers[p].data|)
    && Tmp(p) in s.files
  }

  function Apply(s: Sys, step: Step): Sys {
    match step
    case Begin(p, data) => if p in s.writers then s else s.(writers := s.writers[p := Writer(data, Started)])
    case Create(p) =>
      if p in s.writers && s.writers[p].phase.Started? then
        Sys(s.files[Tmp(p) := []], s.writers[p := s.writers[p].(phase := Writing(0))])
      else s
    case Write(p, count) =>
      if p in s.writers && s.writers[p].phase.Writing? && Tmp(p) in s.files
         && s.writers[p].phase.written + count <= |s.writers[p].data| then
        var w := s.writers[p];
        var n := w.phase.written;
        Sys(s.files[Tmp(p) := s.files[Tmp(p)] + w.data[n..n + count]],
            s.writers[p := w.(phase := Writing(n + count))])
      else s
    case Rename(p) =>
      if Commits(s, p) then Sys(s.files[p := s.files[Tmp(p)]] - {Tmp(p)}, s.writers - {p}) else s
    case Fail(p) => s.(writers := s.writers - {p})
    case Delete(p) => s.(files := s.files - {p})
    case Crash => s.(writers := map[])
  }

  function At(steps: seq<Step>, n: nat): Sys
    requires n <= |steps|
  {
    if n == 0 then START else Apply(At(steps, n - 1), steps[n - 1])
  }

  /** The value last committed to p among the first n steps: the data of its last successful Put, unless a
      Delete came after it. */
  function Last(steps: seq<Step>, n: nat, p: Path): Option<Bytes>
    requires n <= |steps|
  {
    if n == 0 then None
    else
      var s, step := At(steps, n - 1), steps[n - 1];
      if step == Rename(p) && Commits(s, p) then Some(s.writers[p].data)
      else if step == Delete(p) then None
      else Last(steps, n - 1, p)
  }

  predicate Uses(keys: set<Path>, steps: seq<Step>) {
    forall i | 0 <= i < |steps| :: steps[i].Crash? || steps[i].p in keys
  }

  /** No stored name is another one's temporary name. */
  predicate Apart(keys: set<Path>) {
    forall p, q | p in keys && q in keys :: p != Tmp(q)
  }

  /** In every run over these keys, at every step, Get answers with the last committed value in full, or
      with not-found when there is none. */
  ghost predicate Refines(keys: set<Path>) {
    forall steps: seq<Step>, n: nat, p: Path | Uses(keys, steps) && n <= |steps| && p in keys ::
      At(steps, n).Get(p) == Last(steps, n, p)
  }

  // ---- Names apart: the store is a map ----

  /** Writer p is one of the keys', and its temporary file holds what it has written so far. */
  ghost predicate WriterFits(keys: set<Path>, s: Sys, p: Path)
    requires p in s.writers
  {
    && p in keys
    && (s.writers[p].phase.Writing? ==>
          && s.writers[p].phase.written <= |s.writers[p].data|
          && Tmp(p) in s.files && s.files[Tmp(p)] == s.writers[p].data[..s.writers[p].phase.written])
  }

  ghost predicate Inv(keys: set<Path>, s: Sys) {
    forall p | p in s.writers :: WriterFits(keys, s, p)
  }

  lemma OwnStepFits(keys: set<Path>, s: Sys, step: Step, p: Path)
    requires p in s.writers ==> WriterFits(keys, s, p)
    requires !step.Crash? && step.p == p && p in keys && Apart(keys) && p in Apply(s, step).writers
    ensures WriterFits(keys, Apply(s, step), p)
  {
    hide Tmp;
    if step.Write? && p in s.writers && s.writers[p].phase.Writing? {
      var d, n := s.writers[p].data, s.writers[p].phase.written;
      if n + step.count <= |d| {
        assert d[..n] + d[n..n + step.count] == d[..n + step.count];
      }
    }
  }

  lemma OtherStepFits(keys: set<Path>, s: Sys, step: Step, p: Path)
    requires p in s.writers && WriterFits(keys, s, p)
    requires (step.Crash? || (step.p in keys && step.p != p)) && Apart(keys) && p in Apply(s, step).writers
    ensures WriterFits(keys, Apply(s, step), p)
  {
    if !step.Crash? && Tmp(p) == Tmp(step.p) {
      TmpInjective(p, step.p);
    }
    hide Tmp;
  }

  lemma InvStep(keys: set<Path>, s: Sys, step: Step)
    requires Apart(keys) && Inv(keys, s) && (step.Crash? || step.p in keys)
    ensures Inv(keys, Apply(s, step))
  {
    forall p | p in Apply(s, step).writers
      ensures WriterFits(keys, Apply(s, step), p)
    {
      if !step.Crash? && step.p == p {
        OwnStepFits(keys, s, step, p);
      } else {
        OtherStepFits(keys, s, step, p);
      }
    }
    hide Apply;
  }

  lemma {:induction false} InvAlways(keys: set<Path>, steps: seq<Step>, n: nat)
    requires Apart(keys) && Uses(keys, steps) && n <= |steps|
    ensures Inv(keys, At(steps, n))
  {
    hide Apply, Inv;
    if n > 0 {
      InvAlways(keys, steps, n - 1);
      InvStep(keys, At(steps, n - 1), steps[n - 1]);
    } else {
      assert Inv(keys, START) by {
        NoWriters(keys);
      }
    }
  }

  lemma NoWriters(keys: set<Path>)
    ensures Inv(keys, START)
  {
  }

  lemma GetStep(keys: set<Path>, s: Sys, step: Step, p: Path)
    requires Apart(keys) && Inv(keys, s) && (step.Crash? || step.p in keys) && p in keys
    ensures Apply(s, step).Get(p) ==
      if step == Rename(p) && Commits(s, p) then Some(s.writers[p].data)
      else if step == Delete(p) then None
      else s.Get(p)
  {
    if step == Rename(p) && Commits(s, p) {
      var d := s.writers[p].data;
      assert d[..|d|] == d;
    }
  }

  lemma {:induction false} GetIsLast(keys: set<Path>, steps: seq<Step>, n: nat, p: Path)
    requires Apart(keys) && Uses(keys, steps) && n <= |steps| && p in keys
    ensures At(steps, n).Get(p) == Last(steps, n, p)
  {
    hide Apply, Inv;
    if n > 0 {
      GetIsLast(keys, steps, n - 1, p);
      InvAlways(keys, steps, n - 1);
      GetStep(keys, At(steps, n - 1), steps[n - 1], p);
    }
  }

  // ---- Names not apart: one run that reads a half-written value ----

  /** Store a byte under the temporary name of q, then begin a Put to q. */
  function Clash(q: Path): seq<Step> {
    [Begin(Tmp(q), [1]), Create(Tmp(q)), Write(Tmp(q), 1), Rename(Tmp(q)), Begin(q, [2]), Create(q)]
  }

  lemma ClashStores(q: Path)
    ensures At(Clash(q), 4) == Sys(map[Tmp(q) := [1]], map[])
    ensures Last(Clash(q), 4, Tmp(q)) == Some([1])
  {
    var p, steps := Tmp(q), Clash(q);
    assert At(steps, 1) == Sys(map[], map[p := Writer([1], Started)]);
    assert At(steps, 2) == Sys(map[Tmp(p) := []], map[p := Writer([1], Writing(0))]);
    assert At(steps, 3) == Sys(map[Tmp(p) := [1]], map[p := Writer([1], Writing(1))]) by {
      assert [] + [1 as byte][0..1] == [1];
    }
    assert Commits(At(steps, 3), p);
    assert At(steps, 4).files == map[p := [1]];
    assert At(steps, 4).writers == map[];
  }

  lemma ClashLoses(q: Path)
    ensures At(Clash(q), 6).Get(Tmp(q)) == Some([]) && Last(Clash(q), 6, Tmp(q)) == Some([1])
  {
    var steps := Clash(q);
    ClashStores(q);
    assert At(steps, 5) == Sys(map[Tmp(q) := [1]], map[q := Writer([2], Started)]);
    assert At(steps, 6).files == map[Tmp(q) := []];
    assert Last(steps, 5, Tmp(q)) == Last(steps, 4, Tmp(q));
  }

  /** The store refines a map of committed values, through every interleaving and crash, exactly when no
      stored name is another's plus ".tmp". */
  lemma RefinesIff(keys: set<Path>)
    ensures Refines(keys) <==> Apart(keys)
  {
    if Apart(keys) {
      forall steps: seq<Step>, n: nat, p: Path | Uses(keys, steps) && n <= |steps| && p in keys
        ensures At(steps, n).Get(p) == Last(steps, n, p)
      {
        GetIsLast(keys, steps, n, p);
      }
    } else {
      var p, q :| p in keys && q in keys && p == Tmp(q);
      ClashLoses(q);
      assert Uses(keys, Clash(q));
    }
  }

  /** What leaves the Put of p alone: steps of other keys, Deletes, and attempts to begin another Put. */
  predicate LeavesAlone(step: Step, p: Path) {
    !step.Crash? && (step.p != p || step.Delete? || step.Begin?)
  }

  lemma LeftAlone(s: Sys, step: Step, p: Path)
    requires p in s.writers && LeavesAlone(step, p)
    ensures p in Apply(s, step).writers && Apply(s, step).writers[p] == s.writers[p]
  {
    hide Tmp;
  }

  lemma {:induction false} WriterStays(steps: seq<Step>, n: nat, m: nat, p: Path)
    requires n <= m <= |steps| && p in At(steps, n).writers
    requires forall i | n <= i < m :: LeavesAlone(steps[i], p)
    ensures p in At(steps, m).writers && At(steps, m).writers[p] == At(steps, n).writers[p]
  {
    hide Apply;
    if n < m {
      WriterStays(steps, n, m - 1, p);
      LeftAlone(At(steps, m - 1), steps[m - 1], p);
    }
  }

  /** A Put goes on undisturbed by such steps: its writer stays where it is, and if it has written everything
      its rename still commits the data it began with. */
  lemma PutGoesOn(keys: set<Path>, steps: seq<Step>, n: nat, m: nat, p: Path)
    requires Apart(keys) && Uses(keys, steps) && n <= m <= |steps| && p in keys && p in At(steps, n).writers
    requires forall i | n <= i < m :: LeavesAlone(steps[i], p)
    ensures p in At(steps, m).writers && At(steps, m).writers[p] == At(steps, n).writers[p]
    ensures var w := At(steps, n).writers[p];
            w.phase == Writing(|w.data|) ==> Apply(At(steps, m), Rename(p)).Get(p) == Some(w.data)
  {
    WriterStays(steps, n, m, p);
    InvAlways(keys, steps, m);
    assert WriterFits(keys, At(steps, m), p);
    GetStep(keys, At(steps, m), Rename(p), p);
    hide At, Apply, Tmp, Inv;
  }

  /** In plain words: no key is another one of the same directory with ".tmp" after its name. */
  lemma ApartIff(keys: set<Path>)
    ensures Apart(keys) <==>
              forall p, q | p in keys && q in keys && |p| == |q| && p[..|p| - 1] == q[..|q| - 1] ::
                p[|p| - 1] != q[|q| - 1] + ".tmp"
  {
    forall p, q | p in keys && q in keys
      ensures p == Tmp(q) <==>
                |p| == |q| && p[..|p| - 1] == q[..|q| - 1] && p[|p| - 1] == q[|q| - 1] + ".tmp"
    {
      assert p == p[..|p| - 1] + [p[|p| - 1]];
      assert Tmp(q)[..|q| - 1] == q[..|q| - 1] && Tmp(q)[|q| - 1] == q[|q| - 1] + ".tmp";
    }
    hide Tmp;
  }

  // ---- Temporary files that stay behind ----

  /** Step i opens the temporary file of p. */
  ghost predicate CreatesAt(steps: seq<Step>, i: nat, p: Path) {
    && i < |steps| && steps[i] == Create(p)
    && p in At(steps, i).writers && At(steps, i).writers[p].phase.Started?
  }

  /** Step i renames it away. */
  ghost predicate CommitsAt(steps: seq<Step>, i: nat, p: Path) {
    i < |steps| && steps[i] == Rename(p) && Commits(At(steps, i), p)
  }

  /** Some Put of p opened its temporary file, and none has committed since. */
  ghost predicate LeftBehind(steps: seq<Step>, n: nat, p: Path) {
    exists i | 0 <= i < n :: CreatesAt(steps, i, p) && NoCommit(steps, i + 1, n, p)
  }

  ghost predicate NoCommit(steps: seq<Step>, from: nat, to: nat, p: Path) {
    forall j | from <= j < to :: !CommitsAt(steps, j, p)
  }

  lemma LeftBehindNext(steps: seq<Step>, n: nat, p: Path)
    requires n < |steps|
    ensures LeftBehind(steps, n + 1, p) <==>
              CreatesAt(steps, n, p) || (LeftBehind(steps, n, p) && !CommitsAt(steps, n, p))
  {
    hide CreatesAt, CommitsAt;
    if CreatesAt(steps, n, p) {
      assert NoCommit(steps, n + 1, n + 1, p);
    } else if LeftBehind(steps, n, p) && !CommitsAt(steps, n, p) {
      var i :| 0 <= i < n && CreatesAt(steps, i, p) && NoCommit(steps, i + 1, n, p);
      assert NoCommit(steps, i + 1, n + 1, p);
    }
    if LeftBehind(steps, n + 1, p) && !CreatesAt(steps, n, p) {
      var i :| 0 <= i < n + 1 && CreatesAt(steps, i, p) && NoCommit(steps, i + 1, n + 1, p);
      assert NoCommit(steps, i + 1, n, p) && !CommitsAt(steps, n, p);
    }
  }

  lemma TemporaryStep(keys: set<Path>, s: Sys, step: Step, p: Path)
    requires Apart(keys) && (step.Crash? || step.p in keys) && p in keys
    ensures Tmp(p) in Apply(s, step).files <==>
              (step == Create(p) && p in s.writers && s.writers[p].phase.Started?)
              || (Tmp(p) in s.files && !(step == Rename(p) && Commits(s, p)))
  {
    if !step.Crash? && p != step.p && Tmp(p) == Tmp(step.p) {
      TmpInjective(p, step.p);
    }
  }

  /** A temporary file is there exactly when some Put opened it and none has committed since - after a
      crash, after an error, or because the Put is still under way. */
  lemma {:induction false} TemporaryIff(keys: set<Path>, steps: seq<Step>, n: nat, p: Path)
    requires Apart(keys) && Uses(keys, steps) && n <= |steps| && p in keys
    ensures Tmp(p) in At(steps, n).files <==> LeftBehind(steps, n, p)
  {
    hide Apply, Apart;
    if n > 0 {
      TemporaryIff(keys, steps, n - 1, p);
      TemporaryStep(keys, At(steps, n - 1), steps[n - 1], p);
      LeftBehindNext(steps, n - 1, p);
    }
  }

  /** There are no other files than the keys' and their temporary ones. */
  lemma {:induction false} OnlyOwnFiles(keys: set<Path>, steps: seq<Step>, n: nat, f: Path)
    requires Uses(keys, steps) && n <= |steps| && f in At(steps, n).files
    ensures f in keys || exists p :: p in keys && f == Tmp(p)
  {
    if n > 0 && f in At(steps, n - 1).files {
      OnlyOwnFiles(keys, steps, n - 1, f);
    }
  }

  /** The files a run leaves: the committed ones and the temporary ones left behind. */
  ghost function FilesAfter(keys: set<Path>, steps: seq<Step>, n: nat): set<Path>
    requires n <= |steps|
  {
    (set p | p in keys && Last(steps, n, p).Some?) + (set p | p in keys && LeftBehind(steps, n, p) :: Tmp(p))
  }

  lemma FilesAreThese(keys: set<Path>, steps: seq<Step>, n: nat)
    requires Apart(keys) && Uses(keys, steps) && n <= |steps|
    ensures At(steps, n).files.Keys == FilesAfter(keys, steps, n)
    ensures forall p | p in keys && p in At(steps, n).files :: Last(steps, n, p) == Some(At(steps, n).files[p])
  {
    var files := At(steps, n).files;
    forall p | p in keys
      ensures p in files <==> Last(steps, n, p).Some?
      ensures p in files ==> Last(steps, n, p) == Some(files[p])
      ensures Tmp(p) in files <==> LeftBehind(steps, n, p)
    {
      GetIsLast(keys, steps, n, p);
      TemporaryIff(keys, steps, n, p);
    }
    forall f | f in files
      ensures f in FilesAfter(keys, steps, n)
    {
      OnlyOwnFiles(keys, steps, n, f);
    }
  }

  /** The shortest such run: a crash before a byte is written. */
  lemma CrashLeavesTemporary(p: Path, data: Bytes)
    ensures var steps := [Begin(p, data), Create(p), Crash];
            At(steps, 3) == Sys(map[Tmp(p) := []], map[]) && Last(steps, 3, Tmp(p)) == None
  {
    var steps := [Begin(p, data), Create(p), Crash];
    assert At(steps, 1) == Sys(map[], map[p := Writer(data, Started)]);
    assert At(steps, 2) == Sys(map[Tmp(p) := []], map[p := Writer(data, Writing(0))]);
    assert Last(steps, 1, Tmp(p)) == None;
    assert Last(steps, 2, Tmp(p)) == None;
  }
}
