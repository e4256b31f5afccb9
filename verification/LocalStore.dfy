/** The store's methods on keys (internal/storage/storage.go), over a map of files. */
module LocalStore {
  import opened Text
  import opened StoragePath
  import Atomic = AtomicStore
  import opened NewestFirst
  import opened Wrappers

  datatype Error = BadKey | NotFound | Io

  type Files = map<Atomic.Path, Atomic.Bytes>

  /** What is stored at some moment. */
  datatype Disk = Disk(files: Files, dirs: set<Atomic.Path>)

  /** One call of the walk's callback below the directory it began at. */
  datatype Visit =
    | Look(path: Atomic.Path, modified: int) // a file that the read of its directory gave: what is it now?
    | DirGone                                // a directory that is not there any more when it is to be read
    | Failed                                 // any other error, or the context cancelled

  function ApplyAll(s: Atomic.Sys, steps: seq<Atomic.Step>): Atomic.Sys
    decreases |steps|
  {
    if steps == [] then s else Atomic.Apply(ApplyAll(s, steps[..|steps| - 1]), steps[|steps| - 1])
  }

  lemma ApplyNext(s: Atomic.Sys, steps: seq<Atomic.Step>, step: Atomic.Step)
    ensures ApplyAll(s, steps + [step]) == Atomic.Apply(ApplyAll(s, steps), step)
  {
    assert (steps + [step])[..|steps|] == steps;
  }

  /** The run so far has one writer, of p, in the given phase. */
  ghost predicate Reached(s: Atomic.Sys, steps: seq<Atomic.Step>, files: Files,
                          p: Atomic.Path, data: Atomic.Bytes, phase: Atomic.Phase) {
    && ApplyAll(s, steps) == Atomic.Sys(files, map[p := Atomic.Writer(data, phase)])
    && forall i | 0 <= i < |steps| :: !steps[i].Crash? && steps[i].p == p
  }

  lemma ReachedNext(s: Atomic.Sys, steps: seq<Atomic.Step>, files: Files,
                    p: Atomic.Path, data: Atomic.Bytes, phase: Atomic.Phase, step: Atomic.Step)
    requires Reached(s, steps, files, p, data, phase) && !step.Crash? && step.p == p
    ensures ApplyAll(s, steps + [step]) == Atomic.Apply(Atomic.Sys(files, map[p := Atomic.Writer(data, phase)]), step)
    ensures forall i | 0 <= i < |steps + [step]| :: !(steps + [step])[i].Crash? && (steps + [step])[i].p == p
  {
    ApplyNext(s, steps, step);
    hide ApplyAll, Atomic.Apply;
  }

  /** The run is over: no writer is left. */
  ghost predicate Ended(s: Atomic.Sys, steps: seq<Atomic.Step>, files: Files, p: Atomic.Path) {
    && ApplyAll(s, steps) == Atomic.Sys(files, map[])
    && forall i | 0 <= i < |steps| :: !steps[i].Crash? && steps[i].p == p
  }

  lemma Begins(s: Atomic.Sys, p: Atomic.Path, data: Atomic.Bytes)
    requires s.writers == map[]
    ensures Reached(s, [Atomic.Begin(p, data)], s.files, p, data, Atomic.Started)
  {
    ApplyNext(s, [], Atomic.Begin(p, data));
    assert [] + [Atomic.Begin(p, data)] == [Atomic.Begin(p, data)];
  }

  lemma Fails(s: Atomic.Sys, steps: seq<Atomic.Step>, files: Files,
              p: Atomic.Path, data: Atomic.Bytes, phase: Atomic.Phase)
    requires Reached(s, steps, files, p, data, phase)
    ensures Ended(s, steps + [Atomic.Fail(p)], files, p)
  {
    ReachedNext(s, steps, files, p, data, phase, Atomic.Fail(p));
    hide ApplyAll, Reached;
  }

  lemma CreateOpens(files: Files, p: Atomic.Path, data: Atomic.Bytes)
    ensures Atomic.Apply(Atomic.Sys(files, map[p := Atomic.Writer(data, Atomic.Started)]), Atomic.Create(p))
         == Atomic.Sys(files[Atomic.Tmp(p) := []], map[p := Atomic.Writer(data, Atomic.Writing(0))])
  {
    hide Atomic.Tmp;
  }

  lemma Creates(s: Atomic.Sys, steps: seq<Atomic.Step>, files: Files, p: Atomic.Path, data: Atomic.Bytes)
    requires Reached(s, steps, files, p, data, Atomic.Started)
    ensures Reached(s, steps + [Atomic.Create(p)], files[Atomic.Tmp(p) := []], p, data, Atomic.Writing(0))
  {
    ReachedNext(s, steps, files, p, data, Atomic.Started, Atomic.Create(p));
    CreateOpens(files, p, data);
    hide ApplyAll, Atomic.Tmp, Atomic.Apply;
  }

  lemma WriteAppends(files: Files, p: Atomic.Path, data: Atomic.Bytes, n: nat, count: nat)
    requires Atomic.Tmp(p) in files && n + count <= |data|
    ensures Atomic.Apply(Atomic.Sys(files, map[p := Atomic.Writer(data, Atomic.Writing(n))]), Atomic.Write(p, count))
         == Atomic.Sys(files[Atomic.Tmp(p) := files[Atomic.Tmp(p)] + data[n..n + count]],
                       map[p := Atomic.Writer(data, Atomic.Writing(n + count))])
  {
    hide Atomic.Tmp;
  }

  lemma Writes(s: Atomic.Sys, steps: seq<Atomic.Step>, files: Files,
               p: Atomic.Path, data: Atomic.Bytes, n: nat, count: nat)
    requires Reached(s, steps, files, p, data, Atomic.Writing(n))
    requires Atomic.Tmp(p) in files && n + count <= |data|
    ensures Reached(s, steps + [Atomic.Write(p, count)],
                    files[Atomic.Tmp(p) := files[Atomic.Tmp(p)] + data[n..n + count]],
                    p, data, Atomic.Writing(n + count))
  {
    ReachedNext(s, steps, files, p, data, Atomic.Writing(n), Atomic.Write(p, count));
    WriteAppends(files, p, data, n, count);
    hide ApplyAll, Atomic.Tmp, Atomic.Apply;
  }

  lemma RenameCommits(files: Files, p: Atomic.Path, data: Atomic.Bytes)
    requires Atomic.Tmp(p) in files
    ensures Atomic.Apply(Atomic.Sys(files, map[p := Atomic.Writer(data, Atomic.Writing(|data|))]), Atomic.Rename(p))
         == Atomic.Sys(files[p := files[Atomic.Tmp(p)]] - {Atomic.Tmp(p)}, map[])
  {
    hide Atomic.Tmp;
    assert map[p := Atomic.Writer(data, Atomic.Writing(|data|))] - {p} == map[];
  }

  lemma Renames(s: Atomic.Sys, steps: seq<Atomic.Step>, files: Files, p: Atomic.Path, data: Atomic.Bytes)
    requires Reached(s, steps, files, p, data, Atomic.Writing(|data|)) && Atomic.Tmp(p) in files
    ensures Ended(s, steps + [Atomic.Rename(p)], files[p := files[Atomic.Tmp(p)]] - {Atomic.Tmp(p)}, p)
  {
    ReachedNext(s, steps, files, p, data, Atomic.Writing(|data|), Atomic.Rename(p));
    RenameCommits(files, p, data);
    hide ApplyAll, Reached, Atomic.Tmp, Atomic.Apply;
  }

  /** The visit looks at a file that is still there. */
  predicate Good(v: Visit, disk: Disk) {
    v.Look? && v.path in disk.files
  }

  /** How many visits go well before one does not. */
  function Reach(walk: seq<Visit>, disks: seq<Disk>): (n: nat)
    requires |disks| == |walk|
    ensures n <= |walk| && forall i | 0 <= i < n :: Good(walk[i], disks[i])
    ensures n < |walk| ==> !Good(walk[n], disks[n])
  {
    if walk == [] || !Good(walk[0], disks[0]) then 0 else 1 + Reach(walk[1..], disks[1..])
  }

  predicate Below(walk: seq<Visit>, dir: Atomic.Path) {
    forall i | 0 <= i < |walk| && walk[i].Look? :: dir <= walk[i].path
  }

  /** The objects of the first n visits, each as it was found. */
  function Found(root: Atomic.Path, walk: seq<Visit>, disks: seq<Disk>, n: nat): seq<Object>
    requires |disks| == |walk| && n <= Reach(walk, disks) && Below(walk, root)
  {
    seq(n, i requires 0 <= i < n =>
      Object(KeyOf(walk[i].path[|root|..]), |disks[i].files[walk[i].path]|, walk[i].modified))
  }

  /** What the walk gives, before sorting: a directory gone ends it, a file gone empties it. */
  function Outcome(root: Atomic.Path, walk: seq<Visit>, disks: seq<Disk>): Result<seq<Object>, Error>
    requires |disks| == |walk| && Below(walk, root)
  {
    var n := Reach(walk, disks);
    if n == |walk| || walk[n].DirGone? then Ok(Found(root, walk, disks, n))
    else if walk[n].Look? then Ok([])
    else Err(Io)
  }

  /** The directories that lead from the root to p. */
  function Parents(root: Atomic.Path, p: Atomic.Path): set<Atomic.Path> {
    set i | |root| <= i < |p| :: p[..i]
  }

  /** Nothing is both a file and a directory, and every file lies in directories. */
  ghost predicate Tree(root: Atomic.Path, files: Files, dirs: set<Atomic.Path>) {
    forall p | p in files :: p !in dirs && Parents(root, p) <= dirs
  }

  lemma TemporaryHasParents(root: Atomic.Path, p: Atomic.Path)
    ensures Parents(root, Atomic.Tmp(p)) == Parents(root, p)
  {
    assert forall i | |root| <= i < |p| :: Atomic.Tmp(p)[..i] == p[..i];
  }

  lemma StoringKeepsTree(root: Atomic.Path, files: Files, dirs: set<Atomic.Path>, p: Atomic.Path, data: Atomic.Bytes)
    requires Tree(root, files, dirs) && Parents(root, p) <= dirs && p !in dirs
    ensures Tree(root, files[p := data], dirs)
  {
  }

  lemma RemovingKeepsTree(root: Atomic.Path, files: Files, dirs: set<Atomic.Path>, gone: set<Atomic.Path>)
    requires Tree(root, files, dirs)
    ensures Tree(root, files - gone, dirs)
  {
  }

  class Store {
    const root: Atomic.Path
    var files: Files
    var dirs: set<Atomic.Path> // the directories at or below the root

    constructor (root: Atomic.Path)
      ensures this.root == root && files == map[] && dirs == {} && Tree(root, files, dirs)
    {
      this.root, files, dirs := root, map[], {};
    }

    /** Some directory on the way to p is a file. */
    predicate Blocked(p: Atomic.Path)
      reads this
    {
      exists d | d in files :: d < p
    }

    /** Something lies in the directory. */
    predicate Occupied(d: Atomic.Path)
      reads this
    {
      (exists p | p in files :: d < p) || (exists p | p in dirs :: d < p)
    }

    /** A directory in which nothing lies. */
    predicate Removable(d: Atomic.Path)
      reads this
    {
      d in dirs && d !in files && !Occupied(d)
    }

    /** Where a key's file is, unless the key is refused. */
    function FileOf(key: string): (p: Option<Atomic.Path>)
      ensures p.Some? ==> root <= p.value
    {
      if PathOf(key).Some? then Some(root + PathOf(key).value) else None
    }

    /** What reading a key answers; `fails` says whether the read itself goes wrong. */
    function Read(key: string, fails: bool): Result<Atomic.Bytes, Error>
      reads this
    {
      if FileOf(key) == None then Err(BadKey)
      else
        var p := FileOf(key).value;
        if fails then Err(Io)
        else if p in files then Ok(files[p])
        else if p in dirs || Blocked(p) then Err(Io)
        else Err(NotFound)
    }

    lemma StoredReadsBack(key: string)
      requires FileOf(key).Some? && FileOf(key).value in files
      ensures Read(key, false) == Ok(files[FileOf(key).value])
    {
    }

    /** When each answer is given: a refused key; a file there; nothing there, and directories only on the way
        to it, as far as they go; and an error for everything else - a directory, or a file on the way. */
    lemma ReadAnswers(key: string, fails: bool)
      ensures Read(key, fails) == Err(BadKey) <==> PathOf(key) == None
      ensures PathOf(key).Some? ==>
                var p := root + PathOf(key).value;
                && (Read(key, fails).Ok? <==> !fails && p in files)
                && (Read(key, fails).Ok? ==> Read(key, fails).value == files[p])
                && (Read(key, fails) == Err(NotFound) <==>
                      && !fails && p !in files && p !in dirs
                      && forall i | 0 < i < |p| :: p[..i] !in files)
    {
      if PathOf(key).Some? {
        var p := root + PathOf(key).value;
        BlockedIff(p);
        hide Blocked, PathOf;
      }
    }

    lemma BlockedIff(p: Atomic.Path)
      ensures Blocked(p) <==> exists i | 0 < i < |p| :: p[..i] in files
    {
      if Blocked(p) {
        var d :| d in files && d < p;
        assert d == p[..|d|];
      }
      if exists i | 0 < i < |p| :: p[..i] in files {
        var i :| 0 < i < |p| && p[..i] in files;
        assert p[..i] < p;
      }
    }

    /** What Delete takes besides files: a directory with no file and no directory anywhere below it. */
    lemma RemovableIff(d: Atomic.Path)
      ensures Removable(d) <==>
                d in dirs && d !in files && forall p | p in files || p in dirs :: d <= p ==> p == d
    {
    }

    /** Nothing stands in the way of storing p: no file where a directory has to be, and no directory where
        it or its temporary file has to be. */
    predicate Free(files: Files, dirs: set<Atomic.Path>, p: Atomic.Path) {
      (forall d | d in Parents(root, p) :: d !in files) && p !in dirs && Atomic.Tmp(p) !in dirs
    }

    lemma StaysFree(files: Files, dirs: set<Atomic.Path>, p: Atomic.Path, grown: set<Atomic.Path>)
      requires Free(files, dirs, p) && grown <= dirs + Parents(root, p)
      ensures p !in grown && Atomic.Tmp(p) !in grown
    {
      assert forall d | d in Parents(root, p) :: |d| < |p|;
      hide Atomic.Tmp;
    }

    /** `oracle` says which file operations succeed, `made` how many directories MkdirAll gets to make;
        `chunk` bytes are written at a time.  The call is a run of the single-file steps, so every state a
        crash could leave is one of that run's. */
    method Put(key: string, data: Atomic.Bytes, chunk: nat, made: nat, oracle: Atomic.Step -> bool)
        returns (r: Result<(), Error>, ghost steps: seq<Atomic.Step>)
      requires chunk > 0 && Tree(root, files, dirs)
      modifies this
      ensures Tree(root, files, dirs)
      ensures FileOf(key) == None ==> r == Err(BadKey) && files == old(files) && dirs == old(dirs)
      ensures FileOf(key).Some? ==> Ended(Atomic.Sys(old(files), map[]), steps, files, FileOf(key).value)
      ensures FileOf(key).Some? ==> old(dirs) <= dirs <= old(dirs) + Parents(root, FileOf(key).value)
      ensures r.Ok? ==>
        && FileOf(key).Some? && files == old(files)[FileOf(key).value := data] - {Atomic.Tmp(FileOf(key).value)}
        && Read(key, false) == Ok(data)
      ensures (&& FileOf(key).Some? && Free(old(files), old(dirs), FileOf(key).value)
               && made >= |FileOf(key).value| && forall step :: oracle(step)) ==> r.Ok?
      ensures r.Err? && FileOf(key).Some? ==>
        files == old(files) || exists k | 0 <= k <= |data| ::
                                 files == old(files)[Atomic.Tmp(FileOf(key).value) := data[..k]]
    {
      hide *;
      steps := [];
      var path := FileOf(key);
      if path == None {
        return Err(BadKey), [];
      }
      var p := path.value;
      ghost var s0 := Atomic.Sys(files, map[]);
      Begins(s0, p, data);
      steps := [Atomic.Begin(p, data)];
      var ok := MakeParents(p, made);
      if Free(old(files), old(dirs), p) {
        StaysFree(old(files), old(dirs), p, dirs);
      }
      if !ok || !oracle(Atomic.Create(p)) || Atomic.Tmp(p) in dirs {
        Fails(s0, steps, files, p, data, Atomic.Started);
        return Err(Io), steps + [Atomic.Fail(p)];
      }
      var tmp := Atomic.Tmp(p);
      TemporaryHasParents(root, p);
      ok, steps := WriteFile(p, data, chunk, oracle, s0, steps);
      if !ok {
        return Err(Io), steps;
      }
      if !oracle(Atomic.Rename(p)) || p in dirs {
        Fails(s0, steps, files, p, data, Atomic.Writing(|data|));
        return Err(Io), steps + [Atomic.Fail(p)];
      }
      Renames(s0, steps, files, p, data);
      StoringKeepsTree(root, files, dirs, p, files[tmp]);
      RemovingKeepsTree(root, files[p := files[tmp]], dirs, {tmp});
      files := files[p := files[tmp]] - {tmp};
      assert data[..|data|] == data;
      StoredReadsBack(key);
      return Ok(()), steps + [Atomic.Rename(p)];
    }

    /** os.MkdirAll of the file's directory: what is there stays, a file in the way or an error ends it. */
    method MakeParents(p: Atomic.Path, made: nat) returns (ok: bool)
      requires Tree(root, files, dirs) && |root| <= |p|
      modifies this`dirs
      ensures Tree(root, files, dirs) && old(dirs) <= dirs <= old(dirs) + Parents(root, p)
      ensures ok ==> Parents(root, p) <= dirs
      ensures Free(files, old(dirs), p) && made >= |p| ==> ok
    {
      hide Atomic.Tmp;
      var left := made;
      for i := |root| to |p|
        invariant Tree(root, files, dirs) && old(dirs) <= dirs <= old(dirs) + Parents(root, p)
        invariant forall j | |root| <= j < i :: p[..j] in dirs
        invariant left + i >= made
      {
        if p[..i] !in dirs {
          if p[..i] in files || left == 0 {
            return false;
          }
          dirs := dirs + {p[..i]};
          left := left - 1;
        }
      }
      return true;
    }

    /** os.WriteFile on the temporary name: truncate, then write; an error can leave any prefix behind. */
    method WriteFile(p: Atomic.Path, data: Atomic.Bytes, chunk: nat, oracle: Atomic.Step -> bool,
                     ghost s0: Atomic.Sys, ghost before: seq<Atomic.Step>)
        returns (ok: bool, ghost steps: seq<Atomic.Step>)
      requires chunk > 0 && Reached(s0, before, files, p, data, Atomic.Started)
      requires Tree(root, files, dirs) && Parents(root, Atomic.Tmp(p)) <= dirs && Atomic.Tmp(p) !in dirs
      modifies this`files
      ensures Tree(root, files, dirs)
      ensures ok ==> Reached(s0, steps, files, p, data, Atomic.Writing(|data|))
                     && files == old(files)[Atomic.Tmp(p) := data[..|data|]]
      ensures !ok ==> Ended(s0, steps, files, p)
                      && exists k | 0 <= k <= |data| :: files == old(files)[Atomic.Tmp(p) := data[..k]]
      ensures (forall step :: oracle(step)) ==> ok
    {
      hide *;
      var tmp := Atomic.Tmp(p);
      Creates(s0, before, files, p, data);
      StoringKeepsTree(root, files, dirs, tmp, []);
      files := files[tmp := []];
      steps := before + [Atomic.Create(p)];
      var n := 0;
      while n < |data|
        invariant n <= |data|
        invariant Tree(root, files, dirs) && files == old(files)[tmp := data[..n]]
        invariant Reached(s0, steps, files, p, data, Atomic.Writing(n))
      {
        var count := if n + chunk <= |data| then chunk else |data| - n;
        if !oracle(Atomic.Write(p, count)) {
          Fails(s0, steps, files, p, data, Atomic.Writing(n));
          return false, steps + [Atomic.Fail(p)];
        }
        Writes(s0, steps, files, p, data, n, count);
        assert data[..n] + data[n..n + count] == data[..n + count];
        StoringKeepsTree(root, files, dirs, tmp, files[tmp] + data[n..n + count]);
        files := files[tmp := files[tmp] + data[n..n + count]];
        steps := steps + [Atomic.Write(p, count)];
        n := n + count;
      }
      ok := true;
    }

    method Get(key: string, fails: bool) returns (r: Result<Atomic.Bytes, Error>)
      ensures r == Read(key, fails)
    {
      var path := FileOf(key);
      if path == None {
        return Err(BadKey);
      }
      if fails {
        return Err(Io);
      }
      if path.value in files {
        return Ok(files[path.value]);
      }
      r := Err(if path.value in dirs || Blocked(path.value) then Io else NotFound);
    }

    /** After any run of the store over keys whose names are apart, whatever was interleaved or crashed, a key
        reads back its last committed value in full and nothing else. */
    lemma ReadIsLast(keys: set<Atomic.Path>, steps: seq<Atomic.Step>, n: nat, key: string)
      requires Atomic.Apart(keys) && Atomic.Uses(keys, steps) && n <= |steps|
      requires files == Atomic.At(steps, n).files && FileOf(key).Some? && FileOf(key).value in keys
      ensures match Atomic.Last(steps, n, FileOf(key).value)
              case Some(data) => Read(key, false) == Ok(data)
              case None => Read(key, false).Err?
    {
      Atomic.GetIsLast(keys, steps, n, FileOf(key).value);
    }

    /** os.Remove: it takes a file, or a directory in which nothing lies. */
    method Delete(key: string, fails: bool) returns (r: Result<(), Error>)
      requires Tree(root, files, dirs)
      modifies this
      ensures Tree(root, files, dirs)
      ensures r.Ok? <==> old(Read(key, fails)).Ok? || (FileOf(key).Some? && !fails && old(Removable(FileOf(key).value)))
      ensures r.Err? ==> r == Err(old(Read(key, fails)).error) && files == old(files) && dirs == old(dirs)
      ensures r.Ok? && FileOf(key).value in old(files) ==>
        files == old(files) - {FileOf(key).value} && dirs == old(dirs) && Read(key, false).Err?
      ensures r.Ok? && FileOf(key).value !in old(files) ==>
        files == old(files) && dirs == old(dirs) - {FileOf(key).value}
    {
      var path := FileOf(key);
      if path == None {
        return Err(BadKey);
      }
      var p := path.value;
      if fails {
        return Err(Io);
      }
      if p in files {
        files := files - {p};
      } else if p in dirs {
        if Occupied(p) {
          return Err(Io);
        }
        dirs := dirs - {p};
      } else {
        return Err(if Blocked(p) then Io else NotFound);
      }
      r := Ok(());
    }

    /** The walk of a directory.  `disks` is what others have left in the store by the time of each visit. */
    method Walk(walk: seq<Visit>, disks: seq<Disk>) returns (r: Result<seq<Object>, Error>)
      requires |disks| == |walk| && Below(walk, root)
      modifies this
      ensures r == Outcome(root, walk, disks)
      ensures r.Ok? ==> |r.value| <= |walk| && forall i | 0 <= i < |r.value| ::
                && Good(walk[i], disks[i]) && r.value[i].key == KeyOf(walk[i].path[|root|..])
                && r.value[i].size == |disks[i].files[walk[i].path]| && r.value[i].modified == walk[i].modified
      ensures Disk(files, dirs) == old(Disk(files, dirs)) || Disk(files, dirs) in disks
    {
      hide KeyOf, Reach;
      var objects := [];
      for i := 0 to |walk|
        invariant i <= Reach(walk, disks) && objects == Found(root, walk, disks, i)
        invariant Disk(files, dirs) == old(Disk(files, dirs)) || Disk(files, dirs) in disks
      {
        files, dirs := disks[i].files, disks[i].dirs;
        assert Disk(files, dirs) == disks[i];
        match walk[i] {
          case DirGone => return Ok(objects);
          case Failed => return Err(Io);
          case Look(p, modified) =>
            if p !in files {
              return Ok([]);
            }
            objects := objects + [Object(KeyOf(p[|root|..]), |files[p]|, modified)];
        }
      }
      r := Ok(objects);
    }

    method Sorted(objects: seq<Object>) returns (sorted: seq<Object>)
      ensures forall i, j | 0 <= i < j < |sorted| :: sorted[i].modified >= sorted[j].modified
      ensures StableRearrangement(objects, sorted)
    {
      var a := new Object[|objects|](i requires 0 <= i < |objects| => objects[i]);
      assert a[..] == objects;
      hide *;
      SortNewestFirst(a);
      sorted := a[..];
    }

    /** The files below the prefix, newest first, files of equal time in the order they were met.  `fails`
        says whether looking at the prefix itself goes wrong, `modified` is its time if it is a file. */
    method List(prefix: string, fails: bool, modified: int, walk: seq<Visit>, disks: seq<Disk>)
        returns (r: Result<seq<Object>, Error>)
      requires |disks| == |walk| && (FileOf(prefix).Some? ==> Below(walk, FileOf(prefix).value))
      modifies this
      ensures Disk(files, dirs) == old(Disk(files, dirs)) || Disk(files, dirs) in disks
      ensures match old(Read(prefix, fails))
              case Ok(data) =>
                r == Ok([Object(KeyOf(FileOf(prefix).value[|root|..]), |data|, modified)])
              case Err(NotFound) => r == Ok([])
              case Err(e) =>
                if fails || FileOf(prefix) == None || FileOf(prefix).value !in old(dirs) then r == Err(e)
                else
                  match Outcome(root, walk, disks)
                  case Ok(objects) =>
                    && r.Ok? && StableRearrangement(objects, r.value)
                    && (forall i, j | 0 <= i < j < |r.value| :: r.value[i].modified >= r.value[j].modified)
                    && |objects| <= |walk| && forall i | 0 <= i < |objects| ::
                         && Good(walk[i], disks[i]) && objects[i].key == KeyOf(walk[i].path[|root|..])
                         && objects[i].size == |disks[i].files[walk[i].path]|
                         && objects[i].modified == walk[i].modified
                  case Err(e) => r == Err(e)
    {
      hide Outcome, StableRearrangement, KeyOf, Good;
      var path := FileOf(prefix);
      if path == None {
        return Err(BadKey);
      }
      var p := path.value;
      if fails {
        return Err(Io);
      }
      if p in files {
        return Ok([Object(KeyOf(p[|root|..]), |files[p]|, modified)]);
      }
      if p !in dirs {
        return if Blocked(p) then Err(Io) else Ok([]);
      }
      var objects := Walk(walk, disks);
      if objects.Err? {
        return objects;
      }
      var sorted := Sorted(objects.value);
      r := Ok(sorted);
    }

    /** The key listed for a file that was stored through a key leads back to that file. */
    lemma ListedKeyOpens(key: string)
      requires FileOf(key).Some?
      ensures FileOf(KeyOf(FileOf(key).value[|root|..])) == FileOf(key)
    {
      assert FileOf(key).value[|root|..] == PathOf(key).value;
      PathOfIsIdempotent(key);
    }

    /** A Put stays below the root, its temporary file included, exactly when its key has a name at all. */
    lemma StaysBelowRoot(key: string)
      requires FileOf(key).Some?
      ensures root <= FileOf(key).value
      ensures root <= Atomic.Tmp(FileOf(key).value) <==> Clean(key) != []
    {
      var p := FileOf(key).value;
      if Clean(key) == [] {
        assert p == root;
      } else {
        assert Atomic.Tmp(p)[..|root|] == p[..|root|] == root;
      }
    }
  }
}
