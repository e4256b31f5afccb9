/** From object keys to files and back (internal/storage/storage.go).

  A file is named by its components below the store's root. */
module StoragePath {
  import opened Text
  import opened Wrappers

  const NUL: char := '\0'

  type Path = seq<string>

  /** filepath.Clean of an anchored path, component by component. */
  function Walk(at: Path, parts: seq<string>): Path
    decreases |parts|
  {
    if parts == [] then at
    else Walk(Enter(at, parts[0]), parts[1..])
  }

  function Enter(at: Path, part: string): Path {
    if part == "" || part == "." then at
    else if part == ".." then (if at == [] then [] else at[..|at| - 1])
    else at + [part]
  }

  function Clean(key: string): Path {
    Walk([], Split(key, '/'))
  }

  /** The cleaned path as text, anchored. */
  function Render(p: Path): string {
    "/" + Join(p, '/')
  }

  predicate HasDotDot(s: string) {
    exists i :: 0 <= i < |s| - 1 && s[i] == '.' && s[i + 1] == '.'
  }

  /** Where a key is stored, unless it is refused. */
  function PathOf(key: string): Option<Path> {
    if NUL in key then None
    else if HasDotDot(Render(Clean(key))) then None
    else Some(Clean(key))
  }

  /** The key List reports for a file: its path relative to the root, with slashes. */
  function KeyOf(p: Path): string {
    if p == [] then "." else Join(p, '/')
  }

  /** A name that stands for itself in a path. */
  predicate Component(c: string) {
    c != "" && c != "." && c != ".." && '/' !in c
  }

  predicate Safe(p: Path) {
    forall i | 0 <= i < |p| :: Component(p[i]) && !HasDotDot(p[i]) && NUL !in p[i]
  }

  // ---- Keys in two parts ----

  lemma {:induction false} WalkInTwo(at: Path, a: seq<string>, b: seq<string>)
    ensures Walk(at, a + b) == Walk(Walk(at, a), b)
    decreases |a|
  {
    if a == [] {
      assert a + b == b;
    } else {
      WalkInTwo(Enter(at, a[0]), a[1..], b);
      assert (a + b)[1..] == a[1..] + b;
    }
  }

  lemma Regrouped(a: string, i: nat, b: string)
    requires i < |a| && a[i] == '/'
    ensures var first, rest := a[..i], a[i + 1..];
            a == first + ['/'] + rest && a + ['/'] + b == first + ['/'] + (rest + ['/'] + b)
  {
  }

  lemma {:induction false} SplitInTwo(a: string, b: string)
    ensures Split(a + ['/'] + b, '/') == Split(a, '/') + Split(b, '/')
    decreases |a|
  {
    hide Split, Index, Cut;
    var i := Index(a, '/');
    if i == |a| {
      SplitAt(a, '/', b);
    } else {
      var first, rest := a[..i], a[i + 1..];
      SplitInTwo(rest, b);
      Regrouped(a, i, b);
      SplitAt(first, '/', rest);
      SplitAt(first, '/', rest + ['/'] + b);
      assert [first] + (Split(rest, '/') + Split(b, '/')) == [first] + Split(rest, '/') + Split(b, '/');
    }
  }

  /** A key in two parts is walked part by part. */
  lemma CleanInTwo(a: string, b: string)
    ensures Clean(a + ['/'] + b) == Walk(Clean(a), Split(b, '/'))
  {
    SplitInTwo(a, b);
    WalkInTwo([], Split(a, '/'), Split(b, '/'));
  }

  // ---- A path read from its end ----

  /** The names a path ends up with, found from its end: each ".." takes back the nearest name before it that
      is not taken back already. */
  function Kept(parts: seq<string>, climbs: nat): Path
    decreases |parts|
  {
    if parts == [] then []
    else
      var front, last := parts[..|parts| - 1], parts[|parts| - 1];
      if last == "" || last == "." then Kept(front, climbs)
      else if last == ".." then Kept(front, climbs + 1)
      else if climbs > 0 then Kept(front, climbs - 1)
      else Kept(front, 0) + [last]
  }

  /** The path some levels up, and no higher than the root. */
  function Up(p: Path, levels: nat): Path {
    if levels >= |p| then [] else p[..|p| - levels]
  }

  lemma {:induction false} WalkIsKept(parts: seq<string>, climbs: nat)
    ensures Up(Walk([], parts), climbs) == Kept(parts, climbs)
    decreases |parts|
  {
    if parts != [] {
      var front, last := parts[..|parts| - 1], parts[|parts| - 1];
      assert parts == front + [last];
      WalkInTwo([], front, [last]);
      var at := Walk([], front);
      assert Walk(at, [last]) == Enter(at, last);
      WalkIsKept(front, climbs);
      WalkIsKept(front, climbs + 1);
      if climbs > 0 {
        WalkIsKept(front, climbs - 1);
      } else {
        WalkIsKept(front, 0);
      }
    }
  }

  /** Cleaning a key, which walks it from its start, leaves exactly the names kept from its end. */
  lemma CleanIsKept(key: string)
    ensures Clean(key) == Kept(Split(key, '/'), 0)
  {
    WalkIsKept(Split(key, '/'), 0);
  }

  /** The parts other than "" and ".", in order. */
  function Names(parts: seq<string>): Path {
    if parts == [] then []
    else (if parts[0] == "" || parts[0] == "." then [] else [parts[0]]) + Names(parts[1..])
  }

  lemma {:induction false} WalkAppendsNames(at: Path, parts: seq<string>)
    requires ".." !in parts
    ensures Walk(at, parts) == at + Names(parts)
    decreases |parts|
  {
    if parts != [] {
      WalkAppendsNames(Enter(at, parts[0]), parts[1..]);
    }
  }

  /** Without a climb, a key names just its parts other than "" and ".", in order. */
  lemma CleanIsNames(key: string)
    requires ".." !in Split(key, '/')
    ensures Clean(key) == Names(Split(key, '/'))
  {
    WalkAppendsNames([], Split(key, '/'));
  }

  /** An empty part or "." leads nowhere. */
  lemma NothingEntered(at: Path, part: string, b: string)
    requires part == "" || part == "."
    ensures Walk(at, Split(part + ['/'] + b, '/')) == Walk(at, Split(b, '/'))
    ensures Walk(at, Split(part, '/')) == at
  {
    SplitAt(part, '/', b);
    hide Split;
    assert ([part] + Split(b, '/'))[1..] == Split(b, '/');
    assert Walk(at, [part]) == Walk(at, []);
  }

  /** Several slashes are as good as one and "." as good as nothing, in the middle of a key. */
  lemma MiddleCollapses(a: string, part: string, b: string)
    requires part == "" || part == "."
    ensures Clean(a + ['/'] + (part + ['/'] + b)) == Clean(a + ['/'] + b)
  {
    hide *;
    CleanInTwo(a, b);
    CleanInTwo(a, part + ['/'] + b);
    NothingEntered(Clean(a), part, b);
  }

  /** And so at its start and at its end. */
  lemma EndsCollapse(part: string, b: string)
    requires part == "" || part == "."
    ensures Clean(part + ['/'] + b) == Clean(b)
    ensures Clean(b + ['/'] + part) == Clean(b)
  {
    CleanInTwo(b, part);
    NothingEntered([], part, b);
    NothingEntered(Clean(b), part, "");
    hide Split, Walk;
  }

  // ---- What cleaning leaves ----

  lemma {:induction false} WalkLeavesComponents(at: Path, parts: seq<string>)
    requires forall i | 0 <= i < |at| :: Component(at[i])
    requires forall i | 0 <= i < |parts| :: '/' !in parts[i]
    ensures forall i | 0 <= i < |Walk(at, parts)| :: Component(Walk(at, parts)[i])
    ensures forall i | 0 <= i < |Walk(at, parts)| :: Walk(at, parts)[i] in at || Walk(at, parts)[i] in parts
    decreases |parts|
  {
    if parts != [] {
      WalkLeavesComponents(Enter(at, parts[0]), parts[1..]);
    }
  }

  lemma CleanLeavesComponents(key: string)
    ensures forall i | 0 <= i < |Clean(key)| :: Component(Clean(key)[i]) && forall c | c in Clean(key)[i] :: c in key
  {
    var parts := Split(key, '/');
    SplitParts(key, '/');
    hide Component;
    WalkLeavesComponents([], parts);
  }

  /** Walking components one by one just appends them. */
  lemma {:induction false} WalkAppends(at: Path, p: Path)
    requires forall i | 0 <= i < |p| :: Component(p[i])
    ensures Walk(at, p) == at + p
    decreases |p|
  {
    if p != [] {
      WalkAppends(at + [p[0]], p[1..]);
      assert at + [p[0]] + p[1..] == at + p;
    }
  }

  lemma CleanOfKey(p: Path)
    requires forall i | 0 <= i < |p| :: Component(p[i])
    ensures Clean(KeyOf(p)) == p
  {
    if p == [] {
      assert Split(".", '/') == ["."];
      assert Walk([], ["."]) == Walk([], []);
    } else {
      SplitOfJoin(p, '/');
      WalkAppends([], p);
    }
  }

  /** Cleaning twice is cleaning once, for every key, and a slash at the end of a clean one changes nothing. */
  lemma CleanIsIdempotent(key: string)
    ensures Clean(KeyOf(Clean(key))) == Clean(key)
    ensures Clean(KeyOf(Clean(key)) + ['/']) == Clean(key)
  {
    CleanLeavesComponents(key);
    CleanOfKey(Clean(key));
    EndsCollapse("", KeyOf(Clean(key)));
    hide *;
    assert KeyOf(Clean(key)) + ['/'] + "" == KeyOf(Clean(key)) + ['/'];
  }

  /** Two dots in the rendered path are two dots in one of its components. */
  lemma {:induction false} DotDotInJoin(p: Path)
    ensures HasDotDot(Join(p, '/')) <==> exists i | 0 <= i < |p| :: HasDotDot(p[i])
  {
    if |p| > 1 {
      DotDotInJoin(p[1..]);
      DotDotAcross(p[0], Join(p[1..], '/'));
      assert (exists i | 0 <= i < |p| - 1 :: HasDotDot(p[1..][i])) <==>
             (exists i | 1 <= i < |p| :: HasDotDot(p[i])) by {
        if exists i | 1 <= i < |p| :: HasDotDot(p[i]) {
          var i :| 1 <= i < |p| && HasDotDot(p[i]);
          assert HasDotDot(p[1..][i - 1]);
        }
        if exists i | 0 <= i < |p| - 1 :: HasDotDot(p[1..][i]) {
          var i :| 0 <= i < |p| - 1 && HasDotDot(p[1..][i]);
          assert HasDotDot(p[i + 1]);
        }
      }
    }
  }

  lemma DotDotAcross(a: string, b: string)
    ensures HasDotDot(a + ['/'] + b) <==> HasDotDot(a) || HasDotDot(b)
  {
    var s := a + ['/'] + b;
    if HasDotDot(s) {
      var i :| 0 <= i < |s| - 1 && s[i] == '.' && s[i + 1] == '.';
      if i < |a| {
        assert a[i] == '.' && a[i + 1] == '.';
      } else {
        assert b[i - |a| - 1] == '.' && b[i - |a|] == '.';
      }
    }
    if HasDotDot(a) {
      var i :| 0 <= i < |a| - 1 && a[i] == '.' && a[i + 1] == '.';
      assert s[i] == '.' && s[i + 1] == '.';
    }
    if HasDotDot(b) {
      var i :| 0 <= i < |b| - 1 && b[i] == '.' && b[i + 1] == '.';
      assert s[i + |a| + 1] == '.' && s[i + 1 + |a| + 1] == '.';
    }
  }

  lemma RenderDotDot(p: Path)
    ensures HasDotDot(Render(p)) <==> exists i | 0 <= i < |p| :: HasDotDot(p[i])
  {
    DotDotAcross("", Join(p, '/'));
    assert "" + ['/'] + Join(p, '/') == Render(p);
    DotDotInJoin(p);
  }

  // ---- Keys and files ----

  /** An accepted key names a file by safe components only: none empty, ".", or with "..". */
  lemma AcceptedIsSafe(key: string)
    requires PathOf(key).Some?
    ensures Safe(PathOf(key).value)
  {
    CleanLeavesComponents(key);
    RenderDotDot(Clean(key));
  }

  /** The key reported for a safely named file is accepted and maps back to that file. */
  lemma ReportedKeyMapsBack(p: Path)
    requires Safe(p)
    ensures PathOf(KeyOf(p)) == Some(p)
    ensures KeyOf(p) != "" && KeyOf(p)[0] != '/'
  {
    CleanOfKey(p);
    RenderDotDot(p);
    JoinChars(p, '/', NUL);
  }

  /** The files keys can reach are exactly the safely named ones. */
  lemma ReachableIffSafe(p: Path)
    ensures Safe(p) <==> exists key :: PathOf(key) == Some(p)
  {
    if Safe(p) {
      ReportedKeyMapsBack(p);
    }
    if exists key :: PathOf(key) == Some(p) {
      var key :| PathOf(key) == Some(p);
      AcceptedIsSafe(key);
    }
  }

  /** So normalising a key is idempotent, acceptance included. */
  lemma PathOfIsIdempotent(key: string)
    requires PathOf(key).Some?
    ensures PathOf(KeyOf(PathOf(key).value)) == PathOf(key)
    ensures PathOf(KeyOf(PathOf(key).value) + ['/']) == PathOf(key)
  {
    AcceptedIsSafe(key);
    ReportedKeyMapsBack(PathOf(key).value);
    var reported := KeyOf(PathOf(key).value);
    EndsCollapse("", reported);
    assert reported + ['/'] + "" == reported + ['/'];
    hide Clean, KeyOf, HasDotDot;
    assert NUL in reported + ['/'] <==> NUL in reported;
  }

  // ---- What is refused ----

  /** Two dots in a row somewhere in s. */
  lemma DotDotIff(s: string)
    ensures HasDotDot(s) <==> exists a, b :: s == a + ".." + b
  {
    if HasDotDot(s) {
      var i :| 0 <= i < |s| - 1 && s[i] == '.' && s[i + 1] == '.';
      assert s == s[..i] + ".." + s[i + 2..];
    }
    if exists a, b :: s == a + ".." + b {
      var a, b :| s == a + ".." + b;
      assert s[|a|] == '.' && s[|a| + 1] == '.';
    }
  }

  /** Apart from NUL, a key is refused exactly when a component of its clean path holds two dots in a row.
      No such component is "..": climbing has been resolved by then, so it is always a harmless name. */
  lemma RefusedIff(key: string)
    ensures PathOf(key) == None <==> NUL in key || exists i | 0 <= i < |Clean(key)| :: HasDotDot(Clean(key)[i])
    ensures forall i | 0 <= i < |Clean(key)| :: Clean(key)[i] != ".."
  {
    CleanLeavesComponents(key);
    RenderDotDot(Clean(key));
  }

  /** One level up from where the first part leads, and no higher than the root. */
  lemma ClimbsOneLevel(k: string, key: string)
    ensures var at := Clean(k);
            Clean(k + ['/'] + (".." + ['/'] + key)) == Walk(if at == [] then [] else at[..|at| - 1], Split(key, '/'))
  {
    CleanInTwo(k, ".." + ['/'] + key);
    SplitAt("..", '/', key);
    hide Split, Clean;
    assert Split(".." + ['/'] + key, '/')[1..] == Split(key, '/');
  }

  /** Climbing above the root, at the start of a key or anywhere in it, is as if it had not been tried; it is
      never refused for that. */
  lemma ClimbingIsCollapsed(k: string, key: string)
    requires Clean(k) == [] && NUL !in k
    ensures var climb := k + ['/'] + (".." + ['/'] + key);
            Clean(climb) == Clean(key) && PathOf(climb) == PathOf(key)
    ensures Clean(".." + ['/'] + key) == Clean(key) && PathOf(".." + ['/'] + key) == PathOf(key)
  {
    ClimbsOneLevel(k, key);
    SplitAt("..", '/', key);
    assert Enter([], "..") == [];
    assert Split(".." + ['/'] + key, '/')[1..] == Split(key, '/');
    NulInTwo("..", key);
    NulInTwo(k, ".." + ['/'] + key);
    hide Split, Walk, HasDotDot;
  }

  lemma NulInTwo(a: string, b: string)
    requires NUL !in a
    ensures NUL in a + ['/'] + b <==> NUL in b
  {
    if NUL in b {
      var i :| 0 <= i < |b| && b[i] == NUL;
      assert (a + ['/'] + b)[|a| + 1 + i] == NUL;
    }
  }

  lemma EscapeIsAccepted()
    ensures PathOf("../x") == Some(["x"])
  {
    var x := "x";
    assert x[0] == 'x';
    assert ".." + ['/'] + x == "../x";
    assert Clean("") == [] by {
      assert Split("", '/') == [""] && Walk([], [""]) == Walk([], []);
    }
    ClimbingIsCollapsed("", x);
    ReportedKeyMapsBack([x]);
  }

  lemma PlainNameIsRefused()
    ensures Clean("a..b") == ["a..b"] && PathOf("a..b") == None
  {
    var name := "a..b";
    assert name[0] == 'a' && name[1] == '.' && name[2] == '.' && name[3] == 'b';
    assert Component(name) && HasDotDot(name);
    hide *;
    CleanOfOne(name);
    RefusedIff(name);
  }

  lemma CleanOfOne(name: string)
    requires Component(name)
    ensures Clean(name) == [name]
  {
    CleanOfKey([name]);
    hide Clean;
  }
}
