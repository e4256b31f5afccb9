/** Tree and ref listings (internal/gitdata/gitdata.go): git's output formats and their parsers. */
module Listings {
  import opened Text
  import opened Wrappers

  const NUL: char := '\0'

  // ---- ls-tree -z ----

  datatype TreeEntry = TreeEntry(mode: string, kind: string, hash: string, path: string)

  function PrintEntry(e: TreeEntry): string {
    e.mode + " " + e.kind + " " + e.hash + "\t" + e.path
  }

  function PrintTree(es: seq<TreeEntry>): string {
    if es == [] then "" else PrintEntry(es[0]) + ['\0'] + PrintTree(es[1..])
  }

  function ParseEntry(record: string): Option<TreeEntry> {
    if record == "" then None
    else
      var (meta, name, found) := Cut(record, '\t');
      var fields := Fields(meta);
      if !found || |fields| < 3 then None
      else Some(TreeEntry(fields[0], fields[1], fields[2], name))
  }

  function EntriesIn(output: string): seq<TreeEntry> {
    Collect(Split(output, NUL), ParseEntry)
  }

  method ListTree(output: string) returns (entries: seq<TreeEntry>)
    ensures entries == EntriesIn(output)
  {
    entries := [];
    var records := Split(output, NUL);
    for i := 0 to |records|
      invariant entries == Collect(records[..i], ParseEntry)
    {
      CollectNext(records, ParseEntry, i);
      if records[i] == "" {
        continue;
      }
      var (meta, name, found) := Cut(records[i], '\t');
      if !found {
        continue;
      }
      var fields := Fields(meta);
      if |fields| < 3 {
        continue;
      }
      entries := entries + [TreeEntry(fields[0], fields[1], fields[2], name)];
    }
    assert records[..|records|] == records;
  }

  /** What the listing can carry: three words, and any path without NUL. */
  predicate Listable(e: TreeEntry) {
    && Word(e.mode) && Word(e.kind) && Word(e.hash)
    && NUL !in e.mode && NUL !in e.kind && NUL !in e.hash && NUL !in e.path
  }

  lemma WordsHaveNoTab(words: seq<string>)
    requires forall i | 0 <= i < |words| :: Word(words[i])
    ensures '\t' !in Join(words, ' ')
  {
    JoinChars(words, ' ', '\t');
  }

  lemma EntryText(e: TreeEntry)
    ensures PrintEntry(e) == Join([e.mode, e.kind, e.hash], ' ') + ['\t'] + e.path
  {
    var words := [e.mode, e.kind, e.hash];
    assert words[1..] == [e.kind, e.hash] && [e.kind, e.hash][1..] == [e.hash];
    assert Join([e.hash], ' ') == e.hash;
    assert Join([e.kind, e.hash], ' ') == e.kind + [' '] + e.hash;
    assert Join(words, ' ') == e.mode + [' '] + (e.kind + [' '] + e.hash);
    assert e.mode + " " + e.kind + " " + e.hash == e.mode + [' '] + (e.kind + [' '] + e.hash);
  }

  lemma EntryParses(e: TreeEntry)
    requires Listable(e)
    ensures NUL !in PrintEntry(e) && ParseEntry(PrintEntry(e)) == Some(e)
  {
    var words := [e.mode, e.kind, e.hash];
    EntryText(e);
    hide Join, Fields, Cut, Word, PrintEntry;
    JoinChars(words, ' ', NUL);
    WordsHaveNoTab(words);
    SplitAt(Join(words, ' '), '\t', e.path);
    FieldsOfJoin(words);
  }

  lemma {:induction false} PrintedTreeParses(es: seq<TreeEntry>)
    requires forall i | 0 <= i < |es| :: Listable(es[i])
    ensures EntriesIn(PrintTree(es)) == es
  {
    hide Listable, PrintEntry, ParseEntry, Split, Collect;
    if es == [] {
      assert ParseEntry("") == None by {
        NoEntry();
      }
      CollectNothing(ParseEntry);
    } else {
      EntryParses(es[0]);
      SplitAt(PrintEntry(es[0]), NUL, PrintTree(es[1..]));
      CollectCons(PrintEntry(es[0]), Split(PrintTree(es[1..]), NUL), ParseEntry);
      PrintedTreeParses(es[1..]);
    }
  }

  lemma NoEntry()
    ensures ParseEntry("") == None
  {
  }

  lemma ParsedEntryIsListable(record: string)
    requires NUL !in record && ParseEntry(record).Some?
    ensures Listable(ParseEntry(record).value)
  {
    var (meta, name, found) := Cut(record, '\t');
    FieldsAreWords(meta);
  }

  /** A printed listing parses back to its entries, tabs and newlines in paths included, exactly when every
      entry is listable. */
  lemma TreeRoundTripIff(es: seq<TreeEntry>)
    ensures EntriesIn(PrintTree(es)) == es <==> forall i | 0 <= i < |es| :: Listable(es[i])
  {
    if forall i | 0 <= i < |es| :: Listable(es[i]) {
      PrintedTreeParses(es);
    } else if EntriesIn(PrintTree(es)) == es {
      hide Listable, ParseEntry, Split, Collect;
      var records := Split(PrintTree(es), NUL);
      SplitParts(PrintTree(es), NUL);
      forall i | 0 <= i < |es|
        ensures Listable(es[i])
      {
        var k := CollectFrom(records, ParseEntry, i);
        ParsedEntryIsListable(records[k]);
      }
    }
  }

  // ---- for-each-ref ----

  const HEADS := "refs/heads/"
  const TAGS := "refs/tags/"

  datatype Ref = Ref(name: string, hash: string, isTag: bool)

  /** A ref as git has it: its kind is the object type. */
  datatype GitRef = GitRef(ref: Ref, kind: string)

  function FullName(r: Ref): string {
    (if r.isTag then "refs/tags/" else "refs/heads/") + r.name
  }

  /** "%(refname)%00%(objectname)%00%(objecttype)" */
  function Line(g: GitRef): string {
    FullName(g.ref) + ['\0'] + (g.ref.hash + ['\0'] + g.kind)
  }

  function Lines(gs: seq<GitRef>): seq<string> {
    seq(|gs|, i requires 0 <= i < |gs| => Line(gs[i]))
  }

  /** Every line is ended by a newline. */
  function PrintRefs(gs: seq<GitRef>): string {
    if gs == [] then "" else Join(Lines(gs), '\n') + "\n"
  }

  function ParseRef(line: string): Option<Ref> {
    if line == "" then None
    else
      var parts := SplitN(line, NUL, 3);
      if |parts| < 3 then None
      else Some(Ref(TrimPrefix(TrimPrefix(parts[0], HEADS), TAGS), parts[1], TAGS <= parts[0]))
  }

  function RefsIn(output: string): seq<Ref> {
    Collect(Split(TrimSpace(output), '\n'), ParseRef)
  }

  /** `head` is what git answers when asked for the name of the HEAD branch; the question may fail. */
  method ListRefs(output: string, head: Option<string>) returns (refs: seq<Ref>, headBranch: string)
    ensures refs == RefsIn(output)
    ensures headBranch == if head.Some? then TrimSpace(head.value) else ""
  {
    headBranch := "";
    if head.Some? {
      headBranch := TrimSpace(head.value);
    }
    refs := [];
    var lines := Split(TrimSpace(output), '\n');
    for i := 0 to |lines|
      invariant refs == Collect(lines[..i], ParseRef)
    {
      CollectNext(lines, ParseRef, i);
      if lines[i] == "" {
        continue;
      }
      var parts := SplitN(lines[i], NUL, 3);
      if |parts| < 3 {
        continue;
      }
      var isTag := TAGS <= parts[0];
      var name := TrimPrefix(TrimPrefix(parts[0], HEADS), TAGS);
      refs := refs + [Ref(name, parts[1], isTag)];
    }
    assert lines[..|lines|] == lines;
  }

  /** What git guarantees of a ref: no control characters in its name, a hash, a type. */
  predicate FromGit(g: GitRef) {
    && NUL !in g.ref.name && '\n' !in g.ref.name && NUL !in g.ref.hash && '\n' !in g.ref.hash
    && NUL !in g.kind && Word(g.kind)
  }

  /** A branch called "refs/tags/..." loses part of its name to the second trim. */
  predicate Unambiguous(r: Ref) {
    !r.isTag ==> !("refs/tags/" <= r.name)
  }

  function RefOf(g: GitRef): Ref {
    if Unambiguous(g.ref) then g.ref else g.ref.(name := g.ref.name[|TAGS|..])
  }

  lemma NameParses(r: Ref)
    ensures TrimPrefix(TrimPrefix(FullName(r), HEADS), TAGS) == RefOf(GitRef(r, "")).name
    ensures TAGS <= FullName(r) <==> r.isTag
  {
    var full := FullName(r);
    if r.isTag {
      PrefixTrims(TAGS, r.name);
      assert full[5] == 't' && HEADS[5] == 'h';
    } else {
      PrefixTrims(HEADS, r.name);
      assert full[5] == 'h' && TAGS[5] == 't';
    }
  }

  lemma FullNameChars(r: Ref)
    requires NUL !in r.name && '\n' !in r.name
    ensures NUL !in FullName(r) && '\n' !in FullName(r)
    ensures |FullName(r)| > 0 && FullName(r)[0] == 'r'
  {
  }

  lemma LineParts(g: GitRef)
    requires FromGit(g)
    ensures SplitN(Line(g), NUL, 3) == [FullName(g.ref), g.ref.hash, g.kind]
    ensures '\n' !in Line(g) && Line(g) != ""
  {
    hide SplitN, FullName, Word;
    FullNameChars(g.ref);
    SplitNAt(FullName(g.ref), NUL, g.ref.hash + [NUL] + g.kind, 3);
    SplitNAt(g.ref.hash, NUL, g.kind, 2);
    assert '\n' !in g.kind by {
      assert IsSpace('\n');
      WordHasNoSpace(g.kind, '\n');
    }
  }

  lemma WordHasNoSpace(w: string, c: char)
    requires Word(w) && IsSpace(c)
    ensures c !in w
  {
  }

  lemma LineParses(g: GitRef)
    requires FromGit(g)
    ensures ParseRef(Line(g)) == Some(RefOf(g))
  {
    hide SplitN, FullName, Word, TrimPrefix, Line;
    NameParses(g.ref);
    LineParts(g);
  }

  lemma {:induction false} JoinEnds(pieces: seq<string>, c: char)
    requires pieces != [] && pieces[0] != "" && pieces[|pieces| - 1] != ""
    ensures var s, last := Join(pieces, c), pieces[|pieces| - 1];
            s != "" && s[0] == pieces[0][0] && s[|s| - 1] == last[|last| - 1]
  {
    if |pieces| == 2 {
      assert Join(pieces[1..], c) == pieces[1];
    } else if |pieces| > 2 {
      JoinEndsWith(pieces[1..], c);
    }
  }

  lemma {:induction false} JoinEndsWith(pieces: seq<string>, c: char)
    requires pieces != [] && pieces[|pieces| - 1] != ""
    ensures var s, last := Join(pieces, c), pieces[|pieces| - 1];
            s != "" && s[|s| - 1] == last[|last| - 1]
  {
    if |pieces| > 1 {
      JoinEndsWith(pieces[1..], c);
    }
  }

  lemma TrimFinalNewline(text: string)
    requires text != "" && !IsSpace(text[0]) && !IsSpace(text[|text| - 1])
    ensures TrimSpace(text + "\n") == text
  {
    var out := text + "\n";
    assert TrimLeft(out, IsSpace) == out;
    assert out[..|out| - 1] == text && IsSpace(out[|out| - 1]);
    TrimRightNothing(text, IsSpace);
  }

  /** Trimming the output removes the last newline and nothing else. */
  lemma OutputTrims(gs: seq<GitRef>)
    requires gs != [] && forall i | 0 <= i < |gs| :: FromGit(gs[i])
    ensures TrimSpace(PrintRefs(gs)) == Join(Lines(gs), '\n')
  {
    var last := gs[|gs| - 1];
    LineEnds(gs[0]);
    LineEnds(last);
    hide Line, FromGit, TrimSpace, Join, IsSpace;
    JoinEnds(Lines(gs), '\n');
    TrimFinalNewline(Join(Lines(gs), '\n'));
  }

  lemma LineEnds(g: GitRef)
    requires FromGit(g)
    ensures Line(g) != "" && !IsSpace(Line(g)[0]) && !IsSpace(Line(g)[|Line(g)| - 1])
  {
    FullNameChars(g.ref);
    assert Line(g)[|Line(g)| - 1] == g.kind[|g.kind| - 1];
  }

  function RefsOf(gs: seq<GitRef>): seq<Ref> {
    seq(|gs|, i requires 0 <= i < |gs| => RefOf(gs[i]))
  }

  lemma {:induction false} LinesParse(gs: seq<GitRef>)
    requires forall i | 0 <= i < |gs| :: FromGit(gs[i])
    ensures Collect(Lines(gs), ParseRef) == RefsOf(gs)
  {
    hide ParseRef, Line, FromGit, RefOf;
    if gs != [] {
      LineParses(gs[0]);
      LinesParse(gs[1..]);
      CollectCons(Line(gs[0]), Lines(gs[1..]), ParseRef);
      assert Lines(gs) == [Line(gs[0])] + Lines(gs[1..]);
      assert RefsOf(gs) == [RefOf(gs[0])] + RefsOf(gs[1..]);
    }
  }

  /** The refs come back in git's order, each with its name, hash and kind of ref - except that a branch
      whose short name starts with "refs/tags/" comes back without that prefix. */
  lemma PrintedRefsParse(gs: seq<GitRef>)
    requires forall i | 0 <= i < |gs| :: FromGit(gs[i])
    ensures RefsIn(PrintRefs(gs)) == RefsOf(gs)
  {
    hide ParseRef, Line, FromGit, RefOf, TrimSpace, Split, Collect, Join;
    if gs == [] {
      TrimSpaceNothing("");
      assert ParseRef("") == None by {
        NoRef();
      }
      CollectNothing(ParseRef);
    } else {
      OutputTrims(gs);
      forall i | 0 <= i < |gs|
        ensures '\n' !in Lines(gs)[i]
      {
        LineParts(gs[i]);
      }
      SplitOfJoin(Lines(gs), '\n');
      LinesParse(gs);
    }
  }

  lemma NoRef()
    ensures ParseRef("") == None
  {
  }

  /** The round trip is exact exactly when no branch is so named. */
  lemma RefRoundTripIff(gs: seq<GitRef>)
    requires forall i | 0 <= i < |gs| :: FromGit(gs[i])
    ensures RefsIn(PrintRefs(gs)) == seq(|gs|, i requires 0 <= i < |gs| => gs[i].ref)
       <==> forall i | 0 <= i < |gs| :: Unambiguous(gs[i].ref)
  {
    PrintedRefsParse(gs);
    var refs := seq(|gs|, i requires 0 <= i < |gs| => gs[i].ref);
    forall i | 0 <= i < |gs|
      ensures RefsOf(gs)[i] == refs[i] <==> Unambiguous(gs[i].ref)
    {
      assert !Unambiguous(gs[i].ref) ==> |RefOf(gs[i]).name| < |gs[i].ref.name|;
    }
    if RefsOf(gs) == refs {
      assert forall i | 0 <= i < |gs| :: RefsOf(gs)[i] == refs[i];
    }
  }

  // ---- Is the default branch first? ----

  /** Byte order, in which for-each-ref sorts full names. */
  predicate Before(a: string, b: string) {
    b != "" && (a == "" || a[0] < b[0] || (a[0] == b[0] && Before(a[1..], b[1..])))
  }

  predicate Sorted(gs: seq<GitRef>) {
    forall i, j | 0 <= i < j < |gs| :: Before(FullName(gs[i].ref), FullName(gs[j].ref))
  }

  lemma {:induction false} BeforeIsStrict(a: string, b: string)
    ensures !(Before(a, b) && Before(b, a)) && !Before(a, a)
    decreases |a|
  {
    if a != "" {
      BeforeIsStrict(a[1..], a[1..]);
      if b != "" {
        BeforeIsStrict(a[1..], b[1..]);
      }
    }
  }

  lemma {:induction false} BeforeAfterPrefix(p: string, a: string, b: string)
    ensures Before(p + a, p + b) <==> Before(a, b)
  {
    if p == "" {
      assert p + a == a && p + b == b;
    } else {
      BeforeAfterPrefix(p[1..], a, b);
      assert (p + a)[1..] == p[1..] + a && (p + b)[1..] == p[1..] + b;
    }
  }

  /** Branches come before tags. */
  lemma BranchesFirst(b: Ref, t: Ref)
    requires !b.isTag && t.isTag
    ensures Before(FullName(b), FullName(t))
  {
    assert FullName(b) == "refs/" + ("heads/" + b.name) && FullName(t) == "refs/" + ("tags/" + t.name);
    BeforeAfterPrefix("refs/", "heads/" + b.name, "tags/" + t.name);
  }

  /** Some other branch's full name sorts before that of ref h. */
  ghost predicate Preceded(gs: seq<GitRef>, h: nat)
    requires h < |gs|
  {
    exists j | 0 <= j < |gs| :: j != h && !gs[j].ref.isTag && Before(FullName(gs[j].ref), FullName(gs[h].ref))
  }

  lemma FirstIffNotPreceded(gs: seq<GitRef>, h: nat)
    requires Sorted(gs) && h < |gs| && !gs[h].ref.isTag
    ensures h == 0 <==> !Preceded(gs, h)
  {
    hide FullName, Before;
    if h > 0 {
      assert Before(FullName(gs[0].ref), FullName(gs[h].ref));
      if gs[0].ref.isTag {
        BranchesFirst(gs[h].ref, gs[0].ref);
        BeforeIsStrict(FullName(gs[0].ref), FullName(gs[h].ref));
      }
    } else if Preceded(gs, h) {
      var j :| 0 <= j < |gs| && j != h && Before(FullName(gs[j].ref), FullName(gs[h].ref));
      BeforeIsStrict(FullName(gs[j].ref), FullName(gs[h].ref));
    }
  }

  /** The documentation's "default branch first": with the refs in git's order, the HEAD branch's ref h is
      returned at the place it has there, which is the first exactly when no other branch sorts before it.
      Where every name comes back whole, that is when the first ref returned equals it. */
  lemma DefaultFirstIff(gs: seq<GitRef>, h: nat)
    requires forall i | 0 <= i < |gs| :: FromGit(gs[i])
    requires Sorted(gs) && h < |gs| && !gs[h].ref.isTag
    ensures var refs := RefsIn(PrintRefs(gs));
            && |refs| == |gs| && refs[h] == RefOf(gs[h])
            && (h == 0 <==> !Preceded(gs, h))
            && ((forall i | 0 <= i < |gs| :: Unambiguous(gs[i].ref)) ==>
                  (refs[0] == gs[h].ref <==> !Preceded(gs, h)))
  {
    PrintedRefsParse(gs);
    FirstIffNotPreceded(gs, h);
    hide Preceded, RefsIn, PrintRefs, FromGit, Unambiguous, Before, FullName;
    if h > 0 {
      BeforeIsStrict(FullName(gs[0].ref), FullName(gs[h].ref));
      assert Before(FullName(gs[0].ref), FullName(gs[h].ref));
    }
  }

  /** Branches "a" and "main" with HEAD at "main": "a" is first. */
  lemma DefaultIsNotFirst()
    ensures var a, main := GitRef(Ref("a", "1", false), "commit"), GitRef(Ref("main", "2", false), "commit");
            && RefsIn(PrintRefs([a, main])) == [a.ref, main.ref]
            && TrimSpace("main\n") == "main"
  {
    var a, main := GitRef(Ref("a", "1", false), "commit"), GitRef(Ref("main", "2", false), "commit");
    TrimFinalNewline("main");
    assert "main" + "\n" == "main\n";
    assert FromGit(a) && FromGit(main);
    PrintedRefsParse([a, main]);
    assert !(TAGS <= "a") && !(TAGS <= "main");
  }
}
