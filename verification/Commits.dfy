/** Commit listings (internal/gitdata/history.go): git's output format and its parser.

  A log prints each commit in `commitFormat` and ends it with a newline; the format separates the fields
  with NUL and ends with the record separator. */
module Commits {
  import opened Text
  import opened Wrappers

  const NUL: char := '\0'
  const RS: char := '\U{1E}'

  datatype Commit = Commit(
    hash: string, author: string, email: string, date: string, message: string, parents: seq<string>)

  /** One commit in "%H%x00%an%x00%ae%x00%aI%x00%P%x00%B%x1e", without the final separator. */
  function Body(c: Commit): string {
    c.hash + ['\0'] + (c.author + ['\0'] + (c.email + ['\0'] + (c.date + ['\0'] +
      (Join(c.parents, ' ') + ['\0'] + c.message))))
  }

  function PrintLog(cs: seq<Commit>): string {
    if cs == [] then "" else Body(cs[0]) + ['\U{1E}'] + ("\n" + PrintLog(cs[1..]))
  }

  function ParseRecord(text: string): Option<Commit> {
    var record := TrimLeft(text, IsNewline);
    if TrimSpace(record) == "" then None
    else
      var parts := SplitN(record, NUL, 6);
      if |parts| < 6 then None
      else Some(Commit(parts[0], parts[1], parts[2], parts[3], TrimRight(parts[5], IsNewline), Fields(parts[4])))
  }

  function CommitsIn(output: string): seq<Commit> {
    Collect(Split(output, RS), ParseRecord)
  }

  datatype Shown = Shown(commit: Commit, patch: string) | Unparsable

  function GetCommit(output: string): Shown {
    var (header, rest, found) := Cut(output, RS);
    if !found then Unparsable
    else
      var commits := CommitsIn(header + [RS]);
      if commits == [] then Unparsable else Shown(commits[0], TrimPrefix(rest, "\n"))
  }

  /** Messages are compared up to trailing newlines. */
  function Normal(c: Commit): Commit {
    c.(message := TrimRight(c.message, IsNewline))
  }

  function Normals(cs: seq<Commit>): seq<Commit> {
    seq(|cs|, i requires 0 <= i < |cs| => Normal(cs[i]))
  }

  /** What the format can carry. */
  predicate Printable(c: Commit) {
    && NUL !in c.hash && NUL !in c.author && NUL !in c.email && NUL !in c.date
    && RS !in c.hash && RS !in c.author && RS !in c.email && RS !in c.date && RS !in c.message
    && (c.hash == [] || c.hash[0] != '\n')
    && forall i | 0 <= i < |c.parents| :: Word(c.parents[i]) && NUL !in c.parents[i] && RS !in c.parents[i]
  }

  // ---- The code ----

  method ParseCommits(output: string) returns (commits: seq<Commit>)
    ensures commits == CommitsIn(output)
  {
    commits := [];
    var records := Split(output, RS);
    for i := 0 to |records|
      invariant commits == Collect(records[..i], ParseRecord)
    {
      CollectNext(records, ParseRecord, i);
      var record := TrimLeft(records[i], IsNewline);
      if TrimSpace(record) == "" {
        continue;
      }
      var parts := SplitN(record, NUL, 6);
      if |parts| < 6 {
        continue;
      }
      commits := commits + [Commit(parts[0], parts[1], parts[2], parts[3],
                                   TrimRight(parts[5], IsNewline), Fields(parts[4]))];
    }
    assert records[..|records|] == records;
  }

  // ---- Printable commits come back ----

  lemma NewlineInFront(record: string)
    ensures ParseRecord("\n" + record) == ParseRecord(record)
  {
    assert ("\n" + record)[1..] == record;
    assert TrimLeft("\n" + record, IsNewline) == TrimLeft(record, IsNewline);
    hide TrimLeft;
  }

  /** The newline that ends the previous record is dropped. */
  lemma LeadingNewline(output: string)
    ensures CommitsIn("\n" + output) == CommitsIn(output)
  {
    var parts := Split(output, RS);
    var i := Index(output, RS);
    var s := "\n" + output;
    assert Index(s, RS) == i + 1 by {
      assert s[1..] == output;
    }
    assert s[..i + 1] == "\n" + output[..i];
    assert s[i + 1..] == output[i..];
    assert Split(s, RS) == ["\n" + parts[0]] + parts[1..] by {
      if i < |output| {
        assert s[i + 2..] == output[i + 1..];
      }
    }
    NewlineInFront(parts[0]);
    hide ParseRecord, Split, Collect;
    CollectCons("\n" + parts[0], parts[1..], ParseRecord);
    CollectCons(parts[0], parts[1..], ParseRecord);
    assert [parts[0]] + parts[1..] == parts;
  }

  lemma BodyParts(c: Commit)
    requires Printable(c)
    ensures SplitN(Body(c), NUL, 6) == [c.hash, c.author, c.email, c.date, Join(c.parents, ' '), c.message]
    ensures RS !in Body(c)
  {
    hide SplitN, Join, Word;
    JoinChars(c.parents, ' ', NUL);
    JoinChars(c.parents, ' ', RS);
    var p5 := Join(c.parents, ' ') + [NUL] + c.message;
    var p4 := c.date + [NUL] + p5;
    var p3 := c.email + [NUL] + p4;
    var p2 := c.author + [NUL] + p3;
    SplitNAt(c.hash, NUL, p2, 6);
    SplitNAt(c.author, NUL, p3, 5);
    SplitNAt(c.email, NUL, p4, 4);
    SplitNAt(c.date, NUL, p5, 3);
    SplitNAt(Join(c.parents, ' '), NUL, c.message, 2);
  }

  lemma BodyStart(c: Commit)
    requires Printable(c)
    ensures |c.hash| < |Body(c)| && Body(c)[|c.hash|] == NUL && Body(c)[0] != '\n'
  {
    hide Join;
    assert c.hash != [] ==> Body(c)[0] == c.hash[0];
  }

  lemma NoLeadingNewline(record: string)
    requires record != "" && record[0] != '\n'
    ensures TrimLeft(record, IsNewline) == record
  {
  }

  lemma BodyParses(c: Commit)
    requires Printable(c)
    ensures ParseRecord(Body(c)) == Some(Normal(c))
  {
    var record := Body(c);
    BodyParts(c);
    BodyStart(c);
    FieldsOfJoin(c.parents);
    hide Body, Printable, Fields, TrimSpace, SplitN, TrimLeft, TrimRight, IsSpace, IsNewline, Join, Word;
    NoLeadingNewline(record);
    assert TrimSpace(record) != "" by {
      assert !IsSpace(NUL) by {
        NulIsNoSpace();
      }
      TrimSpaceKeeps(record, |c.hash|);
    }
    assert ParseRecord(record).Some?;
  }

  lemma NulIsNoSpace()
    ensures !IsSpace(NUL)
  {
  }

  lemma NothingPrinted()
    ensures CommitsIn("") == []
  {
    CollectNothing(ParseRecord);
  }

  lemma CommitInFront(c: Commit, rest: string)
    requires Printable(c)
    ensures CommitsIn(Body(c) + [RS] + ("\n" + rest)) == [Normal(c)] + CommitsIn(rest)
  {
    BodyParts(c);
    BodyParses(c);
    hide Printable, Body, ParseRecord, Split, Collect;
    SplitAt(Body(c), RS, "\n" + rest);
    CollectCons(Body(c), Split("\n" + rest, RS), ParseRecord);
    LeadingNewline(rest);
  }

  lemma {:induction false} PrintedLogParses(cs: seq<Commit>)
    requires forall i | 0 <= i < |cs| :: Printable(cs[i])
    ensures CommitsIn(PrintLog(cs)) == Normals(cs)
  {
    hide Printable, Body, CommitsIn, Normal;
    if cs == [] {
      NothingPrinted();
    } else {
      CommitInFront(cs[0], PrintLog(cs[1..]));
      PrintedLogParses(cs[1..]);
      assert Normals(cs) == [Normal(cs[0])] + Normals(cs[1..]);
    }
  }

  // ---- Whatever the parser returns is printable ----

  lemma RecordShape(text: string)
    requires RS !in text
    ensures var record := TrimLeft(text, IsNewline);
            RS !in record && (record == "" || record[0] != '\n')
  {
    TrimLeftIs(text, IsNewline);
  }

  /** What the six parts of a record can hold. */
  lemma PartsShape(record: string)
    requires RS !in record && (record == "" || record[0] != '\n') && |SplitN(record, NUL, 6)| == 6
    ensures var parts := SplitN(record, NUL, 6);
            && (forall i | 0 <= i < 6 :: RS !in parts[i]) && (forall i | 0 <= i < 5 :: NUL !in parts[i])
            && (parts[0] == "" || parts[0][0] != '\n')
  {
    var parts := SplitN(record, NUL, 6);
    SplitNStart(record, NUL, 6);
    hide SplitN;
    forall i | 0 <= i < 5
      ensures NUL !in parts[i]
    {
      SplitNParts(record, NUL, 6, i);
    }
    forall i | 0 <= i < 6
      ensures RS !in parts[i]
    {
      SplitNParts(record, NUL, 6, i);
    }
    assert parts[0] != "" ==> parts[0][0] == record[0];
  }

  lemma MessageShape(text: string)
    requires RS !in text
    ensures RS !in TrimRight(text, IsNewline)
    ensures TrimRight(TrimRight(text, IsNewline), IsNewline) == TrimRight(text, IsNewline)
  {
    TrimRightIs(text, IsNewline);
    TrimRightNothing(TrimRight(text, IsNewline), IsNewline);
  }

  lemma ParentsShape(text: string)
    requires RS !in text && NUL !in text
    ensures forall i | 0 <= i < |Fields(text)| ::
              Word(Fields(text)[i]) && NUL !in Fields(text)[i] && RS !in Fields(text)[i]
  {
    FieldsAreWords(text);
  }

  lemma ParsedRecordIsPrintable(text: string)
    requires RS !in text && ParseRecord(text).Some?
    ensures Printable(ParseRecord(text).value)
    ensures Normal(ParseRecord(text).value) == ParseRecord(text).value
  {
    hide TrimLeft, TrimRight, TrimSpace, SplitN, Fields, Word, IsNewline;
    var record := TrimLeft(text, IsNewline);
    var parts := SplitN(record, NUL, 6);
    RecordShape(text);
    PartsShape(record);
    MessageShape(parts[5]);
    ParentsShape(parts[4]);
  }

  lemma ParsedCommitsArePrintable(output: string)
    ensures var cs := CommitsIn(output);
            forall i | 0 <= i < |cs| :: Printable(cs[i]) && Normal(cs[i]) == cs[i]
  {
    hide Printable, ParseRecord, Normal, Split, Collect;
    var cs, records := CommitsIn(output), Split(output, RS);
    SplitParts(output, RS);
    forall i | 0 <= i < |cs|
      ensures Printable(cs[i]) && Normal(cs[i]) == cs[i]
    {
      var k := CollectFrom(records, ParseRecord, i);
      ParsedRecordIsPrintable(records[k]);
    }
  }

  lemma NormalIsPrintableIff(c: Commit)
    ensures Printable(Normal(c)) <==> Printable(c)
  {
    var m, t := c.message, TrimRight(c.message, IsNewline);
    TrimRightIs(m, IsNewline);
    if RS in m {
      var i :| 0 <= i < |m| && m[i] == RS;
      assert i < |t| && t[i] == RS;
    }
  }

  /** A printed log parses back to its commits exactly when each of them is printable. */
  lemma LogRoundTripIff(cs: seq<Commit>)
    ensures CommitsIn(PrintLog(cs)) == Normals(cs) <==> forall i | 0 <= i < |cs| :: Printable(cs[i])
  {
    var out := PrintLog(cs);
    if forall i | 0 <= i < |cs| :: Printable(cs[i]) {
      PrintedLogParses(cs);
    } else if CommitsIn(out) == Normals(cs) {
      hide Printable, Normal;
      ParsedCommitsArePrintable(out);
      forall i | 0 <= i < |cs|
        ensures Printable(cs[i])
      {
        NormalIsPrintableIff(cs[i]);
        assert Normals(cs)[i] == Normal(cs[i]);
      }
    }
  }

  /** Any output at all, parsed, printed and parsed again, gives the same commits. */
  lemma ReprintIsStable(output: string)
    ensures CommitsIn(PrintLog(CommitsIn(output))) == CommitsIn(output)
  {
    var cs := CommitsIn(output);
    ParsedCommitsArePrintable(output);
    LogRoundTripIff(cs);
    assert Normals(cs) == cs;
  }

  lemma HeaderParses(c: Commit)
    requires Printable(c)
    ensures CommitsIn(Body(c) + [RS]) == [Normal(c)]
  {
    BodyParts(c);
    BodyParses(c);
    NothingPrinted();
    hide Printable, Body, ParseRecord, Split, Collect;
    SplitAt(Body(c), RS, "");
    assert Body(c) + [RS] + "" == Body(c) + [RS];
    CollectCons(Body(c), Split("", RS), ParseRecord);
  }

  lemma PrintableShows(c: Commit, patch: string)
    requires Printable(c)
    ensures GetCommit(Body(c) + [RS] + ("\n" + patch)) == Shown(Normal(c), patch)
  {
    BodyParts(c);
    HeaderParses(c);
    hide Printable, Body, CommitsIn, Normal, Cut, TrimPrefix;
    SplitAt(Body(c), RS, "\n" + patch);
    PrefixTrims("\n", patch);
  }

  /** One shown commit comes back with its patch, whatever the patch holds - separators and NUL included -
      exactly when the commit is printable. */
  lemma ShowRoundTripIff(c: Commit, patch: string)
    ensures GetCommit(Body(c) + ['\U{1E}'] + ("\n" + patch)) == Shown(Normal(c), patch) <==> Printable(c)
  {
    var output := Body(c) + [RS] + ("\n" + patch);
    if Printable(c) {
      PrintableShows(c, patch);
    } else if GetCommit(output) == Shown(Normal(c), patch) {
      ParsedCommitsArePrintable(Cut(output, RS).0 + [RS]);
      NormalIsPrintableIff(c);
    }
  }
}
