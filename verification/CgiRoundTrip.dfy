/** What a CGI program prints is what the client gets (internal/gitserve/cgi.go). */
module CgiRoundTrip {
  import opened Text
  import opened Cgi
  import opened Wrappers

  datatype Field = Field(key: string, value: string)

  /** A field name as the grammar has it, other than Status, and a value on one line with nothing to trim. */
  predicate WellFormed(f: Field) {
    && f.key != "" && FieldName(f.key) && !IsStatus(f.key)
    && Trimmed(f.value)
  }

  predicate Trimmed(s: string) {
    '\n' !in s && TrimSpace(s) == s
  }

  /** A name that a header line can carry, be it in the grammar or not. */
  predicate Readable(key: string) {
    ':' !in key && Trimmed(key) && !IsStatus(key)
  }

  predicate Carried(f: Field) {
    Readable(f.key) && Trimmed(f.value)
  }

  datatype Status = Status(code: nat, reason: string)

  predicate LineEnd(eol: string) {
    eol == "\r\n" || eol == "\n"
  }

  function Itoa(n: nat): (s: string)
    ensures s != [] && forall i | 0 <= i < |s| :: IsDigit(s[i])
  {
    var digit := '0' + (n % 10) as char;
    if n < 10 then [digit] else Itoa(n / 10) + [digit]
  }

  function FieldLine(f: Field): string {
    f.key + ": " + f.value
  }

  function StatusLine(s: Status): string {
    "Status: " + Itoa(s.code) + (" " + s.reason)
  }

  function PrintFields(fields: seq<Field>, eol: string, end: string): string {
    if fields == [] then end else FieldLine(fields[0]) + (eol + PrintFields(fields[1..], eol, end))
  }

  function PrintResponse(status: Option<Status>, fields: seq<Field>, eol: string, body: string): string {
    var head := PrintFields(fields, eol, eol + body);
    if status.Some? then StatusLine(status.value) + (eol + head) else head
  }

  /** The values of one header, in the order printed. */
  function ValuesOf(fields: seq<Field>, name: string): seq<string> {
    if fields == [] then []
    else (if Canonical(fields[0].key) == name then [fields[0].value] else []) + ValuesOf(fields[1..], name)
  }

  function NamesOf(fields: seq<Field>): set<string> {
    set i | 0 <= i < |fields| :: Canonical(fields[i].key)
  }

  function AddFields(h: Headers, fields: seq<Field>): Headers
    decreases |fields|
  {
    if fields == [] then h else AddFields(Add(h, fields[0].key, fields[0].value), fields[1..])
  }

  lemma {:induction false} AddFieldsLookup(h: Headers, fields: seq<Field>, name: string)
    ensures Lookup(AddFields(h, fields), name) == Lookup(h, name) + ValuesOf(fields, name)
    decreases |fields|
  {
    hide Canonical;
    if fields != [] {
      AddFieldsLookup(Add(h, fields[0].key, fields[0].value), fields[1..], name);
    }
  }

  lemma {:induction false} AddFieldsKeys(h: Headers, fields: seq<Field>)
    ensures AddFields(h, fields).Keys == h.Keys + NamesOf(fields)
    decreases |fields|
  {
    hide Canonical;
    if fields != [] {
      AddFieldsKeys(Add(h, fields[0].key, fields[0].value), fields[1..]);
      assert NamesOf(fields) == {Canonical(fields[0].key)} + NamesOf(fields[1..]) by {
        assert fields == [fields[0]] + fields[1..];
      }
    }
  }

  // ---- Lines ----

  lemma FirstLine(line: string, eol: string, rest: string)
    requires LineEnd(eol) && '\n' !in line
    ensures var s := line + (eol + rest);
            var i := Index(s, '\n');
            && i < |s| && s[i + 1..] == rest
            && TrimRight(s[..i + 1], IsCrLf) == TrimRight(line, IsCrLf)
  {
    hide *;
    TrimLineEnd(line, eol);
    NewlineAtEnd(line, eol, rest);
    LineSlices(line, eol, rest);
    IndexAt(line + (eol + rest), '\n', |line| + |eol| - 1);
  }

  lemma LineSlices(line: string, eol: string, rest: string)
    ensures var s := line + (eol + rest);
            s[..|line| + |eol|] == line + eol && s[|line| + |eol|..] == rest
  {
  }

  lemma NewlineAtEnd(line: string, eol: string, rest: string)
    requires LineEnd(eol) && '\n' !in line
    ensures eol != ""
    ensures var s, i := line + (eol + rest), |line| + |eol| - 1;
            s[i] == '\n' && forall k | 0 <= k < i :: s[k] != '\n'
  {
    var s := line + (eol + rest);
    forall k | 0 <= k < |line| + |eol| - 1
      ensures s[k] != '\n'
    {
      assert k < |line| ==> s[k] == line[k] && line[k] in line;
    }
  }

  lemma TrimLineEnd(line: string, eol: string)
    requires LineEnd(eol)
    ensures TrimRight(line + eol, IsCrLf) == TrimRight(line, IsCrLf)
  {
    var s := line + eol;
    assert s[..|s| - 1] == if eol == "\n" then line else line + "\r";
    assert (line + "\r")[..|line|] == line;
  }

  /** Reading one printed line. */
  lemma LineReads(line: string, eol: string, rest: string, status: string, h: Headers)
    requires LineEnd(eol) && '\n' !in line
    ensures var head, text := ReadHead(line + (eol + rest), status, h), TrimRight(line, IsCrLf);
            var (s, g) := Taken(text, status, h);
            head == if text == "" then Head(status, h, rest) else ReadHead(rest, s, g)
  {
    FirstLine(line, eol, rest);
    HeadNext(line + (eol + rest), status, h);
    hide ReadHead, TrimRight, Taken, LineEnd, Index;
  }

  lemma BlankLineEndsHead(eol: string, body: string, status: string, h: Headers)
    requires LineEnd(eol)
    ensures ReadHead(eol + body, status, h) == Head(status, h, body)
  {
    LineReads("", eol, body, status, h);
    TrimRightNothing("", IsCrLf);
    hide ReadHead, TrimRight, Taken, LineEnd;
    assert "" + (eol + body) == eol + body;
  }

  lemma FieldLineReads(f: Field, eol: string, rest: string, status: string, h: Headers)
    requires Carried(f) && LineEnd(eol)
    ensures ReadHead(FieldLine(f) + (eol + rest), status, h) == ReadHead(rest, status, Add(h, f.key, f.value))
  {
    FieldLineShape(f);
    LineReads(FieldLine(f), eol, rest, status, h);
    hide ReadHead, Carried, FieldLine, TrimRight, Cut, TrimSpace, Add, IsStatus, LineEnd;
  }

  lemma FieldLineShape(f: Field)
    requires Carried(f)
    ensures '\n' !in FieldLine(f) && FieldLine(f) != ""
    ensures TrimRight(FieldLine(f), IsCrLf) == FieldLine(f)
    ensures Cut(FieldLine(f), ':') == (f.key, " " + f.value, true)
    ensures TrimSpace(f.key) == f.key && !IsStatus(f.key) && TrimSpace(" " + f.value) == f.value
  {
    var line, padded := FieldLine(f), " " + f.value;
    ValueShape(f.value);
    hide TrimRight, TrimSpace, IsStatus, Cut, IsCrLf;
    assert line == f.key + [':'] + padded;
    SplitAt(f.key, ':', padded);
    assert line[|line| - 1] == padded[|padded| - 1];
    TrimRightNothing(line, IsCrLf);
  }

  lemma TokenIsPlain(c: char)
    requires IsToken(c)
    ensures !IsSpace(c) && c != ':' && c != '\n'
  {
  }

  lemma TokensArePlain(key: string)
    requires FieldName(key)
    ensures ':' !in key && Trimmed(key)
  {
    forall i | 0 <= i < |key|
      ensures !IsSpace(key[i]) && key[i] != ':' && key[i] != '\n'
    {
      TokenIsPlain(key[i]);
    }
    hide IsToken, IsSpace;
    TrimSpaceNothing(key);
    hide TrimSpace;
  }

  lemma WellFormedIsCarried(f: Field)
    requires WellFormed(f)
    ensures Carried(f)
  {
    TokensArePlain(f.key);
    hide IsStatus, Trimmed, IsToken;
  }

  lemma ValueShape(value: string)
    requires Trimmed(value)
    ensures TrimSpace(" " + value) == value
    ensures var padded := " " + value; !IsCrLf(padded[|padded| - 1])
  {
    assert (" " + value)[1..] == value;
    TrimRightIs(TrimLeft(value, IsSpace), IsSpace);
  }

  lemma {:induction false} FieldsRead(fields: seq<Field>, eol: string, body: string, status: string, h: Headers)
    requires LineEnd(eol) && forall i | 0 <= i < |fields| :: Carried(fields[i])
    ensures ReadHead(PrintFields(fields, eol, eol + body), status, h) == Head(status, AddFields(h, fields), body)
    decreases |fields|
  {
    hide Carried, FieldLine, ReadHead, Add;
    if fields == [] {
      BlankLineEndsHead(eol, body, status, h);
    } else {
      var f := fields[0];
      FieldLineReads(f, eol, PrintFields(fields[1..], eol, eol + body), status, h);
      FieldsRead(fields[1..], eol, body, status, Add(h, f.key, f.value));
    }
  }

  // ---- The status ----

  lemma {:induction false} ItoaReads(n: nat)
    ensures Digits(Itoa(n)) == n
  {
    var s, digit := Itoa(n), '0' + (n % 10) as char;
    if n < 10 {
      assert s[..0] == [];
    } else {
      ItoaReads(n / 10);
      assert s[..|s| - 1] == Itoa(n / 10);
    }
  }

  lemma ItoaIsWord(n: nat)
    ensures Atoi(Itoa(n)) == if n <= MAX_INT then Some(n) else None
    ensures var s := Itoa(n);
            Word(s) && '\n' !in s && ':' !in s && !IsSpace(s[|s| - 1])
  {
    ItoaReads(n);
    var s := Itoa(n);
    assert IsDigit(s[0]);
    assert forall c | IsDigit(c) :: !IsSpace(c) && c != '\n' && c != ':' && c != '+' && c != '-';
  }

  /** A sign is read as one, and the range is that of a 64-bit int on both sides. */
  lemma SignedReads(n: nat)
    ensures Atoi("+" + Itoa(n)) == if n < 0x8000_0000_0000_0000 then Some(n) else None
    ensures var minus := -(n as int); Atoi("-" + Itoa(n)) == if n <= 0x8000_0000_0000_0000 then Some(minus) else None
    ensures Atoi("+") == None && Atoi("-") == None && Atoi("") == None
  {
    ItoaReads(n);
    hide Itoa, Digits;
    assert ("+" + Itoa(n))[1..] == Itoa(n) && ("-" + Itoa(n))[1..] == Itoa(n);
  }

  /** What the status line leaves of the reason once its end is trimmed. */
  function TrimmedReason(reason: string): (r: string)
    ensures r != "" && r[0] == ' '
  {
    TrimRightIs(" " + reason, IsCrLf);
    TrimRightAll(" " + reason, IsCrLf);
    assert !IsCrLf((" " + reason)[0]);
    TrimRight(" " + reason, IsCrLf)
  }

  lemma StatusLineShape(s: Status)
    requires '\n' !in s.reason
    ensures '\n' !in StatusLine(s)
    ensures TrimRight(StatusLine(s), IsCrLf) == "Status" + [':'] + ([' '] + Itoa(s.code) + TrimmedReason(s.reason))
  {
    var d := Itoa(s.code);
    ItoaIsWord(s.code);
    hide Itoa, Word, TrimRight, IsSpace;
    var start := "Status: " + d;
    assert start[|start| - 1] == d[|d| - 1] && IsDigit(d[|d| - 1]);
    TrimRightAppend(start, " " + s.reason, IsCrLf);
    assert start + TrimmedReason(s.reason) == "Status" + [':'] + ([' '] + d + TrimmedReason(s.reason));
    assert '\n' !in "Status: ";
  }

  lemma StatusValue(d: string, tail: string)
    requires Word(d) && tail != "" && tail[0] == ' '
    ensures var v := TrimSpace([' '] + d + tail);
            Fields(v) != [] && Fields(v)[0] == d
  {
    var s := [' '] + d + tail;
    assert s[1..] == d + tail;
    assert TrimLeft(s, IsSpace) == TrimLeft(d + tail, IsSpace) == d + tail;
    TrimRightAppend(d, tail, IsSpace);
    var z := TrimRight(tail, IsSpace);
    TrimRightIs(tail, IsSpace);
    FirstSpaceOfWord(d, z);
    assert (d + z)[..|d|] == d;
  }

  /** A code beyond a 64-bit int is not read, and 200 is answered. */
  function CodeRead(s: Status): int {
    if s.code <= MAX_INT then s.code else 200
  }

  lemma StatusCode(s: Status)
    ensures CodeOf(TrimSpace([' '] + Itoa(s.code) + TrimmedReason(s.reason))) == CodeRead(s)
  {
    ItoaIsWord(s.code);
    hide Itoa, TrimSpace, TrimmedReason, Word, Fields, Atoi;
    StatusValue(Itoa(s.code), TrimmedReason(s.reason));
  }

  lemma StatusTaken(value: string, h: Headers)
    ensures Taken("Status" + [':'] + value, "", h) == (TrimSpace(value), h)
  {
    StatusKey();
    SplitAt("Status", ':', value);
    hide TrimSpace, Cut, IsStatus;
  }

  lemma StatusLineReads(s: Status, eol: string, rest: string, h: Headers)
    requires '\n' !in s.reason && LineEnd(eol)
    ensures var value := TrimSpace([' '] + Itoa(s.code) + TrimmedReason(s.reason));
            ReadHead(StatusLine(s) + (eol + rest), "", h) == ReadHead(rest, value, h)
  {
    StatusLineShape(s);
    LineReads(StatusLine(s), eol, rest, "", h);
    StatusTaken([' '] + Itoa(s.code) + TrimmedReason(s.reason), h);
    hide *;
  }

  lemma StatusKey()
    ensures TrimSpace("Status") == "Status" && IsStatus("Status") && ':' !in "Status"
  {
    TrimSpaceNothing("Status");
  }

  // ---- What was read from lines ----

  /** Headers that came out of header lines. */
  ghost predicate FromLines(h: Headers) {
    forall name | name in h :: Readable(name) && forall v | v in h[name] :: Trimmed(v)
  }

  lemma TrimSpaceTrims(s: string)
    ensures TrimSpace(TrimSpace(s)) == TrimSpace(s) && forall c | c in TrimSpace(s) :: c in s
  {
    TrimLeftIs(s, IsSpace);
    var t := TrimLeft(s, IsSpace);
    TrimRightIs(t, IsSpace);
    TrimSpaceNothing(TrimRight(t, IsSpace));
  }

  /** Recasing does not change which names a line can carry. */
  lemma ReadableIffCanonical(key: string)
    ensures Readable(Canonical(key)) <==> Readable(key)
  {
    if FieldName(key) {
      var name := Canonical(key);
      RecasedTwice(key, true);
      RecasedStatus(key);
      TokensArePlain(key);
      TokensArePlain(name);
      hide IsStatus, Trimmed, Recased, IsToken;
    }
  }

  lemma {:induction false} RecasedAt(key: string, first: bool, i: nat)
    requires i < |key|
    ensures Recased(key, first)[i] == Upper(key[i]) || Recased(key, first)[i] == Lower(key[i])
  {
    if i > 0 {
      RecasedAt(key[1..], key[0] == '-', i - 1);
    }
  }

  /** Changing the case of a token character does not change which letter of "Status" it can be. */
  lemma CaseIsIrrelevant(c: char)
    requires IsToken(c)
    ensures forall d | d in [Upper(c), Lower(c)] ::
              && (FoldsToS(d) <==> FoldsToS(c)) && (d in "tT" <==> c in "tT")
              && (d in "aA" <==> c in "aA") && (d in "uU" <==> c in "uU")
  {
  }

  lemma RecasedLetter(key: string, i: nat)
    requires i < |key| && IsToken(key[i])
    ensures var c, d := key[i], Recased(key, true)[i];
            && (FoldsToS(d) <==> FoldsToS(c)) && (d in "tT" <==> c in "tT")
            && (d in "aA" <==> c in "aA") && (d in "uU" <==> c in "uU")
  {
    RecasedAt(key, true, i);
    CaseIsIrrelevant(key[i]);
    hide *;
  }

  lemma RecasedStatus(key: string)
    requires FieldName(key)
    ensures IsStatus(Recased(key, true)) <==> IsStatus(key)
  {
    hide Recased, FoldsToS, IsToken;
    if |key| == 6 {
      RecasedLetter(key, 0);
      RecasedLetter(key, 1);
      RecasedLetter(key, 2);
      RecasedLetter(key, 3);
      RecasedLetter(key, 4);
      RecasedLetter(key, 5);
    }
  }

  lemma AddedFromLines(h: Headers, key: string, value: string)
    requires FromLines(h) && Readable(key) && Trimmed(value)
    ensures FromLines(Add(h, key, value))
  {
    ReadableIffCanonical(key);
    hide Canonical, Readable, Trimmed;
  }

  lemma TakenFromLines(line: string, status: string, h: Headers)
    requires '\n' !in line && FromLines(h)
    ensures FromLines(Taken(line, status, h).1)
  {
    var (key, value, found) := Cut(line, ':');
    TrimSpaceTrims(key);
    TrimSpaceTrims(value);
    assert found ==> ':' !in key && '\n' !in key && '\n' !in value;
    hide TrimSpace, IsStatus, Cut, Add, FromLines;
    if found && !IsStatus(TrimSpace(key)) {
      AddedFromLines(h, TrimSpace(key), TrimSpace(value));
    }
  }

  lemma LineHasNoNewline(input: string, i: nat)
    requires i < |input| && input[i] == '\n' && forall k | 0 <= k < i :: input[k] != '\n'
    ensures '\n' !in TrimRight(input[..i + 1], IsCrLf)
  {
    var line := TrimRight(input[..i + 1], IsCrLf);
    TrimRightIs(input[..i + 1], IsCrLf);
    hide TrimRight;
    assert |line| <= i by {
      assert IsCrLf('\n');
    }
    forall k | 0 <= k < |line|
      ensures line[k] != '\n'
    {
      assert line[k] == input[k];
    }
  }

  lemma {:induction false} HeadFromLines(input: string, status: string, h: Headers)
    requires FromLines(h)
    ensures ReadHead(input, status, h).Head? ==> FromLines(ReadHead(input, status, h).headers)
    decreases |input|
  {
    var i := Index(input, '\n');
    HeadNext(input, status, h);
    hide ReadHead, TrimRight, Taken, FromLines, Index;
    if i < |input| {
      LineHasNoNewline(input, i);
      var line := TrimRight(input[..i + 1], IsCrLf);
      if line != "" {
        TakenFromLines(line, status, h);
        var (s, g) := Taken(line, status, h);
        HeadFromLines(input[i + 1..], s, g);
      }
    }
  }

  // ---- The round trip ----

  /** The response is the one printed: the code (200 when there is no Status), no header but those printed
      and those already there, every header's values in the order printed after those already there, and
      the body to the last byte. */
  ghost predicate RoundTrips(status: Option<Status>, fields: seq<Field>, eol: string, body: string, present: Headers) {
    var r := Respond(PrintResponse(status, fields, eol, body), present);
    && r.Response? && r.body == body
    && r.code == (if status.Some? then status.value.code else 200)
    && r.headers.Keys == present.Keys + NamesOf(fields)
    && forall name :: Lookup(r.headers, name) == Lookup(present, name) + ValuesOf(fields, name)
  }

  lemma PrintedIsRead(status: Option<Status>, fields: seq<Field>, eol: string, body: string)
    requires LineEnd(eol) && forall i | 0 <= i < |fields| :: Carried(fields[i])
    requires status.Some? ==> '\n' !in status.value.reason
    ensures var head := ReadHead(PrintResponse(status, fields, eol, body), "", map[]);
            && head.Head? && head.headers == AddFields(map[], fields) && head.body == body
            && CodeOf(head.status) == if status.Some? then CodeRead(status.value) else 200
  {
    hide ReadHead, Carried, StatusLine, CodeOf;
    var head := PrintFields(fields, eol, eol + body);
    if status.Some? {
      var s := status.value;
      StatusLineReads(s, eol, head, map[]);
      StatusCode(s);
      FieldsRead(fields, eol, body, TrimSpace([' '] + Itoa(s.code) + TrimmedReason(s.reason)), map[]);
    } else {
      NoStatus();
      FieldsRead(fields, eol, body, "", map[]);
    }
  }

  lemma NoStatus()
    ensures CodeOf("") == 200
  {
  }

  lemma MergedLookup(present: Headers, h: Headers)
    ensures Merged(present, h).Keys == present.Keys + h.Keys
    ensures forall name :: Lookup(Merged(present, h), name) == Lookup(present, name) + Lookup(h, name)
  {
  }

  lemma AddedLookup(fields: seq<Field>)
    ensures AddFields(map[], fields).Keys == NamesOf(fields)
    ensures forall name :: Lookup(AddFields(map[], fields), name) == ValuesOf(fields, name)
  {
    AddFieldsKeys(map[], fields);
    forall name
      ensures Lookup(AddFields(map[], fields), name) == ValuesOf(fields, name)
    {
      AddFieldsLookup(map[], fields, name);
    }
  }

  lemma RespondIs(input: string, present: Headers)
    ensures var head := ReadHead(input, "", map[]);
            head.Head? ==>
              Respond(input, present) == Response(CodeOf(head.status), Merged(present, head.headers), head.body)
  {
    hide ReadHead, CodeOf, Merged;
  }

  lemma CarriedRoundTrip(status: Option<Status>, fields: seq<Field>, eol: string, body: string, present: Headers)
    requires LineEnd(eol) && forall i | 0 <= i < |fields| :: Carried(fields[i])
    requires status.Some? ==> '\n' !in status.value.reason && status.value.code <= MAX_INT
    ensures RoundTrips(status, fields, eol, body, present)
  {
    PrintedIsRead(status, fields, eol, body);
    AddedLookup(fields);
    MergedLookup(present, AddFields(map[], fields));
    RespondIs(PrintResponse(status, fields, eol, body), present);
    hide Respond, ReadHead, Carried, CodeOf, PrintResponse, NamesOf, ValuesOf, Lookup, Merged, AddFields, LineEnd;
    forall name
      ensures Lookup(Merged(present, AddFields(map[], fields)), name)
           == Lookup(present, name) + ValuesOf(fields, name)
    {
      assert Lookup(AddFields(map[], fields), name) == ValuesOf(fields, name);
    }
  }

  lemma {:induction false} ValueListed(fields: seq<Field>, i: nat)
    requires i < |fields|
    ensures fields[i].value in ValuesOf(fields, Canonical(fields[i].key))
  {
    hide Canonical;
    if i > 0 {
      ValueListed(fields[1..], i - 1);
    }
  }

  lemma SameTail(a: seq<string>, b: seq<string>, c: seq<string>)
    requires a + b == a + c
    ensures b == c
  {
    assert (a + b)[|a|..] == b && (a + c)[|a|..] == c;
  }

  lemma RoundTripReads(status: Option<Status>, fields: seq<Field>, eol: string, body: string,
                       present: Headers, name: string)
    ensures var head := ReadHead(PrintResponse(status, fields, eol, body), "", map[]);
            RoundTrips(status, fields, eol, body, present) ==>
              head.Head? && Lookup(head.headers, name) == ValuesOf(fields, name)
  {
    if !RoundTrips(status, fields, eol, body, present) {
      return;
    }
    var read := ReadHead(PrintResponse(status, fields, eol, body), "", map[]).headers;
    hide ReadHead, PrintResponse, CodeOf, ValuesOf, NamesOf;
    MergedLookup(present, read);
    hide Merged, Lookup;
    SameTail(Lookup(present, name), Lookup(read, name), ValuesOf(fields, name));
  }

  lemma ValueFromLines(h: Headers, name: string, value: string)
    requires FromLines(h) && value in Lookup(h, name)
    ensures Readable(name) && Trimmed(value)
  {
    hide Readable, Trimmed;
  }

  lemma CarriedIs(f: Field)
    ensures Carried(f) <==> Readable(f.key) && Trimmed(f.value)
  {
  }

  /** What does come back had a name and a value that a line can carry. */
  lemma OnlyCarriedRoundTrip(status: Option<Status>, fields: seq<Field>, eol: string, body: string,
                             present: Headers, i: nat)
    requires RoundTrips(status, fields, eol, body, present) && i < |fields|
    ensures Carried(fields[i])
  {
    var input, name := PrintResponse(status, fields, eol, body), Canonical(fields[i].key);
    RoundTripReads(status, fields, eol, body, present, name);
    ReadableIffCanonical(fields[i].key);
    assert FromLines(map[]);
    HeadFromLines(input, "", map[]);
    ValueListed(fields, i);
    hide *;
    ValueFromLines(ReadHead(input, "", map[]).headers, name, fields[i].value);
    CarriedIs(fields[i]);
  }

  /** The response comes back exactly when every field is one that a line can carry and the code fits an
      int - for every body, either line end, and whatever headers are already there. */
  lemma ResponseRoundTripIff(status: Option<Status>, fields: seq<Field>, eol: string, body: string, present: Headers)
    requires LineEnd(eol) && (status.Some? ==> '\n' !in status.value.reason)
    ensures RoundTrips(status, fields, eol, body, present) <==>
              (forall i | 0 <= i < |fields| :: Carried(fields[i]))
              && (status.Some? ==> status.value.code < 0x8000_0000_0000_0000)
  {
    hide Carried, Respond, ReadHead;
    if RoundTrips(status, fields, eol, body, present) {
      forall i | 0 <= i < |fields|
        ensures Carried(fields[i])
      {
        OnlyCarriedRoundTrip(status, fields, eol, body, present, i);
      }
      CodeComesBack(status, fields, eol, body, present);
    } else if (forall i | 0 <= i < |fields| :: Carried(fields[i]))
              && (status.Some? ==> status.value.code <= MAX_INT) {
      CarriedRoundTrip(status, fields, eol, body, present);
    }
  }

  lemma CodeComesBack(status: Option<Status>, fields: seq<Field>, eol: string, body: string, present: Headers)
    requires LineEnd(eol) && (status.Some? ==> '\n' !in status.value.reason)
    requires forall i | 0 <= i < |fields| :: Carried(fields[i])
    ensures RoundTrips(status, fields, eol, body, present) && status.Some? ==> status.value.code <= MAX_INT
  {
    PrintedIsRead(status, fields, eol, body);
    hide ReadHead, Carried, CodeOf, PrintResponse, NamesOf, ValuesOf, Lookup, Merged;
  }
}
