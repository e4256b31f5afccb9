/** Reading a CGI response (internal/gitserve/cgi.go; sections 6.2 and 6.3 of RFC 3875). */
module Cgi {
  import opened Text
  import opened Wrappers

  type Headers = map<string, seq<string>>

  predicate IsCrLf(c: char) {
    c == '\r' || c == '\n'
  }

  // ---- The library calls: header keys, case folding, numbers ----

  predicate IsLower(c: char) {
    'a' <= c <= 'z'
  }

  predicate IsUpper(c: char) {
    'A' <= c <= 'Z'
  }

  predicate IsDigit(c: char) {
    '0' <= c <= '9'
  }

  /** A token character of a field name. */
  predicate IsToken(c: char) {
    IsLower(c) || IsUpper(c) || IsDigit(c) || c in "!#$%&'*+-.^_`|~"
  }

  /** A key as the grammar of header fields has it. */
  predicate FieldName(key: string) {
    forall i | 0 <= i < |key| :: IsToken(key[i])
  }

  function Upper(c: char): char {
    if IsLower(c) then c - 'a' + 'A' else c
  }

  function Lower(c: char): char {
    if IsUpper(c) then c - 'A' + 'a' else c
  }

  /** Capitals at the start and after each hyphen, small letters elsewhere. */
  function Recased(key: string, first: bool): (r: string)
    ensures |r| == |key|
  {
    if key == [] then []
    else [if first then Upper(key[0]) else Lower(key[0])] + Recased(key[1..], key[0] == '-')
  }

  /** textproto.CanonicalMIMEHeaderKey: a key with a character no field name has is left alone. */
  function Canonical(key: string): string {
    if FieldName(key) then Recased(key, true) else key
  }

  /** strings.EqualFold(key, "Status"); under simple folding the long s equals an s. */
  predicate IsStatus(key: string) {
    && |key| == 6
    && FoldsToS(key[0]) && key[1] in "tT" && key[2] in "aA" && key[3] in "tT" && key[4] in "uU"
    && FoldsToS(key[5])
  }

  predicate FoldsToS(c: char) {
    c == 's' || c == 'S' || c == '\U{17F}'
  }

  function Digits(s: string): (n: nat)
    requires forall i | 0 <= i < |s| :: IsDigit(s[i])
  {
    if s == [] then 0
    else
      assert IsDigit(s[|s| - 1]);
      10 * Digits(s[..|s| - 1]) + (s[|s| - 1] - '0') as nat
  }

  const MAX_INT := 0x7FFF_FFFF_FFFF_FFFF

  /** strconv.Atoi: an optional sign, one or more digits, within a 64-bit int. */
  function Atoi(s: string): Option<int> {
    var signed := s != [] && (s[0] == '+' || s[0] == '-');
    var d := if signed then s[1..] else s;
    if d == [] || exists i | 0 <= i < |d| :: !IsDigit(d[i]) then None
    else
      var magnitude: int := Digits(d);
      var n := if signed && s[0] == '-' then -magnitude else magnitude;
      if -MAX_INT - 1 <= n <= MAX_INT then Some(n) else None
  }

  // ---- The response ----

  function Lookup(h: Headers, name: string): seq<string> {
    if name in h then h[name] else []
  }

  function Add(h: Headers, key: string, value: string): Headers {
    var k := Canonical(key);
    h[k := Lookup(h, k) + [value]]
  }

  datatype Head = NoBlankLine | Head(status: string, headers: Headers, body: string)

  /** What one header line does to the status and the headers read so far. */
  function Taken(line: string, status: string, headers: Headers): (string, Headers) {
    var (key, value, found) := Cut(line, ':');
    if !found then (status, headers)
    else if IsStatus(TrimSpace(key)) then (TrimSpace(value), headers)
    else (status, Add(headers, TrimSpace(key), TrimSpace(value)))
  }

  function ReadHead(input: string, status: string, headers: Headers): Head
    decreases |input|
  {
    var i := Index(input, '\n');
    if i == |input| then NoBlankLine
    else
      var line, rest := TrimRight(input[..i + 1], IsCrLf), input[i + 1..];
      if line == "" then Head(status, headers, rest)
      else
        var (s, h) := Taken(line, status, headers);
        ReadHead(rest, s, h)
  }

  function CodeOf(status: string): int {
    var fields := Fields(status);
    if fields != [] && Atoi(fields[0]).Some? then Atoi(fields[0]).value else 200
  }

  datatype Response = BadGateway | Response(code: int, headers: Headers, body: string)

  /** The headers already on the response, then the ones read. */
  function Merged(present: Headers, h: Headers): Headers {
    map name | name in present.Keys + h.Keys :: Lookup(present, name) + Lookup(h, name)
  }

  /** `present` is what earlier handlers have put on the response. */
  function Respond(input: string, present: Headers): Response {
    match ReadHead(input, "", map[])
    case NoBlankLine => BadGateway
    case Head(status, headers, body) => Response(CodeOf(status), Merged(present, headers), body)
  }

  // ---- The code ----

  method ParseCGIResponse(input: string, present: Headers) returns (r: Response)
    ensures r == Respond(input, present)
  {
    hide IsStatus, TrimSpace, TrimRight, CodeOf, Merged, Taken, AsAdded;
    NothingAdded();
    var buffered := input;
    var status := "";
    var headers: Headers := map[];
    while true
      invariant ReadHead(buffered, status, headers) == ReadHead(input, "", map[])
      invariant AsAdded(headers)
      decreases |buffered|
    {
      var i := Index(buffered, '\n');
      if i == |buffered| {
        return BadGateway;
      }
      var line := TrimRight(buffered[..i + 1], IsCrLf);
      buffered := buffered[i + 1..];
      if line == "" {
        break;
      }
      status, headers := TakeLine(line, status, headers);
    }
    assert ReadHead(input, "", map[]) == Head(status, headers, buffered);
    var code := ReadCode(status);
    var written := WriteHeaders(present, headers);
    return Response(code, written, buffered);
  }

  /** One turn of the loop on a line that is not blank. */
  method TakeLine(line: string, status: string, headers: Headers) returns (s: string, h: Headers)
    requires AsAdded(headers)
    ensures (s, h) == Taken(line, status, headers) && AsAdded(h)
  {
    hide IsStatus, TrimSpace, Cut, Add, AsAdded;
    var (key, value, found) := Cut(line, ':');
    if !found {
      return status, headers;
    }
    key := TrimSpace(key);
    if IsStatus(key) {
      return TrimSpace(value), headers;
    }
    AddKeepsShape(headers, key, TrimSpace(value));
    return status, Add(headers, key, TrimSpace(value));
  }

  method ReadCode(status: string) returns (code: int)
    ensures code == CodeOf(status)
  {
    code := 200;
    if status != "" {
      var fields := Fields(status);
      if |fields| > 0 {
        var parsed := Atoi(fields[0]);
        if parsed.Some? {
          code := parsed.value;
        }
      }
    }
  }

  /** What Add leaves: canonical keys, each with a value. */
  predicate AsAdded(h: Headers) {
    forall k | k in h :: Canonical(k) == k && h[k] != []
  }

  /** The inner loop: the values of one header. */
  method AddAll(h: Headers, key: string, values: seq<string>) returns (r: Headers)
    requires Canonical(key) == key && values != []
    ensures r.Keys == h.Keys + {key} && Lookup(r, key) == Lookup(h, key) + values
    ensures forall name | name != key :: Lookup(r, name) == Lookup(h, name)
  {
    hide Canonical;
    r := h;
    for i := 0 to |values|
      invariant r.Keys == if i == 0 then h.Keys else h.Keys + {key}
      invariant forall name | name != key :: Lookup(r, name) == Lookup(h, name)
      invariant Lookup(r, key) == Lookup(h, key) + values[..i]
    {
      r := Add(r, key, values[i]);
    }
    assert values[..|values|] == values;
  }

  /** Adding all values of a further header to what has been merged. */
  lemma MergedNext(present: Headers, h: Headers, key: string, values: seq<string>, r: Headers)
    requires key !in h
    requires var m := Merged(present, h);
             && r.Keys == m.Keys + {key} && Lookup(r, key) == Lookup(m, key) + values
             && forall name | name != key :: Lookup(r, name) == Lookup(m, name)
    ensures r == Merged(present, h[key := values])
  {
    var m, n := Merged(present, h), Merged(present, h[key := values]);
    assert Lookup(m, key) == Lookup(present, key);
    forall name | name in r
      ensures r[name] == n[name]
    {
      assert Lookup(r, name) == if name == key then Lookup(m, key) + values else Lookup(m, name);
    }
  }

  /** The outer loop visits the map in no particular order. */
  method WriteHeaders(present: Headers, h: Headers) returns (written: Headers)
    requires AsAdded(h)
    ensures written == Merged(present, h)
  {
    hide Canonical, Add, Merged, Lookup;
    written := present;
    ghost var done: Headers := map[];
    MergedNothing(present);
    var left := h.Keys;
    while left != {}
      invariant left <= h.Keys && done.Keys == h.Keys - left
      invariant forall k | k in done :: done[k] == h[k]
      invariant written == Merged(present, done)
      decreases left
    {
      var key :| key in left;
      written := AddAll(written, key, h[key]);
      MergedNext(present, done, key, h[key], written);
      done := done[key := h[key]];
      left := left - {key};
    }
    assert done == h;
  }

  lemma MergedNothing(present: Headers)
    ensures Merged(present, map[]) == present
  {
    assert forall name | name in present :: Lookup(present, name) + [] == present[name];
  }

  lemma {:induction false} RecasedTwice(key: string, first: bool)
    requires FieldName(key)
    ensures var r := Recased(key, first);
            FieldName(r) && Recased(r, first) == r
  {
    if key != [] {
      RecasedTwice(key[1..], key[0] == '-');
      assert Recased(key, first)[1..] == Recased(key[1..], key[0] == '-');
    }
  }

  lemma CanonicalTwice(key: string)
    ensures Canonical(Canonical(key)) == Canonical(key)
  {
    if FieldName(key) {
      RecasedTwice(key, true);
    }
  }

  /** One character of a name, written as a capital where a word begins and small elsewhere. */
  function Capitalised(c: char, begins: bool): char {
    if begins then (if 'a' <= c <= 'z' then c - 'a' + 'A' else c)
    else (if 'A' <= c <= 'Z' then c - 'A' + 'a' else c)
  }

  lemma {:induction false} RecasedIs(key: string, first: bool, i: nat)
    requires i < |key|
    ensures Recased(key, first)[i] == Capitalised(key[i], if i == 0 then first else key[i - 1] == '-')
  {
    if i > 0 {
      RecasedIs(key[1..], key[0] == '-', i - 1);
    }
  }

  predicate BeginsWord(key: string, i: nat)
    requires i < |key|
  {
    i == 0 || key[i - 1] == '-'
  }

  /** A field name's key, character by character: capitals at its start and after each hyphen, small letters
      elsewhere, everything else as it was.  A key that is no field name is left alone. */
  lemma CanonicalIs(key: string)
    ensures |Canonical(key)| == |key|
    ensures FieldName(key) ==>
              forall i | 0 <= i < |key| :: Canonical(key)[i] == Capitalised(key[i], BeginsWord(key, i))
    ensures !FieldName(key) ==> Canonical(key) == key
  {
    forall i | 0 <= i < |key|
      ensures Recased(key, true)[i] == Capitalised(key[i], BeginsWord(key, i))
    {
      RecasedIs(key, true, i);
    }
  }

  lemma CaseIsKept(c: char, begins: bool)
    ensures Capitalised(Capitalised(c, begins), false) == Capitalised(c, false)
    ensures Capitalised(c, begins) == '-' <==> c == '-'
    ensures Capitalised(c, true) == Capitalised(Capitalised(c, false), true)
  {
  }

  lemma CanonicalKeepsCase(key: string, i: nat)
    requires FieldName(key) && i < |key|
    ensures |Canonical(key)| == |key| && Canonical(key)[i] == Capitalised(key[i], BeginsWord(key, i))
    ensures Capitalised(Canonical(key)[i], false) == Capitalised(key[i], false)
  {
    CanonicalIs(key);
    CaseIsKept(key[i], BeginsWord(key, i));
    hide *;
  }

  lemma SameLetters(a: string, b: string, i: nat)
    requires i < |a| == |b| && forall j | 0 <= j < |a| :: Capitalised(a[j], false) == Capitalised(b[j], false)
    ensures Capitalised(a[i], BeginsWord(a, i)) == Capitalised(b[i], BeginsWord(b, i))
  {
    if i > 0 {
      CaseIsKept(a[i - 1], false);
      CaseIsKept(b[i - 1], false);
    }
    CaseIsKept(a[i], false);
    CaseIsKept(b[i], false);
    hide Capitalised;
  }

  /** Two field names are one header exactly when they agree up to the case of their letters. */
  lemma SameHeaderIff(a: string, b: string)
    requires FieldName(a) && FieldName(b)
    ensures Canonical(a) == Canonical(b) <==>
              |a| == |b| && forall i | 0 <= i < |a| :: Capitalised(a[i], false) == Capitalised(b[i], false)
  {
    CanonicalIs(a);
    CanonicalIs(b);
    hide Canonical, FieldName, BeginsWord, Capitalised;
    if Canonical(a) == Canonical(b) {
      forall i | 0 <= i < |a|
        ensures Capitalised(a[i], false) == Capitalised(b[i], false)
      {
        CanonicalKeepsCase(a, i);
        CanonicalKeepsCase(b, i);
      }
    }
    if |a| == |b| && forall i | 0 <= i < |a| :: Capitalised(a[i], false) == Capitalised(b[i], false) {
      forall i | 0 <= i < |a|
        ensures Canonical(a)[i] == Canonical(b)[i]
      {
        SameLetters(a, b, i);
      }
    }
  }

  lemma LetterOfStatus(c: char)
    requires IsToken(c)
    ensures FoldsToS(c) <==> Capitalised(c, true) == 'S'
    ensures FoldsToS(c) <==> Capitalised(c, false) == 's'
    ensures c in "tT" <==> Capitalised(c, false) == 't'
    ensures c in "aA" <==> Capitalised(c, false) == 'a'
    ensures c in "uU" <==> Capitalised(c, false) == 'u'
    ensures FoldsToS(c) || c in "tTaAuU" ==> c != '-'
  {
  }

  /** A field name is the status exactly when its canonical form is Status. */
  lemma StatusIff(key: string)
    requires FieldName(key)
    ensures IsStatus(key) <==> Canonical(key) == "Status"
  {
    CanonicalIs(key);
    var r, status := Canonical(key), "Status";
    hide Canonical;
    if |key| == 6 {
      forall i | 0 <= i < 6
        ensures r[i] == Capitalised(key[i], BeginsWord(key, i))
      {
      }
      LetterOfStatus(key[0]);
      LetterOfStatus(key[1]);
      LetterOfStatus(key[2]);
      LetterOfStatus(key[3]);
      LetterOfStatus(key[4]);
      LetterOfStatus(key[5]);
      hide IsToken, FoldsToS, Capitalised, FieldName;
      assert r == status <==> r[0] == 'S' && r[1] == 't' && r[2] == 'a' && r[3] == 't' && r[4] == 'u' && r[5] == 's';
    }
  }

  /** A line without a colon is skipped; Status replaces the status read so far; any other line adds one value
      to one header, the last of it, and touches no other. */
  lemma LineTaken(key: string, value: string, status: string, h: Headers)
    requires ':' !in key
    ensures Taken(key, status, h) == (status, h)
    ensures var (s, g) := Taken(key + [':'] + value, status, h);
            if IsStatus(TrimSpace(key)) then s == TrimSpace(value) && g == h
            else
              && s == status
              && forall name :: Lookup(g, name)
                             == Lookup(h, name) + if name == Canonical(TrimSpace(key)) then [TrimSpace(value)] else []
  {
    SplitAt(key, ':', value);
    hide TrimSpace, IsStatus, Canonical;
    assert Cut(key, ':') == (key, "", false);
    hide Cut;
  }

  lemma AddKeepsShape(h: Headers, key: string, value: string)
    requires AsAdded(h)
    ensures AsAdded(Add(h, key, value))
  {
    CanonicalTwice(key);
    hide Canonical;
  }

  lemma NothingAdded()
    ensures AsAdded(map[])
  {
  }

  // ---- A response without a blank line is a bad gateway, and no other ----

  /** Some line of the input, ended by a newline, is empty but for carriage returns. */
  ghost predicate HasBlankLine(input: string) {
    exists from: nat, to: nat :: from <= to && BlankLineAt(input, from, to)
  }

  ghost predicate BlankLineAt(input: string, from: nat, to: nat) {
    && to < |input| && input[to] == '\n'
    && (from == 0 || (from <= |input| && input[from - 1] == '\n'))
    && forall k | from <= k < to :: input[k] == '\r'
  }

  lemma LineIsBlankIff(input: string, i: nat)
    requires i < |input| && input[i] == '\n' && forall k | 0 <= k < i :: input[k] != '\n'
    ensures TrimRight(input[..i + 1], IsCrLf) == "" <==> BlankLineAt(input, 0, i)
  {
    var line := input[..i + 1];
    TrimRightAll(line, IsCrLf);
    hide TrimRight;
    if BlankLineAt(input, 0, i) {
      forall k | 0 <= k < |line|
        ensures IsCrLf(line[k])
      {
        assert line[k] == input[k];
      }
    }
    if forall k | 0 <= k < |line| :: IsCrLf(line[k]) {
      forall k | 0 <= k < i
        ensures input[k] == '\r'
      {
        assert line[k] == input[k] && IsCrLf(line[k]);
      }
    }
  }

  /** A blank line after the first newline is one of the rest, shifted. */
  lemma BlankLineShifts(input: string, i: nat, from: nat, to: nat)
    requires i < |input| && input[i] == '\n' && i + 1 <= from <= to
    ensures BlankLineAt(input, from, to) <==> BlankLineAt(input[i + 1..], from - (i + 1), to - (i + 1))
  {
    var rest := input[i + 1..];
    if BlankLineAt(rest, from - (i + 1), to - (i + 1)) {
      assert forall k | from <= k < to :: input[k] == rest[k - (i + 1)];
    }
  }

  lemma BlankLineIsLater(input: string, i: nat, from: nat, to: nat)
    requires i < |input| && input[i] == '\n' && forall k | 0 <= k < i :: input[k] != '\n'
    requires from <= to && BlankLineAt(input, from, to) && !BlankLineAt(input, 0, i)
    ensures i + 1 <= from
  {
    assert from == 0 ==> to == i;
  }

  lemma BlankLineLater(input: string, i: nat)
    requires i < |input| && i == Index(input, '\n') && !BlankLineAt(input, 0, i)
    ensures HasBlankLine(input) <==> HasBlankLine(input[i + 1..])
  {
    hide Index, BlankLineAt;
    var rest := input[i + 1..];
    if HasBlankLine(input) {
      var from: nat, to: nat :| from <= to && BlankLineAt(input, from, to);
      BlankLineIsLater(input, i, from, to);
      BlankLineShifts(input, i, from, to);
      assert BlankLineAt(rest, from - (i + 1), to - (i + 1));
    }
    if HasBlankLine(rest) {
      var from: nat, to: nat :| from <= to && BlankLineAt(rest, from, to);
      BlankLineShifts(input, i, from + i + 1, to + i + 1);
      assert BlankLineAt(input, from + i + 1, to + i + 1);
    }
  }

  lemma NoLineNoBlank(input: string)
    requires Index(input, '\n') == |input|
    ensures !HasBlankLine(input)
  {
    hide Index;
    assert '\n' !in input;
  }

  /** How reading goes on after one line. */
  lemma HeadNext(input: string, status: string, headers: Headers)
    ensures var i, head := Index(input, '\n'), ReadHead(input, status, headers);
            if i == |input| then head == NoBlankLine
            else
              var line, rest := TrimRight(input[..i + 1], IsCrLf), input[i + 1..];
              var (s, h) := Taken(line, status, headers);
              head == if line == "" then Head(status, headers, rest) else ReadHead(rest, s, h)
  {
    hide Index, TrimRight, Taken;
  }

  lemma {:induction false} HeadEndsIff(input: string, status: string, headers: Headers)
    ensures ReadHead(input, status, headers).NoBlankLine? <==> !HasBlankLine(input)
    decreases |input|
  {
    var i := Index(input, '\n');
    HeadNext(input, status, headers);
    hide ReadHead, Index, TrimRight, Taken, BlankLineAt;
    if i == |input| {
      NoLineNoBlank(input);
    } else {
      LineIsBlankIff(input, i);
      if !BlankLineAt(input, 0, i) {
        BlankLineLater(input, i);
        hide HasBlankLine;
        var (s, h) := Taken(TrimRight(input[..i + 1], IsCrLf), status, headers);
        HeadEndsIff(input[i + 1..], s, h);
      }
    }
  }

  lemma BadGatewayIff(input: string, present: Headers)
    ensures Respond(input, present) == BadGateway <==> !HasBlankLine(input)
  {
    HeadEndsIff(input, "", map[]);
  }
}
