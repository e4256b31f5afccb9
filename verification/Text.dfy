/** The functions of Go's strings package that the parsers use, on sequences of runes, with the laws the
  round trips need. */
module Text {
  import opened Wrappers

  /** unicode.IsSpace. */
  predicate IsSpace(c: char) {
    || '\t' <= c <= '\r' || c == ' ' || c == '\U{85}' || c == '\U{A0}' || c == '\U{1680}'
    || '\U{2000}' <= c <= '\U{200A}' || c == '\U{2028}' || c == '\U{2029}' || c == '\U{202F}'
    || c == '\U{205F}' || c == '\U{3000}'
  }

  predicate IsNewline(c: char) {
    c == '\n'
  }

  /** The first index of c, or the length. */
  function Index(s: string, c: char): (i: nat)
    ensures i <= |s|
    ensures forall k | 0 <= k < i :: s[k] != c
    ensures i < |s| ==> s[i] == c
    ensures i == |s| <==> c !in s
  {
    if s == [] then 0 else if s[0] == c then 0 else 1 + Index(s[1..], c)
  }

  lemma {:induction false} IndexAt(s: string, c: char, i: nat)
    requires i < |s| && s[i] == c && forall k | 0 <= k < i :: s[k] != c
    ensures Index(s, c) == i
  {
    if i > 0 {
      IndexAt(s[1..], c, i - 1);
    }
  }

  function Split(s: string, c: char): (parts: seq<string>)
    ensures |parts| >= 1
    decreases |s|
  {
    var i := Index(s, c);
    if i == |s| then [s] else [s[..i]] + Split(s[i + 1..], c)
  }

  /** At most n parts; the last one is unsplit. */
  function SplitN(s: string, c: char, n: nat): (parts: seq<string>)
    requires n >= 1
    ensures 1 <= |parts| <= n
    decreases n
  {
    var i := Index(s, c);
    if n == 1 || i == |s| then [s] else [s[..i]] + SplitN(s[i + 1..], c, n - 1)
  }

  /** The text before and after the first c, and whether there is one. */
  function Cut(s: string, c: char): (string, string, bool) {
    var i := Index(s, c);
    if i == |s| then (s, "", false) else (s[..i], s[i + 1..], true)
  }

  function TrimLeft(s: string, p: char -> bool): string
  {
    if s != [] && p(s[0]) then TrimLeft(s[1..], p) else s
  }

  function TrimRight(s: string, p: char -> bool): string
  {
    if s != [] && p(s[|s| - 1]) then TrimRight(s[..|s| - 1], p) else s
  }

  function TrimSpace(s: string): string {
    TrimRight(TrimLeft(s, IsSpace), IsSpace)
  }

  function TrimPrefix(s: string, prefix: string): string {
    if prefix <= s then s[|prefix|..] else s
  }

  function FirstSpace(s: string): (i: nat)
    ensures i <= |s| && (i < |s| ==> IsSpace(s[i]))
    ensures forall k | 0 <= k < i :: !IsSpace(s[k])
  {
    if s == [] || IsSpace(s[0]) then 0 else 1 + FirstSpace(s[1..])
  }

  /** The words of s: what is left between runs of white space. */
  function Fields(s: string): seq<string>
    decreases |s|
  {
    if s == [] then []
    else if IsSpace(s[0]) then Fields(s[1..])
    else
      var i := FirstSpace(s);
      [s[..i]] + Fields(s[i..])
  }

  function Join(words: seq<string>, sep: char): string {
    if words == [] then ""
    else if |words| == 1 then words[0]
    else words[0] + [sep] + Join(words[1..], sep)
  }

  predicate Word(w: string) {
    w != [] && forall i | 0 <= i < |w| :: !IsSpace(w[i])
  }

  /** The loop all the parsers share: one record at a time, some of them skipped. */
  function Collect<T>(records: seq<string>, f: string -> Option<T>): seq<T> {
    if records == [] then []
    else
      var r := f(records[|records| - 1]);
      Collect(records[..|records| - 1], f) + (if r.Some? then [r.value] else [])
  }

  // ---- Laws ----

  lemma CollectNext<T>(records: seq<string>, f: string -> Option<T>, i: nat)
    requires i < |records|
    ensures Collect(records[..i + 1], f)
         == Collect(records[..i], f) + (if f(records[i]).Some? then [f(records[i]).value] else [])
    ensures records[..|records|] == records
  {
    assert records[..i + 1][..i] == records[..i];
  }

  lemma {:induction false} CollectCons<T>(r: string, rs: seq<string>, f: string -> Option<T>)
    ensures Collect([r] + rs, f) == (if f(r).Some? then [f(r).value] else []) + Collect(rs, f)
  {
    if rs == [] {
      assert [r] + rs == [r] && [r][..0] == [];
    } else {
      var all, n := [r] + rs, |rs|;
      assert all[n] == rs[n - 1] && all[..n] == [r] + rs[..n - 1];
      CollectCons(r, rs[..n - 1], f);
    }
  }

  /** Everything collected came from some record. */
  lemma {:induction false} CollectFrom<T>(records: seq<string>, f: string -> Option<T>, i: nat) returns (k: nat)
    requires i < |Collect(records, f)|
    ensures k < |records| && f(records[k]) == Some(Collect(records, f)[i])
  {
    var n := |records| - 1;
    if i < |Collect(records[..n], f)| {
      k := CollectFrom(records[..n], f, i);
    } else {
      k := n;
    }
  }

  lemma CollectNothing<T>(f: string -> Option<T>)
    requires f("") == None
    ensures Collect([""], f) == [] && forall c :: Split("", c) == [""]
  {
    assert [""][..0] == [];
    CollectCons("", [], f);
  }

  lemma SplitAt(a: string, c: char, b: string)
    requires c !in a
    ensures Split(a + [c] + b, c) == [a] + Split(b, c)
    ensures Cut(a + [c] + b, c) == (a, b, true)
    ensures Split(a, c) == [a]
  {
    var s := a + [c] + b;
    assert s[..|a|] == a && s[|a| + 1..] == b;
    IndexAt(s, c, |a|);
  }

  lemma PrefixTrims(p: string, s: string)
    ensures p <= p + s && TrimPrefix(p + s, p) == s
  {
    assert (p + s)[..|p|] == p;
  }

  lemma SplitNAt(a: string, c: char, b: string, n: nat)
    requires c !in a && n >= 2
    ensures SplitN(a + [c] + b, c, n) == [a] + SplitN(b, c, n - 1)
    ensures SplitN(b, c, 1) == [b]
  {
    var s := a + [c] + b;
    assert s[..|a|] == a && s[|a| + 1..] == b;
    IndexAt(s, c, |a|);
  }

  lemma SplitNext(s: string, c: char)
    requires Index(s, c) < |s|
    ensures Split(s, c) == [s[..Index(s, c)]] + Split(s[Index(s, c) + 1..], c)
  {
    hide Index;
  }

  /** The parts of a split are free of the separator and have no characters of their own. */
  lemma {:induction false} SplitParts(s: string, c: char)
    ensures forall i | 0 <= i < |Split(s, c)| :: c !in Split(s, c)[i] && forall d | d in Split(s, c)[i] :: d in s
    decreases |s|
  {
    var i := Index(s, c);
    hide Index;
    if i < |s| {
      SplitParts(s[i + 1..], c);
      SplitNext(s, c);
      hide Split;
    }
  }

  lemma SplitNStart(s: string, c: char, n: nat)
    requires n >= 1
    ensures SplitN(s, c, n)[0] <= s
  {
  }

  lemma SplitNNext(s: string, c: char, n: nat)
    requires n >= 2 && c in s
    ensures SplitN(s, c, n) == [s[..Index(s, c)]] + SplitN(s[Index(s, c) + 1..], c, n - 1)
  {
    hide Index;
  }

  lemma SplitNWhole(s: string, c: char, n: nat)
    requires n == 1 || (n > 1 && c !in s)
    ensures SplitN(s, c, n) == [s]
  {
    hide Index;
  }

  lemma {:induction false} SplitNParts(s: string, c: char, n: nat, k: nat)
    requires n >= 1 && k < |SplitN(s, c, n)|
    ensures k < |SplitN(s, c, n)| - 1 ==> c !in SplitN(s, c, n)[k]
    ensures forall d | d in SplitN(s, c, n)[k] :: d in s
    decreases n
  {
    hide Index, SplitN;
    if n > 1 && c in s {
      SplitNNext(s, c, n);
      if k > 0 {
        SplitNParts(s[Index(s, c) + 1..], c, n - 1, k - 1);
      }
    } else {
      SplitNWhole(s, c, n);
    }
  }

  lemma {:induction false} TrimLeftIs(s: string, p: char -> bool)
    ensures var t := TrimLeft(s, p);
            |t| <= |s| && t == s[|s| - |t|..] && (t != [] ==> !p(t[0]))
    ensures forall i | 0 <= i < |s| - |TrimLeft(s, p)| :: p(s[i])
  {
    if s != [] && p(s[0]) {
      TrimLeftIs(s[1..], p);
      var t := TrimLeft(s[1..], p);
      assert TrimLeft(s, p) == t;
      hide TrimLeft;
      assert s[1..][|s| - 1 - |t|..] == s[|s| - |t|..];
    }
  }

  lemma {:induction false} TrimRightIs(s: string, p: char -> bool)
    ensures var t := TrimRight(s, p);
            t <= s && (t != [] ==> !p(t[|t| - 1]))
    ensures forall i | |TrimRight(s, p)| <= i < |s| :: p(s[i])
  {
    if s != [] && p(s[|s| - 1]) {
      TrimRightIs(s[..|s| - 1], p);
    }
  }

  lemma {:induction false} TrimRightAll(s: string, p: char -> bool)
    ensures TrimRight(s, p) == "" <==> forall i | 0 <= i < |s| :: p(s[i])
  {
    TrimRightIs(s, p);
    var t := TrimRight(s, p);
    if t != "" {
      assert !p(s[|t| - 1]);
    }
  }

  lemma TrimRightNothing(s: string, p: char -> bool)
    requires s == [] || !p(s[|s| - 1])
    ensures TrimRight(s, p) == s
  {
  }

  /** What ends in a character to keep is kept whole. */
  lemma {:induction false} TrimRightAppend(a: string, b: string, p: char -> bool)
    requires a != [] && !p(a[|a| - 1])
    ensures TrimRight(a + b, p) == a + TrimRight(b, p)
  {
    var s := a + b;
    if b == [] {
      assert s == a;
    } else if p(b[|b| - 1]) {
      TrimRightAppend(a, b[..|b| - 1], p);
      assert s[..|s| - 1] == a + b[..|b| - 1];
    }
  }

  lemma TrimSpaceNothing(s: string)
    requires s == [] || (!IsSpace(s[0]) && !IsSpace(s[|s| - 1]))
    ensures TrimSpace(s) == s
  {
  }

  /** Trimming leaves something as long as one character is not white space. */
  lemma TrimSpaceKeeps(s: string, i: nat)
    requires i < |s| && !IsSpace(s[i])
    ensures TrimSpace(s) != []
  {
    TrimLeftIs(s, IsSpace);
    var t := TrimLeft(s, IsSpace);
    TrimRightIs(t, IsSpace);
    assert i >= |s| - |t|;
    assert t[i - (|s| - |t|)] == s[i];
  }

  lemma {:induction false} FirstSpaceOfWord(w: string, rest: string)
    requires forall i | 0 <= i < |w| :: !IsSpace(w[i])
    requires rest == [] || IsSpace(rest[0])
    ensures FirstSpace(w + rest) == |w|
  {
    if w == [] {
      assert w + rest == rest;
    } else {
      FirstSpaceOfWord(w[1..], rest);
      assert (w + rest)[1..] == w[1..] + rest;
    }
  }

  /** Printing words with one space in between and taking the fields is the identity. */
  lemma {:induction false} FieldsOfJoin(words: seq<string>)
    requires forall i | 0 <= i < |words| :: Word(words[i])
    ensures Fields(Join(words, ' ')) == words
  {
    if words != [] {
      var w, s := words[0], Join(words, ' ');
      var rest := if |words| == 1 then "" else [' '] + Join(words[1..], ' ');
      assert s == w + rest;
      FirstSpaceOfWord(w, rest);
      assert s[..|w|] == w && s[|w|..] == rest;
      if |words| > 1 {
        FieldsOfJoin(words[1..]);
        assert rest[1..] == Join(words[1..], ' ');
      }
    }
  }

  /** Fields are words made of characters of the text. */
  lemma {:induction false} FieldsAreWords(s: string)
    ensures forall i | 0 <= i < |Fields(s)| :: Word(Fields(s)[i]) && forall d | d in Fields(s)[i] :: d in s
    decreases |s|
  {
    if s != [] {
      if IsSpace(s[0]) {
        FieldsAreWords(s[1..]);
      } else {
        var i := FirstSpace(s);
        FieldsAreWords(s[i..]);
        assert Fields(s) == [s[..i]] + Fields(s[i..]);
      }
    }
  }

  lemma {:induction false} JoinChars(words: seq<string>, sep: char, c: char)
    ensures c in Join(words, sep) <==>
            (exists i | 0 <= i < |words| :: c in words[i]) || (c == sep && |words| > 1)
  {
    if |words| > 1 {
      JoinChars(words[1..], sep, c);
      if exists i | 0 <= i < |words| :: c in words[i] {
        var i :| 0 <= i < |words| && c in words[i];
        if i > 0 {
          assert words[1..][i - 1] == words[i];
        }
      }
      if exists i | 0 <= i < |words| - 1 :: c in words[1..][i] {
        var i :| 0 <= i < |words| - 1 && c in words[1..][i];
        assert c in words[i + 1];
      }
    }
  }

  /** Joining pieces that hold no separator and splitting again gives the pieces. */
  lemma {:induction false} SplitOfJoin(pieces: seq<string>, c: char)
    requires pieces != [] && forall i | 0 <= i < |pieces| :: c !in pieces[i]
    ensures Split(Join(pieces, c), c) == pieces
  {
    if |pieces| == 1 {
      SplitAt(pieces[0], c, "");
    } else {
      SplitAt(pieces[0], c, Join(pieces[1..], c));
      SplitOfJoin(pieces[1..], c);
    }
  }
}
