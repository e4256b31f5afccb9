/** Quoting for /bin/sh (internal/automation/hook.go), read back by the token rules of the Shell Command
  Language, POSIX.1-2017 sections 2.2.1, 2.2.2 and 2.3. */
module ShellQuote {
  import opened Wrappers

  const NUL: char := '\0'

  /** ReplaceAll(value, "'", `'\''`). */
  function Escape(value: string): string {
    if value == [] then []
    else if value[0] == '\'' then ['\'', '\\', '\'', '\''] + Escape(value[1..])
    else [value[0]] + Escape(value[1..])
  }

  function QuoteShell(value: string): string {
    ['\''] + Escape(value) + ['\'']
  }

  /** The command line that InstallPostReceiveHook hands to /bin/sh -c. */
  function InstallCommand(script: string, path: string): string {
    "printf '%s\\n' " + QuoteShell(script) + " > " + QuoteShell(path) + " && chmod +x " + QuoteShell(path)
  }

  // ---- The shell's side ----

  datatype Token = Word(text: string) | Operator(text: string)

  /** Characters that stand for themselves in an unquoted word, wherever they appear. */
  predicate Plain(c: char) {
    'a' <= c <= 'z' || 'A' <= c <= 'Z' || '0' <= c <= '9' || c in "_-+./,:@%"
  }

  /** The word under way, if there is one, ends here. */
  function Emit(word: Option<string>, rest: Option<seq<Token>>): Option<seq<Token>> {
    match rest
    case None => None
    case Some(ts) => Some((if word.Some? then [Word(word.value)] else []) + ts)
  }

  function Grow(word: Option<string>, c: char): Option<string> {
    Some((if word.Some? then word.value else "") + [c])
  }

  /** Tokens of s, or None: an unfinished quotation, a NUL (no argument of a process can hold one), or
      anything outside this fragment - expansions, double quotes, comments, numbered redirections, other
      operators.  `quoted` says whether s starts between single quotes. */
  function Lex(s: string, word: Option<string>, quoted: bool): Option<seq<Token>>
    decreases |s|
  {
    if s == [] then
      if quoted then None else Emit(word, Some([]))
    else if s[0] == NUL then None
    else if quoted then
      if s[0] == '\'' then Lex(s[1..], word, false) else Lex(s[1..], Grow(word, s[0]), true)
    else if s[0] == '\'' then
      Lex(s[1..], Some(if word.Some? then word.value else ""), true)
    else if s[0] == '\\' then
      if |s| == 1 || s[1] == NUL then None
      else if s[1] == '\n' then Lex(s[2..], word, false)
      else Lex(s[2..], Grow(word, s[1]), false)
    else if s[0] == ' ' || s[0] == '\t' then Emit(word, Lex(s[1..], None, false))
    else if s[0] == '&' then
      if |s| > 1 && s[1] == '&' then Emit(word, Emit(None, After("&&", Lex(s[2..], None, false)))) else None
    else if s[0] == '>' then
      if word.Some? || (|s| > 1 && s[1] in ">&|") then None else After(">", Lex(s[1..], None, false))
    else if Plain(s[0]) then Lex(s[1..], Grow(word, s[0]), false)
    else None
  }

  function After(operator: string, rest: Option<seq<Token>>): Option<seq<Token>> {
    match rest
    case None => None
    case Some(ts) => Some([Operator(operator)] + ts)
  }

  // ---- Round trips ----

  /** An escaped quote: close, a quote after a backslash, open again. */
  lemma EscapedQuote(tail: string, word: string)
    ensures Lex(['\'', '\\', '\'', '\''] + tail, Some(word), true) == Lex(tail, Some(word + ['\'']), true)
  {
    var s := ['\'', '\\', '\'', '\''] + tail;
    var s1, s3 := ['\\', '\'', '\''] + tail, ['\''] + tail;
    assert s[1..] == s1 && s1[2..] == s3 && s3[1..] == tail;
    assert Lex(s, Some(word), true) == Lex(s1, Some(word), false);
    assert Lex(s1, Some(word), false) == Lex(s3, Some(word + ['\'']), false);
  }

  /** Between quotes, an escaped value and the closing quote add exactly the value to the word. */
  lemma {:induction false} EscapedReadsBack(value: string, rest: string, word: string)
    requires NUL !in value
    ensures Lex(Escape(value) + ['\''] + rest, Some(word), true) == Lex(rest, Some(word + value), false)
  {
    var s := Escape(value) + ['\''] + rest;
    if value == [] {
      assert s[1..] == rest && word + value == word;
    } else {
      var tail, c := Escape(value[1..]) + ['\''] + rest, value[0];
      EscapedReadsBack(value[1..], rest, word + [c]);
      assert word + [c] + value[1..] == word + value;
      if c == '\'' {
        assert s == ['\'', '\\', '\'', '\''] + tail;
        EscapedQuote(tail, word);
      } else {
        assert s == [c] + tail && s[1..] == tail;
      }
    }
  }

  lemma {:induction false} EscapedNulIsRefused(value: string, rest: string, word: string)
    requires NUL in value
    ensures Lex(Escape(value) + ['\''] + rest, Some(word), true) == None
  {
    var s := Escape(value) + ['\''] + rest;
    var tail, c := Escape(value[1..]) + ['\''] + rest, value[0];
    if c == '\'' {
      assert s == ['\'', '\\', '\'', '\''] + tail;
      EscapedQuote(tail, word);
      EscapedNulIsRefused(value[1..], rest, word + [c]);
    } else {
      assert s == [c] + tail && s[1..] == tail;
      if c != NUL {
        EscapedNulIsRefused(value[1..], rest, word + [c]);
      }
    }
  }

  /** A quoted value, whatever follows, is read as that value. */
  lemma QuotedReadsBack(value: string, rest: string)
    ensures Lex(QuoteShell(value) + rest, None, false)
         == if NUL in value then None else Lex(rest, Some(value), false)
  {
    var s := QuoteShell(value) + rest;
    assert s[1..] == Escape(value) + ['\''] + rest;
    if NUL in value {
      EscapedNulIsRefused(value, rest, "");
    } else {
      EscapedReadsBack(value, rest, "");
      assert "" + value == value;
    }
  }

  /** quoteShell(v) is one word, equal to v, exactly when v holds no NUL. */
  lemma QuoteRoundTripIff(value: string)
    ensures Lex(QuoteShell(value), None, false) == Some([Word(value)]) <==> NUL !in value
  {
    QuotedReadsBack(value, "");
    assert QuoteShell(value) + "" == QuoteShell(value);
    NothingLeft(value);
  }

  lemma PlainStep(w: string, rest: string, word: Option<string>)
    requires w != "" && Plain(w[0])
    ensures Lex(w + rest, word, false) == Lex(w[1..] + rest, Grow(word, w[0]), false)
  {
    assert (w + rest)[1..] == w[1..] + rest && (w + rest)[0] == w[0];
  }

  lemma {:induction false} PlainReadsBack(w: string, rest: string, word: Option<string>)
    requires w != "" && forall i | 0 <= i < |w| :: Plain(w[i])
    ensures Lex(w + rest, word, false) == Lex(rest, Some((if word.Some? then word.value else "") + w), false)
  {
    hide Lex, Plain;
    var grown := Grow(word, w[0]);
    PlainStep(w, rest, word);
    if |w| == 1 {
      assert w[1..] + rest == rest && w == [w[0]];
    } else {
      PlainReadsBack(w[1..], rest, grown);
      assert grown.value + w[1..] == (if word.Some? then word.value else "") + w;
    }
  }

  lemma BlankEndsWord(word: string, rest: string)
    ensures Lex(" " + rest, Some(word), false) == Emit(Some(word), Lex(rest, None, false))
  {
    assert (" " + rest)[1..] == rest;
  }

  /** The command after its first two words. */
  function Redirect(script: string, path: string): string {
    QuoteShell(script) + (" " + ("> " + (QuoteShell(path) + (" " + Chmod(path)))))
  }

  function Chmod(path: string): string {
    "&& " + ("chmod" + (" " + ("+x" + (" " + QuoteShell(path)))))
  }

  lemma ChmodTokens(path: string)
    ensures Lex(Chmod(path), None, false)
         == if NUL in path then None
            else Some([Operator("&&")] + ([Word("chmod")] + ([Word("+x")] + [Word(path)])))
  {
    hide Lex, QuoteShell;
    var end := QuoteShell(path);
    QuotedReadsBack(path, "");
    assert end + "" == end;
    PlainReadsBack("+x", " " + end, None);
    assert "" + "+x" == "+x" && "" + "chmod" == "chmod";
    BlankEndsWord("+x", end);
    var mid := "+x" + (" " + end);
    PlainReadsBack("chmod", " " + mid, None);
    BlankEndsWord("chmod", mid);
    AndThen("chmod" + (" " + mid));
    NothingLeft(path);
  }

  lemma NothingLeft(word: string)
    ensures Lex("", Some(word), false) == Some([Word(word)])
  {
    assert [Word(word)] + [] == [Word(word)];
  }

  lemma NoWord(rest: Option<seq<Token>>)
    ensures Emit(None, rest) == rest
  {
    assert rest.Some? ==> [] + rest.value == rest.value;
  }

  lemma AndThen(rest: string)
    ensures Lex("&& " + rest, None, false) == After("&&", Lex(rest, None, false))
  {
    assert ("&& " + rest)[2..] == " " + rest;
    assert (" " + rest)[1..] == rest;
    NoWord(Lex(rest, None, false));
    NoWord(After("&&", Lex(rest, None, false)));
  }

  lemma Into(rest: string)
    ensures Lex("> " + rest, None, false) == After(">", Lex(rest, None, false))
  {
    assert ("> " + rest)[1..] == " " + rest;
    assert (" " + rest)[1..] == rest;
    NoWord(Lex(rest, None, false));
  }

  lemma RedirectTokens(script: string, path: string)
    ensures Lex(Redirect(script, path), None, false)
         == if NUL in script || NUL in path then None
            else Some([Word(script)] + ([Operator(">")] + ([Word(path)] +
                      ([Operator("&&")] + ([Word("chmod")] + ([Word("+x")] + [Word(path)]))))))
  {
    hide Lex, QuoteShell, Chmod;
    var target := QuoteShell(path) + (" " + Chmod(path));
    ChmodTokens(path);
    QuotedReadsBack(path, " " + Chmod(path));
    BlankEndsWord(path, Chmod(path));
    Into(target);
    QuotedReadsBack(script, " " + ("> " + target));
    BlankEndsWord(script, "> " + target);
  }

  /** The install command is the intended one for every script and path: printf its format and the script
      into the path, then chmod the path - and it is refused exactly when one of the two holds a NUL. */
  lemma InstallCommandTokens(script: string, path: string)
    ensures Lex(InstallCommand(script, path), None, false)
         == if NUL in script || NUL in path then None
            else Some([Word("printf"), Word("%s\\n"), Word(script), Operator(">"), Word(path),
                       Operator("&&"), Word("chmod"), Word("+x"), Word(path)])
  {
    var tail, format := Redirect(script, path), "%s\\n";
    CommandParts(script, path);
    hide Lex, QuoteShell, InstallCommand, Redirect;
    RedirectTokens(script, path);
    assert NUL !in format && format == ['%', 's', '\\', 'n'];
    QuotedReadsBack(format, " " + tail);
    BlankEndsWord(format, tail);
    PlainReadsBack("printf", " " + (QuoteShell(format) + (" " + tail)), None);
    assert "" + "printf" == "printf";
    BlankEndsWord("printf", QuoteShell(format) + (" " + tail));
    assert Lex(tail, None, false).Some? ==>
      [Word("printf")] + ([Word(format)] + Lex(tail, None, false).value)
        == [Word("printf"), Word(format), Word(script), Operator(">"), Word(path),
            Operator("&&"), Word("chmod"), Word("+x"), Word(path)];
  }

  lemma CommandParts(script: string, path: string)
    ensures InstallCommand(script, path)
         == "printf" + (" " + (QuoteShell("%s\\n") + (" " + Redirect(script, path))))
  {
    FormatIsQuoted();
    hide QuoteShell;
  }

  lemma FormatIsQuoted()
    ensures QuoteShell("%s\\n") == "'%s\\n'"
  {
    var f := "%s\\n";
    assert f[1..] == "s\\n" && f[1..][1..] == "\\n" && f[1..][1..][1..] == "n" && f[1..][1..][1..][1..] == "";
    assert Escape("n") == "n" && Escape("\\n") == "\\n" && Escape("s\\n") == "s\\n" && Escape(f) == f;
  }
}
