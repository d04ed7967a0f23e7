/** Quoting one argument for a shell, and the repository's own way back. */
module ShellQuoting {
  import opened Options
  import opened Strings
  import opened ShellWords

  predicate IsSafe(c: char) {
    'a' <= c <= 'z' || 'A' <= c <= 'Z' || '0' <= c <= '9' || c in "._-/:@+="
  }

  predicate IsSimple(s: string) {
    s != [] && forall c :: c in s ==> IsSafe(c)
  }

  /** A single quote inside single quotes: close, an escaped quote, open again. */
  const QUOTE_IN_QUOTES := "'\\''"

  function Inner(s: string): string {
    ReplaceAll(s, "'", QUOTE_IN_QUOTES)
  }

  function ShellQuote(s: string): string {
    if IsSimple(s) then s else "'" + Inner(s) + "'"
  }

  lemma InnerStep(s: string)
    requires s != []
    ensures Inner(s) == (if s[0] == '\'' then QUOTE_IN_QUOTES else [s[0]]) + Inner(s[1..])
  {
    assert s == [s[0]] + s[1..];
    if s[0] == '\'' {
      ReplaceHere(s, "'", QUOTE_IN_QUOTES, s[1..]);
    } else {
      ReplaceSkips([s[0]], s[1..], "'", QUOTE_IN_QUOTES);
    }
  }

  predicate NulFree(s: string) {
    NUL !in s
  }

  lemma QuoteInQuotes(current: string, rest: string, words: seq<string>)
    ensures LexSingle(QUOTE_IN_QUOTES + rest, current, words) == LexSingle(rest, current + ['\''], words)
  {
    var s := QUOTE_IN_QUOTES + rest;
    assert s[0] == '\'' && s[1..] == "\\''" + rest;
    var t := s[1..];
    assert t[0] == '\\' && t[1] == '\'' && t[2..] == "'" + rest;
    var u := t[2..];
    assert u[0] == '\'' && u[1..] == rest;
    assert Lex(t, Some(current), words) == Lex(u, Some(current + ['\'']), words);
  }

  /** The quoted text reads back as the text, up to its closing quote. */
  lemma {:induction false} LexInner(s: string, rest: string, current: string, words: seq<string>)
    ensures LexSingle(Inner(s) + "'" + rest, current, words) ==
      if NulFree(s) then Lex(rest, Some(current + s), words) else None
  {
    if s == [] {
      assert Inner(s) + "'" + rest == "'" + rest;
      assert ("'" + rest)[1..] == rest;
      assert current + [] == current;
    } else {
      InnerStep(s);
      var tail := Inner(s[1..]) + "'" + rest;
      assert NulFree(s) <==> s[0] != NUL && NulFree(s[1..]) by {
        assert s == [s[0]] + s[1..];
      }
      if s[0] == '\'' {
        assert Inner(s) + "'" + rest == QUOTE_IN_QUOTES + tail;
        QuoteInQuotes(current, tail, words);
        LexInner(s[1..], rest, current + ['\''], words);
      } else {
        assert Inner(s) + "'" + rest == [s[0]] + tail;
        assert ([s[0]] + tail)[1..] == tail;
        LexInner(s[1..], rest, current + [s[0]], words);
      }
      assert current + [s[0]] + s[1..] == current + s;
    }
  }

  lemma SafeGrows(c: char, s: string, current: Option<string>, words: seq<string>)
    requires IsSafe(c) && s != [] && s[0] == c
    ensures Lex(s, current, words) == Lex(s[1..], Grown(current, c), words)
  {
  }

  lemma {:induction false} LexSafe(s: string, rest: string, current: Option<string>, words: seq<string>)
    requires forall c :: c in s ==> IsSafe(c)
    requires s != [] || current.Some?
    ensures Lex(s + rest, current, words) == Lex(rest, Some((if current.Some? then current.value else "") + s), words)
  {
    if s == [] {
      assert s + rest == rest;
      assert current.value + [] == current.value;
    } else {
      assert (s + rest)[0] == s[0] && (s + rest)[1..] == s[1..] + rest;
      SafeGrows(s[0], s + rest, current, words);
      hide Lex, IsSafe;
      var grown := Grown(current, s[0]);
      LexSafe(s[1..], rest, grown, words);
      assert grown.value + s[1..] == (if current.Some? then current.value else "") + s;
    }
  }

  /** A quoted argument begins exactly that word. */
  lemma LexQuoted(s: string, rest: string, words: seq<string>)
    ensures Lex(ShellQuote(s) + rest, None, words) == if NulFree(s) then Lex(rest, Some(s), words) else None
  {
    if IsSimple(s) {
      LexSafe(s, rest, None, words);
      assert "" + s == s;
    } else {
      var t := ShellQuote(s) + rest;
      assert t[0] == '\'' && t[1..] == Inner(s) + "'" + rest;
      LexInner(s, rest, "", words);
      assert "" + s == s;
    }
  }

  function QuotedAll(args: seq<string>): seq<string> {
    seq(|args|, i requires 0 <= i < |args| => ShellQuote(args[i]))
  }

  lemma BlankEndsWord(w: string, tail: string, words: seq<string>)
    ensures Lex(" " + tail, Some(w), words) == Lex(tail, None, words + [w])
    ensures Lex([], Some(w), words) == Some(words + [w])
    ensures Lex([], None, words) == Some(words)
  {
    assert (" " + tail)[1..] == tail;
  }

  predicate AllNulFree(args: seq<string>) {
    forall i :: 0 <= i < |args| ==> NulFree(args[i])
  }

  lemma AllNulFreeStep(args: seq<string>)
    requires args != []
    ensures AllNulFree(args) <==> NulFree(args[0]) && AllNulFree(args[1..])
  {
    assert forall i :: 0 < i < |args| ==> args[i] == args[1..][i - 1];
  }

  lemma JoinStep(args: seq<string>)
    requires |args| > 1
    ensures Join(QuotedAll(args), " ") == ShellQuote(args[0]) + (" " + Join(QuotedAll(args[1..]), " "))
  {
    assert QuotedAll(args)[1..] == QuotedAll(args[1..]);
  }

  lemma {:induction false} LexJoined(args: seq<string>, words: seq<string>)
    ensures Lex(Join(QuotedAll(args), " "), None, words) == if AllNulFree(args) then Some(words + args) else None
  {
    hide Lex, ShellQuote, NulFree;
    BlankEndsWord("", "", words);
    if args == [] {
      assert words + [] == words;
    } else {
      AllNulFreeStep(args);
      hide AllNulFree;
      BlankEndsWord(args[0], Join(QuotedAll(args[1..]), " "), words);
      if |args| == 1 {
        assert Join(QuotedAll(args), " ") == ShellQuote(args[0]) + [];
        LexQuoted(args[0], [], words);
        NothingIsNulFree(args[1..]);
        assert words + [args[0]] == words + args;
      } else {
        JoinStep(args);
        LexQuoted(args[0], " " + Join(QuotedAll(args[1..]), " "), words);
        LexJoined(args[1..], words + [args[0]]);
        assert words + [args[0]] + args[1..] == words + args;
      }
    }
  }

  lemma NothingIsNulFree(args: seq<string>)
    requires args == []
    ensures AllNulFree(args)
  {
  }

  /** Quoted arguments joined by spaces are split by the shell into exactly those arguments;
      only a NUL, which no argument can hold, is not carried. */
  lemma QuotedListIsRead(args: seq<string>)
    ensures Words(Join(QuotedAll(args), " ")) == Some(args) <==> AllNulFree(args)
  {
    LexJoined(args, []);
    assert [] + args == args;
  }

  // -- the way back -------------------------------------------------------

  lemma NothingToTrim(s: string)
    requires s == [] || (!IsSpace(s[0]) && !IsSpace(s[|s| - 1]))
    ensures Trim(s) == s
  {
  }

  function UnquoteShellString(value: string): string {
    var trimmed := Trim(value);
    if |trimmed| < 2 then trimmed
    else
      var first, last := trimmed[0], trimmed[|trimmed| - 1];
      var inside := trimmed[1..|trimmed| - 1];
      if first == '\'' && last == '\'' then ReplaceAll(inside, QUOTE_IN_QUOTES, "'")
      else if first == '"' && last == '"' then ReplaceAll(ReplaceAll(inside, "\\\"", "\""), "\\\\", "\\")
      else trimmed
  }

  /** Reading the escaped quotes back gives the text, whatever quotes and backslashes it has. */
  lemma {:induction false} InnerReadsBack(s: string)
    ensures ReplaceAll(Inner(s), QUOTE_IN_QUOTES, "'") == s
  {
    if s != [] {
      InnerStep(s);
      InnerReadsBack(s[1..]);
      if s[0] == '\'' {
        ReplaceHere(Inner(s), QUOTE_IN_QUOTES, "'", Inner(s[1..]));
      } else {
        ReplaceSkips([s[0]], Inner(s[1..]), QUOTE_IN_QUOTES, "'");
      }
    }
  }

  lemma UnquoteQuoted(inside: string)
    ensures UnquoteShellString("'" + inside + "'") == ReplaceAll(inside, QUOTE_IN_QUOTES, "'")
  {
    var q := "'" + inside + "'";
    NothingToTrim(q);
    assert q[1..|q| - 1] == inside;
  }

  // -- what is left bare --------------------------------------------------

  const SMALL := "abcdefghijklmnopqrstuvwxyz"
  const CAPITALS := "ABCDEFGHIJKLMNOPQRSTUVWXYZ"
  const DIGITS := "0123456789"

  predicate Bare(c: char) {
    c in SMALL || c in CAPITALS || c in DIGITS || c in "._-/:@+="
  }

  lemma SmallIff(c: char)
    ensures c in SMALL <==> 'a' <= c <= 'z'
  {
    if 'a' <= c <= 'z' {
      assert SMALL[c as int - 'a' as int] == c;
    }
  }

  lemma CapitalsIff(c: char)
    ensures c in CAPITALS <==> 'A' <= c <= 'Z'
  {
    if 'A' <= c <= 'Z' {
      assert CAPITALS[c as int - 'A' as int] == c;
    }
  }

  lemma DigitsIff(c: char)
    ensures c in DIGITS <==> '0' <= c <= '9'
  {
    if '0' <= c <= '9' {
      assert DIGITS[c as int - '0' as int] == c;
    }
  }

  lemma SafeIff(c: char)
    ensures IsSafe(c) <==> Bare(c)
  {
    SmallIff(c);
    CapitalsIff(c);
    DigitsIff(c);
  }

  /** An argument is left as it is exactly when it is not empty and all its characters are bare ones. */
  lemma BareIff(s: string)
    ensures ShellQuote(s) == s <==> s != [] && forall c :: c in s ==> Bare(c)
  {
    forall c: char
      ensures IsSafe(c) <==> Bare(c)
    {
      SafeIff(c);
    }
    hide IsSafe, Bare;
    InnerGrows(s);
  }

  lemma {:induction false} InnerGrows(s: string)
    ensures |Inner(s)| >= |s|
  {
    if s != [] {
      InnerStep(s);
      InnerGrows(s[1..]);
    }
  }

  // -- texts in double quotes ---------------------------------------------

  /** Backslashes and double quotes with a backslash in front. */
  function Escaped(s: string): string {
    if s == [] then [] else (if s[0] == '"' || s[0] == '\\' then ['\\', s[0]] else [s[0]]) + Escaped(s[1..])
  }

  /** Backslashes alone with one in front. */
  function Doubled(s: string): string {
    if s == [] then [] else (if s[0] == '\\' then ['\\', '\\'] else [s[0]]) + Doubled(s[1..])
  }

  lemma {:induction false} QuotesReadBack(s: string)
    ensures ReplaceAll(Escaped(s), "\\\"", "\"") == Doubled(s)
  {
    if s != [] {
      var rest := Escaped(s[1..]);
      QuotesReadBack(s[1..]);
      if s[0] == '"' {
        ReplaceHere(Escaped(s), "\\\"", "\"", rest);
      } else if s[0] == '\\' {
        assert Escaped(s)[1..] == ['\\'] + rest && Escaped(s)[1..][1..] == rest;
        assert Escaped(s)[..2] == "\\\\";
        ReplacePasses(Escaped(s), "\\\"", "\"");
        if |rest| > 0 {
          FirstEscaped(s[1..]);
          assert Escaped(s)[1..][..2][1] == rest[0];
        }
        ReplacePasses(Escaped(s)[1..], "\\\"", "\"");
      } else {
        ReplaceSkips([s[0]], rest, "\\\"", "\"");
      }
    }
  }

  /** No bare double quote is left in front. */
  lemma FirstEscaped(s: string)
    requires Escaped(s) != []
    ensures Escaped(s)[0] != '"'
  {
  }

  lemma {:induction false} BackslashesReadBack(s: string)
    ensures ReplaceAll(Doubled(s), "\\\\", "\\") == s
  {
    if s != [] {
      var rest := Doubled(s[1..]);
      BackslashesReadBack(s[1..]);
      if s[0] == '\\' {
        ReplaceHere(Doubled(s), "\\\\", "\\", rest);
      } else {
        ReplaceSkips([s[0]], rest, "\\\\", "\\");
      }
      assert s == [s[0]] + s[1..];
    }
  }

  /** A text in double quotes, its own and its backslashes escaped, is given back too. */
  lemma UnquoteInvertsDoubleQuotes(s: string)
    ensures UnquoteShellString("\"" + Escaped(s) + "\"") == s
  {
    var q := "\"" + Escaped(s) + "\"";
    NothingToTrim(q);
    assert q[1..|q| - 1] == Escaped(s);
    QuotesReadBack(s);
    BackslashesReadBack(s);
    hide ReplaceAll, Trim;
  }

  /** Any other text is only trimmed. */
  lemma OthersAreOnlyTrimmed(s: string)
    requires var t := Trim(s);
      |t| < 2 || t[0] != t[|t| - 1] || (t[0] != '\'' && t[0] != '"')
    ensures UnquoteShellString(s) == Trim(s)
  {
  }

  /** The repository's unquoting inverts its quoting for every string. */
  lemma UnquoteInvertsQuote(s: string)
    ensures UnquoteShellString(ShellQuote(s)) == s
  {
    if IsSimple(s) {
      assert IsSafe(s[0]) && IsSafe(s[|s| - 1]);
      NothingToTrim(s);
    } else {
      UnquoteQuoted(Inner(s));
      InnerReadsBack(s);
    }
  }
}
