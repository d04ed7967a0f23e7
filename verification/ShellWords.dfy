/** How a POSIX shell splits a command line into words: escapes, single and double quotes, and
    token recognition (sections 2.2.1, 2.2.2, 2.2.3 and 2.3 of the POSIX.1-2017 Shell Command
    Language), for lines that are plain words. */
module ShellWords {
  import opened Options

  const NUL := '\0'

  predicate IsBlank(c: char) {
    c == ' ' || c == '\t'
  }

  /** Unquoted, these are operators, end the line, or make the shell expand something. */
  predicate IsActive(c: char) {
    c in "|&;<>()$`*?[\n\0"
  }

  function Ended(current: Option<string>, words: seq<string>): seq<string> {
    if current.Some? then words + [current.value] else words
  }

  function Grown(current: Option<string>, c: char): Option<string> {
    Some((if current.Some? then current.value else "") + [c])
  }

  /** The words of `s` after `words` and the begun word `current`; `None` for a line that is
      not just words: an operator, an expansion, a comment, an open quote. */
  function Lex(s: string, current: Option<string>, words: seq<string>): Option<seq<string>>
    decreases |s|
  {
    if s == [] then Some(Ended(current, words))
    else if IsBlank(s[0]) then Lex(s[1..], None, Ended(current, words))
    else if s[0] == '\'' then LexSingle(s[1..], if current.Some? then current.value else "", words)
    else if s[0] == '"' then LexDouble(s[1..], if current.Some? then current.value else "", words)
    else if s[0] == '\\' then
      if |s| == 1 || s[1] == NUL then None
      else if s[1] == '\n' then Lex(s[2..], current, words)
      else Lex(s[2..], Grown(current, s[1]), words)
    else if IsActive(s[0]) || (current == None && (s[0] == '#' || s[0] == '~')) then None
    else Lex(s[1..], Grown(current, s[0]), words)
  }

  /** Within single quotes every character stands for itself. */
  function LexSingle(s: string, current: string, words: seq<string>): Option<seq<string>>
    decreases |s|
  {
    if s == [] || s[0] == NUL then None
    else if s[0] == '\'' then Lex(s[1..], Some(current), words)
    else LexSingle(s[1..], current + [s[0]], words)
  }

  function LexDouble(s: string, current: string, words: seq<string>): Option<seq<string>>
    decreases |s|
  {
    if s == [] || s[0] == NUL || s[0] == '$' || s[0] == '`' then None
    else if s[0] == '"' then Lex(s[1..], Some(current), words)
    else if s[0] == '\\' && |s| > 1 && s[1] == '\n' then LexDouble(s[2..], current, words)
    else if s[0] == '\\' && |s| > 1 && s[1] in "$`\"\\" then LexDouble(s[2..], current + [s[1]], words)
    else LexDouble(s[1..], current + [s[0]], words)
  }

  function Words(s: string): Option<seq<string>> {
    Lex(s, None, [])
  }

  /** A line of words, a blank, and more: the words of the first, then those of the rest. */
  lemma {:induction false} LexThenBlank(a: string, b: string, current: Option<string>, words: seq<string>)
    requires Lex(a, current, words).Some?
    ensures Lex(a + [' '] + b, current, words) == Lex(b, None, Lex(a, current, words).value)
    decreases |a|
  {
    var s := a + [' '] + b;
    if a == [] {
      assert s == [' '] + b;
    } else {
      assert s[0] == a[0] && s[1..] == a[1..] + [' '] + b;
      if IsBlank(a[0]) {
        LexThenBlank(a[1..], b, None, Ended(current, words));
      } else if a[0] == '\'' {
        SingleThenBlank(a[1..], b, if current.Some? then current.value else "", words);
      } else if a[0] == '"' {
        DoubleThenBlank(a[1..], b, if current.Some? then current.value else "", words);
      } else if a[0] == '\\' {
        assert s[1] == a[1] && s[2..] == a[2..] + [' '] + b;
        LexThenBlank(a[2..], b, if a[1] == '\n' then current else Grown(current, a[1]), words);
      } else {
        LexThenBlank(a[1..], b, Grown(current, a[0]), words);
      }
    }
  }

  lemma {:induction false} SingleThenBlank(a: string, b: string, current: string, words: seq<string>)
    requires LexSingle(a, current, words).Some?
    ensures LexSingle(a + [' '] + b, current, words) == Lex(b, None, LexSingle(a, current, words).value)
    decreases |a|
  {
    var s := a + [' '] + b;
    assert s[0] == a[0] && s[1..] == a[1..] + [' '] + b;
    if a[0] == '\'' {
      LexThenBlank(a[1..], b, Some(current), words);
    } else {
      SingleThenBlank(a[1..], b, current + [a[0]], words);
    }
  }

  lemma {:induction false} DoubleThenBlank(a: string, b: string, current: string, words: seq<string>)
    requires LexDouble(a, current, words).Some?
    ensures LexDouble(a + [' '] + b, current, words) == Lex(b, None, LexDouble(a, current, words).value)
    decreases |a|
  {
    var s := a + [' '] + b;
    assert s[0] == a[0] && s[1..] == a[1..] + [' '] + b;
    if a[0] == '"' {
      LexThenBlank(a[1..], b, Some(current), words);
    } else if a[0] == '\\' && |a| > 1 && (a[1] == '\n' || a[1] in "$`\"\\") {
      assert s[1] == a[1] && s[2..] == a[2..] + [' '] + b;
      DoubleThenBlank(a[2..], b, if a[1] == '\n' then current else current + [a[1]], words);
    } else {
      assert |a[1..]| > 0 && s[1] == a[1];
      DoubleThenBlank(a[1..], b, current + [a[0]], words);
    }
  }
}
