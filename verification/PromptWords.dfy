/** When the composed start command keeps the words of the command it was given, though that is trimmed
    first. */
module PromptWords {
  import opened Options
  import opened Strings
  import opened ShellWords
  import opened ShellQuoting
  import opened StartCommand

  // -- what trimming leaves -----------------------------------------------

  /** How many characters trimming takes off the front, and off the end. */
  function Leading(s: string): (n: nat)
    ensures n <= |s| && s[n..] == TrimStart(s)
    ensures forall i :: 0 <= i < n ==> IsSpace(s[i])
    ensures n < |s| ==> !IsSpace(s[n])
  {
    if s != [] && IsSpace(s[0]) then 1 + Leading(s[1..]) else 0
  }

  function Trailing(s: string): (n: nat)
    ensures n <= |s| && s[..|s| - n] == TrimEnd(s)
    ensures forall i :: |s| - n <= i < |s| ==> IsSpace(s[i])
    ensures n < |s| ==> !IsSpace(s[|s| - n - 1])
  {
    if s != [] && IsSpace(s[|s| - 1]) then 1 + Trailing(s[..|s| - 1]) else 0
  }

  function CutBefore(command: string): string {
    command[..Leading(command)]
  }

  function CutBehind(command: string): string {
    var s := TrimStart(command);
    s[|s| - Trailing(s)..]
  }

  predicate AllSpace(s: string) {
    forall i :: 0 <= i < |s| ==> IsSpace(s[i])
  }

  predicate AllBlank(s: string) {
    forall i :: 0 <= i < |s| ==> IsBlank(s[i])
  }

  lemma TrimParts(command: string)
    ensures command == CutBefore(command) + (Trim(command) + CutBehind(command))
    ensures AllSpace(CutBefore(command)) && AllSpace(CutBehind(command))
  {
  }

  /** How many backslashes end the text. */
  function EndingBackslashes(s: string): nat {
    if s != [] && s[|s| - 1] == '\\' then 1 + EndingBackslashes(s[..|s| - 1]) else 0
  }

  predicate Even(s: string) {
    EndingBackslashes(s) % 2 == 0
  }

  predicate OnlyBackslashes(s: string) {
    forall i :: 0 <= i < |s| ==> s[i] == '\\'
  }

  lemma {:induction false} BackslashesOnly(s: string)
    ensures EndingBackslashes(s) <= |s|
    ensures EndingBackslashes(s) == |s| <==> OnlyBackslashes(s)
  {
    if s != [] && s[|s| - 1] == '\\' {
      BackslashesOnly(s[..|s| - 1]);
      assert forall i :: 0 <= i < |s| - 1 ==> s[..|s| - 1][i] == s[i];
    }
  }

  /** Without its first character a text ends in as many backslashes, but if it was one itself and all
      the others are. */
  lemma {:induction false} BackslashesBehind(s: string)
    requires s != []
    ensures EndingBackslashes(s[1..]) == if OnlyBackslashes(s) then |s| - 1 else EndingBackslashes(s)
  {
    BackslashesOnly(s);
    BackslashesOnly(s[1..]);
    if s[|s| - 1] == '\\' && |s| > 1 {
      var t := s[..|s| - 1];
      BackslashesBehind(t);
      BackslashesOnly(t);
      assert s[1..][..|s| - 2] == t[1..];
      assert s[1..][|s| - 2] == s[|s| - 1];
      assert OnlyBackslashes(s) <==> OnlyBackslashes(t) by {
        assert forall i :: 0 <= i < |t| ==> t[i] == s[i];
      }
    }
  }

  // -- reading up to a point ----------------------------------------------

  function Chars(words: seq<string>): nat {
    if words == [] then 0 else Chars(words[..|words| - 1]) + |words[|words| - 1]|
  }

  /** All the characters of the words so far, the begun one too. */
  function Total(current: Option<string>, words: seq<string>): nat {
    Chars(words) + if current.Some? then |current.value| else 0
  }

  lemma TotalOfEnded(current: Option<string>, words: seq<string>)
    ensures Chars(Ended(current, words)) == Total(current, words) == Total(None, Ended(current, words))
  {
    if current.Some? {
      assert (words + [current.value])[..|words|] == words;
    }
  }

  predicate NoQuotes(s: string) {
    '\'' !in s && '"' !in s
  }

  /** Where two readers stand after some text: the first one goes on, the second may have given up. */
  datatype Reached = Reached(c1: Option<string>, w1: seq<string>, c2: Option<string>, w2: seq<string>, gaveUp: bool)

  /** The readers have read as much of the text as each other. */
  ghost predicate InStep(r: Reached, c1: Option<string>, w1: seq<string>, c2: Option<string>, w2: seq<string>) {
    && (!r.gaveUp ==> Total(r.c1, r.w1) + Total(c2, w2) == Total(c1, w1) + Total(r.c2, r.w2))
    && (c1 == c2 && w1 == w2 ==> !r.gaveUp && r.c2 == r.c1 && r.w2 == r.w1)
  }

  ghost predicate ReadUpTo(r: Reached, s1: Option<seq<string>>, s2: Option<seq<string>>, v: string, z: string) {
    s1 == Lex(v, r.c1, r.w1) && s2 == if r.gaveUp then None else Lex(z, r.c2, r.w2)
  }

  lemma {:induction false} SingleNeedsQuote(s: string, current: string, words: seq<string>)
    requires '\'' !in s
    ensures LexSingle(s, current, words) == None
    decreases |s|
  {
    if s != [] && s[0] != NUL {
      SingleNeedsQuote(s[1..], current + [s[0]], words);
    }
  }

  lemma {:induction false} DoubleNeedsQuote(s: string, current: string, words: seq<string>)
    requires '"' !in s
    ensures LexDouble(s, current, words) == None
    decreases |s|
  {
    if s == [] || s[0] == NUL || s[0] == '$' || s[0] == '`' {
    } else if s[0] == '\\' && |s| > 1 && s[1] == '\n' {
      DoubleNeedsQuote(s[2..], current, words);
    } else if s[0] == '\\' && |s| > 1 && s[1] in "$`\"\\" {
      DoubleNeedsQuote(s[2..], current + [s[1]], words);
    } else {
      DoubleNeedsQuote(s[1..], current + [s[0]], words);
    }
  }

  function Text(current: Option<string>): string {
    if current.Some? then current.value else ""
  }

  lemma TotalGrows(current: Option<string>, words: seq<string>, c: char)
    ensures Total(Grown(current, c), words) == Total(current, words) + 1
    ensures Total(Some(Text(current)), words) == Total(current, words)
  {
  }

  /** Both readers took a step that added as much to each. */
  lemma StepInStep(r: Reached, c1: Option<string>, w1: seq<string>, c2: Option<string>, w2: seq<string>,
                   d1: Option<string>, v1: seq<string>, d2: Option<string>, v2: seq<string>)
    requires InStep(r, d1, v1, d2, v2)
    requires Total(d1, v1) + Total(c2, w2) == Total(c1, w1) + Total(d2, v2)
    requires c1 == c2 && w1 == w2 ==> d1 == d2 && v1 == v2
    ensures InStep(r, c1, w1, c2, w2)
  {
  }

  lemma EvenBehind(a: string)
    requires a != [] && a[0] != '\\' && Even(a)
    ensures Even(a[1..])
  {
    BackslashesBehind(a);
  }

  lemma EvenBehindPair(a: string)
    requires a != [] && a[0] == '\\' && Even(a)
    ensures |a| >= 2 && Even(a[2..])
  {
    BackslashesOnly(a);
    assert |a| == 1 ==> OnlyBackslashes(a);
    if |a| > 1 {
      BackslashesBehind(a);
      BackslashesBehind(a[1..]);
      assert a[1..][1..] == a[2..];
      assert OnlyBackslashes(a) <==> OnlyBackslashes(a[1..]) by {
        assert forall i :: 0 < i < |a| ==> a[1..][i - 1] == a[i];
      }
      if a[1] != '\\' {
        assert !OnlyBackslashes(a[1..]);
      }
    }
  }

  /** An even ending, or nothing but backslashes, stays so from the front. */
  predicate EvenOrOnly(a: string) {
    OnlyBackslashes(a) || Even(a)
  }

  lemma EvenOrOnlyBehind(a: string)
    requires a != [] && EvenOrOnly(a)
    ensures EvenOrOnly(a[1..])
    ensures a[0] != '\\' ==> Even(a[1..])
  {
    BackslashesBehind(a);
    if OnlyBackslashes(a) {
      assert OnlyBackslashes(a[1..]);
    }
  }

  /** From outside quotes both readers go on alike, and a text that can still be read ends outside quotes
      and escapes. */
  lemma {:induction false} ReadUnquoted(a: string, v: string, z: string,
      c1: Option<string>, w1: seq<string>, c2: Option<string>, w2: seq<string>) returns (r: Reached)
    requires Lex(a + v, c1, w1).Some? && NoQuotes(v) && Even(a)
    ensures ReadUpTo(r, Lex(a + v, c1, w1), Lex(a + z, c2, w2), v, z) && InStep(r, c1, w1, c2, w2)
    decreases |a|
  {
    if a == [] {
      assert a + v == v && a + z == z;
      return Reached(c1, w1, c2, w2, false);
    }
    Heads(a, v);
    Heads(a, z);
    TotalGrows(c1, w1, a[0]);
    TotalGrows(c2, w2, a[0]);
    if a[0] == '\\' {
      EvenBehindPair(a);
      var d1, d2 := if a[1] == '\n' then c1 else Grown(c1, a[1]), if a[1] == '\n' then c2 else Grown(c2, a[1]);
      TotalGrows(c1, w1, a[1]);
      TotalGrows(c2, w2, a[1]);
      r := ReadUnquoted(a[2..], v, z, d1, w1, d2, w2);
      hide InStep;
      StepInStep(r, c1, w1, c2, w2, d1, w1, d2, w2);
      return;
    }
    EvenBehind(a);
    if IsBlank(a[0]) {
      TotalOfEnded(c1, w1);
      TotalOfEnded(c2, w2);
      r := ReadUnquoted(a[1..], v, z, None, Ended(c1, w1), None, Ended(c2, w2));
      hide InStep;
      StepInStep(r, c1, w1, c2, w2, None, Ended(c1, w1), None, Ended(c2, w2));
    } else if a[0] == '\'' {
      r := ReadSingle(a[1..], v, z, Text(c1), w1, Text(c2), w2);
      hide InStep;
      StepInStep(r, c1, w1, c2, w2, Some(Text(c1)), w1, Some(Text(c2)), w2);
    } else if a[0] == '"' {
      r := ReadDouble(a[1..], v, z, Text(c1), w1, Text(c2), w2);
      hide InStep;
      StepInStep(r, c1, w1, c2, w2, Some(Text(c1)), w1, Some(Text(c2)), w2);
    } else if c2 == None && (a[0] == '#' || a[0] == '~') {
      r := ReadUnquoted(a[1..], v, z, Grown(c1, a[0]), w1, Grown(c1, a[0]), w1);
      r := r.(c2 := None, w2 := [], gaveUp := true);
    } else {
      r := ReadUnquoted(a[1..], v, z, Grown(c1, a[0]), w1, Grown(c2, a[0]), w2);
      hide InStep;
      StepInStep(r, c1, w1, c2, w2, Grown(c1, a[0]), w1, Grown(c2, a[0]), w2);
    }
  }

  lemma Heads(a: string, v: string)
    requires a != []
    ensures (a + v)[0] == a[0] && (a + v)[1..] == a[1..] + v
    ensures |a| >= 2 ==> (a + v)[1] == a[1] && (a + v)[2..] == a[2..] + v
  {
  }

  lemma {:induction false} ReadSingle(a: string, v: string, z: string, x1: string, w1: seq<string>, x2: string,
                                      w2: seq<string>)
      returns (r: Reached)
    requires LexSingle(a + v, x1, w1).Some? && NoQuotes(v) && EvenOrOnly(a)
    ensures ReadUpTo(r, LexSingle(a + v, x1, w1), LexSingle(a + z, x2, w2), v, z)
      && InStep(r, Some(x1), w1, Some(x2), w2)
    decreases |a|
  {
    if a == [] {
      assert a + v == v;
      SingleNeedsQuote(v, x1, w1);
      assert false;
    } else {
      Heads(a, v);
      Heads(a, z);
      EvenOrOnlyBehind(a);
      if a[0] == '\'' {
        r := ReadUnquoted(a[1..], v, z, Some(x1), w1, Some(x2), w2);
      } else {
        r := ReadSingle(a[1..], v, z, x1 + [a[0]], w1, x2 + [a[0]], w2);
        hide InStep;
        StepInStep(r, Some(x1), w1, Some(x2), w2, Some(x1 + [a[0]]), w1, Some(x2 + [a[0]]), w2);
      }
    }
  }

  lemma {:induction false} ReadDouble(a: string, v: string, z: string, x1: string, w1: seq<string>, x2: string,
                                      w2: seq<string>)
      returns (r: Reached)
    requires LexDouble(a + v, x1, w1).Some? && NoQuotes(v) && EvenOrOnly(a)
    ensures ReadUpTo(r, LexDouble(a + v, x1, w1), LexDouble(a + z, x2, w2), v, z)
      && InStep(r, Some(x1), w1, Some(x2), w2)
    decreases |a|
  {
    if '"' !in a {
      DoubleNeedsQuote(a + v, x1, w1);
      assert false;
    } else {
      Heads(a, v);
      Heads(a, z);
      EvenOrOnlyBehind(a);
      assert a[0] == '\\' ==> |a| >= 2;
      if a[0] == '"' {
        r := ReadUnquoted(a[1..], v, z, Some(x1), w1, Some(x2), w2);
      } else if a[0] == '\\' && (a[1] == '\n' || a[1] in "$`\"\\") {
        EvenOrOnlyBehind(a[1..]);
        assert a[1..][1..] == a[2..];
        var y1, y2 := if a[1] == '\n' then x1 else x1 + [a[1]], if a[1] == '\n' then x2 else x2 + [a[1]];
        r := ReadDouble(a[2..], v, z, y1, w1, y2, w2);
        hide InStep;
        StepInStep(r, Some(x1), w1, Some(x2), w2, Some(y1), w1, Some(y2), w2);
      } else {
        r := ReadDouble(a[1..], v, z, x1 + [a[0]], w1, x2 + [a[0]], w2);
        hide InStep;
        StepInStep(r, Some(x1), w1, Some(x2), w2, Some(x1 + [a[0]]), w1, Some(x2 + [a[0]]), w2);
      }
    }
  }

  // -- the law ------------------------------------------------------------

  function NonBlanks(s: string): nat {
    if s == [] then 0 else (if IsBlank(s[0]) then 0 else 1) + NonBlanks(s[1..])
  }

  lemma {:induction false} NoNonBlanks(s: string)
    ensures NonBlanks(s) == 0 <==> AllBlank(s)
  {
    if s != [] {
      NoNonBlanks(s[1..]);
      assert AllBlank(s) <==> IsBlank(s[0]) && AllBlank(s[1..]) by {
        assert forall i :: 0 < i < |s| ==> s[1..][i - 1] == s[i];
      }
    }
  }

  /** White space that is no blank is text to the shell; a line end among it would end the command. */
  lemma {:induction false} ReadSpaces(sp: string, rest: string, c: Option<string>, w: seq<string>)
      returns (d: Option<string>, v: seq<string>)
    requires Lex(sp + rest, c, w).Some? && AllSpace(sp)
    ensures Lex(sp + rest, c, w) == Lex(rest, d, v) && Total(d, v) == Total(c, w) + NonBlanks(sp)
    ensures AllBlank(sp) ==> if sp == [] then d == c && v == w else d == None && v == Ended(c, w)
    decreases |sp|
  {
    if sp == [] {
      assert sp + rest == rest;
      return c, w;
    }
    Heads(sp, rest);
    TotalGrows(c, w, sp[0]);
    TotalOfEnded(c, w);
    assert IsSpace(sp[0]);
    assert forall i :: 0 < i < |sp| ==> sp[1..][i - 1] == sp[i];
    if IsBlank(sp[0]) {
      d, v := ReadSpaces(sp[1..], rest, None, Ended(c, w));
    } else {
      d, v := ReadSpaces(sp[1..], rest, Grown(c, sp[0]), w);
    }
  }

  lemma PromptIsQuoted(agent: string, change: string)
    requires ValidChangeName(change) && ApplyCommandFor(agent, change).Some?
    ensures var prompt := ApplyCommandFor(agent, change).value;
      NulFree(prompt) && ShellQuote(prompt) == "'" + Inner(prompt) + "'"
  {
    var prompt := ApplyCommandFor(agent, change).value;
    ValidNameIsNulFree(change);
    var k := if agent == "codex" then 22 else 11;
    assert prompt[k] == ' ' && !IsSafe(prompt[k]);
    assert !IsSimple(prompt);
    hide ValidChangeName;
  }

  /** Behind a blank the prompt is a word of its own; behind an escaped one it joins the word begun. */
  lemma ReadPrompt(prompt: string, c: Option<string>, w: seq<string>)
    requires NulFree(prompt) && ShellQuote(prompt) == "'" + Inner(prompt) + "'"
    ensures Lex(" " + ShellQuote(prompt), c, w) == Some(Ended(c, w) + [prompt])
    ensures Lex("\\ " + ShellQuote(prompt), c, w) == Some(w + [Text(c) + " " + prompt])
  {
    var q := ShellQuote(prompt);
    LexQuoted(prompt, [], Ended(c, w));
    assert q + [] == q && (" " + q)[1..] == q;
    BlankEndsWord(prompt, [], Ended(c, w));
    var escaped := "\\ " + q;
    assert escaped[0] == '\\' && escaped[1] == ' ' && escaped[2..] == q;
    assert q[0] == '\'' && q[1..] == Inner(prompt) + "'" + [];
    LexInner(prompt, [], Text(c) + " ", w);
    BlankEndsWord(Text(c) + " " + prompt, [], w);
    hide Inner;
  }

  /** With an even ending the words compare as the characters trimmed off do. */
  lemma EvenKeepsIff(t: string, v: string, prompt: string, c1: Option<string>, w1: seq<string>, words: seq<string>)
    requires Lex(t + v, c1, w1) == Some(words) && AllSpace(v) && NoQuotes(v) && Even(t)
    requires NulFree(prompt) && ShellQuote(prompt) == "'" + Inner(prompt) + "'"
    requires Total(c1, w1) == 0 ==> c1 == None && w1 == []
    ensures Lex(t + (" " + ShellQuote(prompt)), None, []) == Some(words + [prompt]) <==>
      Total(c1, w1) == 0 && AllBlank(v)
  {
    var z := " " + ShellQuote(prompt);
    var r := ReadUnquoted(t, v, z, c1, w1, None, []);
    assert v + [] == v;
    var c3, w3 := ReadSpaces(v, [], r.c1, r.w1);
    BlankEndsWord(Text(c3), [], w3);
    assert words == Ended(c3, w3);
    ReadPrompt(prompt, r.c2, r.w2);
    NoNonBlanks(v);
    TotalOfEnded(c3, w3);
    TotalOfEnded(r.c1, r.w1);
    TotalOfEnded(r.c2, r.w2);
    hide Lex, ShellQuote, Inner, AllBlank;
    if !r.gaveUp {
      SameBut(Ended(r.c2, r.w2), words, prompt);
    }
  }

  lemma SameBut(a: seq<string>, b: seq<string>, x: string)
    ensures a + [x] == b + [x] <==> a == b
  {
    if a + [x] == b + [x] {
      assert a == (a + [x])[..|a|] && b == (b + [x])[..|b|];
    }
  }

  /** With an odd ending the blank before the prompt is escaped, and the prompt is no word of its own. */
  lemma OddLoses(t: string, v: string, prompt: string, c1: Option<string>, w1: seq<string>, words: seq<string>)
    requires Lex(t + v, c1, w1).Some? && NoQuotes(v) && !Even(t)
    requires NulFree(prompt) && ShellQuote(prompt) == "'" + Inner(prompt) + "'"
    ensures Lex(t + (" " + ShellQuote(prompt)), None, []) != Some(words + [prompt])
  {
    var n := |t| - 1;
    var q := ShellQuote(prompt);
    assert t == t[..n] + "\\";
    assert t + v == t[..n] + ("\\" + v) && t + (" " + q) == t[..n] + ("\\ " + q);
    var r := ReadUnquoted(t[..n], "\\" + v, "\\ " + q, c1, w1, None, []);
    ReadPrompt(prompt, r.c2, r.w2);
    hide Lex, ShellQuote, Inner;
    var last := Text(r.c2) + " " + prompt;
    assert |last| > |prompt|;
    LastDiffers(r.w2, last, words, prompt);
  }

  lemma LastDiffers(a: seq<string>, x: string, b: seq<string>, y: string)
    requires x != y
    ensures a + [x] != b + [y]
  {
    var s, t := a + [x], b + [y];
    assert s[|s| - 1] == x && t[|t| - 1] == y;
  }

  lemma SpacesHaveNoQuotes(s: string)
    requires AllSpace(s)
    ensures NoQuotes(s)
  {
  }

  /** A command that is read as words keeps them, and the prompt is one more, exactly when only spaces and
      tabs are trimmed off it and what is left does not end in an escape. */
  lemma ComposeKeepsWordsIff(command: string, agent: string, change: string)
    requires ValidChangeName(change) && ApplyCommandFor(agent, change).Some?
    requires Words(command).Some? && Trim(command) != []
    ensures ComposeAutoStartCommand(Some(command), Some(agent), Some(change)).Some?
    ensures Words(ComposeAutoStartCommand(Some(command), Some(agent), Some(change)).value)
        == Some(Words(command).value + [ApplyCommandFor(agent, change).value])
      <==> AllBlank(CutBefore(command)) && AllBlank(CutBehind(command)) && Even(Trim(command))
  {
    var prompt := ApplyCommandFor(agent, change).value;
    var before, t, v := CutBefore(command), Trim(command), CutBehind(command);
    var q := ShellQuote(prompt);
    assert ComposeAutoStartCommand(Some(command), Some(agent), Some(change)) == Some(t + " " + q);
    assert t + " " + q == t + (" " + q);
    PromptIsQuoted(agent, change);
    TrimParts(command);
    SpacesHaveNoQuotes(v);
    NoNonBlanks(before);
    assert Words(command) == Lex(before + (t + v), None, []);
    hide Trim, ValidChangeName, ApplyCommandFor, ComposeAutoStartCommand, Lex, ShellQuote, Inner, AllBlank,
      CutBefore, CutBehind;
    var c1, w1 := ReadSpaces(before, t + v, None, []);
    if Even(t) {
      EvenKeepsIff(t, v, prompt, c1, w1, Words(command).value);
    } else {
      OddLoses(t, v, prompt, c1, w1, Words(command).value);
    }
  }
}
