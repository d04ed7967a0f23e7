/** Start commands of panes: taking the login-shell wrapper off, and putting a first prompt on. */
module StartCommand {
  import opened Options
  import opened Strings
  import opened ShellWords
  import opened ShellQuoting

  // -- unwrapping ---------------------------------------------------------

  /** The length of the token at the start of `s`. */
  function TokenLen(s: string): (n: nat)
    ensures n <= |s|
    ensures forall i :: 0 <= i < n ==> !IsSpace(s[i])
    ensures n < |s| ==> IsSpace(s[n])
  {
    if s == [] || IsSpace(s[0]) then 0 else 1 + TokenLen(s[1..])
  }

  /** The text behind the last slash. */
  function BaseName(s: string): string {
    if s == [] || s[|s| - 1] == '/' then [] else BaseName(s[..|s| - 1]) + [s[|s| - 1]]
  }

  predicate IsLetter(c: char) {
    'a' <= c <= 'z' || 'A' <= c <= 'Z'
  }

  /** A bundle of short options, such as `-lc`. */
  predicate ShortBundle(token: string) {
    |token| >= 2 && token[0] == '-' && forall i :: 1 <= i < |token| ==> IsLetter(token[i])
  }

  predicate Bundles(token: string, letter: char) {
    ShortBundle(token) && letter in token[1..]
  }

  /** The command behind the flags in `s`, which starts at a token. */
  function BehindFlags(s: string, sawLogin: bool): Option<string>
    decreases |s|
  {
    if s == [] then None
    else
      var token := s[..TokenLen(s)];
      if token == [] || token[0] != '-' || token == "-" || token == "--" then None
      else
        var after := TrimStart(s[|token|..]);
        TrimStartShorter(s[|token|..]);
        var login := sawLogin || Bundles(token, 'l');
        if Bundles(token, 'c') then
          if !login || Trim(after) == [] then None else Some(UnquoteShellString(Trim(after)))
        else BehindFlags(after, login)
  }

  lemma TrimStartShorter(s: string)
    ensures |TrimStart(s)| <= |s|
  {
  }

  function Unwrapped(command: string): Option<string> {
    var t := Trim(command);
    var n := TokenLen(t);
    if n == |t| || BaseName(t[..n]) != "bash" then None
    else BehindFlags(TrimStart(t[n..]), false)
  }

  lemma TrimStartIs(s: string, k: nat)
    requires k <= |s| && (forall i :: 0 <= i < k ==> IsSpace(s[i])) && (k < |s| ==> !IsSpace(s[k]))
    ensures TrimStart(s) == s[k..]
  {
    if k > 0 {
      TrimStartIs(s[1..], k - 1);
    }
  }

  lemma TokenLenIs(s: string, k: nat)
    requires k <= |s| && (forall i :: 0 <= i < k ==> !IsSpace(s[i])) && (k < |s| ==> IsSpace(s[k]))
    ensures TokenLen(s) == k
  {
  }

  method SkipSpaces(s: string, from: nat) returns (idx: nat)
    requires from <= |s|
    ensures from <= idx <= |s| && s[idx..] == TrimStart(s[from..])
  {
    idx := from;
    while idx < |s| && IsSpace(s[idx])
      invariant from <= idx <= |s|
      invariant forall i :: from <= i < idx ==> IsSpace(s[i])
    {
      idx := idx + 1;
    }
    TrimStartIs(s[from..], idx - from);
    assert s[from..][idx - from..] == s[idx..];
  }

  method SkipToken(s: string, from: nat) returns (idx: nat)
    requires from <= |s|
    ensures from <= idx <= |s| && idx == from + TokenLen(s[from..])
  {
    idx := from;
    while idx < |s| && !IsSpace(s[idx])
      invariant from <= idx <= |s|
      invariant forall i :: from <= i < idx ==> !IsSpace(s[i])
    {
      idx := idx + 1;
    }
    TokenLenIs(s[from..], idx - from);
  }

  method UnwrapBashLoginWrapper(command: string) returns (r: Option<string>)
    ensures r == Unwrapped(command)
  {
    hide TrimStart, Trim, TokenLen, BaseName, Bundles, UnquoteShellString;
    var trimmed := Trim(command);
    var firstSpace := SkipToken(trimmed, 0);
    assert trimmed[0..] == trimmed;
    if firstSpace == |trimmed| {
      return None;
    }
    if BaseName(trimmed[..firstSpace]) != "bash" {
      return None;
    }
    var idx := SkipSpaces(trimmed, firstSpace);
    var sawLogin, sawCommand := false, false;
    while idx < |trimmed|
      invariant idx <= |trimmed| && !sawCommand
      invariant Unwrapped(command) == BehindFlags(trimmed[idx..], sawLogin)
      decreases |trimmed| - idx
    {
      var tokenStart := idx;
      ghost var s := trimmed[tokenStart..];
      idx := SkipToken(trimmed, tokenStart);
      var token := trimmed[tokenStart..idx];
      assert token == s[..TokenLen(s)] && s[|token|..] == trimmed[idx..];
      idx := SkipSpaces(trimmed, idx);
      if token == [] || token[0] != '-' || token == "-" {
        return None;
      }
      if token == "--" {
        return None;
      }
      if Bundles(token, 'l') {
        sawLogin := true;
      }
      if Bundles(token, 'c') {
        sawCommand := true;
        break;
      }
    }
    if !sawLogin || !sawCommand {
      return None;
    }
    var rest := Trim(trimmed[idx..]);
    if rest == [] {
      return None;
    }
    r := Some(UnquoteShellString(rest));
  }

  function NormalizePaneStartCommand(command: string): string {
    var trimmed := Trim(command);
    if trimmed == [] then ""
    else
      var unquoted := UnquoteShellString(trimmed);
      var unwrapped := Unwrapped(unquoted);
      if unwrapped.Some? then unwrapped.value else unquoted
  }

  // -- wrapping and unwrapping --------------------------------------------

  predicate NoSpace(s: string) {
    forall i :: 0 <= i < |s| ==> !IsSpace(s[i])
  }

  /** A flag the wrapper may carry before the one that takes the command. */
  predicate PlainFlag(f: string) {
    NoSpace(f) && |f| >= 2 && f[0] == '-' && f != "--" && !Bundles(f, 'c')
  }

  predicate CommandFlag(f: string) {
    NoSpace(f) && Bundles(f, 'c')
  }

  /** The flags, the command flag and the quoted command, as one text. */
  function FlagsThen(flags: seq<string>, last: string, quoted: string): string {
    if flags == [] then last + " " + quoted else flags[0] + " " + FlagsThen(flags[1..], last, quoted)
  }

  function Wrapped(shell: string, flags: seq<string>, last: string, command: string): string {
    shell + " " + FlagsThen(flags, last, ShellQuote(command))
  }

  predicate HasLogin(flags: seq<string>) {
    exists i :: 0 <= i < |flags| && Bundles(flags[i], 'l')
  }

  /** Text with no white space at either end. */
  predicate Tight(s: string) {
    s != [] && !IsSpace(s[0]) && !IsSpace(s[|s| - 1])
  }

  lemma QuotedIsTight(command: string)
    ensures Tight(ShellQuote(command)) && Trim(ShellQuote(command)) == ShellQuote(command)
  {
    var q := ShellQuote(command);
    if IsSimple(command) {
      assert IsSafe(q[0]) && IsSafe(q[|q| - 1]);
    }
    NothingToTrim(q);
  }

  /** The first token of `f`, a blank, and tight text. */
  lemma SplitFirst(f: string, rest: string)
    requires NoSpace(f) && rest != [] && !IsSpace(rest[0])
    ensures var s := f + " " + rest;
      TokenLen(s) == |f| && s[..|f|] == f && TrimStart(s[|f|..]) == rest
  {
    var s := f + " " + rest;
    TokenLenIs(s, |f|);
    assert s[|f|..] == " " + rest;
    TrimStartIs(" " + rest, 1);
    assert (" " + rest)[1..] == rest;
  }

  lemma FlagsThenTight(flags: seq<string>, last: string, command: string)
    requires (forall f :: f in flags ==> PlainFlag(f)) && CommandFlag(last)
    ensures Tight(FlagsThen(flags, last, ShellQuote(command)))
  {
    QuotedIsTight(command);
    assert last[0] == '-';
    if flags != [] {
      assert PlainFlag(flags[0]);
      FlagsThenTight(flags[1..], last, command);
    }
  }

  lemma HasLoginStep(f: string, rest: seq<string>)
    ensures HasLogin([f] + rest) <==> Bundles(f, 'l') || HasLogin(rest)
  {
    var all := [f] + rest;
    if Bundles(f, 'l') {
      assert Bundles(all[0], 'l');
    }
    if i :| 0 <= i < |rest| && Bundles(rest[i], 'l') {
      assert Bundles(all[i + 1], 'l');
    }
  }

  lemma {:induction false} BehindFlagsOfWrapped(flags: seq<string>, last: string, command: string, sawLogin: bool)
    requires (forall f :: f in flags ==> PlainFlag(f)) && CommandFlag(last)
    ensures BehindFlags(FlagsThen(flags, last, ShellQuote(command)), sawLogin) ==
      if sawLogin || HasLogin(flags + [last]) then Some(command) else None
    decreases |flags|
  {
    var quoted := ShellQuote(command);
    QuotedIsTight(command);
    UnquoteInvertsQuote(command);
    if flags == [] {
      SplitFirst(last, quoted);
      HasLoginStep(last, []);
      assert [last] + [] == [] + [last] == [last];
      hide ShellQuote, UnquoteShellString, Trim, TrimStart, TokenLen, HasLogin;
      assert !HasLogin([]) by { NoLogin(); }
    } else {
      var rest := FlagsThen(flags[1..], last, quoted);
      FlagsThenTight(flags[1..], last, command);
      assert PlainFlag(flags[0]);
      SplitFirst(flags[0], rest);
      HasLoginStep(flags[0], flags[1..] + [last]);
      assert [flags[0]] + (flags[1..] + [last]) == flags + [last];
      hide ShellQuote, UnquoteShellString, Trim, TrimStart, TokenLen, HasLogin;
      BehindFlagsOfWrapped(flags[1..], last, command, sawLogin || Bundles(flags[0], 'l'));
    }
  }

  lemma NoLogin()
    ensures !HasLogin([])
  {
  }

  /** A quoted command behind a bash wrapper is found again exactly when a flag asks for a
      login shell. */
  lemma UnwrapFindsCommand(shell: string, flags: seq<string>, last: string, command: string)
    requires NoSpace(shell) && BaseName(shell) == "bash"
    requires (forall f :: f in flags ==> PlainFlag(f)) && CommandFlag(last)
    ensures Unwrapped(Wrapped(shell, flags, last, command)) == if HasLogin(flags + [last]) then Some(command) else None
  {
    var rest := FlagsThen(flags, last, ShellQuote(command));
    var line := Wrapped(shell, flags, last, command);
    FlagsThenTight(flags, last, command);
    assert shell != [];
    NothingToTrim(line);
    SplitFirst(shell, rest);
    BehindFlagsOfWrapped(flags, last, command, false);
    hide BehindFlags, HasLogin, FlagsThen, Trim, TrimStart, TokenLen, BaseName;
  }

  /** tmux may quote the whole wrapper again: normalizing still gives the command itself. */
  lemma NormalizeFindsCommand(shell: string, flags: seq<string>, last: string, command: string)
    requires NoSpace(shell) && BaseName(shell) == "bash"
    requires (forall f :: f in flags ==> PlainFlag(f)) && CommandFlag(last) && HasLogin(flags + [last])
    ensures NormalizePaneStartCommand(ShellQuote(Wrapped(shell, flags, last, command))) == command
  {
    var line := Wrapped(shell, flags, last, command);
    QuotedIsTight(line);
    UnquoteInvertsQuote(line);
    UnwrapFindsCommand(shell, flags, last, command);
    hide Unwrapped, ShellQuote, UnquoteShellString, Wrapped, Trim;
  }

  // -- the first prompt ---------------------------------------------------

  const MAX_FIELD_LENGTH := 4096

  predicate Has(s: string, part: string) {
    |s| >= |part| && (s[..|part|] == part || (s != [] && Has(s[1..], part)))
  }

  predicate RefChar(c: char) {
    !IsSpace(c) && c !in "~^:?*\\[" && c as int >= 0x20 && c as int != 0x7f
  }

  /** One path segment that is also a plausible branch name. */
  predicate ValidChangeName(name: string) {
    && name != "." && name != ".." && '/' !in name
    && 0 < |name| <= MAX_FIELD_LENGTH
    && name[0] != '.' && name[0] != '-'
    && !Has(name, "..") && !Has(name, "@{")
    && (forall c :: c in name ==> RefChar(c))
    && !EndsWith(name, ".lock") && !EndsWith(name, ".")
  }

  function ApplyCommandFor(agent: string, change: string): Option<string> {
    if agent == "claude" || agent == "claude-rp" then Some("/opsx:apply " + change)
    else if agent == "codex" then Some("$openspec-apply-change " + change)
    else None
  }

  /** The command line the prompt is put behind: a blank command is the agent itself. */
  function Base(command: Option<string>, agent: string): string {
    if command.Some? && Trim(command.value) != [] then Trim(command.value) else agent
  }

  function ComposeAutoStartCommand(command: Option<string>, agent: Option<string>,
                                   change: Option<string>): Option<string> {
    if agent == None || change == None || !ValidChangeName(change.value) then command
    else
      var prompt := ApplyCommandFor(agent.value, change.value);
      if prompt == None then command
      else Some(Base(command, agent.value) + " " + ShellQuote(prompt.value))
  }

  lemma ValidNameIsNulFree(change: string)
    requires ValidChangeName(change)
    ensures NulFree(change)
  {
    assert !RefChar(NUL);
  }

  /** The prompt reaches the agent as one word, unexpanded, behind the words of the base. */
  lemma ComposeAddsOneWord(command: Option<string>, agent: string, change: string)
    requires ValidChangeName(change) && ApplyCommandFor(agent, change).Some?
    requires Words(Base(command, agent)).Some?
    ensures ComposeAutoStartCommand(command, Some(agent), Some(change)).Some?
    ensures Words(ComposeAutoStartCommand(command, Some(agent), Some(change)).value)
         == Some(Words(Base(command, agent)).value + [ApplyCommandFor(agent, change).value])
  {
    var base, prompt := Base(command, agent), ApplyCommandFor(agent, change).value;
    var ws := Words(base).value;
    ValidNameIsNulFree(change);
    assert NulFree(prompt);
    LexThenBlank(base, ShellQuote(prompt), None, []);
    assert base + " " + ShellQuote(prompt) == base + [' '] + ShellQuote(prompt);
    LexQuoted(prompt, [], ws);
    assert ShellQuote(prompt) + [] == ShellQuote(prompt);
    BlankEndsWord(prompt, [], ws);
    hide Lex, ShellQuote, Base, ApplyCommandFor, NulFree, ValidChangeName;
  }

  lemma TrimEscapedBlank()
    ensures Trim("foo\\ ") == "foo\\"
  {
    var c := "foo\\ ";
    assert TrimStart(c) == c;
    assert c[..4] == "foo\\";
    assert TrimEnd(c) == TrimEnd("foo\\");
  }

  lemma LexFooBlank(rest: string)
    ensures Lex("foo\\ " + rest, None, []) == Lex(rest, Some("foo "), [])
  {
    var tail := "\\ " + rest;
    assert "foo\\ " + rest == "foo" + tail && "" + "foo" == "foo" && "foo" + [' '] == "foo ";
    LexSafe("foo", tail, None, []);
    assert tail[0] == '\\' && tail[1] == ' ' && tail[2..] == rest;
  }

  lemma LexQuotedInWord(prompt: string, current: string)
    requires NulFree(prompt) && !IsSimple(prompt)
    ensures Lex(ShellQuote(prompt), Some(current), []) == Some([current + prompt])
  {
    var quoted := ShellQuote(prompt);
    assert quoted[0] == '\'' && quoted[1..] == Inner(prompt) + "'" + [];
    LexInner(prompt, [], current, []);
    BlankEndsWord(current + prompt, [], []);
    assert [] + [current + prompt] == [current + prompt];
  }

  /** The law is about the trimmed command: trimming can cut an escaped blank in half. This
      command is one whole word, yet its prompt does not become a word of its own. */
  lemma TrimCutsEscapedBlank(change: string)
    requires ValidChangeName(change)
    ensures Words("foo\\ ") == Some(["foo "])
    ensures ComposeAutoStartCommand(Some("foo\\ "), Some("claude"), Some(change)).Some?
    ensures Words(ComposeAutoStartCommand(Some("foo\\ "), Some("claude"), Some(change)).value) ==
      Some(["foo " + ("/opsx:apply " + change)])
  {
    var prompt := "/opsx:apply " + change;
    ValidNameIsNulFree(change);
    assert NulFree(prompt);
    assert prompt[11] == ' ' && !IsSafe(prompt[11]) && !IsSimple(prompt);
    TrimEscapedBlank();
    LexFooBlank([]);
    assert "foo\\ " + [] == "foo\\ ";
    BlankEndsWord("foo ", [], []);
    assert [] + ["foo "] == ["foo "];
    LexFooBlank(ShellQuote(prompt));
    LexQuotedInWord(prompt, "foo ");
    assert "foo\\" + " " + ShellQuote(prompt) == "foo\\ " + ShellQuote(prompt);
    hide Lex, ShellQuote, Trim, ValidChangeName, NulFree, IsSimple, IsSafe;
  }
}
