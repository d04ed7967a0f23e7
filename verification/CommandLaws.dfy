/** What start commands are made of: the shell's name, its flags, the names of changes, and the prompts. */
module CommandLaws {
  import opened Options
  import opened Strings
  import opened ShellWords
  import opened ShellQuoting
  import opened StartCommand

  // -- the wrapper --------------------------------------------------------

  /** The base name is what is behind the last slash. */
  lemma {:induction false} BaseNameIs(s: string) returns (front: string)
    ensures s == front + BaseName(s) && '/' !in BaseName(s)
    ensures front == "" || front[|front| - 1] == '/'
  {
    if s == [] {
      front := "";
    } else if s[|s| - 1] == '/' {
      front := s;
    } else {
      var n := |s| - 1;
      front := BaseNameIs(s[..n]);
      assert s == s[..n] + [s[n]];
      Regrouped(front, BaseName(s[..n]), [s[n]]);
    }
  }

  lemma Regrouped(u: string, v: string, w: string)
    ensures (u + v) + w == u + (v + w)
  {
  }

  lemma LetterIff(c: char)
    ensures IsLetter(c) <==> c in SMALL || c in CAPITALS
  {
    SmallIff(c);
    CapitalsIff(c);
  }

  /** A flag asks for something by a letter exactly when it is a dash and letters, with that one among them. */
  lemma BundlesIff(token: string, letter: char)
    ensures Bundles(token, letter) <==>
      && |token| > 1 && token[0] == '-'
      && (forall i :: 0 < i < |token| ==> token[i] in SMALL || token[i] in CAPITALS)
      && exists i :: 0 < i < |token| && token[i] == letter
  {
    forall c
      ensures IsLetter(c) <==> c in SMALL || c in CAPITALS
    {
      LetterIff(c);
    }
    hide IsLetter;
    assert |token| > 1 ==> forall i :: 0 < i < |token| ==> token[1..][i - 1] == token[i];
  }

  // -- names of changes ---------------------------------------------------

  ghost predicate HasAt(s: string, part: string, i: int) {
    0 <= i && i + |part| <= |s| && s[i..i + |part|] == part
  }

  lemma HasAtStart(s: string, part: string)
    ensures HasAt(s, part, 0) <==> |part| <= |s| && s[..|part|] == part
  {
    if |part| <= |s| {
      assert s[0..0 + |part|] == s[..|part|];
    }
  }

  lemma HasAtLater(s: string, part: string, i: int)
    requires s != [] && i > 0
    ensures HasAt(s, part, i) <==> HasAt(s[1..], part, i - 1)
  {
    if i + |part| <= |s| {
      assert s[1..][i - 1..i - 1 + |part|] == s[i..i + |part|];
    }
  }

  lemma {:induction false} HasIff(s: string, part: string)
    ensures Has(s, part) <==> exists i :: HasAt(s, part, i)
  {
    HasAtStart(s, part);
    if s != [] {
      HasIff(s[1..], part);
      forall i | i > 0
        ensures HasAt(s, part, i) <==> HasAt(s[1..], part, i - 1)
      {
        HasAtLater(s, part, i);
      }
      hide HasAt;
      if i :| HasAt(s[1..], part, i) {
        NotBeforeStart(s[1..], part, i);
        assert HasAt(s, part, i + 1);
      }
      if i :| HasAt(s, part, i) {
        NotBeforeStart(s, part, i);
      }
    } else if part != [] {
      assert forall i :: !HasAt(s, part, i);
    }
  }

  lemma NotBeforeStart(s: string, part: string, i: int)
    requires HasAt(s, part, i)
    ensures 0 <= i && |part| <= |s|
  {
  }

  /** A character a git ref may hold. */
  ghost predicate MayBeInRef(c: char) {
    && !IsSpace(c) && c as int > 31 && c as int != 127
    && c != '~' && c != '^' && c != ':' && c != '?' && c != '*' && c != '\\' && c != '['
  }

  /** A name of a change: one path segment of 1 to 4096 characters that git takes for a branch. */
  lemma ChangeNameIff(name: string)
    ensures ValidChangeName(name) <==>
      && 1 <= |name| <= 4096
      && (forall i :: 0 <= i < |name| ==> name[i] != '/' && MayBeInRef(name[i]))
      && name[0] != '.' && name[0] != '-' && name[|name| - 1] != '.'
      && (forall i :: HasAt(name, "..", i) ==> false)
      && (forall i :: HasAt(name, "@{", i) ==> false)
      && (forall front :: name != front + ".lock")
  {
    HasIff(name, "..");
    HasIff(name, "@{");
    EndsWithIff(name, ".lock");
    DotAtEnd(name);
    CharsMayBeInRef(name);
    hide Has, HasAt, EndsWith, RefChar, MayBeInRef;
  }

  lemma DotAtEnd(name: string)
    ensures EndsWith(name, ".") <==> name != [] && name[|name| - 1] == '.'
  {
    if name != [] {
      assert name[|name| - 1..] == [name[|name| - 1]];
    }
  }

  lemma CharsMayBeInRef(name: string)
    ensures '/' !in name && (forall c :: c in name ==> RefChar(c)) <==>
      forall i :: 0 <= i < |name| ==> name[i] != '/' && MayBeInRef(name[i])
  {
    forall c: char
      ensures RefChar(c) <==> MayBeInRef(c)
    {
      RefCharIff(c);
    }
    hide RefChar, MayBeInRef;
  }

  lemma RefCharIff(c: char)
    ensures RefChar(c) <==> MayBeInRef(c)
  {
    hide IsSpace;
  }

  // -- prompts ------------------------------------------------------------

  /** The two agents with an apply command: Claude, under either of its names, and Codex. */
  lemma PromptIs(agent: string, change: string)
    ensures ApplyCommandFor("claude", change) == ApplyCommandFor("claude-rp", change) == Some("/opsx:apply " + change)
    ensures ApplyCommandFor("codex", change) == Some("$openspec-apply-change " + change)
    ensures ApplyCommandFor(agent, change).Some? <==> agent in ["claude", "claude-rp", "codex"]
  {
  }

  // -- double quotes in a command line ------------------------------------

  predicate StaysInDouble(c: char) {
    c != '"' && c != '$' && c != '`' && c != '\\' && c != NUL
  }

  /** Between double quotes a text is read as it is, blanks and all; a backslash makes the characters that mean
      something there stand for themselves. */
  function InDouble(s: string): string {
    if s == [] then [] else (if StaysInDouble(s[0]) then [s[0]] else ['\\', s[0]]) + InDouble(s[1..])
  }

  lemma {:induction false} LexInDouble(s: string, current: string, words: seq<string>)
    requires NUL !in s
    ensures LexDouble(InDouble(s) + "\"", current, words) == Some(words + [current + s])
    decreases |s|
  {
    if s == [] {
      assert InDouble(s) + "\"" == "\"" && "\""[1..] == [];
      assert current + s == current;
    } else {
      var rest := InDouble(s[1..]) + "\"";
      LexInDouble(s[1..], current + [s[0]], words);
      assert current + [s[0]] + s[1..] == current + s;
      var all := InDouble(s) + "\"";
      if StaysInDouble(s[0]) {
        assert all == [s[0]] + rest && all[1..] == rest;
      } else {
        assert all == ['\\', s[0]] + rest && all[2..] == rest && all[1] == s[0];
        assert s[0] in "$`\"\\";
      }
    }
  }

  /** So every text without a NUL is one word in double quotes. */
  lemma DoubleQuotedIsRead(s: string)
    requires NUL !in s
    ensures Words("\"" + InDouble(s) + "\"") == Some([s])
  {
    var line := "\"" + InDouble(s) + "\"";
    assert line[0] == '"' && line[1..] == InDouble(s) + "\"";
    LexInDouble(s, "", []);
    assert "" + s == s && [] + [s] == [s];
    hide LexDouble, InDouble;
  }
}
