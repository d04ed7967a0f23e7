/** What the push hook reads: git's lines on standard input, and the paths git status lists. */
module PushInput {
  import opened Options
  import opened Strings

  datatype PushLine = PushLine(localRef: string, localSha: string, remoteRef: string, remoteSha: string)

  predicate IsHex(c: char) {
    '0' <= c <= '9' || 'a' <= c <= 'f'
  }

  predicate IsSha(s: string) {
    (|s| == 40 || |s| == 64) && forall i :: 0 <= i < |s| ==> IsHex(s[i])
  }

  predicate IsZeroSha(s: string) {
    IsSha(s) && forall i :: 0 <= i < |s| ==> s[i] == '0'
  }

  /** An object id is 40 or 64 small hexadecimal digits. */
  lemma ShaIff(s: string)
    ensures IsSha(s) <==> |s| in {40, 64} && forall c :: c in s ==> c in "0123456789abcdef"
  {
    forall c: char
      ensures IsHex(c) <==> c in "0123456789abcdef"
    {
      HexIff(c);
    }
    hide IsHex;
    assert forall i :: 0 <= i < |s| ==> s[i] in s;
  }

  lemma HexIff(c: char)
    ensures IsHex(c) <==> c in "0123456789abcdef"
  {
    var digits := "0123456789abcdef";
    if '0' <= c <= '9' {
      assert digits[c as int - '0' as int] == c;
    } else if 'a' <= c <= 'f' {
      assert digits[c as int - 'a' as int + 10] == c;
    }
  }

  /** The id of nothing is 40 or 64 zeros. */
  lemma ZeroShaIff(s: string)
    ensures IsZeroSha(s) <==> |s| in {40, 64} && forall i :: 0 <= i < |s| ==> s[i] == '0'
  {
  }

  datatype Reading = Blank | Malformed(text: string) | Line(line: PushLine)

  function WithoutCr(raw: string): string {
    if raw != [] && raw[|raw| - 1] == '\r' then raw[..|raw| - 1] else raw
  }

  /** What one line of the input says. */
  function ReadLine(raw: string): Reading {
    var line := WithoutCr(raw);
    var fields := Split(line, ' ');
    if Trim(line) == "" then Blank
    else if |fields| != 4 || "" in fields || !IsSha(fields[1]) || !IsSha(fields[3]) then Malformed(line)
    else Line(PushLine(fields[0], fields[1], fields[2], fields[3]))
  }

  function LinesOf(raws: seq<string>): seq<PushLine> {
    if raws == [] then []
    else
      var r := ReadLine(raws[|raws| - 1]);
      LinesOf(raws[..|raws| - 1]) + (if r.Line? then [r.line] else [])
  }

  predicate FirstMalformed(raws: seq<string>, k: int, text: string) {
    && 0 <= k < |raws| && ReadLine(raws[k]) == Malformed(text)
    && (forall i :: 0 <= i < k ==> !ReadLine(raws[i]).Malformed?)
  }

  datatype Parsed = Good(lines: seq<PushLine>) | Unreadable(text: string)

  /** All the lines, or the first malformed one. */
  method ParsePushInput(input: string) returns (r: Parsed)
    ensures r.Good? <==> forall raw :: raw in Split(input, '\n') ==> !ReadLine(raw).Malformed?
    ensures r.Good? ==> r.lines == LinesOf(Split(input, '\n'))
    ensures r.Unreadable? ==> exists k :: FirstMalformed(Split(input, '\n'), k, r.text)
  {
    hide ReadLine, Split;
    var raws := Split(input, '\n');
    var lines := [];
    for i := 0 to |raws|
      invariant forall j :: 0 <= j < i ==> !ReadLine(raws[j]).Malformed?
      invariant lines == LinesOf(raws[..i])
    {
      assert raws[..i + 1][..i] == raws[..i];
      var reading := ReadLine(raws[i]);
      match reading
      case Blank =>
      case Malformed(text) =>
        assert FirstMalformed(raws, i, text);
        return Unreadable(text);
      case Line(line) => lines := lines + [line];
    }
    assert raws[..|raws|] == raws;
    r := Good(lines);
  }

  // -- what git writes is read back ---------------------------------------

  predicate Writable(l: PushLine) {
    && l.localRef != "" && ' ' !in l.localRef && '\n' !in l.localRef && IsSha(l.localSha)
    && l.remoteRef != "" && ' ' !in l.remoteRef && '\n' !in l.remoteRef && IsSha(l.remoteSha)
  }

  function Written(l: PushLine): string {
    Join([l.localRef, l.localSha, l.remoteRef, l.remoteSha], " ")
  }

  lemma {:induction false} NotBlank(s: string, i: nat)
    requires i < |s| && !IsSpace(s[i])
    ensures Trim(s) != ""
    decreases |s|
  {
    if IsSpace(s[0]) {
      assert s[1..][i - 1] == s[i];
      NotBlank(s[1..], i - 1);
      assert TrimStart(s) == TrimStart(s[1..]);
    } else {
      assert TrimStart(s) == s;
      EndKeeps(s, 0);
    }
  }

  lemma {:induction false} EndKeeps(s: string, i: nat)
    requires i < |s| && !IsSpace(s[i])
    ensures TrimEnd(s) != ""
    decreases |s|
  {
    if IsSpace(s[|s| - 1]) {
      EndKeeps(s[..|s| - 1], i);
    }
  }

  lemma WrittenShape(l: PushLine)
    ensures Written(l) == l.localRef + " " + (l.localSha + " " + (l.remoteRef + " " + l.remoteSha))
  {
    var f := [l.localRef, l.localSha, l.remoteRef, l.remoteSha];
    assert f[1..] == [l.localSha, l.remoteRef, l.remoteSha];
    assert f[1..][1..] == [l.remoteRef, l.remoteSha];
    assert f[1..][1..][1..] == [l.remoteSha];
    assert Join([l.remoteSha], " ") == l.remoteSha;
    assert Join(f[1..][1..], " ") == l.remoteRef + " " + l.remoteSha;
    assert Join(f[1..], " ") == l.localSha + " " + (l.remoteRef + " " + l.remoteSha);
  }

  lemma FieldsAreWritten(line: string, l: PushLine)
    requires l.localRef != "" && ' ' !in l.localRef && IsSha(l.localSha) && l.remoteRef != ""
      && ' ' !in l.remoteRef && IsSha(l.remoteSha)
    requires line == Written(l)
    ensures Split(line, ' ') == [l.localRef, l.localSha, l.remoteRef, l.remoteSha]
    ensures "" !in Split(line, ' ') && Trim(line) != ""
  {
    hide Split, Join, Trim, IsSpace;
    SplitOfJoin([l.localRef, l.localSha, l.remoteRef, l.remoteSha], ' ');
    WrittenShape(l);
    hide Written;
    assert line[|line| - 1] == l.remoteSha[|l.remoteSha| - 1];
    HexIsNotSpace(line[|line| - 1]);
    NotBlank(line, |line| - 1);
  }

  lemma HexIsNotSpace(c: char)
    requires IsHex(c)
    ensures !IsSpace(c)
  {
  }

  lemma FieldsAreThere(raw: string, line: string, fields: seq<string>)
    requires fields == Split(line, ' ') && |fields| == 4 && line == WithoutCr(raw) && '\n' !in raw
    ensures line == Written(PushLine(fields[0], fields[1], fields[2], fields[3]))
    ensures ' ' !in fields[0] && ' ' !in fields[2] && '\n' !in fields[0] && '\n' !in fields[2]
  {
    hide Split, Join;
    var l := PushLine(fields[0], fields[1], fields[2], fields[3]);
    assert [fields[0], fields[1], fields[2], fields[3]] == fields;
    assert line == Written(l);
    WrittenShape(l);
    forall c | c in l.localRef || c in l.remoteRef
      ensures c in raw
    {
      hide Written;
      assert c in line;
    }
  }

  /** A line is read exactly when it is, but for a final carriage return, what git writes for it. */
  lemma LineIsReadIffWritten(raw: string, l: PushLine)
    requires '\n' !in raw
    ensures ReadLine(raw) == Line(l) <==> Writable(l) && WithoutCr(raw) == Written(l)
  {
    hide Split, Join, Trim, WithoutCr, Written, IsSha;
    var line := WithoutCr(raw);
    var fields := Split(line, ' ');
    if Writable(l) && line == Written(l) {
      FieldsAreWritten(line, l);
    }
    if ReadLine(raw) == Line(l) {
      FieldsAreThere(raw, line, fields);
      assert fields[0] in fields && fields[2] in fields;
    }
  }

  function WrittenAll(lines: seq<PushLine>): seq<string> {
    if lines == [] then [""] else [Written(lines[0])] + WrittenAll(lines[1..])
  }

  lemma {:induction false} LinesOfConcat(a: seq<string>, b: seq<string>)
    ensures LinesOf(a + b) == LinesOf(a) + LinesOf(b)
  {
    hide ReadLine;
    if b == [] {
      assert a + b == a;
    } else {
      var n := |b| - 1;
      assert (a + b)[..|a + b| - 1] == a + b[..n];
      LinesOfConcat(a, b[..n]);
    }
  }

  lemma WrittenIsRead(l: PushLine)
    requires Writable(l)
    ensures '\n' !in Written(l) && ReadLine(Written(l)) == Line(l)
  {
    WrittenShape(l);
    assert '\n' !in Written(l) && Written(l)[|Written(l)| - 1] == l.remoteSha[|l.remoteSha| - 1];
    LineIsReadIffWritten(Written(l), l);
  }

  /** One carriage return at the end of a line is no part of it. */
  lemma FinalCrIsDropped(text: string)
    requires text == [] || text[|text| - 1] != '\r'
    ensures ReadLine(text + "\r") == ReadLine(text)
    ensures WithoutCr(text + "\r") == WithoutCr(text) == text
  {
    assert WithoutCr(text + "\r") == text by {
      assert (text + "\r")[..|text|] == text;
    }
    hide WithoutCr;
    SameLineSameReading(text + "\r", text);
  }

  lemma SameLineSameReading(a: string, b: string)
    requires WithoutCr(a) == WithoutCr(b)
    ensures ReadLine(a) == ReadLine(b)
  {
    hide WithoutCr, Split, Trim, IsSha;
  }

  lemma OneLine(raw: string)
    ensures LinesOf([raw]) == if ReadLine(raw).Line? then [ReadLine(raw).line] else []
  {
    hide ReadLine;
    var raws := [raw];
    assert raws[..|raws| - 1] == [];
  }

  lemma {:induction false} WrittenAllIsRead(lines: seq<PushLine>)
    requires forall i :: 0 <= i < |lines| ==> Writable(lines[i])
    ensures |WrittenAll(lines)| > 0
    ensures forall raw :: raw in WrittenAll(lines) ==> '\n' !in raw && !ReadLine(raw).Malformed?
    ensures LinesOf(WrittenAll(lines)) == lines
  {
    hide ReadLine, Written, Writable, LinesOf;
    if lines == [] {
      OneLine("");
      EmptyIsBlank();
    } else {
      WrittenAllIsRead(lines[1..]);
      WrittenIsRead(lines[0]);
      OneMoreLine(Written(lines[0]), lines[0], WrittenAll(lines[1..]), lines[1..]);
    }
  }

  lemma EmptyIsBlank()
    ensures ReadLine("") == Blank
  {
    hide Split;
  }

  lemma OneMoreLine(raw: string, l: PushLine, raws: seq<string>, lines: seq<PushLine>)
    requires '\n' !in raw && ReadLine(raw) == Line(l) && LinesOf(raws) == lines
    requires forall r :: r in raws ==> '\n' !in r && !ReadLine(r).Malformed?
    ensures forall r :: r in [raw] + raws ==> '\n' !in r && !ReadLine(r).Malformed?
    ensures LinesOf([raw] + raws) == [l] + lines
  {
    hide *;
    OneLine(raw);
    LinesOfConcat([raw], raws);
  }

  /** Lines written one below the other are read back as they were. */
  lemma WrittenInputIsRead(lines: seq<PushLine>)
    requires forall i :: 0 <= i < |lines| ==> Writable(lines[i])
    ensures var raws := Split(Join(WrittenAll(lines), "\n"), '\n');
      (forall raw :: raw in raws ==> !ReadLine(raw).Malformed?) && LinesOf(raws) == lines
  {
    WrittenAllIsRead(lines);
    SplitOfJoin(WrittenAll(lines), '\n');
  }

  // -- git status ---------------------------------------------------------

  predicate IsEntry(token: string) {
    |token| >= 3 && token[2] == ' '
  }

  predicate IsMoveCode(xy: string) {
    'R' in xy || 'C' in xy
  }

  predicate IsMove(token: string) {
    IsEntry(token) && IsMoveCode(token[..2])
  }

  /** The paths of the entry at a token; a move carries its old path in the next one. */
  function EntryPaths(tokens: seq<string>, index: nat): seq<string>
    requires index < |tokens|
  {
    if !IsEntry(tokens[index]) then []
    else
      [tokens[index][3..]]
      + (if IsMove(tokens[index]) && index + 1 < |tokens| && tokens[index + 1] != "" then [tokens[index + 1]] else [])
  }

  function PathsFrom(tokens: seq<string>, index: nat): seq<string>
    decreases |tokens| - index
  {
    if index >= |tokens| then []
    else EntryPaths(tokens, index) + PathsFrom(tokens, index + if IsMove(tokens[index]) then 2 else 1)
  }

  lemma Regroup(a: seq<string>, b: seq<string>, c: seq<string>)
    ensures (a + b) + c == a + (b + c)
  {
  }

  lemma PathsStep(tokens: seq<string>, index: nat)
    requires index < |tokens|
    ensures PathsFrom(tokens, index) ==
      EntryPaths(tokens, index) + PathsFrom(tokens, index + if IsMove(tokens[index]) then 2 else 1)
  {
  }

  method DirtyPaths(stdout: string) returns (paths: seq<string>)
    ensures paths == PathsFrom(Split(stdout, '\0'), 0)
  {
    var tokens := Split(stdout, '\0');
    hide Split, IsMoveCode;
    paths := [];
    var index := 0;
    ghost var all := PathsFrom(tokens, 0);
    assert paths + all == all;
    while index < |tokens|
      invariant paths + PathsFrom(tokens, index) == all
      decreases |tokens| - index
    {
      ghost var before, here := paths, index;
      PathsStep(tokens, here);
      hide PathsFrom;
      var entry := tokens[index];
      if |entry| >= 3 && entry[2] == ' ' {
        paths := paths + [entry[3..]];
        var xy := entry[..2];
        if IsMoveCode(xy) {
          assert IsMove(tokens[here]);
          if index + 1 < |tokens| && tokens[index + 1] != "" {
            paths := paths + [tokens[index + 1]];
          }
          index := index + 1;
        }
        assert paths == before + EntryPaths(tokens, here);
      } else {
        assert EntryPaths(tokens, here) == [];
      }
      index := index + 1;
      assert index == here + if IsMove(tokens[here]) then 2 else 1;
      ghost var found, rest := EntryPaths(tokens, here), PathsFrom(tokens, index);
      assert paths == before + found;
      hide *;
      Regroup(before, found, rest);
    }
    assert paths + [] == paths;
  }

  /** One entry of git status; `source` is where a renamed or copied path came from. */
  datatype Entry = Entry(x: char, y: char, path: string, source: string)

  predicate Moves(e: Entry) {
    e.x in {'R', 'C'} || e.y in {'R', 'C'}
  }

  predicate Listed(e: Entry) {
    '\0' !in e.path && '\0' !in e.source && e.source != "" && e.x != '\0' && e.y != '\0'
  }

  function EntryTokens(e: Entry): seq<string> {
    [[e.x, e.y, ' '] + e.path] + (if Moves(e) then [e.source] else [])
  }

  function Tokens(entries: seq<Entry>): seq<string> {
    if entries == [] then [""]
    else EntryTokens(entries[0]) + Tokens(entries[1..])
  }

  function Paths(entries: seq<Entry>): seq<string> {
    if entries == [] then []
    else [entries[0].path] + (if Moves(entries[0]) then [entries[0].source] else []) + Paths(entries[1..])
  }

  lemma PathsOfMore(entries: seq<Entry>)
    requires entries != []
    ensures var e := entries[0];
      Paths(entries) == [e.path] + (if Moves(e) then [e.source] else []) + Paths(entries[1..])
  {
  }

  lemma {:induction false} TokensAreClean(entries: seq<Entry>)
    requires forall i :: 0 <= i < |entries| ==> Listed(entries[i])
    ensures |Tokens(entries)| > 0 && forall i :: 0 <= i < |Tokens(entries)| ==> '\0' !in Tokens(entries)[i]
  {
    if entries != [] {
      var here, rest := EntryTokens(entries[0]), Tokens(entries[1..]);
      EntryTokensAreClean(entries[0]);
      TokensAreClean(entries[1..]);
      hide EntryTokens;
      assert Tokens(entries) == here + rest;
    }
  }

  lemma EntryTokensAreClean(e: Entry)
    requires Listed(e)
    ensures |EntryTokens(e)| > 0 && forall i :: 0 <= i < |EntryTokens(e)| ==> '\0' !in EntryTokens(e)[i]
  {
  }

  lemma {:induction false} TokensAreRead(entries: seq<Entry>, before: seq<string>)
    requires forall i :: 0 <= i < |entries| ==> Listed(entries[i])
    ensures PathsFrom(before + Tokens(entries), |before|) == Paths(entries)
    decreases |entries|
  {
    var tokens := before + Tokens(entries);
    if entries == [] {
      assert tokens[|before|] == "";
      assert PathsFrom(tokens, |before| + 1) == [];
    } else {
      var e := entries[0];
      var here := EntryTokens(e);
      hide EntryPaths, IsMove, Paths, EntryTokens;
      assert tokens == before + here + Tokens(entries[1..]);
      TokensAreRead(entries[1..], before + here);
      EntryIsRead(e, before, Tokens(entries[1..]));
      PathsOfMore(entries);
      assert PathsFrom(tokens, |before|) == EntryPaths(tokens, |before|) + PathsFrom(tokens, |before| + |here|);
    }
  }

  lemma EntryIsRead(e: Entry, before: seq<string>, rest: seq<string>)
    requires Listed(e)
    ensures var tokens := before + EntryTokens(e) + rest;
      && EntryPaths(tokens, |before|) == [e.path] + (if Moves(e) then [e.source] else [])
      && (if IsMove(tokens[|before|]) then 2 else 1) == |EntryTokens(e)|
  {
    var first := [e.x, e.y, ' '] + e.path;
    var tokens := before + EntryTokens(e) + rest;
    assert tokens[|before|] == first;
    assert first[3..] == e.path && first[..2] == [e.x, e.y];
    assert Moves(e) ==> tokens[|before| + 1] == e.source;
    assert IsMove(first) <==> Moves(e);
  }

  /** The paths read are those git listed, old paths of moves too; so none are read exactly when
      none were listed. */
  lemma StatusIsRead(entries: seq<Entry>)
    requires forall i :: 0 <= i < |entries| ==> Listed(entries[i])
    ensures PathsFrom(Split(Join(Tokens(entries), "\0"), '\0'), 0) == Paths(entries)
    ensures Paths(entries) == [] <==> entries == []
  {
    TokensAreClean(entries);
    TokensAreRead(entries, []);
    SplitOfJoin(Tokens(entries), '\0');
    assert [] + Tokens(entries) == Tokens(entries);
  }
}
