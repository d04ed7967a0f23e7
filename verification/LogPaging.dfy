/** Paging a log backwards by byte cursors: chunks are read from the end until enough
    complete lines are in memory. */
module LogPaging {
  newtype Byte = b: int | 0 <= b < 256

  const LF: Byte := 10
  const CR: Byte := 13

  type Line = seq<Byte>

  // -- the forward reading of a log ---------------------------------------

  ghost predicate NoLf(s: seq<Byte>, from: nat, to: nat)
    requires to <= |s|
  {
    forall i :: from <= i < to ==> s[i] != LF
  }

  /** The position of the first LF, or the length. */
  function Break(s: seq<Byte>): (k: nat)
    ensures k <= |s| && NoLf(s, 0, k)
    ensures k < |s| ==> s[k] == LF
  {
    if s == [] || s[0] == LF then 0 else 1 + Break(s[1..])
  }

  function StripCr(line: Line): Line {
    if |line| > 0 && line[|line| - 1] == CR then line[..|line| - 1] else line
  }

  /** Lines end at LF, a CR before it is dropped, and a last LF starts no further line. */
  function ForwardLines(s: seq<Byte>): (r: seq<Line>)
    ensures r == [] <==> s == []
    decreases |s|, 1
  {
    if s == [] then [] else LinesCutAt(s, Break(s))
  }

  function LinesCutAt(s: seq<Byte>, k: nat): (r: seq<Line>)
    requires 0 < |s| && k <= |s|
    ensures r != []
    decreases |s|, 0
  {
    [StripCr(s[..k])] + (if k < |s| then ForwardLines(s[k + 1..]) else [])
  }

  lemma BreakIs(s: seq<Byte>, k: nat)
    requires k <= |s| && NoLf(s, 0, k) && (k < |s| ==> s[k] == LF)
    ensures Break(s) == k
  {
  }

  lemma FirstLine(s: seq<Byte>, k: nat)
    requires 0 < |s| && k <= |s| && NoLf(s, 0, k) && (k < |s| ==> s[k] == LF)
    ensures ForwardLines(s) == [StripCr(s[..k])] + (if k < |s| then ForwardLines(s[k + 1..]) else [])
  {
    hide *;
    LinesAreCut(s);
    BreakIs(s, k);
    LinesOfCut(s, k);
  }

  lemma LinesOfCut(s: seq<Byte>, k: nat)
    requires 0 < |s| && k <= |s|
    ensures LinesCutAt(s, k) == [StripCr(s[..k])] + (if k < |s| then ForwardLines(s[k + 1..]) else [])
  {
    hide ForwardLines, StripCr;
  }

  lemma LinesAreCut(s: seq<Byte>)
    requires s != []
    ensures ForwardLines(s) == LinesCutAt(s, Break(s))
  {
    hide Break, LinesCutAt;
  }

  /** A log's first line ends before its first line feed, or with the log; one carriage return at its end is no
      part of it; and what comes behind the line feed are the other lines. */
  lemma LinesInPlainTerms(s: seq<Byte>, k: nat)
    requires 0 < |s| && k <= |s| && (forall i :: 0 <= i < k ==> s[i] != 10) && (k < |s| ==> s[k] == 10)
    ensures ForwardLines(s) ==
      [if k > 0 && s[k - 1] == 13 then s[..k - 1] else s[..k]] + (if k < |s| then ForwardLines(s[k + 1..]) else [])
  {
    hide ForwardLines;
    var line := s[..k];
    assert NoLf(s, 0, k);
    FirstLine(s, k);
    assert k > 0 ==> line[k - 1] == s[k - 1] && line[..k - 1] == s[..k - 1];
  }

  /** Splitting after an LF splits the lines. */
  lemma {:induction false} LinesOfParts(x: seq<Byte>, y: seq<Byte>)
    requires x == [] || x[|x| - 1] == LF
    ensures ForwardLines(x + y) == ForwardLines(x) + ForwardLines(y)
  {
    hide ForwardLines, StripCr, Break;
    if x == [] {
      assert x + y == y;
      assert ForwardLines(x) == [];
    } else {
      var k := Break(x);
      assert k < |x|;
      FirstLine(x, k);
      FirstLine(x + y, k);
      assert (x + y)[..k] == x[..k];
      assert (x + y)[k + 1..] == x[k + 1..] + y;
      LinesOfParts(x[k + 1..], y);
    }
  }

  // -- one page -----------------------------------------------------------

  datatype ByteWindow = ByteWindow(
    endLine: nat,
    hasMoreBefore: bool,
    lines: seq<Line>,
    lineKeys: seq<nat>,
    startByte: nat,
    endByte: nat)

  function Clamp(beforeByte: int, size: nat): (r: nat)
    ensures r <= size
    ensures 0 <= beforeByte <= size ==> r == beforeByte
  {
    if beforeByte <= 0 then 0 else if beforeByte < size then beforeByte else size
  }

  function LastN<T>(s: seq<T>, n: nat): seq<T> {
    if |s| <= n then s else s[|s| - n..]
  }

  predicate AtLineStart(file: seq<Byte>, at: nat)
    requires at <= |file|
  {
    at == 0 || file[at - 1] == LF
  }

  /** The `i`th key is the byte at which the page's `i`th line begins. */
  ghost predicate KeyAt(file: seq<Byte>, w: ByteWindow, i: nat)
    requires i < |w.lineKeys| == |w.lines|
  {
    && w.startByte <= w.lineKeys[i] < w.endByte <= |file|
    && (i + 1 < |w.lineKeys| ==> w.lineKeys[i] < w.lineKeys[i + 1])
    && ForwardLines(file[w.lineKeys[i]..w.endByte]) == w.lines[i..]
  }

  ghost predicate KeysLocate(file: seq<Byte>, w: ByteWindow) {
    |w.lineKeys| == |w.lines| && forall i :: 0 <= i < |w.lineKeys| ==> KeyAt(file, w, i)
  }

  /** What one page is: the last `limit` lines before the cursor, and the rest left of `startByte`. */
  ghost predicate IsPage(file: seq<Byte>, limit: nat, beforeByte: int, w: ByteWindow) {
    var end := Clamp(beforeByte, |file|);
    && w.endByte == end
    && w.endLine == |w.lines|
    && w.startByte <= end
    && if file[..end] == [LF] then
         w.lines == [] && w.lineKeys == [] && !w.hasMoreBefore && w.startByte == end
       else
         && w.lines == LastN(ForwardLines(file[..end]), limit)
         && ForwardLines(file[..end]) == ForwardLines(file[..w.startByte]) + w.lines
         && AtLineStart(file, w.startByte)
         && w.hasMoreBefore == (w.startByte > 0)
         && KeysLocate(file, w)
  }

  function CountLf(s: seq<Byte>): nat {
    if s == [] then 0
    else CountLf(s[..|s| - 1]) + (if s[|s| - 1] == LF then 1 else 0)
  }

  lemma {:induction false} CountLfOfParts(x: seq<Byte>, y: seq<Byte>)
    ensures CountLf(x + y) == CountLf(x) + CountLf(y)
  {
    if y == [] {
      assert x + y == x;
    } else {
      assert (x + y)[..|x + y| - 1] == x + y[..|y| - 1];
      CountLfOfParts(x, y[..|y| - 1]);
    }
  }

  lemma CountLfNext(s: seq<Byte>, i: nat)
    requires i < |s|
    ensures CountLf(s[..i + 1]) == CountLf(s[..i]) + (if s[i] == LF then 1 else 0)
  {
    assert s[..i + 1][..i] == s[..i];
  }

  function Flatten(chunks: seq<seq<Byte>>): seq<Byte> {
    if chunks == [] then [] else chunks[0] + Flatten(chunks[1..])
  }

  /** `starts` are the line starts of `buffer[..n]`, the first at 0. */
  ghost predicate AreStarts(buffer: seq<Byte>, n: nat, starts: seq<nat>)
    requires n <= |buffer|
  {
    && |starts| == CountLf(buffer[..n]) + 1
    && starts[0] == 0
    && (forall i :: 0 <= i < |starts| ==> 0 <= starts[i] <= n)
    && (forall i :: 0 < i < |starts| ==> StartAt(buffer, starts, i))
    && NoLf(buffer, starts[|starts| - 1], n)
  }

  ghost predicate StartAt(buffer: seq<Byte>, starts: seq<nat>, i: nat)
    requires 0 < i < |starts|
  {
    && starts[i - 1] < starts[i] <= |buffer|
    && buffer[starts[i] - 1] == LF
    && NoLf(buffer, starts[i - 1], starts[i] - 1)
  }

  predicate CutAt(contentEnd: nat, starts: seq<nat>, i: nat)
    requires i < |starts|
  {
    starts[i] <= contentEnd && (i + 1 < |starts| ==> starts[i] < starts[i + 1])
  }

  predicate Cuts(buffer: seq<Byte>, contentEnd: nat, starts: seq<nat>) {
    contentEnd <= |buffer| && forall i :: 0 <= i < |starts| ==> CutAt(contentEnd, starts, i)
  }

  /** The line that begins at the `k`th start, its CR dropped. */
  function LineAt(buffer: seq<Byte>, contentEnd: nat, starts: seq<nat>, k: nat): Line
    requires k < |starts| && Cuts(buffer, contentEnd, starts)
  {
    assert CutAt(contentEnd, starts, k) && (k + 1 < |starts| ==> CutAt(contentEnd, starts, k + 1));
    var end := if k + 1 < |starts| then starts[k + 1] - 1 else contentEnd;
    StripCr(buffer[starts[k]..end])
  }

  /** The lines at the starts from the `k`th on. */
  function LinesAt(buffer: seq<Byte>, contentEnd: nat, starts: seq<nat>, k: nat): (r: seq<Line>)
    requires k <= |starts| && Cuts(buffer, contentEnd, starts)
    ensures |r| == |starts| - k
  {
    seq(|starts| - k, i requires 0 <= i < |starts| - k => LineAt(buffer, contentEnd, starts, k + i))
  }

  /** A buffer cut at its line starts; one LF at its end closes the last line. */
  ghost predicate IsCut(buffer: seq<Byte>, contentEnd: nat, starts: seq<nat>) {
    && |buffer| > 0
    && (contentEnd == |buffer| || (contentEnd == |buffer| - 1 && buffer[contentEnd] == LF))
    && (contentEnd == |buffer| ==> buffer[contentEnd - 1] != LF)
    && AreStarts(buffer, contentEnd, starts)
    && Cuts(buffer, contentEnd, starts)
  }

  lemma SliceOfRest(s: seq<Byte>, from: nat, to: nat)
    requires from <= to <= |s|
    ensures s[from..][..to - from] == s[from..to]
    ensures to < |s| ==> s[from..][to - from + 1..] == s[to + 1..]
  {
  }

  lemma LinesAtStep(buffer: seq<Byte>, contentEnd: nat, starts: seq<nat>, k: nat)
    requires Cuts(buffer, contentEnd, starts) && k < |starts|
    ensures LinesAt(buffer, contentEnd, starts, k) ==
      [LineAt(buffer, contentEnd, starts, k)] + LinesAt(buffer, contentEnd, starts, k + 1)
  {
    hide LineAt, CutAt;
  }

  lemma StartIsBehindLf(buffer: seq<Byte>, contentEnd: nat, starts: seq<nat>, k: nat)
    requires IsCut(buffer, contentEnd, starts) && 0 < k < |starts|
    ensures StartAt(buffer, starts, k)
  {
    hide CutAt, StartAt, CountLf;
  }

  /** The first line from a start on is the line at it, and the next start is behind it. */
  lemma LineFromStart(buffer: seq<Byte>, contentEnd: nat, starts: seq<nat>, k: nat)
    requires IsCut(buffer, contentEnd, starts) && k < |starts| && starts[k] <= |buffer|
    ensures k + 1 < |starts| ==> starts[k + 1] <= |buffer|
    ensures ForwardLines(buffer[starts[k]..]) ==
      [LineAt(buffer, contentEnd, starts, k)]
      + (if k + 1 < |starts| then ForwardLines(buffer[starts[k + 1]..]) else [])
  {
    hide ForwardLines, StripCr, Break, CountLf;
    if k + 1 < |starts| {
      InnerLine(buffer, contentEnd, starts, k);
    } else {
      LastLine(buffer, contentEnd, starts, k);
    }
  }

  lemma InnerLine(buffer: seq<Byte>, contentEnd: nat, starts: seq<nat>, k: nat)
    requires IsCut(buffer, contentEnd, starts) && k + 1 < |starts| && starts[k] <= |buffer|
    ensures starts[k + 1] <= |buffer|
    ensures ForwardLines(buffer[starts[k]..]) ==
      [LineAt(buffer, contentEnd, starts, k)] + ForwardLines(buffer[starts[k + 1]..])
  {
    hide ForwardLines, StripCr, CountLf, IsCut;
    StartIsBehindLf(buffer, contentEnd, starts, k + 1);
    var from, to := starts[k], starts[k + 1] - 1;
    assert from <= to < |buffer| && buffer[to] == LF && NoLf(buffer, from, to);
    SliceOfRest(buffer, from, to);
    RestHasNoLf(buffer, from, to);
    FirstLine(buffer[from..], to - from);
  }

  lemma RestHasNoLf(s: seq<Byte>, from: nat, to: nat)
    requires from <= to <= |s| && NoLf(s, from, to)
    ensures NoLf(s[from..], 0, to - from)
    ensures to < |s| ==> s[from..][to - from] == s[to]
  {
  }

  lemma LastLine(buffer: seq<Byte>, contentEnd: nat, starts: seq<nat>, k: nat)
    requires IsCut(buffer, contentEnd, starts) && k + 1 == |starts| && starts[k] <= |buffer|
    ensures ForwardLines(buffer[starts[k]..]) == [LineAt(buffer, contentEnd, starts, k)]
  {
    hide ForwardLines, StripCr, CountLf, StartAt;
    assert CutAt(contentEnd, starts, k);
    if k > 0 {
      LastStart(buffer, contentEnd, starts, k);
    }
    var from := starts[k];
    assert from <= contentEnd <= |buffer| && NoLf(buffer, from, contentEnd);
    SliceOfRest(buffer, from, contentEnd);
    RestHasNoLf(buffer, from, contentEnd);
    NothingBehind(buffer, contentEnd);
    FirstLine(buffer[from..], contentEnd - from);
  }

  /** A start behind the first is behind an LF, so it is not the end of a buffer without one. */
  lemma LastStart(buffer: seq<Byte>, contentEnd: nat, starts: seq<nat>, k: nat)
    requires IsCut(buffer, contentEnd, starts) && 0 < k < |starts|
    ensures starts[k] < |buffer|
  {
    hide CountLf;
    StartIsBehindLf(buffer, contentEnd, starts, k);
    assert CutAt(contentEnd, starts, k);
  }

  lemma NothingBehind(buffer: seq<Byte>, contentEnd: nat)
    requires contentEnd <= |buffer| <= contentEnd + 1
    ensures contentEnd < |buffer| ==> buffer[contentEnd + 1..] == []
    ensures ForwardLines([]) == []
  {
  }

  /** From each start on, the buffer's lines are the lines at the starts. */
  lemma {:induction false} LinesFromStart(buffer: seq<Byte>, contentEnd: nat, starts: seq<nat>, k: nat)
    requires IsCut(buffer, contentEnd, starts) && k < |starts|
    requires starts[k] <= |buffer|
    ensures ForwardLines(buffer[starts[k]..]) == LinesAt(buffer, contentEnd, starts, k)
    decreases |starts| - k
  {
    hide ForwardLines, LinesAt, LineAt, CountLf, StartAt, CutAt;
    LineFromStart(buffer, contentEnd, starts, k);
    LinesAtStep(buffer, contentEnd, starts, k);
    if k + 1 < |starts| {
      LinesFromStart(buffer, contentEnd, starts, k + 1);
    }
  }

  // -- from the buffer to the file ----------------------------------------

  /** Reading stopped with the whole prefix or with more LFs than lines wanted, so the
      first start, which may lie inside a line, is never among the selected ones. */
  lemma EnoughStarts(buffer: seq<Byte>, contentEnd: nat, starts: seq<nat>, cursor: nat, limit: nat)
    requires IsCut(buffer, contentEnd, starts)
    requires cursor > 0 ==> CountLf(buffer) > limit
    ensures cursor > 0 ==> |starts| > limit
  {
    if contentEnd < |buffer| {
      assert buffer == buffer[..contentEnd] + [LF];
      CountLfOfParts(buffer[..contentEnd], [LF]);
      assert CountLf([LF]) == 1 + CountLf([LF][..0]);
    } else {
      assert buffer[..contentEnd] == buffer;
    }
  }

  lemma StartInside(buffer: seq<Byte>, contentEnd: nat, starts: seq<nat>, k: nat)
    requires IsCut(buffer, contentEnd, starts) && k < |starts|
    ensures starts[k] <= contentEnd && starts[k] < |buffer|
    ensures k == 0 ==> starts[k] == 0
    ensures k > 0 ==> starts[k] > 0 && buffer[starts[k] - 1] == LF
  {
    assert CutAt(contentEnd, starts, k);
    assert k > 0 ==> StartAt(buffer, starts, k);
  }

  lemma LineStartIs(s: seq<Byte>, at: nat)
    requires at <= |s|
    ensures AtLineStart(s, at) <==> at == 0 || s[at - 1] == LF
  {
  }

  lemma SplitAtLineStart(s: seq<Byte>, at: nat)
    requires at <= |s| && AtLineStart(s, at)
    ensures ForwardLines(s) == ForwardLines(s[..at]) + ForwardLines(s[at..])
  {
    hide ForwardLines;
    assert s == s[..at] + s[at..];
    LinesOfParts(s[..at], s[at..]);
  }

  lemma StartOfPrefix(prefix: seq<Byte>, cursor: nat, buffer: seq<Byte>, start: nat)
    requires cursor <= |prefix| && buffer == prefix[cursor..] && start <= |buffer|
    requires if start == 0 then cursor == 0 else buffer[start - 1] == LF
    ensures AtLineStart(prefix, cursor + start)
    ensures ForwardLines(prefix[cursor + start..]) == ForwardLines(buffer[start..])
  {
    hide *;
    DropTwice(prefix, cursor, buffer, start);
    LineStartIs(prefix, cursor + start);
  }

  lemma DropTwice(s: seq<Byte>, a: nat, t: seq<Byte>, b: nat)
    requires a + b <= |s| && t == s[a..]
    ensures t[b..] == s[a + b..]
    ensures b > 0 ==> t[b - 1] == s[a + b - 1]
  {
  }

  lemma TakeTwice(s: seq<Byte>, a: nat, b: nat)
    requires b <= a <= |s|
    ensures s[..a][..b] == s[..b]
  {
  }

  /** The lines at a start and after it are the prefix's lines right of it. */
  lemma LinesRightOf(prefix: seq<Byte>, cursor: nat, buffer: seq<Byte>, contentEnd: nat, starts: seq<nat>, k: nat)
    requires cursor < |prefix| && buffer == prefix[cursor..] && k < |starts|
    requires IsCut(buffer, contentEnd, starts)
    requires k == 0 ==> cursor == 0
    ensures Cuts(buffer, contentEnd, starts)
    ensures var at := cursor + starts[k];
      && at < |prefix| && AtLineStart(prefix, at)
      && ForwardLines(prefix[at..]) == LinesAt(buffer, contentEnd, starts, k)
  {
    hide *;
    CutIsCuts(buffer, contentEnd, starts);
    StartInside(buffer, contentEnd, starts, k);
    LinesFromStart(buffer, contentEnd, starts, k);
    StartOfPrefix(prefix, cursor, buffer, starts[k]);
  }

  lemma SuffixOfCuts(buffer: seq<Byte>, contentEnd: nat, starts: seq<nat>, f: nat)
    requires Cuts(buffer, contentEnd, starts) && f <= |starts|
    ensures Cuts(buffer, contentEnd, starts[f..])
    ensures LinesAt(buffer, contentEnd, starts[f..], 0) == LinesAt(buffer, contentEnd, starts, f)
  {
    forall i | 0 <= i < |starts| - f
      ensures CutAt(contentEnd, starts[f..], i)
    {
      assert CutAt(contentEnd, starts, f + i);
    }
    var tail := starts[f..];
    forall i | 0 <= i < |tail|
      ensures LineAt(buffer, contentEnd, tail, i) == LineAt(buffer, contentEnd, starts, f + i)
    {
      assert i + 1 < |tail| ==> tail[i + 1] == starts[f + i + 1];
    }
  }

  function Offset(starts: seq<nat>, base: nat): (r: seq<nat>)
    ensures |r| == |starts|
  {
    seq(|starts|, i requires 0 <= i < |starts| => base + starts[i])
  }

  lemma {:induction false} StartsIncrease(contentEnd: nat, buffer: seq<Byte>, starts: seq<nat>, i: nat, j: nat)
    requires Cuts(buffer, contentEnd, starts) && i < j < |starts|
    ensures starts[i] < starts[j]
  {
    assert CutAt(contentEnd, starts, j - 1);
    if i < j - 1 {
      StartsIncrease(contentEnd, buffer, starts, i, j - 1);
    }
  }

  /** `w` shows the lines at the starts from the `f`th on. */
  ghost predicate Shows(buffer: seq<Byte>, contentEnd: nat, starts: seq<nat>, cursor: nat, f: nat, w: ByteWindow)
    requires Cuts(buffer, contentEnd, starts)
  {
    && f < |starts|
    && w.endLine == |w.lines| && w.hasMoreBefore == (w.startByte > 0)
    && w.lines == LinesAt(buffer, contentEnd, starts, f)
    && w.startByte == cursor + starts[f]
    && w.lineKeys == Offset(starts[f..], cursor)
  }

  lemma StartLocates(prefix: seq<Byte>, cursor: nat, contentEnd: nat, starts: seq<nat>, f: nat, i: nat)
    requires cursor < |prefix| && f <= i < |starts|
    requires IsCut(prefix[cursor..], contentEnd, starts)
    requires f == 0 ==> cursor == 0
    ensures Cuts(prefix[cursor..], contentEnd, starts)
    ensures starts[f] <= starts[i] && cursor + starts[i] < |prefix|
    ensures i + 1 < |starts| ==> starts[i] < starts[i + 1]
    ensures ForwardLines(prefix[cursor + starts[i]..]) == LinesAt(prefix[cursor..], contentEnd, starts, f)[i - f..]
  {
    hide ForwardLines;
    LinesRightOf(prefix, cursor, prefix[cursor..], contentEnd, starts, i);
    if f < i {
      StartsIncrease(contentEnd, prefix[cursor..], starts, f, i);
    }
    assert CutAt(contentEnd, starts, i);
    assert LinesAt(prefix[cursor..], contentEnd, starts, f)[i - f..] ==
      LinesAt(prefix[cursor..], contentEnd, starts, i);
  }

  lemma CutIsCuts(buffer: seq<Byte>, contentEnd: nat, starts: seq<nat>)
    requires IsCut(buffer, contentEnd, starts)
    ensures Cuts(buffer, contentEnd, starts) && |starts| > 0 && starts[0] == 0
  {
  }

  lemma ShownKeyLocates(file: seq<Byte>, cursor: nat, contentEnd: nat, starts: seq<nat>, f: nat, w: ByteWindow, i: nat)
    requires cursor < w.endByte <= |file| && f < |starts| && (f == 0 ==> cursor == 0)
    requires IsCut(file[..w.endByte][cursor..], contentEnd, starts)
    requires Cuts(file[..w.endByte][cursor..], contentEnd, starts)
    requires Shows(file[..w.endByte][cursor..], contentEnd, starts, cursor, f, w)
    requires i < |w.lineKeys|
    ensures |w.lineKeys| == |w.lines| && KeyAt(file, w, i)
  {
    hide ForwardLines, IsCut, Cuts;
    var prefix := file[..w.endByte];
    StartLocates(prefix, cursor, contentEnd, starts, f, f + i);
    hide LinesAt;
    assert w.lineKeys[i] == cursor + starts[f + i];
    assert file[w.lineKeys[i]..w.endByte] == prefix[w.lineKeys[i]..];
    assert i + 1 < |w.lineKeys| ==> w.lineKeys[i + 1] == cursor + starts[f + i + 1];
  }

  lemma ShownIsPage(file: seq<Byte>, limit: nat, beforeByte: int, cursor: nat, contentEnd: nat, starts: seq<nat>,
                    f: nat, w: ByteWindow)
    requires w.endByte == Clamp(beforeByte, |file|) && cursor < w.endByte && file[..w.endByte] != [LF]
    requires IsCut(file[..w.endByte][cursor..], contentEnd, starts)
    requires Cuts(file[..w.endByte][cursor..], contentEnd, starts)
    requires Shows(file[..w.endByte][cursor..], contentEnd, starts, cursor, f, w)
    requires if |starts| <= limit then f == 0 && cursor == 0 else f == |starts| - limit
    requires 0 < limit
    ensures IsPage(file, limit, beforeByte, w)
  {
    var prefix := file[..w.endByte];
    var buffer := prefix[cursor..];
    assert w.startByte == cursor + starts[f] && w.lines == LinesAt(buffer, contentEnd, starts, f);
    assert w.endLine == |w.lines| && w.hasMoreBefore == (w.startByte > 0) && |w.lineKeys| == |starts| - f;
    hide *;
    CutIsCuts(buffer, contentEnd, starts);
    LinesRightOf(prefix, cursor, buffer, contentEnd, starts, f);
    SplitAtLineStart(prefix, w.startByte);
    TakeTwice(file, w.endByte, w.startByte);
    ShownKeysLocate(file, cursor, contentEnd, starts, f, w);
    NoLinesOfNothing();
    assert w.startByte == 0 ==> prefix[..w.startByte] == [];
    LastOfSum(ForwardLines(prefix[..w.startByte]), w.lines, limit);
    MakesPage(file, limit, beforeByte, w);
  }

  lemma NoLinesOfNothing()
    ensures ForwardLines([]) == []
  {
  }

  lemma ShownKeysLocate(file: seq<Byte>, cursor: nat, contentEnd: nat, starts: seq<nat>, f: nat, w: ByteWindow)
    requires cursor < w.endByte <= |file| && f < |starts| && (f == 0 ==> cursor == 0)
    requires IsCut(file[..w.endByte][cursor..], contentEnd, starts)
    requires Cuts(file[..w.endByte][cursor..], contentEnd, starts)
    requires Shows(file[..w.endByte][cursor..], contentEnd, starts, cursor, f, w)
    ensures KeysLocate(file, w)
  {
    hide ForwardLines, IsCut, Cuts, KeyAt, LinesAt;
    assert |w.lineKeys| == |starts| - f == |w.lines|;
    forall i | 0 <= i < |w.lineKeys|
      ensures KeyAt(file, w, i)
    {
      ShownKeyLocates(file, cursor, contentEnd, starts, f, w, i);
    }
  }

  lemma MakesPage(file: seq<Byte>, limit: nat, beforeByte: int, w: ByteWindow)
    requires w.endByte == Clamp(beforeByte, |file|) && w.startByte <= w.endByte && file[..w.endByte] != [LF]
    requires w.endLine == |w.lines| && w.hasMoreBefore == (w.startByte > 0)
    requires w.lines == LastN(ForwardLines(file[..w.endByte]), limit)
    requires ForwardLines(file[..w.endByte]) == ForwardLines(file[..w.startByte]) + w.lines
    requires AtLineStart(file[..w.endByte], w.startByte) && KeysLocate(file, w)
    ensures IsPage(file, limit, beforeByte, w)
  {
    hide ForwardLines, KeysLocate, LastN;
  }

  lemma LastOfSum<T>(a: seq<T>, b: seq<T>, n: nat)
    requires |b| == n || (a == [] && |b| <= n)
    ensures LastN(a + b, n) == b
  {
  }

  lemma StartsGrow(buffer: seq<Byte>, n: nat, starts: seq<nat>)
    requires n < |buffer| && AreStarts(buffer, n, starts)
    ensures AreStarts(buffer, n + 1, if buffer[n] == LF then starts + [n + 1] else starts)
  {
    assert buffer[..n + 1][..n] == buffer[..n];
    var next := if buffer[n] == LF then starts + [n + 1] else starts;
    assert CountLf(buffer[..n + 1]) == CountLf(buffer[..n]) + (if buffer[n] == LF then 1 else 0);
    forall i | 0 < i < |next|
      ensures StartAt(buffer, next, i)
    {
      if i < |starts| {
        assert StartAt(buffer, starts, i);
      }
    }
  }

  lemma StartsCut(buffer: seq<Byte>, contentEnd: nat, starts: seq<nat>)
    requires contentEnd <= |buffer| && AreStarts(buffer, contentEnd, starts)
    ensures Cuts(buffer, contentEnd, starts)
  {
    forall i | 0 <= i < |starts|
      ensures CutAt(contentEnd, starts, i)
    {
      assert i + 1 < |starts| ==> StartAt(buffer, starts, i + 1);
    }
  }

  /** The last `limit` starts show the page. */
  lemma SelectedShows(buffer: seq<Byte>, contentEnd: nat, starts: seq<nat>, limit: nat)
    requires Cuts(buffer, contentEnd, starts) && |starts| > 0 && limit > 0
    ensures var selected := LastN(starts, limit);
      var f := |starts| - |selected|;
      && 0 <= f < |starts| && selected == starts[f..]
      && (if |starts| <= limit then f == 0 else f == |starts| - limit)
      && Cuts(buffer, contentEnd, selected)
      && LinesAt(buffer, contentEnd, selected, 0) == LinesAt(buffer, contentEnd, starts, f)
  {
    assert |starts| <= limit ==> starts[0..] == starts;
    SuffixOfCuts(buffer, contentEnd, starts, |starts| - |LastN(starts, limit)|);
  }

  lemma EmptyPage(file: seq<Byte>, limit: nat, beforeByte: int)
    requires Clamp(beforeByte, |file|) == 0
    ensures IsPage(file, limit, beforeByte, ByteWindow(0, false, [], [], 0, 0))
  {
    assert file[..0] == [];
  }

  lemma CountOfLoneLf()
    ensures CountLf([LF]) == 1
  {
    assert [LF][..0] == [];
  }

  /** Nothing but one LF in the buffer means nothing but one LF in the prefix. */
  lemma LoneLfPage(file: seq<Byte>, limit: nat, beforeByte: int, cursor: nat)
    requires limit > 0 && cursor < Clamp(beforeByte, |file|)
    requires file[..Clamp(beforeByte, |file|)][cursor..] == [LF]
    requires cursor > 0 ==> CountLf(file[..Clamp(beforeByte, |file|)][cursor..]) > limit
    ensures cursor == 0
    ensures IsPage(file, limit, beforeByte,
      ByteWindow(0, false, [], [], Clamp(beforeByte, |file|), Clamp(beforeByte, |file|)))
  {
    CountOfLoneLf();
    assert cursor == 0;
  }

  lemma NotLoneLf(file: seq<Byte>, endByte: nat, cursor: nat, contentEnd: nat, saw: bool)
    requires cursor < endByte <= |file|
    requires contentEnd == endByte - cursor || (contentEnd == endByte - cursor - 1 && file[endByte - 1] == LF)
    requires contentEnd == endByte - cursor ==> file[endByte - 1] != LF
    requires saw ==> exists i :: cursor <= i < endByte && file[i] > 0x20
    requires contentEnd > 0 || saw
    ensures file[..endByte] != [LF]
  {
    assert file[..endByte][0] == file[0];
  }

  lemma NoLinesYet(buffer: seq<Byte>)
    ensures AreStarts(buffer, 0, [0])
  {
    assert buffer[..0] == [];
  }

  lemma CountOfNothing()
    ensures CountLf([]) == 0
  {
  }

  /** Without its first `n` bytes, at most a chunk, what was read held too few LFs: the last chunk was needed. */
  ghost predicate ChunkWasNeeded(file: seq<Byte>, limit: nat, endByte: nat, chunkSize: nat, cursor: nat, n: nat) {
    0 < n <= chunkSize && cursor + n <= endByte <= |file| && CountLf(file[cursor + n..endByte]) <= limit
  }

  /** First phase: chunks from the end backwards, until more LFs than lines wanted were seen. */
  method ReadChunks(file: seq<Byte>, limit: nat, endByte: nat, chunkSize: nat)
    returns (buffer: seq<Byte>, cursor: nat, sawNonEmptyContent: bool)
    requires chunkSize > 0 && 0 < endByte <= |file|
    ensures cursor < endByte && buffer == file[cursor..endByte]
    ensures cursor > 0 ==> CountLf(buffer) > limit
    ensures exists n :: ChunkWasNeeded(file, limit, endByte, chunkSize, cursor, n)
    ensures sawNonEmptyContent <==> exists i :: cursor <= i < endByte && file[i] > 0x20
  {
    hide CountLf;
    var chunks: seq<seq<Byte>> := [];
    var newlineCount: nat := 0;
    cursor := endByte;
    sawNonEmptyContent := false;
    ghost var last: nat := 0;
    assert file[endByte..endByte] == [];
    CountOfNothing();
    while cursor > 0 && newlineCount <= limit
      invariant cursor <= endByte
      invariant Flatten(chunks) == file[cursor..endByte]
      invariant newlineCount == CountLf(file[cursor..endByte])
      invariant cursor == endByte ==> newlineCount == 0
      invariant cursor < endByte ==> ChunkWasNeeded(file, limit, endByte, chunkSize, cursor, last)
      invariant sawNonEmptyContent <==> exists i :: cursor <= i < endByte && file[i] > 0x20
    {
      var readSize := if chunkSize < cursor then chunkSize else cursor;
      var start := cursor - readSize;
      var chunk := file[start..cursor];
      assert chunk + file[cursor..endByte] == file[start..endByte];
      CountLfOfParts(chunk, file[cursor..endByte]);
      chunks := [chunk] + chunks;
      ghost var counted := newlineCount;
      assert chunk[..0] == [];
      for i := 0 to |chunk|
        invariant newlineCount == counted + CountLf(chunk[..i])
        invariant sawNonEmptyContent <==>
          exists k :: (start <= k < start + i || cursor <= k < endByte) && file[k] > 0x20
      {
        CountLfNext(chunk, i);
        if chunk[i] == LF {
          newlineCount := newlineCount + 1;
        }
        if chunk[i] > 0x20 {
          assert file[start + i] > 0x20;
          sawNonEmptyContent := true;
        }
      }
      assert chunk[..|chunk|] == chunk;
      last := readSize;
      cursor := start;
    }
    buffer := Flatten(chunks);
  }

  /** Second phase: where the lines of the buffer begin. */
  method FindLineStarts(buffer: seq<Byte>, contentEnd: nat) returns (lineStarts: seq<nat>)
    requires contentEnd <= |buffer|
    ensures AreStarts(buffer, contentEnd, lineStarts) && Cuts(buffer, contentEnd, lineStarts) && |lineStarts| > 0
  {
    lineStarts := [0];
    NoLinesYet(buffer);
    for index := 0 to contentEnd
      invariant AreStarts(buffer, index, lineStarts)
    {
      StartsGrow(buffer, index, lineStarts);
      hide AreStarts;
      if buffer[index] == LF {
        lineStarts := lineStarts + [index + 1];
      }
    }
    StartsCut(buffer, contentEnd, lineStarts);
  }

  lemma StartsAreCut(buffer: seq<Byte>, contentEnd: nat, starts: seq<nat>)
    requires 0 < |buffer| && contentEnd <= |buffer|
    requires contentEnd == if buffer[|buffer| - 1] == LF then |buffer| - 1 else |buffer|
    requires AreStarts(buffer, contentEnd, starts) && Cuts(buffer, contentEnd, starts)
    ensures IsCut(buffer, contentEnd, starts)
  {
  }

  lemma SelectedAreShown(buffer: seq<Byte>, contentEnd: nat, starts: seq<nat>, cursor: nat, limit: nat, w: ByteWindow)
    requires Cuts(buffer, contentEnd, starts) && |starts| > 0 && limit > 0
    requires Cuts(buffer, contentEnd, LastN(starts, limit)) && |LastN(starts, limit)| > 0
    requires w.lines == LinesAt(buffer, contentEnd, LastN(starts, limit), 0) && w.endLine == |w.lines|
    requires w.lineKeys == Offset(LastN(starts, limit), cursor)
    requires w.startByte == cursor + LastN(starts, limit)[0] && w.hasMoreBefore == (w.startByte > 0)
    ensures var f := |starts| - |LastN(starts, limit)|;
      && 0 <= f < |starts| && (if |starts| <= limit then f == 0 else f == |starts| - limit)
      && Shows(buffer, contentEnd, starts, cursor, f, w)
  {
    hide Cuts, LinesAt, Offset, LastN;
    SelectedShows(buffer, contentEnd, starts, limit);
  }

  lemma SelectedPage(file: seq<Byte>, limit: nat, beforeByte: int, cursor: nat, buffer: seq<Byte>, contentEnd: nat,
                     starts: seq<nat>, w: ByteWindow)
    requires 0 < limit && cursor < w.endByte && w.endByte == Clamp(beforeByte, |file|) && file[..w.endByte] != [LF]
    requires buffer == file[..w.endByte][cursor..]
    requires IsCut(buffer, contentEnd, starts) && Cuts(buffer, contentEnd, starts) && |starts| > 0
    requires cursor > 0 ==> CountLf(buffer) > limit
    requires Cuts(buffer, contentEnd, LastN(starts, limit)) && |LastN(starts, limit)| > 0
    requires w.lines == LinesAt(buffer, contentEnd, LastN(starts, limit), 0) && w.endLine == |w.lines|
    requires w.lineKeys == Offset(LastN(starts, limit), cursor)
    requires w.startByte == cursor + LastN(starts, limit)[0] && w.hasMoreBefore == (w.startByte > 0)
    ensures IsPage(file, limit, beforeByte, w)
  {
    hide *;
    EnoughStarts(buffer, contentEnd, starts, cursor, limit);
    SelectedAreShown(buffer, contentEnd, starts, cursor, limit, w);
    ShownIsPage(file, limit, beforeByte, cursor, contentEnd, starts, |starts| - |LastN(starts, limit)|, w);
  }

  /** Reads the prefix `[0, beforeByte)` of the file backwards in chunks. */
  method ReadLogLineWindowFromEnd(file: seq<Byte>, limit: nat, beforeByte: int, chunkSize: nat) returns (w: ByteWindow)
    requires limit > 0 && chunkSize > 0
    ensures IsPage(file, limit, beforeByte, w)
  {
    hide *;
    var endByte := Clamp(beforeByte, |file|);
    if endByte == 0 {
      EmptyPage(file, limit, beforeByte);
      return ByteWindow(0, false, [], [], 0, 0);
    }
    var buffer, cursor, sawNonEmptyContent := ReadChunks(file, limit, endByte, chunkSize);
    assert buffer == file[..endByte][cursor..];
    var contentEnd := |buffer|;
    if contentEnd > 0 && buffer[contentEnd - 1] == LF {
      contentEnd := contentEnd - 1;
    }
    var lineStarts := FindLineStarts(buffer, contentEnd);
    StartsAreCut(buffer, contentEnd, lineStarts);
    SelectedShows(buffer, contentEnd, lineStarts, limit);
    var selectedStarts := LastN(lineStarts, limit);
    var selectedLines := LinesAt(buffer, contentEnd, selectedStarts, 0);
    if contentEnd == 0 && !sawNonEmptyContent {
      LoneLfPage(file, limit, beforeByte, cursor);
      return ByteWindow(0, cursor > 0, [], [], endByte, endByte);
    }
    NotLoneLf(file, endByte, cursor, contentEnd, sawNonEmptyContent);
    var startByte := cursor + selectedStarts[0];
    w := ByteWindow(|selectedLines|, startByte > 0, selectedLines, Offset(selectedStarts, cursor), startByte, endByte);
    SelectedPage(file, limit, beforeByte, cursor, buffer, contentEnd, lineStarts, w);
  }
}
