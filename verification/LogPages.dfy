/** Whole reads of a log by paging: from the end, feeding each page's `startByte` back
    while it says there is more. */
module LogPages {
  import opened LogPaging

  /** `pages` is one complete read before the cursor `end`, newest page first. */
  ghost predicate IsRead(file: seq<Byte>, limit: nat, end: int, pages: seq<ByteWindow>)
    decreases |pages|
  {
    && |pages| > 0
    && IsPage(file, limit, end, pages[0])
    && if pages[0].hasMoreBefore then IsRead(file, limit, pages[0].startByte, pages[1..]) else |pages| == 1
  }

  /** The pages' lines in file order. */
  function AllLines(pages: seq<ByteWindow>): seq<Line> {
    if pages == [] then [] else AllLines(pages[1..]) + pages[0].lines
  }

  function AllKeys(pages: seq<ByteWindow>): seq<nat> {
    if pages == [] then [] else AllKeys(pages[1..]) + pages[0].lineKeys
  }

  /** The file begins with an empty line and a page boundary falls right behind it. */
  predicate LosesFirstLine(file: seq<Byte>, limit: nat)
    requires limit > 0
  {
    file != [] && file[0] == LF && (|ForwardLines(file)| - 1) % limit == 0
  }

  /** Reading pages back to the start: a client that keeps asking for what is before. */
  method ReadAllPages(file: seq<Byte>, limit: nat, chunkSize: nat) returns (pages: seq<ByteWindow>)
    requires limit > 0 && chunkSize > 0
    ensures IsRead(file, limit, |file|, pages)
  {
    pages := ReadPagesBefore(file, limit, |file|, chunkSize);
  }

  method ReadPagesBefore(file: seq<Byte>, limit: nat, end: nat, chunkSize: nat) returns (pages: seq<ByteWindow>)
    requires limit > 0 && chunkSize > 0 && end <= |file|
    ensures IsRead(file, limit, end, pages)
    decreases end
  {
    var w := ReadLogLineWindowFromEnd(file, limit, end, chunkSize);
    pages := [w];
    PageMakesProgress(file, limit, end, w);
    if w.hasMoreBefore {
      var rest := ReadPagesBefore(file, limit, w.startByte, chunkSize);
      pages := pages + rest;
      assert pages[1..] == rest;
    }
  }

  /** A page that says there is more starts strictly before its cursor, at a line start. */
  lemma PageMakesProgress(file: seq<Byte>, limit: nat, end: nat, w: ByteWindow)
    requires limit > 0 && end <= |file| && IsPage(file, limit, end, w)
    ensures w.startByte <= end
    ensures w.hasMoreBefore ==> 0 < w.startByte < end && file[w.startByte - 1] == LF
  {
    hide KeysLocate;
    hide ForwardLines;
    assert end > 0 ==> file[..end] != [];
    assert w.hasMoreBefore ==> |w.lines| > 0;
    assert w.hasMoreBefore && w.startByte == end ==> |w.lines| == 0;
  }

  lemma LoneLfLines()
    ensures ForwardLines([LF]) == [[]]
  {
    FirstLine([LF], 0);
    assert [LF][..0] == [] && [LF][1..] == [];
  }

  /** One line that starts with an LF is an empty line, and there is nothing behind it. */
  lemma OneEmptyLine(s: seq<Byte>)
    requires s != [] && s[0] == LF && |ForwardLines(s)| == 1
    ensures s == [LF]
  {
    FirstLine(s, 0);
    assert s[1..] == [];
    assert s == [s[0]] + s[1..];
  }

  lemma StepBack(n: int, limit: nat)
    requires limit > 0
    ensures (n - limit) % limit == n % limit
  {
    var q, q' := n / limit, (n - limit) / limit;
    var gap := q - 1 - q';
    assert limit * gap == (n - limit) % limit - n % limit by {
      assert limit * gap == limit * q - limit - limit * q';
    }
    assert gap >= 1 ==> limit * gap >= limit;
    assert gap <= -1 ==> limit * gap + limit <= 0;
  }

  lemma LosesAlike(file: seq<Byte>, limit: nat, start: nat, end: nat)
    requires limit > 0 && 0 < start <= end <= |file|
    requires |ForwardLines(file[..end])| == |ForwardLines(file[..start])| + limit
    ensures LosesFirstLine(file[..start], limit) == LosesFirstLine(file[..end], limit)
  {
    hide ForwardLines;
    StepBack(|ForwardLines(file[..end])| - 1, limit);
  }

  lemma LosesNothing(prefix: seq<Byte>, limit: nat)
    requires limit > 0 && prefix != [LF] && |ForwardLines(prefix)| <= limit
    ensures !LosesFirstLine(prefix, limit)
  {
    hide ForwardLines;
    if LosesFirstLine(prefix, limit) {
      OneEmptyLine(prefix);
      assert false;
    }
  }

  lemma AllLinesStep(pages: seq<ByteWindow>)
    requires pages != []
    ensures AllLines(pages) == AllLines(pages[1..]) + pages[0].lines
    ensures |pages| == 1 ==> AllLines(pages) == pages[0].lines
  {
    assert |pages| == 1 ==> AllLines(pages[1..]) == [];
  }

  lemma TailOfParts(a: seq<Line>, b: seq<Line>)
    requires a != []
    ensures (a + b)[1..] == a[1..] + b
  {
  }

  /** Before any line start, a complete read holds every line, but for the first one in the one case named. */
  lemma {:induction false} ReadBeforeGivesLines(file: seq<Byte>, limit: nat, end: nat, pages: seq<ByteWindow>)
    requires limit > 0 && end <= |file| && IsRead(file, limit, end, pages)
    ensures AllLines(pages) ==
      if LosesFirstLine(file[..end], limit) then ForwardLines(file[..end])[1..] else ForwardLines(file[..end])
    decreases |pages|
  {
    hide ForwardLines, KeysLocate, Break, StripCr, AtLineStart, AllLines;
    var w := pages[0];
    var prefix := file[..end];
    PageMakesProgress(file, limit, end, w);
    AllLinesStep(pages);
    if prefix == [LF] {
      LoneLfLines();
    } else if w.hasMoreBefore {
      assert |w.lines| == limit;
      LosesAlike(file, limit, w.startByte, end);
      ReadBeforeGivesLines(file, limit, w.startByte, pages[1..]);
      hide LosesFirstLine;
      TailOfParts(ForwardLines(file[..w.startByte]), w.lines);
    } else {
      assert file[..0] == [] && ForwardLines(file[..w.startByte]) == [];
      assert AllLines(pages) == ForwardLines(prefix);
      LosesNothing(prefix, limit);
    }
  }

  /** Paging the whole file gives its forward lines exactly when no page boundary falls
      behind an empty first line; otherwise only that line is missing. */
  lemma PagingGivesEveryLine(file: seq<Byte>, limit: nat, pages: seq<ByteWindow>)
    requires limit > 0 && IsRead(file, limit, |file|, pages)
    ensures AllLines(pages) == ForwardLines(file) <==> !LosesFirstLine(file, limit)
    ensures LosesFirstLine(file, limit) ==> [[]] + AllLines(pages) == ForwardLines(file)
  {
    assert file[..|file|] == file;
    ReadBeforeGivesLines(file, limit, |file|, pages);
    if LosesFirstLine(file, limit) {
      FirstLine(file, 0);
    }
  }

  ghost predicate Tiles(end: nat, pages: seq<ByteWindow>, first: nat)
    decreases |pages|
  {
    && |pages| > 0 && pages[0].endByte == end
    && if |pages| == 1 then pages[0].startByte == first
       else pages[0].startByte < end && Tiles(pages[0].startByte, pages[1..], first)
  }

  /** The pages' byte ranges adjoin, from the cursor down to the file's start. */
  lemma {:induction false} ReadTilesPrefix(file: seq<Byte>, limit: nat, end: nat, pages: seq<ByteWindow>)
    requires limit > 0 && end <= |file| && IsRead(file, limit, end, pages)
    ensures Tiles(end, pages, if LosesFirstLine(file[..end], limit) then 1 else 0)
    decreases |pages|
  {
    hide ForwardLines, KeysLocate, Break, StripCr, AtLineStart;
    var w := pages[0];
    var prefix := file[..end];
    PageMakesProgress(file, limit, end, w);
    if prefix == [LF] {
      LoneLfLines();
    } else if w.hasMoreBefore {
      var before := file[..w.startByte];
      assert before[0] == file[0] == prefix[0];
      assert |w.lines| == limit;
      StepBack(|ForwardLines(prefix)| - 1, limit);
      assert LosesFirstLine(before, limit) == LosesFirstLine(prefix, limit);
      ReadTilesPrefix(file, limit, w.startByte, pages[1..]);
    } else {
      assert file[..0] == [] && ForwardLines(file[..w.startByte]) == [];
      if LosesFirstLine(prefix, limit) {
        assert |w.lines| <= limit;
        OneEmptyLine(prefix);
        assert false;
      }
    }
  }

  predicate Increasing(s: seq<nat>) {
    forall i, j :: 0 <= i < j < |s| ==> s[i] < s[j]
  }

  lemma {:induction false} KeysStepUp(file: seq<Byte>, w: ByteWindow, i: nat, j: nat)
    requires KeysLocate(file, w) && i < j < |w.lineKeys|
    ensures w.lineKeys[i] < w.lineKeys[j]
  {
    assert KeyAt(file, w, j - 1);
    if i < j - 1 {
      KeysStepUp(file, w, i, j - 1);
    }
  }

  lemma PageKeysIncrease(file: seq<Byte>, limit: nat, end: nat, w: ByteWindow)
    requires limit > 0 && end <= |file| && IsPage(file, limit, end, w)
    ensures Increasing(w.lineKeys) && |w.lineKeys| == |w.lines|
    ensures forall i :: 0 <= i < |w.lineKeys| ==> w.startByte <= w.lineKeys[i] < end
  {
    hide ForwardLines;
    if file[..end] != [LF] {
      forall i, j | 0 <= i < j < |w.lineKeys|
        ensures w.lineKeys[i] < w.lineKeys[j]
      {
        KeysStepUp(file, w, i, j);
      }
      forall i | 0 <= i < |w.lineKeys|
        ensures w.startByte <= w.lineKeys[i] < end
      {
        assert KeyAt(file, w, i);
      }
    }
  }

  lemma IncreasingParts(a: seq<nat>, b: seq<nat>, mid: nat)
    requires Increasing(a) && Increasing(b)
    requires forall i :: 0 <= i < |a| ==> a[i] < mid
    requires forall i :: 0 <= i < |b| ==> mid <= b[i]
    ensures Increasing(a + b)
  {
  }

  /** Over a whole read every line has its own key, and keys follow file order. */
  lemma {:induction false} KeysAreDistinct(file: seq<Byte>, limit: nat, end: nat, pages: seq<ByteWindow>)
    requires limit > 0 && end <= |file| && IsRead(file, limit, end, pages)
    ensures |AllKeys(pages)| == |AllLines(pages)|
    ensures Increasing(AllKeys(pages)) && forall i :: 0 <= i < |AllKeys(pages)| ==> AllKeys(pages)[i] < end
    decreases |pages|
  {
    hide IsPage;
    var w := pages[0];
    PageKeysIncrease(file, limit, end, w);
    PageMakesProgress(file, limit, end, w);
    if w.hasMoreBefore {
      KeysAreDistinct(file, limit, w.startByte, pages[1..]);
      IncreasingParts(AllKeys(pages[1..]), w.lineKeys, w.startByte);
    } else {
      assert AllKeys(pages) == AllKeys([]) + w.lineKeys == w.lineKeys;
      assert AllLines(pages) == AllLines([]) + w.lines == w.lines;
    }
  }

  // -- the line reader of the other path ----------------------------------

  predicate IsBreak(b: Byte) {
    b == LF || b == CR
  }

  function BreakEither(s: seq<Byte>): (k: nat)
    ensures k <= |s| && forall i :: 0 <= i < k ==> !IsBreak(s[i])
    ensures k < |s| ==> IsBreak(s[k])
  {
    if s == [] || IsBreak(s[0]) then 0 else 1 + BreakEither(s[1..])
  }

  /** The stream reader's lines: CRLF, LF and CR each end one. */
  function ReaderLines(s: seq<Byte>): seq<Line>
    decreases |s|, 1
  {
    if s == [] then [] else ReaderCutAt(s, BreakEither(s))
  }

  function ReaderCutAt(s: seq<Byte>, k: nat): seq<Line>
    requires 0 < |s| && k <= |s|
    decreases |s|, 0
  {
    var next := if k + 1 < |s| && s[k] == CR && s[k + 1] == LF then k + 2 else k + 1;
    [s[..k]] + (if next < |s| then ReaderLines(s[next..]) else [])
  }

  predicate LoneCrAt(s: seq<Byte>, i: int) {
    0 <= i && i + 1 < |s| && s[i] == CR && s[i + 1] != LF
  }

  /** A CR that is followed by a byte other than LF. */
  ghost predicate HasLoneCr(s: seq<Byte>) {
    exists i :: LoneCrAt(s, i)
  }

  lemma BreakEitherIs(s: seq<Byte>, k: nat)
    requires k < |s| && IsBreak(s[k]) && forall i :: 0 <= i < k ==> !IsBreak(s[i])
    ensures BreakEither(s) == k
  {
  }

  lemma ReaderFirstLine(s: seq<Byte>, k: nat)
    requires k < |s| && IsBreak(s[k]) && forall i :: 0 <= i < k ==> !IsBreak(s[i])
    ensures ReaderLines(s) ==
      var next := if k + 1 < |s| && s[k] == CR && s[k + 1] == LF then k + 2 else k + 1;
      [s[..k]] + ReaderLines(s[next..])
  {
    ReaderLinesAreCut(s);
    NoReaderLines(s[|s|..]);
    hide BreakEither, ReaderLines;
    BreakEitherIs(s, k);
  }

  lemma ReaderLinesAreCut(s: seq<Byte>)
    requires s != []
    ensures ReaderLines(s) == ReaderCutAt(s, BreakEither(s))
  {
    hide BreakEither, ReaderCutAt;
  }

  lemma NoReaderLines(none: seq<Byte>)
    requires none == []
    ensures ReaderLines(none) == []
  {
  }

  lemma LoneCrLater(s: seq<Byte>, next: nat)
    requires next <= |s|
    requires forall i :: 0 <= i < next ==> !LoneCrAt(s, i)
    ensures HasLoneCr(s) <==> HasLoneCr(s[next..])
  {
    var rest := s[next..];
    if i :| LoneCrAt(s, i) {
      assert LoneCrAt(rest, i - next);
    }
    if i :| LoneCrAt(rest, i) {
      assert LoneCrAt(s, next + i);
    }
  }

  /** Dropping the text up to a lone CR drops no LF line. */
  lemma LoneCrHidesALine(s: seq<Byte>, k: nat)
    requires k + 1 < |s| && NoLf(s, 0, k + 1)
    ensures |ForwardLines(s)| == |ForwardLines(s[k + 1..])|
  {
    hide ForwardLines;
    var rest := s[k + 1..];
    var b := Break(rest);
    hide Break;
    assert b < |rest| ==> s[k + 1 + b + 1..] == rest[b + 1..];
    NoLfLonger(s, k + 1, b);
    CountFirstLine(s, k + 1 + b);
    CountFirstLine(rest, b);
  }

  lemma CountFirstLine(s: seq<Byte>, k: nat)
    requires 0 < |s| && k <= |s| && NoLf(s, 0, k) && (k < |s| ==> s[k] == LF)
    ensures |ForwardLines(s)| == 1 + (if k < |s| then |ForwardLines(s[k + 1..])| else 0)
  {
    FirstLine(s, k);
  }

  lemma NoLfLonger(s: seq<Byte>, n: nat, b: nat)
    requires n + b <= |s| && NoLf(s, 0, n) && NoLf(s[n..], 0, b)
    ensures NoLf(s, 0, n + b)
  {
    assert forall i :: n <= i < n + b ==> s[i] == s[n..][i - n];
  }

  lemma StripNone(s: seq<Byte>, k: nat)
    requires k <= |s| && forall i :: 0 <= i < k ==> !IsBreak(s[i])
    ensures NoLf(s, 0, k) && StripCr(s[..k]) == s[..k]
    ensures k < |s| && s[k] == CR ==> NoLf(s, 0, k + 1) && StripCr(s[..k + 1]) == s[..k]
  {
    if k < |s| {
      assert s[..k + 1][..k] == s[..k];
    }
  }

  /** The three claims below, for one text. */
  ghost predicate Agreement(s: seq<Byte>) {
    && |ReaderLines(s)| >= |ForwardLines(s)|
    && (HasLoneCr(s) ==> |ReaderLines(s)| > |ForwardLines(s)|)
    && (ReaderLines(s) == ForwardLines(s) <==> !HasLoneCr(s))
  }

  lemma AgreementAfterLine(s: seq<Byte>, line: Line, rest: seq<Byte>)
    requires ReaderLines(s) == [line] + ReaderLines(rest)
    requires ForwardLines(s) == [line] + ForwardLines(rest)
    requires HasLoneCr(s) <==> HasLoneCr(rest)
    requires Agreement(rest)
    ensures Agreement(s)
  {
    hide ReaderLines, ForwardLines, HasLoneCr;
    SameHead(line, ReaderLines(rest), ForwardLines(rest));
  }

  lemma AgreementAtLoneCr(s: seq<Byte>, k: nat)
    requires k + 1 < |s| && s[k] == CR && s[k + 1] != LF && NoLf(s, 0, k + 1)
    requires ReaderLines(s) == [s[..k]] + ReaderLines(s[k + 1..])
    requires Agreement(s[k + 1..])
    ensures Agreement(s)
  {
    LoneCrIs(s, k);
    LoneCrHidesALine(s, k);
    hide ReaderLines, ForwardLines, HasLoneCr;
    assert |ReaderLines(s)| == 1 + |ReaderLines(s[k + 1..])|;
  }

  lemma {:induction false} AgreementHolds(s: seq<Byte>)
    ensures Agreement(s)
    decreases |s|
  {
    hide *;
    var k := BreakEither(s);
    StripNone(s, k);
    if k == |s| {
      LinesOfNoBreaks(s);
    } else {
      BreakIsEither(s[k]);
      ReaderFirstLine(s, k);
      if s[k] == LF {
        FirstLine(s, k);
        NoLoneCrBefore(s, k, k + 1);
        AgreementHolds(s[k + 1..]);
        AgreementAfterLine(s, s[..k], s[k + 1..]);
      } else if k + 1 < |s| && s[k + 1] == LF {
        FirstLine(s, k + 1);
        NoLoneCrBefore(s, k, k + 2);
        AgreementHolds(s[k + 2..]);
        AgreementAfterLine(s, s[..k], s[k + 2..]);
      } else if k + 1 == |s| {
        FirstLine(s, k + 1);
        NoLoneCrBefore(s, k, k + 1);
        assert s[k + 1..] == [];
        EmptyLines();
        assert ForwardLines(s) == [s[..k]] + ForwardLines([]);
        AgreementAfterLine(s, s[..k], []);
      } else {
        AgreementHolds(s[k + 1..]);
        AgreementAtLoneCr(s, k);
      }
    }
  }

  /** The stream reader never sees fewer lines than the LF split, and sees the same lines
      exactly when no CR stands alone inside the log. */
  lemma ReaderAgreesIffNoLoneCr(s: seq<Byte>)
    ensures |ReaderLines(s)| >= |ForwardLines(s)|
    ensures ReaderLines(s) == ForwardLines(s) <==> !HasLoneCr(s)
  {
    AgreementHolds(s);
  }

  lemma NoLoneCrBefore(s: seq<Byte>, k: nat, next: nat)
    requires k < next <= |s| && forall i :: 0 <= i < k ==> !IsBreak(s[i])
    requires forall i :: k <= i < next ==> s[i] == LF || (s[i] == CR && (i + 1 == |s| || s[i + 1] == LF))
    ensures HasLoneCr(s) <==> HasLoneCr(s[next..])
  {
    LoneCrLater(s, next);
  }

  lemma SameHead(a: Line, x: seq<Line>, y: seq<Line>)
    ensures [a] + x == [a] + y <==> x == y
  {
    assert ([a] + x)[1..] == x && ([a] + y)[1..] == y;
  }

  lemma LoneCrIs(s: seq<Byte>, k: nat)
    requires k + 1 < |s| && s[k] == CR && s[k + 1] != LF
    ensures HasLoneCr(s)
  {
    assert LoneCrAt(s, k);
  }

  lemma BreakIsEither(b: Byte)
    ensures IsBreak(b) <==> b == LF || b == CR
  {
  }

  lemma LinesOfNoBreaks(s: seq<Byte>)
    requires BreakEither(s) == |s|
    ensures Agreement(s)
  {
    if s != [] {
      StripNone(s, |s|);
      assert s[..|s|] == s;
      FirstLine(s, |s|);
    }
  }

  lemma EmptyLines()
    ensures ReaderLines([]) == [] && ForwardLines([]) == [] && !HasLoneCr([]) && Agreement([])
  {
  }
}
