/** The lines of an unloaded file that count as coverable: excluded ranges merged, then one sweep of
    the tokens. */
module Coverage {
  import opened Lists
  import StableSort

  /** From `start` up to but not at `end`. */
  datatype Range = Range(start: int, end: int)

  predicate Holds(r: Range, pos: int) {
    r.start <= pos < r.end
  }

  predicate Excluded(ranges: seq<Range>, pos: int) {
    exists r :: r in ranges && Holds(r, pos)
  }

  predicate StartsBefore(a: Range, b: Range) {
    a.start < b.start
  }

  function ByStart(ranges: seq<Range>): seq<Range> {
    StableSort.Sorted(ranges, StartsBefore)
  }

  /** Ranges in order, none touching the next. */
  predicate Separated(ranges: seq<Range>) {
    && (forall i :: 0 <= i < |ranges| ==> ranges[i].start <= ranges[i].end)
    && (forall i, j :: 0 <= i < j < |ranges| ==> ranges[i].end < ranges[j].start)
  }

  /** What merging the sorted ranges one by one keeps. */
  ghost predicate MergedSoFar(merged: seq<Range>, sorted: seq<Range>, i: nat)
    requires i <= |sorted|
  {
    && Separated(merged) && (i == 0 <==> merged == [])
    && (merged != [] ==> forall j :: i <= j < |sorted| ==> merged[|merged| - 1].start <= sorted[j].start)
    && (forall pos :: Excluded(merged, pos) <==> Excluded(sorted[..i], pos))
  }

  /** Ranges that touch or overlap become one; the positions they hold stay the same. */
  method MergeRanges(ranges: seq<Range>) returns (merged: seq<Range>)
    requires forall r :: r in ranges ==> r.start <= r.end
    ensures Separated(merged)
    ensures forall pos :: Excluded(merged, pos) <==> Excluded(ranges, pos)
  {
    var sorted := ByStart(ranges);
    SortedRanges(ranges);
    merged := [];
    for i := 0 to |sorted|
      invariant MergedSoFar(merged, sorted, i)
    {
      var range := sorted[i];
      assert range.start <= range.end && forall j :: i <= j < |sorted| ==> range.start <= sorted[j].start;
      if |merged| == 0 || range.start > merged[|merged| - 1].end {
        PushMerges(merged, sorted, i);
        merged := merged + [range];
      } else {
        ExtendMerges(merged, sorted, i);
        var last := merged[|merged| - 1];
        merged := merged[|merged| - 1 := last.(end := if last.end < range.end then range.end else last.end)];
      }
    }
    assert sorted[..|sorted|] == sorted;
  }

  lemma SortedRanges(ranges: seq<Range>)
    requires forall r :: r in ranges ==> r.start <= r.end
    ensures var sorted := ByStart(ranges);
      && (forall i, j :: 0 <= i < j < |sorted| ==> sorted[i].start <= sorted[j].start)
      && (forall i :: 0 <= i < |sorted| ==> sorted[i].start <= sorted[i].end)
      && (forall pos :: Excluded(sorted, pos) <==> Excluded(ranges, pos))
  {
    StartsInOrder(ranges);
    StableSort.SameElements(ranges, StartsBefore);
    var sorted := ByStart(ranges);
    assert forall r :: r in sorted <==> r in ranges;
    hide ByStart, Holds;
    assert forall i :: 0 <= i < |sorted| ==> sorted[i] in ranges;
  }

  lemma StartsInOrder(ranges: seq<Range>)
    ensures var sorted := ByStart(ranges);
      forall i, j :: 0 <= i < j < |sorted| ==> sorted[i].start <= sorted[j].start
  {
    var sorted := ByStart(ranges);
    StableSort.SortedHolds(ranges, StartsBefore, Range(0, 0));
    hide ByStart, StableSort.Ties;
    forall i, j | 0 <= i < j < |sorted|
      ensures sorted[i].start <= sorted[j].start
    {
      assert !StartsBefore(sorted[j], sorted[i]);
    }
  }

  lemma ExcludedGrows(ranges: seq<Range>, r: Range, pos: int)
    ensures Excluded(ranges + [r], pos) <==> Excluded(ranges, pos) || Holds(r, pos)
  {
    assert r in ranges + [r];
    if Excluded(ranges, pos) {
      var s :| s in ranges && Holds(s, pos);
      assert s in ranges + [r];
    }
  }

  lemma PushMerges(merged: seq<Range>, sorted: seq<Range>, i: nat)
    requires i < |sorted| && MergedSoFar(merged, sorted, i)
    requires sorted[i].start <= sorted[i].end && forall j :: i <= j < |sorted| ==> sorted[i].start <= sorted[j].start
    requires merged == [] || sorted[i].start > merged[|merged| - 1].end
    ensures MergedSoFar(merged + [sorted[i]], sorted, i + 1)
  {
    assert sorted[..i + 1] == sorted[..i] + [sorted[i]];
    forall pos
      ensures Excluded(merged + [sorted[i]], pos) <==> Excluded(sorted[..i + 1], pos)
    {
      ExcludedGrows(merged, sorted[i], pos);
      ExcludedGrows(sorted[..i], sorted[i], pos);
    }
  }

  lemma ExtendMerges(merged: seq<Range>, sorted: seq<Range>, i: nat)
    requires i < |sorted| && MergedSoFar(merged, sorted, i) && merged != []
    requires sorted[i].start <= sorted[i].end && forall j :: i <= j < |sorted| ==> sorted[i].start <= sorted[j].start
    requires sorted[i].start <= merged[|merged| - 1].end
    ensures var last, range := merged[|merged| - 1], sorted[i];
      MergedSoFar(merged[|merged| - 1 := last.(end := if last.end < range.end then range.end else last.end)],
        sorted, i + 1)
  {
    var n := |merged| - 1;
    var last, range := merged[n], sorted[i];
    var wider := last.(end := if last.end < range.end then range.end else last.end);
    var after := merged[n := wider];
    assert sorted[..i + 1] == sorted[..i] + [range];
    assert merged == merged[..n] + [last] && after == merged[..n] + [wider];
    forall pos
      ensures Excluded(after, pos) <==> Excluded(sorted[..i + 1], pos)
    {
      ExcludedGrows(merged[..n], last, pos);
      ExcludedGrows(merged[..n], wider, pos);
      ExcludedGrows(sorted[..i], range, pos);
    }
  }

  // -- the sweep ----------------------------------------------------------

  /** A scanned token: where it starts, whether it is a name, a keyword, a literal or text, and the
      line of its start, from 0. */
  datatype Token = Token(pos: int, significant: bool, line: nat)

  /** Some significant token outside every range starts on the line, counted from 1. */
  predicate Coverable(tokens: seq<Token>, ranges: seq<Range>, line: int) {
    exists t :: t in tokens && t.significant && !Excluded(ranges, t.pos) && t.line + 1 == line
  }

  /** The ranges passed end at or before the position; those left end after it. */
  predicate Swept(merged: seq<Range>, rangeIndex: nat, pos: int) {
    && rangeIndex <= |merged|
    && (forall i :: 0 <= i < rangeIndex ==> merged[i].end <= pos)
  }

  /** One pointer going forward finds what a search of all the ranges would. */
  lemma PointerFinds(merged: seq<Range>, rangeIndex: nat, pos: int)
    requires Separated(merged) && Swept(merged, rangeIndex, pos)
    requires rangeIndex < |merged| ==> pos < merged[rangeIndex].end
    ensures Excluded(merged, pos) <==> rangeIndex < |merged| && Holds(merged[rangeIndex], pos)
  {
    if Excluded(merged, pos) {
      var r :| r in merged && Holds(r, pos);
      var i :| 0 <= i < |merged| && merged[i] == r;
      assert i == rangeIndex;
    }
  }

  predicate Increasing(lines: seq<int>) {
    forall i, j :: 0 <= i < j < |lines| ==> lines[i] < lines[j]
  }

  predicate Less(a: int, b: int) {
    a < b
  }

  function ByNumber(lines: seq<int>): seq<int> {
    StableSort.Sorted(lines, Less)
  }

  lemma SortedLines(lines: seq<int>)
    requires Distinct(lines)
    ensures Increasing(ByNumber(lines))
    ensures forall line :: line in ByNumber(lines) <==> line in lines
  {
    var sorted := ByNumber(lines);
    StableSort.SortedHolds(lines, Less, 0);
    StableSort.SameElements(lines, Less);
    forall line
      ensures multiset(sorted)[line] <= 1
    {
      DistinctCounts(lines, line);
    }
    CountedOnceIsDistinct(sorted);
    forall i, j | 0 <= i < j < |sorted|
      ensures sorted[i] < sorted[j]
    {
      assert !Less(sorted[j], sorted[i]);
    }
  }

  /** For tokens in order of position, exactly the coverable lines, in order, each once. */
  method CollectCoverableLines(tokens: seq<Token>, excludedRanges: seq<Range>) returns (r: seq<int>)
    requires forall range :: range in excludedRanges ==> range.start <= range.end
    requires forall i, j :: 0 <= i < j < |tokens| ==> tokens[i].pos <= tokens[j].pos
    ensures Increasing(r)
    ensures forall line :: line in r <==> Coverable(tokens, excludedRanges, line)
  {
    var mergedRanges := MergeRanges(excludedRanges);
    var lines: seq<int> := [];
    var rangeIndex := 0;
    for k := 0 to |tokens|
      invariant rangeIndex <= |mergedRanges|
      invariant k < |tokens| ==> Swept(mergedRanges, rangeIndex, tokens[k].pos)
      invariant Distinct(lines) && forall line :: line in lines <==> Coverable(tokens[..k], excludedRanges, line)
    {
      var pos := tokens[k].pos;
      while rangeIndex < |mergedRanges| && pos >= mergedRanges[rangeIndex].end
        invariant Swept(mergedRanges, rangeIndex, pos)
      {
        rangeIndex := rangeIndex + 1;
      }
      var isExcluded := rangeIndex < |mergedRanges| && pos >= mergedRanges[rangeIndex].start
        && pos < mergedRanges[rangeIndex].end;
      PointerFinds(mergedRanges, rangeIndex, pos);
      assert isExcluded == Excluded(excludedRanges, pos);
      ghost var before := lines;
      if !isExcluded && tokens[k].significant && tokens[k].line + 1 !in lines {
        lines := lines + [tokens[k].line + 1];
      }
      CoverableGrows(tokens, excludedRanges, k);
    }
    assert tokens[..|tokens|] == tokens;
    r := ByNumber(lines);
    SortedLines(lines);
  }

  lemma CoverableGrows(tokens: seq<Token>, ranges: seq<Range>, k: nat)
    requires k < |tokens|
    ensures forall line :: Coverable(tokens[..k + 1], ranges, line) <==>
      Coverable(tokens[..k], ranges, line)
        || (tokens[k].significant && !Excluded(ranges, tokens[k].pos) && tokens[k].line + 1 == line)
  {
    assert tokens[..k + 1] == tokens[..k] + [tokens[k]];
    forall line
      ensures Coverable(tokens[..k + 1], ranges, line) <==>
        Coverable(tokens[..k], ranges, line)
          || (tokens[k].significant && !Excluded(ranges, tokens[k].pos) && tokens[k].line + 1 == line)
    {
      if Coverable(tokens[..k], ranges, line) {
        var t :| t in tokens[..k] && t.significant && !Excluded(ranges, t.pos) && t.line + 1 == line;
        assert t in tokens[..k + 1];
      }
      if tokens[k].significant && !Excluded(ranges, tokens[k].pos) && tokens[k].line + 1 == line {
        assert tokens[k] in tokens[..k + 1];
      }
    }
  }
}
