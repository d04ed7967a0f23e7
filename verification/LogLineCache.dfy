/** Line windows of smaller logs: a byte-bounded cache of parsed lines, least recently used
    first out, with reads of several requests interleaved. */
module LogLineCache {
  import opened Options

  /** Where a window ends: a line number, or the end for a cursor that is not finite. */
  datatype Cursor = AtEnd | Before(line: int)

  datatype LineWindow<T> = LineWindow(totalLines: nat, startLine: nat, endLine: nat, hasMoreBefore: bool, lines: seq<T>)

  function EndLine(totalLines: nat, before: Cursor): (r: nat)
    ensures r <= totalLines
  {
    match before
    case AtEnd => totalLines
    case Before(line) => if line <= 0 then 0 else if line < totalLines then line else totalLines
  }

  function SelectLineWindow<T>(lines: seq<T>, limit: nat, before: Cursor): (w: LineWindow<T>)
    ensures w.startLine <= w.endLine <= |lines| && w.lines == lines[w.startLine..w.endLine]
    ensures |w.lines| <= limit && (w.startLine > 0 ==> |w.lines| == limit)
    ensures w.totalLines == |lines| && (w.hasMoreBefore <==> w.startLine > 0)
    ensures before.AtEnd? ==> w.endLine == |lines|
    ensures before.Before? ==>
      w.endLine == if before.line < 0 then 0 else if before.line > |lines| then |lines| else before.line
  {
    var endLine := EndLine(|lines|, before);
    var startLine := if endLine <= limit then 0 else endLine - limit;
    LineWindow(|lines|, startLine, endLine, startLine > 0, lines[startLine..endLine])
  }

  /** The last lines before `end`, at most `limit` of them. */
  function LinesUpTo<T>(lines: seq<T>, end: nat, limit: nat): seq<T>
    requires end <= |lines|
  {
    lines[if end <= limit then 0 else end - limit..end]
  }

  lemma LinesUpToNext<T>(lines: seq<T>, end: nat, limit: nat)
    requires end < |lines|
    ensures var more := LinesUpTo(lines, end, limit) + [lines[end]];
      LinesUpTo(lines, end + 1, limit) == if |more| > limit then more[1..] else more
  {
  }

  /** The streaming fallback: one pass that keeps at most `limit` lines. */
  method StreamLineWindow<T>(file: seq<T>, limit: nat, before: Cursor) returns (w: LineWindow<T>)
    ensures w == SelectLineWindow(file, limit, before)
  {
    var selectedLines: seq<T> := [];
    var totalLines: nat := 0;
    for i := 0 to |file|
      invariant totalLines == i
      invariant selectedLines == LinesUpTo(file, EndLine(i, before), limit)
    {
      var line := file[i];
      if before.AtEnd? || totalLines < before.line {
        LinesUpToNext(file, i, limit);
        selectedLines := selectedLines + [line];
        if |selectedLines| > limit {
          selectedLines := selectedLines[1..];
        }
      }
      totalLines := totalLines + 1;
    }
    var endLine := EndLine(totalLines, before);
    var startLine := if endLine <= |selectedLines| then 0 else endLine - |selectedLines|;
    w := LineWindow(totalLines, startLine, endLine, startLine > 0, selectedLines);
  }

  // -- the cache ----------------------------------------------------------

  type Line = string

  const MAX_CACHEABLE_LOG_BYTES: nat := 4 * 1024 * 1024
  const MAX_LOG_CACHE_BYTES: nat := 16 * 1024 * 1024

  datatype CachedLog = CachedLog(path: string, size: nat, mtimeMs: int, lines: seq<Line>)

  function SumSizes(entries: seq<CachedLog>): nat {
    if entries == [] then 0 else entries[0].size + SumSizes(entries[1..])
  }

  predicate DistinctPaths(entries: seq<CachedLog>) {
    forall i, j :: 0 <= i < j < |entries| ==> entries[i].path != entries[j].path
  }

  function Find(entries: seq<CachedLog>, path: string): (k: int)
    ensures -1 <= k < |entries|
    ensures k >= 0 ==> entries[k].path == path
    ensures k == -1 ==> forall i :: 0 <= i < |entries| ==> entries[i].path != path
  {
    if entries == [] then -1
    else if entries[0].path == path then 0
    else
      var k := Find(entries[1..], path);
      if k == -1 then -1 else k + 1
  }

  /** The entries in order without `path`'s. */
  function Delete(entries: seq<CachedLog>, path: string): (r: seq<CachedLog>) {
    var k := Find(entries, path);
    if k == -1 then entries else entries[..k] + entries[k + 1..]
  }

  function Evicted(entries: seq<CachedLog>): (r: seq<CachedLog>)
    ensures |r| <= |entries|
  {
    if SumSizes(entries) <= MAX_LOG_CACHE_BYTES then entries
    else Evicted(entries[1..])
  }

  /** What is left is the longest most-recent part of the entries that fits the budget. */
  lemma {:induction false} EvictedIsLongestFit(entries: seq<CachedLog>)
    ensures var r := Evicted(entries);
      && r == entries[|entries| - |r|..]
      && SumSizes(r) <= 16_777_216
      && forall k :: 0 <= k < |entries| - |r| ==> SumSizes(entries[k..]) > 16_777_216
  {
    var r := Evicted(entries);
    if SumSizes(entries) > MAX_LOG_CACHE_BYTES {
      EvictedIsLongestFit(entries[1..]);
      forall k | 0 <= k < |entries| - |r|
        ensures SumSizes(entries[k..]) > MAX_LOG_CACHE_BYTES
      {
        if k == 0 {
          assert entries[0..] == entries;
        } else {
          assert entries[k..] == entries[1..][k - 1..];
        }
      }
    }
  }

  lemma {:induction false} SumOfParts(a: seq<CachedLog>, b: seq<CachedLog>)
    ensures SumSizes(a + b) == SumSizes(a) + SumSizes(b)
  {
    if a == [] {
      assert a + b == b;
    } else {
      assert (a + b)[1..] == a[1..] + b;
      SumOfParts(a[1..], b);
    }
  }

  lemma SumOfOne(log: CachedLog)
    ensures SumSizes([log]) == log.size
  {
    assert SumSizes([log]) == log.size + SumSizes([]);
  }

  lemma DeleteSum(entries: seq<CachedLog>, path: string)
    ensures SumSizes(Delete(entries, path)) ==
      SumSizes(entries) - (if Find(entries, path) == -1 then 0 else entries[Find(entries, path)].size)
  {
    hide SumSizes, Find;
    var k := Find(entries, path);
    if k != -1 {
      assert entries == entries[..k] + ([entries[k]] + entries[k + 1..]);
      SumOfParts(entries[..k], [entries[k]] + entries[k + 1..]);
      SumOfParts([entries[k]], entries[k + 1..]);
      SumOfParts(entries[..k], entries[k + 1..]);
      SumOfOne(entries[k]);
    }
  }

  lemma DeleteNothing(entries: seq<CachedLog>, path: string)
    ensures Find(entries, path) == -1 ==> Delete(entries, path) == entries
  {
  }

  lemma DeleteDrops(entries: seq<CachedLog>, path: string)
    requires DistinctPaths(entries)
    ensures DistinctPaths(Delete(entries, path))
    ensures forall e :: e in Delete(entries, path) <==> e in entries && e.path != path
  {
    var k := Find(entries, path);
    if k != -1 {
      var r := Delete(entries, path);
      forall e | e in entries && e.path != path
        ensures e in r
      {
        var i :| 0 <= i < |entries| && entries[i] == e;
        assert r[if i < k then i else i - 1] == e;
      }
    }
  }

  /** The lines a log held when it had this size and modification time. */
  type Disk = (string, nat, int) -> seq<Line>

  ghost predicate Truthful(entries: seq<CachedLog>, disk: Disk) {
    forall e :: e in entries ==> e.lines == disk(e.path, e.size, e.mtimeMs)
  }

  /** What the cache always is. */
  ghost predicate Sound(entries: seq<CachedLog>, totalBytes: int) {
    && DistinctPaths(entries)
    && totalBytes == SumSizes(entries) <= 16_777_216
    && forall e :: e in entries ==> e.size <= 4_194_304
  }

  /** A hit moves its entry to the most recent end. */
  function Touched(entries: seq<CachedLog>, path: string): seq<CachedLog> {
    var k := Find(entries, path);
    if k == -1 then entries else Delete(entries, path) + [entries[k]]
  }

  /** A finished miss replaces its path's entry and evicts from the least recent end. */
  function Filled(entries: seq<CachedLog>, log: CachedLog): seq<CachedLog> {
    Evicted(Delete(entries, log.path) + [log])
  }

  lemma TouchedSound(entries: seq<CachedLog>, path: string)
    requires Sound(entries, SumSizes(entries))
    ensures Sound(Touched(entries, path), SumSizes(entries))
    ensures forall e :: e in Touched(entries, path) <==> e in entries
  {
    hide SumSizes, Delete, Find;
    var k := Find(entries, path);
    if k != -1 {
      var front, e := Delete(entries, path), entries[k];
      DeleteSum(entries, path);
      DeleteDrops(entries, path);
      SumOfParts(front, [e]);
      SumOfOne(e);
      OnlyOneOfPath(entries, k);
    }
  }

  lemma OnlyOneOfPath(entries: seq<CachedLog>, k: nat)
    requires k < |entries| && DistinctPaths(entries)
    ensures forall e :: e in entries ==> (e.path == entries[k].path <==> e == entries[k])
  {
  }

  /** The entry just inserted always survives. */
  lemma FilledSound(entries: seq<CachedLog>, log: CachedLog)
    requires Sound(entries, SumSizes(entries)) && log.size <= MAX_CACHEABLE_LOG_BYTES
    ensures var r := Filled(entries, log);
      && Sound(r, SumSizes(r)) && |r| > 0 && r[|r| - 1] == log
      && forall e :: e in r ==> e == log || (e in entries && e.path != log.path)
  {
    hide Evicted, SumSizes, Delete;
    DeleteDrops(entries, log.path);
    LastStays(Delete(entries, log.path), log);
  }

  lemma LastStays(front: seq<CachedLog>, log: CachedLog)
    requires DistinctPaths(front + [log]) && log.size <= MAX_CACHEABLE_LOG_BYTES
    ensures var r := Evicted(front + [log]);
      && DistinctPaths(r) && SumSizes(r) <= MAX_LOG_CACHE_BYTES
      && |r| > 0 && r[|r| - 1] == log && forall e :: e in r ==> e in front || e == log
  {
    var all := front + [log];
    EvictedIsLongestFit(all);
    SumOfOne(log);
    hide Evicted, SumSizes;
    assert all[|all| - 1..] == [log];
    assert forall i :: |all| - |Evicted(all)| <= i < |all| ==> Evicted(all)[i - (|all| - |Evicted(all)|)] == all[i];
  }

  datatype ReadStep = Answer(window: LineWindow<Line>) | FromEnd(beforeByte: int) | Stream | ReadWhole

  class Cache {
    var entries: seq<CachedLog>
    var totalBytes: int

    ghost predicate Valid()
      reads this
    {
      Sound(entries, totalBytes)
    }

    constructor ()
      ensures Valid() && entries == []
    {
      entries := [];
      totalBytes := 0;
    }

    /** The part of a read before it has to wait: where the answer will come from, or the answer. */
    method BeginRead(path: string, size: nat, mtimeMs: int, limit: nat, before: Cursor, beforeByte: Option<int>,
                     ghost disk: Disk)
      returns (step: ReadStep)
      requires Valid() && Truthful(entries, disk)
      modifies this
      ensures Valid() && Truthful(entries, disk) && totalBytes == old(totalBytes)
      ensures step.Answer? ==> step.window == SelectLineWindow(disk(path, size, mtimeMs), limit, before)
      ensures entries == if step.Answer? then Touched(old(entries), path) else old(entries)
      ensures step.Answer? <==>
        && size <= 4_194_304
        && exists e :: e in old(entries) && e.path == path && e.size == size && e.mtimeMs == mtimeMs
      ensures size > 4_194_304 ==>
        step == match beforeByte
          case Some(b) => FromEnd(b)
          case None => if before.AtEnd? then FromEnd(size) else Stream
    {
      if size > MAX_CACHEABLE_LOG_BYTES {
        if beforeByte.Some? {
          return FromEnd(beforeByte.value);
        }
        if before.AtEnd? {
          return FromEnd(size);
        }
        return Stream;
      }
      var k := Find(entries, path);
      if k != -1 && entries[k].size == size && entries[k].mtimeMs == mtimeMs {
        var cached := entries[k];
        TouchedSound(entries, path);
        entries := Delete(entries, path);
        entries := entries + [cached];
        return Answer(SelectLineWindow(cached.lines, limit, before));
      }
      assert forall i :: 0 <= i < |entries| && entries[i].path == path ==> i == k;
      step := ReadWhole;
    }

    /** The part of a miss after its wait; other reads may have changed the cache meanwhile. */
    method FinishMiss(path: string, size: nat, mtimeMs: int, lines: seq<Line>, limit: nat, before: Cursor,
                      ghost disk: Disk)
      returns (w: LineWindow<Line>)
      requires Valid() && Truthful(entries, disk)
      requires size <= MAX_CACHEABLE_LOG_BYTES && lines == disk(path, size, mtimeMs)
      modifies this
      ensures Valid() && Truthful(entries, disk)
      ensures entries == Filled(old(entries), CachedLog(path, size, mtimeMs, lines))
      ensures CachedLog(path, size, mtimeMs, lines) in entries
      ensures w == SelectLineWindow(disk(path, size, mtimeMs), limit, before)
    {
      hide Delete, SumSizes, Evicted, SelectLineWindow;
      var log := CachedLog(path, size, mtimeMs, lines);
      FilledSound(entries, log);
      DeleteSum(entries, path);
      var k := Find(entries, path);
      DeleteNothing(entries, path);
      if k != -1 {
        var prior := entries[k];
        entries := Delete(entries, path);
        totalBytes := totalBytes - prior.size;
      }
      SumOfParts(entries, [log]);
      SumOfOne(log);
      entries := entries + [log];
      totalBytes := totalBytes + size;
      EnforceBudget();
      w := SelectLineWindow(lines, limit, before);
    }

    method EnforceBudget()
      requires totalBytes == SumSizes(entries)
      modifies this
      ensures entries == Evicted(old(entries)) && totalBytes == SumSizes(entries)
    {
      while totalBytes > MAX_LOG_CACHE_BYTES
        invariant totalBytes == SumSizes(entries)
        invariant Evicted(entries) == Evicted(old(entries))
        decreases |entries|
      {
        if entries == [] {
          break;
        }
        var evicted := entries[0];
        entries := entries[1..];
        totalBytes := totalBytes - evicted.size;
      }
    }
  }

  // -- every interleaving -------------------------------------------------

  /** What reads do to the cache: a hit, or a miss that finishes. Between a miss starting and
      finishing any other events may happen. */
  datatype Event = Hit(path: string) | Fill(log: CachedLog) {
    function Path(): string {
      if Hit? then path else log.path
    }
  }

  function Apply(entries: seq<CachedLog>, ev: Event): seq<CachedLog> {
    if ev.Hit? then Touched(entries, ev.path) else Filled(entries, ev.log)
  }

  function Run(events: seq<Event>): seq<CachedLog> {
    if events == [] then [] else Apply(Run(events[..|events| - 1]), events[|events| - 1])
  }

  ghost predicate Cacheable(events: seq<Event>, disk: Disk) {
    forall i :: 0 <= i < |events| && events[i].Fill? ==>
      var log := events[i].log;
      log.size <= MAX_CACHEABLE_LOG_BYTES && log.lines == disk(log.path, log.size, log.mtimeMs)
  }

  /** A run is its events, one after the other, from an empty cache. */
  lemma RunOfOneMore(events: seq<Event>, ev: Event)
    ensures Run([]) == [] && Run(events + [ev]) == Apply(Run(events), ev)
  {
    assert (events + [ev])[..|events|] == events;
    hide Apply;
  }

  /** The position of the last event about `path`, or -1. */
  function LastUse(events: seq<Event>, path: string): (k: int)
    ensures -1 <= k < |events|
  {
    if events == [] then -1
    else if events[|events| - 1].Path() == path then |events| - 1
    else LastUse(events[..|events| - 1], path)
  }

  ghost predicate ByLastUse(entries: seq<CachedLog>, events: seq<Event>) {
    forall i, j :: 0 <= i < j < |entries| ==> LastUse(events, entries[i].path) < LastUse(events, entries[j].path)
  }

  /** After any interleaving the accounting is exact and within budget, and every cached log
      holds its file's lines. */
  lemma {:induction false} RunSound(events: seq<Event>, disk: Disk)
    requires Cacheable(events, disk)
    ensures Sound(Run(events), SumSizes(Run(events))) && Truthful(Run(events), disk)
  {
    if events != [] {
      var n := |events| - 1;
      var before := Run(events[..n]);
      RunSound(events[..n], disk);
      match events[n] {
        case Hit(path) => TouchedSound(before, path);
        case Fill(log) => FilledSound(before, log);
      }
    }
  }

  lemma DeleteIsSubsequence(entries: seq<CachedLog>, path: string, i: nat, j: nat)
    requires DistinctPaths(entries) && i < j < |Delete(entries, path)|
    ensures exists k, l ::
      0 <= k < l < |entries| && entries[k] == Delete(entries, path)[i] && entries[l] == Delete(entries, path)[j]
    ensures Delete(entries, path)[i].path != path && Delete(entries, path)[j].path != path
  {
    DeleteDrops(entries, path);
    var d := Find(entries, path);
    var r := Delete(entries, path);
    assert r[i] in r && r[j] in r;
    var k := if d == -1 || i < d then i else i + 1;
    var l := if d == -1 || j < d then j else j + 1;
    assert entries[k] == r[i] && entries[l] == r[j];
  }

  /** Entries keep their order by last use when one of them, or a new one, moves to the end. */
  lemma MovedToEndByLastUse(entries: seq<CachedLog>, events: seq<Event>, ev: Event, moved: CachedLog)
    requires DistinctPaths(entries) && ByLastUse(entries, events) && ev.Path() == moved.path
    ensures ByLastUse(Delete(entries, moved.path) + [moved], events + [ev])
  {
    var rest := Delete(entries, moved.path);
    var all := rest + [moved];
    var after := events + [ev];
    assert after[..|events|] == events;
    forall i, j | 0 <= i < j < |all|
      ensures LastUse(after, all[i].path) < LastUse(after, all[j].path)
    {
      if j < |rest| {
        DeleteIsSubsequence(entries, moved.path, i, j);
      } else {
        DeleteDrops(entries, moved.path);
        assert all[i] in rest;
      }
    }
  }

  /** The cache is always in order of last use. */
  lemma {:induction false} RunByLastUse(events: seq<Event>, disk: Disk)
    requires Cacheable(events, disk)
    ensures ByLastUse(Run(events), events)
  {
    if events != [] {
      var n := |events| - 1;
      var ev := events[n];
      var before := Run(events[..n]);
      RunSound(events[..n], disk);
      RunByLastUse(events[..n], disk);
      assert events == events[..n] + [ev];
      match ev {
        case Hit(path) =>
          var k := Find(before, path);
          if k != -1 {
            MovedToEndByLastUse(before, events[..n], ev, before[k]);
          } else {
            assert forall i :: 0 <= i < |before| ==>
              LastUse(events, before[i].path) == LastUse(events[..n], before[i].path);
          }
        case Fill(log) =>
          MovedToEndByLastUse(before, events[..n], ev, log);
          EvictedIsLongestFit(Delete(before, log.path) + [log]);
      }
    }
  }

  /** A log that an event pushes out was used less recently than every log that stays. */
  lemma EvictionIsLeastRecentlyUsed(events: seq<Event>, disk: Disk, ev: Event, gone: CachedLog, kept: CachedLog)
    requires Cacheable(events + [ev], disk)
    requires gone in Run(events) && gone.path != ev.Path() && gone !in Run(events + [ev])
    requires kept in Run(events + [ev])
    ensures LastUse(events + [ev], gone.path) < LastUse(events + [ev], kept.path)
  {
    var after := events + [ev];
    assert after[..|events|] == events;
    assert Cacheable(events, disk) by {
      assert forall i :: 0 <= i < |events| ==> events[i] == after[i];
    }
    RunSound(events, disk);
    RunByLastUse(events, disk);
    var before := Run(events);
    if ev.Hit? {
      TouchedSound(before, ev.path);
      assert false;
    } else {
      MovedToEndByLastUse(before, events, ev, ev.log);
      DeleteDrops(before, ev.log.path);
      EvictedIsLongestFit(Delete(before, ev.log.path) + [ev.log]);
      hide Delete, Evicted, ByLastUse;
      FrontIsUsedEarlier(Delete(before, ev.log.path) + [ev.log], Run(after), after, gone, kept);
    }
  }

  lemma FrontIsUsedEarlier(all: seq<CachedLog>, r: seq<CachedLog>, events: seq<Event>, gone: CachedLog, kept: CachedLog)
    requires ByLastUse(all, events) && |r| <= |all| && r == all[|all| - |r|..]
    requires gone in all && gone !in r && kept in r
    ensures LastUse(events, gone.path) < LastUse(events, kept.path)
  {
    hide LastUse;
    var d := |all| - |r|;
    assert all == all[..d] + r;
    var g :| 0 <= g < d && all[..d][g] == gone;
    var k :| 0 <= k < |r| && r[k] == kept;
    assert all[g] == gone && all[d + k] == kept;
  }
}
