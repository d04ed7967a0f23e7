/** The merge of a run's planned JUnit reports: all of them, or no list. */
module JUnitMerge {
  import opened Options
  import opened Lists
  import opened Strings
  import opened JUnitReports
  import opened NameOrder
  import StableSort

  const REPORT_SUFFIX := ".junit.xml"

  /** The directory: the manifest's entries, where one that is not a text is `None`, if it parses to a list
      at all; the file names, if they can be listed; and the tags of each report that can be read. */
  datatype Directory = Directory(manifest: Option<seq<Option<string>>>, listing: Option<seq<string>>,
                                 reports: map<string, seq<Tag>>)

  predicate IsReportName(name: string) {
    EndsWith(name, REPORT_SUFFIX) && '/' !in name && '\\' !in name && '\0' !in name
  }

  /** The manifest names unique plain report names only. */
  ghost predicate PlanIs(manifest: Option<seq<Option<string>>>, names: seq<string>) {
    && manifest.Some? && |names| == |manifest.value| && Distinct(names)
    && forall i :: 0 <= i < |names| ==> manifest.value[i] == Some(names[i]) && IsReportName(names[i])
  }

  method ReadPlannedReports(manifest: Option<seq<Option<string>>>) returns (r: Option<seq<string>>,
                                                                            ghost names: seq<string>)
    ensures r.Some? ==> PlanIs(manifest, names) && r.value == SortedNames(names)
    ensures r == None ==> forall plan :: !PlanIs(manifest, plan)
  {
    names := [];
    if manifest == None {
      return None, names;
    }
    var reports := manifest.value;
    var found: seq<string> := [];
    for i := 0 to |reports|
      invariant |found| == i && forall j :: 0 <= j < i ==> reports[j] == Some(found[j]) && IsReportName(found[j])
    {
      if reports[i] == None {
        return None, names;
      }
      var entry := reports[i].value;
      if !EndsWith(entry, REPORT_SUFFIX) {
        return None, names;
      }
      if '/' in entry || '\\' in entry || '\0' in entry {
        return None, names;
      }
      found := found + [entry];
    }
    var unique := set name | name in found;
    if |unique| != |found| {
      forall plan
        ensures !PlanIs(manifest, plan)
      {
        if PlanIs(manifest, plan) {
          assert plan == found;
          SetOfDistinct(found);
          assert false;
        }
      }
      return None, names;
    }
    DistinctBySize(found);
    return Some(SortedNames(found)), found;
  }

  lemma {:induction false} SetOfDistinct(names: seq<string>)
    requires Distinct(names)
    ensures |set name | name in names| == |names|
  {
    if names != [] {
      var n := |names| - 1;
      SetOfDistinct(names[..n]);
      assert names == names[..n] + [names[n]];
      assert (set name | name in names) == (set name | name in names[..n]) + {names[n]};
      assert names[n] !in names[..n];
    }
  }

  lemma {:induction false} SizeOfSet(names: seq<string>)
    ensures |set name | name in names| <= |names|
  {
    if names != [] {
      var n := |names| - 1;
      SizeOfSet(names[..n]);
      assert names == names[..n] + [names[n]];
      assert (set name | name in names) == (set name | name in names[..n]) + {names[n]};
    }
  }

  lemma {:induction false} DistinctBySize(names: seq<string>)
    requires |set name | name in names| == |names|
    ensures Distinct(names)
  {
    if names != [] {
      var n := |names| - 1;
      assert names == names[..n] + [names[n]];
      assert (set name | name in names) == (set name | name in names[..n]) + {names[n]};
      SizeOfSet(names[..n]);
      DistinctBySize(names[..n]);
      assert names[n] !in (set name | name in names[..n]);
    }
  }

  // -- the order of entries -----------------------------------------------

  function StatusText(s: Status): string {
    match s
    case Passed => "passed"
    case Skipped => "skipped"
    case Todo => "todo"
  }

  function Fields(e: TestEntry): seq<string> {
    [e.file, e.path, e.name, StatusText(e.status)]
  }

  /** The first field that differs decides. */
  predicate FieldsLess(a: seq<string>, b: seq<string>)
    requires |a| == |b|
  {
    a != [] && if a[0] == b[0] then FieldsLess(a[1..], b[1..]) else Less(a[0], b[0])
  }

  predicate EntryBefore(a: TestEntry, b: TestEntry) {
    FieldsLess(Fields(a), Fields(b))
  }

  function Place(s: Status): nat {
    match s
    case Passed => 0
    case Skipped => 1
    case Todo => 2
  }

  /** Entries are ordered by file, then describe path, then name, then status: passed, skipped, todo. */
  lemma EntryBeforeIff(a: TestEntry, b: TestEntry)
    ensures EntryBefore(a, b) <==>
      if a.file != b.file then Less(a.file, b.file)
      else if a.path != b.path then Less(a.path, b.path)
      else if a.name != b.name then Less(a.name, b.name)
      else Place(a.status) < Place(b.status)
  {
    var f, g := Fields(a), Fields(b);
    assert f[1..] == [a.path, a.name, StatusText(a.status)] && g[1..] == [b.path, b.name, StatusText(b.status)];
    assert f[1..][1..] == [a.name, StatusText(a.status)] && g[1..][1..] == [b.name, StatusText(b.status)];
    assert f[1..][1..][1..] == [StatusText(a.status)] && g[1..][1..][1..] == [StatusText(b.status)];
    hide Less, StatusText;
    FieldsStep(f, g);
    FieldsStep(f[1..], g[1..]);
    FieldsStep(f[1..][1..], g[1..][1..]);
    FieldsStep(f[1..][1..][1..], g[1..][1..][1..]);
    hide FieldsLess;
    StatusesInOrder(a.status, b.status);
  }

  lemma FieldsStep(a: seq<string>, b: seq<string>)
    requires |a| == |b| && a != []
    ensures FieldsLess(a, b) <==>
      if a[0] != b[0] then Less(a[0], b[0]) else |a| > 1 && FieldsLess(a[1..], b[1..])
  {
  }

  lemma StatusesInOrder(a: Status, b: Status)
    ensures StatusText(a) == StatusText(b) <==> a == b
    ensures Less(StatusText(a), StatusText(b)) <==> Place(a) < Place(b)
  {
    var p, s, t := "passed", "skipped", "todo";
    assert p[0] < s[0] < t[0];
    assert !Less(p, p) && !Less(s, s) && !Less(t, t) by {
      LessIsTotal(p, p);
      LessIsTotal(s, s);
      LessIsTotal(t, t);
    }
  }

  lemma {:induction false} FieldsLessIsOrder(a: seq<string>, b: seq<string>, c: seq<string>)
    requires |a| == |b| == |c|
    ensures FieldsLess(a, b) ==> !FieldsLess(b, a)
    ensures !FieldsLess(b, a) && !FieldsLess(c, b) ==> !FieldsLess(c, a)
  {
    if a != [] {
      FieldsLessIsOrder(a[1..], b[1..], c[1..]);
      LessIsTotal(a[0], b[0]);
      LessIsTotal(b[0], c[0]);
      LessIsTotal(a[0], c[0]);
      if !Less(b[0], a[0]) && !Less(c[0], b[0]) {
        NotLessIsTransitive(a[0], b[0], c[0]);
      }
      hide Less;
    }
  }

  lemma EntriesAreOrdered()
    ensures StableSort.WeakOrder(EntryBefore)
  {
    forall a, b, c
      ensures EntryBefore(a, b) ==> !EntryBefore(b, a)
      ensures !EntryBefore(b, a) && !EntryBefore(c, b) ==> !EntryBefore(c, a)
    {
      hide FieldsLess;
      FieldsLessIsOrder(Fields(a), Fields(b), Fields(c));
    }
  }

  // -- the merge ----------------------------------------------------------

  function ReportsIn(listing: seq<string>): seq<string> {
    Filter(listing, (name: string) => EndsWith(name, REPORT_SUFFIX))
  }

  /** A report that can be read, parses, and holds a test. */
  predicate Usable(d: Directory, name: string) {
    name in d.reports && Parsed(d.reports[name]).Some? && Parsed(d.reports[name]).value != []
  }

  /** All the entries of some usable reports, report by report. */
  function EntriesOf(d: Directory, names: seq<string>): seq<TestEntry> {
    if names == [] then []
    else
      var last := names[|names| - 1];
      EntriesOf(d, names[..|names| - 1]) + (if Usable(d, last) then Parsed(d.reports[last]).value else [])
  }

  function SortedEntries(entries: seq<TestEntry>): (r: seq<TestEntry>)
    ensures |r| == |entries|
  {
    StableSort.Sorted(entries, EntryBefore)
  }

  /** The reports on disk are exactly those planned, there is one, and each is usable. */
  ghost predicate Complete(d: Directory, plan: seq<string>) {
    && PlanIs(d.manifest, plan) && d.listing.Some? && plan != []
    && (forall name :: name in plan <==> name in d.listing.value && EndsWith(name, REPORT_SUFFIX))
    && (forall name :: name in plan ==> Usable(d, name))
  }

  lemma SameReportsIff(plan: seq<string>, listing: seq<string>)
    requires Distinct(plan) && Distinct(listing)
    ensures SortedNames(plan) == SortedNames(ReportsIn(listing)) <==>
      forall name :: name in plan <==> name in listing && EndsWith(name, REPORT_SUFFIX)
  {
    FilterDistinct(listing, (name: string) => EndsWith(name, REPORT_SUFFIX));
    SortedNamesTell(plan, ReportsIn(listing));
  }

  /** Entries come back only for a complete directory, and then all of them, sorted; anything less is no
      list at all. */
  method MergeJUnitReports(d: Directory) returns (r: Option<seq<TestEntry>>, ghost plan: seq<string>)
    requires d.listing.Some? ==> Distinct(d.listing.value)
    ensures r.Some? ==> Complete(d, plan) && r.value == SortedEntries(EntriesOf(d, SortedNames(plan)))
    ensures r == None ==> forall p :: !Complete(d, p)
  {
    hide SortedNames, Usable, ReportsIn, Distinct, SortedEntries;
    var planned;
    planned, plan := ReadPlannedReports(d.manifest);
    if planned == None || d.listing == None {
      return None, plan;
    }
    OnePlan(d.manifest, plan);
    SameReportsIff(plan, d.listing.value);
    var names := SortedNames(ReportsIn(d.listing.value));
    if |names| == 0 || names != planned.value {
      return None, plan;
    }
    SortingKeepsNames(plan);
    var entries: seq<TestEntry> := [];
    for i := 0 to |names|
      invariant entries == EntriesOf(d, names[..i])
      invariant forall j :: 0 <= j < i ==> Usable(d, names[j])
    {
      assert names[..i + 1][..i] == names[..i];
      assert names[i] in plan;
      if names[i] !in d.reports {
        NotUsable(d, names[i]);
        return None, plan;
      }
      var parsed := ParseJUnitTestEntries(d.reports[names[i]]);
      if parsed == None || |parsed.value| == 0 {
        NotUsable(d, names[i]);
        return None, plan;
      }
      IsUsable(d, names[i]);
      entries := entries + parsed.value;
    }
    assert names[..|names|] == names;
    forall name | name in plan
      ensures Usable(d, name)
    {
      assert name in names;
    }
    r := Some(SortedEntries(entries));
  }

  lemma OnePlan(manifest: Option<seq<Option<string>>>, plan: seq<string>)
    requires PlanIs(manifest, plan)
    ensures forall p :: PlanIs(manifest, p) ==> p == plan
  {
  }

  lemma NotUsable(d: Directory, name: string)
    requires name !in d.reports || Parsed(d.reports[name]) == None || Parsed(d.reports[name]).value == []
    ensures !Usable(d, name)
  {
  }

  lemma IsUsable(d: Directory, name: string)
    requires name in d.reports && Parsed(d.reports[name]).Some? && Parsed(d.reports[name]).value != []
    ensures Usable(d, name)
  {
  }

  /** The merged list is in order and holds just the reports' entries. */
  lemma MergedHolds(entries: seq<TestEntry>)
    ensures StableSort.InOrder(SortedEntries(entries), EntryBefore)
    ensures multiset(SortedEntries(entries)) == multiset(entries)
  {
    if entries == [] {
      assert SortedEntries(entries) == [];
    } else {
      EntriesAreOrdered();
      StableSort.SortedHolds(entries, EntryBefore, entries[0]);
    }
  }
}
