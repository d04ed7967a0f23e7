/** The reader of one JUnit document: a walk over its tags with a stack of suites. */
module JUnitReports {
  import opened Options
  import opened Strings

  type Attrs = map<string, string>

  datatype Tag = Open(name: string, attrs: Attrs, selfClosing: bool) | Close(name: string)

  datatype Status = Passed | Skipped | Todo

  datatype TestEntry = TestEntry(file: string, path: string, name: string, status: Status)

  datatype SuiteFrame = SuiteFrame(file: Option<string>, describe: seq<string>)

  datatype TestCase = TestCase(name: string, file: Option<string>, skipMessage: Option<string>, failed: bool,
                               depth: nat)

  datatype Walk = Walk(sawRoot: bool, suites: seq<SuiteFrame>, testcase: Option<TestCase>, entries: seq<TestEntry>)

  /** A leading `./` is dropped from a file. */
  function PlainFile(file: string): string {
    if |file| >= 2 && file[0] == '.' && file[1] == '/' then file[2..] else file
  }

  function AttrFile(attrs: Attrs): Option<string> {
    if "file" in attrs then Some(PlainFile(attrs["file"])) else None
  }

  /** The nearest file up the suite chain. */
  function SuiteFile(suites: seq<SuiteFrame>): Option<string> {
    if suites == [] then None
    else if suites[|suites| - 1].file.Some? then suites[|suites| - 1].file
    else SuiteFile(suites[..|suites| - 1])
  }

  function PushedSuite(top: SuiteFrame, attrs: Attrs): SuiteFrame {
    SuiteFrame(
      if "file" in attrs then AttrFile(attrs) else top.file,
      if "line" in attrs && "name" in attrs then top.describe + [attrs["name"]] else top.describe)
  }

  function EntryFor(w: Walk, c: TestCase, status: Status): Option<TestEntry>
    requires |w.suites| > 0
  {
    var file := if c.file.Some? then c.file else SuiteFile(w.suites);
    if file == None then None
    else Some(TestEntry(file.value, Join(w.suites[|w.suites| - 1].describe, " > "), c.name, status))
  }

  function CloseTag(w: Walk, name: string): Option<Walk>
    requires |w.suites| > 0
  {
    if name == "testsuites" then Some(w)
    else if name == "testsuite" then
      if |w.suites| <= 1 then None else Some(w.(suites := w.suites[..|w.suites| - 1]))
    else if w.testcase == None then Some(w)
    else
      var c := w.testcase.value;
      if name == "testcase" && c.depth == 0 then
        if c.failed then None
        else
          var entry := EntryFor(w, c, if c.skipMessage == Some("TODO") then Todo else Skipped);
          if entry == None then None else Some(w.(entries := w.entries + [entry.value], testcase := None))
      else Some(w.(testcase := Some(if c.depth > 0 then c.(depth := c.depth - 1) else c)))
  }

  /** A tag inside a testcase. */
  function InsideCase(c: TestCase, name: string, attrs: Attrs, selfClosing: bool): TestCase {
    if name == "skipped" then c.(skipMessage := Some(if "message" in attrs then attrs["message"] else ""))
    else if name == "failure" || name == "error" then c.(failed := true)
    else if !selfClosing then c.(depth := c.depth + 1)
    else c
  }

  function OpenTag(w: Walk, name: string, attrs: Attrs, selfClosing: bool): Option<Walk>
    requires |w.suites| > 0
  {
    if name == "testsuites" then Some(w.(sawRoot := true))
    else if name == "testsuite" then Some(w.(suites := w.suites + [PushedSuite(w.suites[|w.suites| - 1], attrs)]))
    else if name == "testcase" then
      if w.testcase.Some? || "name" !in attrs then None
      else
        var c := TestCase(attrs["name"], AttrFile(attrs), None, false, 0);
        if !selfClosing then Some(w.(testcase := Some(c)))
        else
          var entry := EntryFor(w, c, Passed);
          if entry == None then None else Some(w.(entries := w.entries + [entry.value]))
    else if w.testcase.Some? then Some(w.(testcase := Some(InsideCase(w.testcase.value, name, attrs, selfClosing))))
    else Some(w)
  }

  function Step(w: Walk, tag: Tag): (r: Option<Walk>)
    requires |w.suites| > 0
    ensures r.Some? ==> |r.value.suites| > 0
  {
    if tag.Close? then CloseTag(w, tag.name) else OpenTag(w, tag.name, tag.attrs, tag.selfClosing)
  }

  function Walked(w: Walk, tags: seq<Tag>): (r: Option<Walk>)
    requires |w.suites| > 0
    ensures r.Some? ==> |r.value.suites| > 0
    decreases |tags|
  {
    if tags == [] then Some(w)
    else
      var w' := Step(w, tags[0]);
      if w' == None then None else Walked(w'.value, tags[1..])
  }

  const START := Walk(false, [SuiteFrame(None, [])], None, [])

  function Finished(w: Walk): Option<seq<TestEntry>> {
    if !w.sawRoot || w.testcase.Some? || |w.suites| != 1 then None else Some(w.entries)
  }

  /** What the rest of a document makes of a walk. */
  function Outcome(w: Walk, tags: seq<Tag>): Option<seq<TestEntry>>
    requires |w.suites| > 0
  {
    var w' := Walked(w, tags);
    if w' == None then None else Finished(w'.value)
  }

  /** The entries of a document, or `None` when any of it is unusable. */
  function Parsed(tags: seq<Tag>): Option<seq<TestEntry>> {
    Outcome(START, tags)
  }

  lemma OutcomeAtEnd(w: Walk)
    requires |w.suites| > 0
    ensures Outcome(w, []) == Finished(w)
  {
  }

  lemma OutcomeOfStep(w: Walk, tags: seq<Tag>, i: nat)
    requires |w.suites| > 0 && i < |tags|
    ensures Outcome(w, tags[i..]) ==
      var w' := Step(w, tags[i]);
      if w' == None then None else Outcome(w'.value, tags[i + 1..])
  {
    assert tags[i..][0] == tags[i] && tags[i..][1..] == tags[i + 1..];
  }

  method FindSuiteFile(suites: seq<SuiteFrame>) returns (file: Option<string>)
    ensures file == SuiteFile(suites)
  {
    var index := |suites|;
    assert suites[..|suites|] == suites;
    while index > 0
      invariant 0 <= index <= |suites|
      invariant SuiteFile(suites) == SuiteFile(suites[..index])
    {
      index := index - 1;
      assert suites[..index + 1][..index] == suites[..index];
      if suites[index].file.Some? {
        return suites[index].file;
      }
    }
    assert suites[..0] == [];
    file := None;
  }

  method ParseJUnitTestEntries(tags: seq<Tag>) returns (r: Option<seq<TestEntry>>)
    ensures r == Parsed(tags)
  {
    hide Outcome, Join, SuiteFile, PushedSuite, InsideCase, AttrFile;
    assert tags[0..] == tags;
    var sawRoot := false;
    var suites := [SuiteFrame(None, [])];
    var testcase: Option<TestCase> := None;
    var entries: seq<TestEntry> := [];
    for i := 0 to |tags|
      invariant |suites| > 0
      invariant Parsed(tags) == Outcome(Walk(sawRoot, suites, testcase, entries), tags[i..])
    {
      var tag := tags[i];
      OutcomeOfStep(Walk(sawRoot, suites, testcase, entries), tags, i);
      var name := tag.name;
      if tag.Close? {
        if name == "testsuites" {
          continue;
        }
        if name == "testsuite" {
          if |suites| <= 1 {
            return None;
          }
          suites := suites[..|suites| - 1];
          continue;
        }
        if testcase.Some? {
          if name == "testcase" && testcase.value.depth == 0 {
            if testcase.value.failed {
              return None;
            }
            var nearest := FindSuiteFile(suites);
            var file := if testcase.value.file.Some? then testcase.value.file else nearest;
            if file == None {
              return None;
            }
            entries := entries + [TestEntry(file.value, Join(suites[|suites| - 1].describe, " > "), testcase.value.name,
                                            if testcase.value.skipMessage == Some("TODO") then Todo else Skipped)];
            testcase := None;
            continue;
          }
          if testcase.value.depth > 0 {
            testcase := Some(testcase.value.(depth := testcase.value.depth - 1));
          }
        }
        continue;
      }
      var attrs := tag.attrs;
      if name == "testsuites" {
        sawRoot := true;
        continue;
      }
      if name == "testsuite" {
        suites := suites + [PushedSuite(suites[|suites| - 1], attrs)];
        continue;
      }
      if name == "testcase" {
        if testcase.Some? || "name" !in attrs {
          return None;
        }
        var started := TestCase(attrs["name"], AttrFile(attrs), None, false, 0);
        if tag.selfClosing {
          var nearest := FindSuiteFile(suites);
          var file := if started.file.Some? then started.file else nearest;
          if file == None {
            return None;
          }
          entries := entries
            + [TestEntry(file.value, Join(suites[|suites| - 1].describe, " > "), started.name, Passed)];
        } else {
          testcase := Some(started);
        }
        continue;
      }
      if testcase.Some? {
        testcase := Some(InsideCase(testcase.value, name, attrs, tag.selfClosing));
      }
    }
    assert tags[|tags|..] == [];
    OutcomeAtEnd(Walk(sawRoot, suites, testcase, entries));
    r := if !sawRoot || testcase.Some? || |suites| != 1 then None else Some(entries);
  }

  // -- documents as forests -----------------------------------------------

  datatype Elem = Leaf(name: string, attrs: Attrs) | Elem(name: string, attrs: Attrs, kids: seq<Elem>)

  /** A suite, a self-closing testcase, a testcase with a body, or an element of no interest. */
  datatype Node =
    | Suite(attrs: Attrs, nodes: seq<Node>)
    | ClosedCase(attrs: Attrs)
    | OpenCase(attrs: Attrs, body: seq<Elem>)
    | Other(elem: Elem)

  predicate PlainName(name: string) {
    name != "testsuites" && name != "testsuite" && name != "testcase"
  }

  predicate PlainElem(e: Elem) {
    PlainName(e.name) && (e.Elem? ==> PlainElems(e.kids))
  }

  predicate PlainElems(es: seq<Elem>) {
    es == [] || (PlainElem(es[0]) && PlainElems(es[1..]))
  }

  predicate PlainNode(n: Node) {
    match n
    case Suite(_, nodes) => PlainNodes(nodes)
    case ClosedCase(_) => true
    case OpenCase(_, body) => PlainElems(body)
    case Other(e) => PlainElem(e)
  }

  predicate PlainNodes(ns: seq<Node>) {
    ns == [] || (PlainNode(ns[0]) && PlainNodes(ns[1..]))
  }

  function PrintElem(e: Elem): seq<Tag> {
    match e
    case Leaf(name, attrs) => [Open(name, attrs, true)]
    case Elem(name, attrs, kids) => [Open(name, attrs, false)] + PrintElems(kids) + [Close(name)]
  }

  function PrintElems(es: seq<Elem>): seq<Tag> {
    if es == [] then [] else PrintElem(es[0]) + PrintElems(es[1..])
  }

  function PrintNode(n: Node): seq<Tag> {
    match n
    case Suite(attrs, nodes) => [Open("testsuite", attrs, false)] + PrintNodes(nodes) + [Close("testsuite")]
    case ClosedCase(attrs) => [Open("testcase", attrs, true)]
    case OpenCase(attrs, body) => [Open("testcase", attrs, false)] + PrintElems(body) + [Close("testcase")]
    case Other(e) => PrintElem(e)
  }

  function PrintNodes(ns: seq<Node>): seq<Tag> {
    if ns == [] then [] else PrintNode(ns[0]) + PrintNodes(ns[1..])
  }

  function PrintDocument(ns: seq<Node>): seq<Tag> {
    [Open("testsuites", map[], false)] + PrintNodes(ns) + [Close("testsuites")]
  }

  // -- what a forest means ------------------------------------------------

  /** A failure or error anywhere in a body. */
  predicate ElemFails(e: Elem) {
    e.name == "failure" || e.name == "error" || (e.Elem? && ElemsFail(e.kids))
  }

  predicate ElemsFail(es: seq<Elem>) {
    es != [] && (ElemFails(es[0]) || ElemsFail(es[1..]))
  }

  /** The message of the last `skipped` element begun in a body, or what was there before. */
  function ElemSkip(e: Elem, before: Option<string>): Option<string> {
    var own := if e.name == "skipped" then Some(if "message" in e.attrs then e.attrs["message"] else "") else before;
    if e.Elem? then ElemsSkip(e.kids, own) else own
  }

  function ElemsSkip(es: seq<Elem>, before: Option<string>): Option<string> {
    if es == [] then before else ElemsSkip(es[1..], ElemSkip(es[0], before))
  }

  /** A file as it is listed: without a leading `./`. */
  function Listed(file: string): string {
    if |file| >= 2 && file[..2] == "./" then file[2..] else file
  }

  /** The file of the innermost of nested elements that names one. */
  function InnermostFile(chain: seq<Attrs>): Option<string> {
    if chain == [] then None
    else
      var inner := chain[|chain| - 1];
      if "file" in inner then Some(Listed(inner["file"])) else InnermostFile(chain[..|chain| - 1])
  }

  /** The names of the suites that are describes, outermost first: those with a line and a name. */
  function Describes(above: seq<Attrs>): seq<string> {
    if above == [] then []
    else if "line" in above[0] && "name" in above[0] then [above[0]["name"]] + Describes(above[1..])
    else Describes(above[1..])
  }

  /** The entry of a case below the suites with the attributes `above`, outermost first. */
  function CaseEntry(attrs: Attrs, above: seq<Attrs>, status: Status): Option<seq<TestEntry>> {
    var file := InnermostFile(above + [attrs]);
    if "name" !in attrs || file == None then None
    else Some([TestEntry(file.value, Join(Describes(above), " > "), attrs["name"], status)])
  }

  /** The entries of a node in document order, each under all the suites around it;
      `None` when a case has no name or file, or failed. A case with a body is never passed. */
  function NodeEntries(n: Node, above: seq<Attrs>): Option<seq<TestEntry>> {
    match n
    case Suite(attrs, nodes) => NodesEntries(nodes, above + [attrs])
    case ClosedCase(attrs) => CaseEntry(attrs, above, Passed)
    case OpenCase(attrs, body) =>
      if ElemsFail(body) then None
      else CaseEntry(attrs, above, if ElemsSkip(body, None) == Some("TODO") then Todo else Skipped)
    case Other(_) => Some([])
  }

  function NodesEntries(ns: seq<Node>, above: seq<Attrs>): Option<seq<TestEntry>> {
    if ns == [] then Some([])
    else
      var first := NodeEntries(ns[0], above);
      var rest := NodesEntries(ns[1..], above);
      if first == None || rest == None then None else Some(first.value + rest.value)
  }

  // -- the walk reads back what was printed -------------------------------

  lemma {:induction false} WalkedParts(w: Walk, a: seq<Tag>, b: seq<Tag>)
    requires |w.suites| > 0
    ensures Walked(w, a + b) == var w' := Walked(w, a); if w' == None then None else Walked(w'.value, b)
    decreases |a|
  {
    if a == [] {
      assert a + b == b;
    } else {
      assert (a + b)[0] == a[0] && (a + b)[1..] == a[1..] + b;
      var w' := Step(w, a[0]);
      if w'.Some? {
        WalkedParts(w'.value, a[1..], b);
      }
    }
  }

  lemma WalkedOne(w: Walk, tag: Tag)
    requires |w.suites| > 0
    ensures Walked(w, [tag]) == Step(w, tag)
  {
    assert [tag][1..] == [];
  }

  /** What a body makes of the open testcase: it stays open, no deeper than before. */
  ghost predicate BodyRead(w: Walk, w': Option<Walk>, fails: bool, skip: Option<string>)
    requires w.testcase.Some?
  {
    var c := w.testcase.value;
    && w'.Some? && w'.value.testcase.Some?
    && w'.value == w.(testcase := w'.value.testcase)
    && var c' := w'.value.testcase.value;
       && c'.depth <= c.depth
       && c' == c.(depth := c'.depth, failed := c.failed || fails, skipMessage := skip)
  }

  lemma {:induction false} WalkElem(w: Walk, e: Elem)
    requires |w.suites| > 0 && w.testcase.Some? && PlainElem(e)
    ensures BodyRead(w, Walked(w, PrintElem(e)), ElemFails(e), ElemSkip(e, w.testcase.value.skipMessage))
    decreases e
  {
    match e {
      case Leaf(name, attrs) =>
        WalkedOne(w, Open(name, attrs, true));
      case Elem(name, attrs, kids) =>
        var first, last := [Open(name, attrs, false)], [Close(name)];
        WalkedOne(w, first[0]);
        var w1 := Walked(w, first).value;
        WalkElems(w1, kids);
        var w2 := Walked(w1, PrintElems(kids)).value;
        WalkedOne(w2, last[0]);
        WalkedParts(w, first, PrintElems(kids));
        WalkedParts(w, first + PrintElems(kids), last);
    }
  }

  lemma {:induction false} WalkElems(w: Walk, es: seq<Elem>)
    requires |w.suites| > 0 && w.testcase.Some? && PlainElems(es)
    ensures BodyRead(w, Walked(w, PrintElems(es)), ElemsFail(es), ElemsSkip(es, w.testcase.value.skipMessage))
    decreases es
  {
    if es != [] {
      WalkElem(w, es[0]);
      var w1 := Walked(w, PrintElem(es[0])).value;
      WalkElems(w1, es[1..]);
      WalkedParts(w, PrintElem(es[0]), PrintElems(es[1..]));
    }
  }

  /** Outside testcases an element changes nothing. */
  lemma {:induction false} WalkOther(w: Walk, e: Elem)
    requires |w.suites| > 0 && w.testcase == None && PlainElem(e)
    ensures Walked(w, PrintElem(e)) == Some(w)
    decreases e
  {
    match e {
      case Leaf(name, attrs) =>
        WalkedOne(w, Open(name, attrs, true));
      case Elem(name, attrs, kids) =>
        WalkedOne(w, Open(name, attrs, false));
        WalkOthers(w, kids);
        WalkedOne(w, Close(name));
        WalkedParts(w, [Open(name, attrs, false)], PrintElems(kids));
        WalkedParts(w, [Open(name, attrs, false)] + PrintElems(kids), [Close(name)]);
    }
  }

  lemma {:induction false} WalkOthers(w: Walk, es: seq<Elem>)
    requires |w.suites| > 0 && w.testcase == None && PlainElems(es)
    ensures Walked(w, PrintElems(es)) == Some(w)
    decreases es
  {
    if es != [] {
      WalkOther(w, es[0]);
      WalkOthers(w, es[1..]);
      WalkedParts(w, PrintElem(es[0]), PrintElems(es[1..]));
    }
  }

  /** Between testcases: the top frame knows the nearest file and the describes of the suites `above`. */
  ghost predicate Between(w: Walk, above: seq<Attrs>) {
    && |w.suites| > 0 && w.testcase == None
    && SuiteFile(w.suites) == w.suites[|w.suites| - 1].file == InnermostFile(above)
    && w.suites[|w.suites| - 1].describe == Describes(above)
  }

  lemma {:induction false} DescribesOfMore(above: seq<Attrs>, attrs: Attrs)
    ensures Describes(above + [attrs]) ==
      Describes(above) + (if "line" in attrs && "name" in attrs then [attrs["name"]] else [])
  {
    if above == [] {
      assert [attrs][1..] == [];
    } else {
      assert (above + [attrs])[1..] == above[1..] + [attrs];
      DescribesOfMore(above[1..], attrs);
    }
  }

  lemma InnermostOfMore(above: seq<Attrs>, attrs: Attrs)
    ensures InnermostFile(above + [attrs]) ==
      if "file" in attrs then Some(Listed(attrs["file"])) else InnermostFile(above)
  {
    assert (above + [attrs])[..|above|] == above;
  }

  lemma PlainFileIsListed(file: string)
    ensures PlainFile(file) == Listed(file)
  {
    assert |file| >= 2 ==> (file[..2] == "./" <==> file[0] == '.' && file[1] == '/');
  }

  /** A suite pushed onto the stack. */
  lemma PushedIsBetween(w: Walk, above: seq<Attrs>, attrs: Attrs)
    requires Between(w, above)
    ensures Between(w.(suites := w.suites + [PushedSuite(w.suites[|w.suites| - 1], attrs)]), above + [attrs])
  {
    var suites := w.suites + [PushedSuite(w.suites[|w.suites| - 1], attrs)];
    assert suites[..|suites| - 1] == w.suites;
    DescribesOfMore(above, attrs);
    InnermostOfMore(above, attrs);
    if "file" in attrs {
      PlainFileIsListed(attrs["file"]);
    }
    hide Describes, InnermostFile, PlainFile, Listed;
    assert Describes(above) + [] == Describes(above);
  }

  /** A case is listed as its walk enters it. */
  lemma EntryIsCaseEntry(w: Walk, above: seq<Attrs>, attrs: Attrs, c: TestCase, status: Status)
    requires Between(w, above) && "name" in attrs && c.name == attrs["name"] && c.file == AttrFile(attrs)
    ensures CaseEntry(attrs, above, status) ==
      var entry := EntryFor(w, c, status);
      if entry == None then None else Some([entry.value])
  {
    InnermostOfMore(above, attrs);
    if "file" in attrs {
      PlainFileIsListed(attrs["file"]);
    }
    hide Describes, InnermostFile, PlainFile, Listed;
  }

  ghost predicate NodeRead(w: Walk, w': Option<Walk>, entries: Option<seq<TestEntry>>) {
    if entries == None then w' == None else w' == Some(w.(entries := w.entries + entries.value))
  }

  lemma {:induction false} WalkNode(w: Walk, n: Node, above: seq<Attrs>)
    requires Between(w, above) && PlainNode(n)
    ensures NodeRead(w, Walked(w, PrintNode(n)), NodeEntries(n, above))
    decreases n
  {
    match n {
      case Suite(attrs, nodes) =>
        var first, last := [Open("testsuite", attrs, false)], [Close("testsuite")];
        WalkedOne(w, first[0]);
        var w1 := Walked(w, first).value;
        PushedIsBetween(w, above, attrs);
        assert w1.suites[..|w1.suites| - 1] == w.suites;
        WalkNodes(w1, nodes, above + [attrs]);
        WalkedParts(w, first, PrintNodes(nodes));
        WalkedParts(w, first + PrintNodes(nodes), last);
        var w2 := Walked(w1, PrintNodes(nodes));
        if w2.Some? {
          WalkedOne(w2.value, last[0]);
        }
      case ClosedCase(attrs) =>
        WalkedOne(w, Open("testcase", attrs, true));
        if "name" in attrs {
          EntryIsCaseEntry(w, above, attrs, TestCase(attrs["name"], AttrFile(attrs), None, false, 0), Passed);
        }
      case OpenCase(attrs, body) =>
        var first, last := [Open("testcase", attrs, false)], [Close("testcase")];
        WalkedOne(w, first[0]);
        WalkedParts(w, first, PrintElems(body));
        WalkedParts(w, first + PrintElems(body), last);
        if "name" in attrs {
          var w1 := Walked(w, first).value;
          WalkElems(w1, body);
          var w2 := Walked(w1, PrintElems(body)).value;
          WalkedOne(w2, last[0]);
          var status := if ElemsSkip(body, None) == Some("TODO") then Todo else Skipped;
          EntryIsCaseEntry(w, above, attrs, w2.testcase.value, status);
        }
      case Other(e) =>
        WalkOther(w, e);
        assert w.entries + [] == w.entries;
    }
  }

  lemma {:induction false} WalkNodes(w: Walk, ns: seq<Node>, above: seq<Attrs>)
    requires Between(w, above) && PlainNodes(ns)
    ensures NodeRead(w, Walked(w, PrintNodes(ns)), NodesEntries(ns, above))
    decreases ns
  {
    if ns == [] {
      assert w.entries + [] == w.entries;
    } else {
      WalkNode(w, ns[0], above);
      WalkedParts(w, PrintNode(ns[0]), PrintNodes(ns[1..]));
      hide PrintNode, NodeEntries, Walked, PlainNode;
      var w1 := Walked(w, PrintNode(ns[0]));
      if w1.Some? {
        WalkNodes(w1.value, ns[1..], above);
        ReadInTurn(w, w1.value, Walked(w, PrintNodes(ns)), NodeEntries(ns[0], above), NodesEntries(ns[1..], above));
      }
    }
  }

  lemma ReadInTurn(w: Walk, w1: Walk, w2: Option<Walk>, a: Option<seq<TestEntry>>, b: Option<seq<TestEntry>>)
    requires NodeRead(w, Some(w1), a) && NodeRead(w1, w2, b)
    ensures NodeRead(w, w2, if a == None || b == None then None else Some(a.value + b.value))
  {
    if b.Some? {
      assert (w.entries + a.value) + b.value == w.entries + (a.value + b.value);
    }
  }

  /** Reading a printed document gives exactly its forest's entries, or `None` exactly when some
      case is nameless, has no file, or failed. */
  lemma ParsePrinted(ns: seq<Node>)
    requires PlainNodes(ns)
    ensures Parsed(PrintDocument(ns)) == NodesEntries(ns, [])
  {
    var first, last := [Open("testsuites", map[], false)], [Close("testsuites")];
    WalkedOne(START, first[0]);
    var w := START.(sawRoot := true);
    assert SuiteFile(w.suites) == None;
    WalkNodes(w, ns, []);
    WalkedParts(START, first, PrintNodes(ns));
    WalkedParts(START, first + PrintNodes(ns), last);
    var w1 := Walked(w, PrintNodes(ns));
    if w1.Some? {
      WalkedOne(w1.value, last[0]);
      assert [] + w1.value.entries == w1.value.entries;
      var all := NodesEntries(ns, []);
      assert all.Some? ==> START.entries + all.value == all.value;
    }
  }

  // -- any sequence of tags -----------------------------------------------

  /** Every suite tag closes one that is open, from `depth` open ones down to none; a
      self-closing suite tag opens one too. */
  predicate Balanced(tags: seq<Tag>, depth: nat)
    decreases |tags|
  {
    if tags == [] then depth == 0
    else if tags[0].name != "testsuite" then Balanced(tags[1..], depth)
    else if tags[0].Open? then Balanced(tags[1..], depth + 1)
    else depth > 0 && Balanced(tags[1..], depth - 1)
  }

  ghost predicate HasRoot(tags: seq<Tag>) {
    exists i :: 0 <= i < |tags| && tags[i].Open? && tags[i].name == "testsuites"
  }

  lemma {:induction false} UsableFromHere(w: Walk, tags: seq<Tag>)
    requires |w.suites| > 0 && Outcome(w, tags).Some?
    ensures Balanced(tags, |w.suites| - 1)
    ensures w.sawRoot || HasRoot(tags)
    decreases |tags|
  {
    if tags != [] {
      assert tags[0..] == tags;
      OutcomeOfStep(w, tags, 0);
      var w' := Step(w, tags[0]).value;
      UsableFromHere(w', tags[1..]);
      if HasRoot(tags[1..]) {
        var i :| 0 <= i < |tags| - 1 && tags[1..][i].Open? && tags[1..][i].name == "testsuites";
        assert tags[i + 1].Open? && tags[i + 1].name == "testsuites";
      } else if !w.sawRoot {
        assert tags[0].Open? && tags[0].name == "testsuites";
      }
    }
  }

  /** A document that yields a list has a root and balanced suites, whatever its tags are. */
  lemma UsableIsBalanced(tags: seq<Tag>)
    requires Parsed(tags).Some?
    ensures Balanced(tags, 0) && HasRoot(tags)
  {
    UsableFromHere(START, tags);
  }

  lemma {:induction false} FailedStaysFailed(w: Walk, tags: seq<Tag>)
    requires |w.suites| > 0 && w.testcase.Some? && w.testcase.value.failed
    ensures Outcome(w, tags) == None
    decreases |tags|
  {
    if tags != [] {
      assert tags[0..] == tags;
      OutcomeOfStep(w, tags, 0);
      var w' := Step(w, tags[0]);
      if w'.Some? {
        FailedStaysFailed(w'.value, tags[1..]);
      }
    }
  }

  /** A failure or error that begins while a testcase is open makes any document unusable. */
  lemma FailureMeansNoList(tags: seq<Tag>, i: nat)
    requires i < |tags| && tags[i].Open? && (tags[i].name == "failure" || tags[i].name == "error")
    requires Walked(START, tags[..i]).Some? && Walked(START, tags[..i]).value.testcase.Some?
    ensures Parsed(tags) == None
  {
    var w := Walked(START, tags[..i]).value;
    assert tags == tags[..i] + tags[i..];
    WalkedParts(START, tags[..i], tags[i..]);
    OutcomeOfStep(w, tags, i);
    FailedStaysFailed(Step(w, tags[i]).value, tags[i + 1..]);
  }

  // -- closing tags inside a testcase -------------------------------------

  /** An opening tag that only nests: no suite, no case, and none of the elements that say how a case went. */
  predicate OnlyNests(tag: Tag) {
    tag.Open? && !tag.selfClosing && PlainName(tag.name) && tag.name !in {"skipped", "failure", "error"}
  }

  function CaseCloses(k: nat): seq<Tag> {
    seq(k, i => Close("testcase"))
  }

  function AtDepth(w: Walk, depth: nat): Walk
    requires w.testcase.Some?
  {
    w.(testcase := Some(w.testcase.value.(depth := depth)))
  }

  lemma {:induction false} NestsDeeper(w: Walk, tags: seq<Tag>)
    requires |w.suites| > 0 && w.testcase.Some? && forall i :: 0 <= i < |tags| ==> OnlyNests(tags[i])
    ensures Walked(w, tags) == Some(AtDepth(w, w.testcase.value.depth + |tags|))
    decreases |tags|
  {
    if tags != [] {
      NestsDeeper(Step(w, tags[0]).value, tags[1..]);
    }
  }

  lemma {:induction false} ClosesOneLevel(w: Walk, k: nat)
    requires |w.suites| > 0 && w.testcase.Some? && k <= w.testcase.value.depth
    ensures Walked(w, CaseCloses(k)) == Some(AtDepth(w, w.testcase.value.depth - k))
    decreases k
  {
    if k > 0 {
      assert CaseCloses(k)[1..] == CaseCloses(k - 1);
      ClosesOneLevel(Step(w, CaseCloses(k)[0]).value, k - 1);
    }
  }

  /** A testcase outlives as many closing tags of its own name as elements are open in it: each closes one of
      these, adds no entry, and leaves the case open. */
  lemma NestedClosesEndNothing(w: Walk, tags: seq<Tag>, k: nat)
    requires |w.suites| > 0 && w.testcase.Some? && w.testcase.value.depth == 0
    requires k <= |tags| && forall i :: 0 <= i < |tags| ==> OnlyNests(tags[i])
    ensures Walked(w, tags + CaseCloses(k)) == Some(AtDepth(w, |tags| - k))
  {
    hide Walked, OnlyNests, CaseCloses;
    NestsDeeper(w, tags);
    WalkedParts(w, tags, CaseCloses(k));
    ClosesOneLevel(AtDepth(w, |tags|), k);
  }
}
