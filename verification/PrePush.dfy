/** The push hook: what it gathers about each pushed ref, what it decides, and the one check it may run. */
module PrePush {
  import opened Options
  import opened Lists
  import opened Strings
  import opened PushInput

  /** What git and the records answer: commits of object ids, trees of commits, the commit of HEAD,
      the trees with a full-pass record, and the output of git status. */
  datatype Repo = Repo(
    commits: map<string, string>, trees: map<string, string>, head: Option<string>, records: set<string>,
    status: Option<string>)

  datatype RefFacts =
    | Deletion(ref: string)
    | Unsupported(ref: string, sha: string)
    | Commit(ref: string, commit: string, tree: string, recorded: bool, head: Option<string>, dirtyPaths: seq<string>)

  function StatusPaths(repo: Repo): seq<string> {
    if repo.status.Some? then PathsFrom(Split(repo.status.value, '\0'), 0) else ["(git status failed)"]
  }

  predicate Resolves(repo: Repo, line: PushLine) {
    line.localSha in repo.commits && repo.commits[line.localSha] in repo.trees
  }

  function TreeOf(repo: Repo, line: PushLine): string
    requires Resolves(repo, line)
  {
    repo.trees[repo.commits[line.localSha]]
  }

  /** What is true of a ref, everything read for it alone. */
  function FactOf(repo: Repo, line: PushLine): RefFacts {
    if IsZeroSha(line.localSha) then Deletion(line.remoteRef)
    else if !Resolves(repo, line) then Unsupported(line.localRef, line.localSha)
    else
      Commit(line.localRef, repo.commits[line.localSha], TreeOf(repo, line), TreeOf(repo, line) in repo.records,
        repo.head, StatusPaths(repo))
  }

  function FactsOf(repo: Repo, lines: seq<PushLine>): seq<RefFacts> {
    seq(|lines|, i requires 0 <= i < |lines| => FactOf(repo, lines[i]))
  }

  /** Whether the decision looks at the paths of the status. */
  predicate ReadsStatus(f: RefFacts) {
    f.Commit? && !f.recorded && f.head == Some(f.commit)
  }

  /** Equal wherever the decision looks. */
  predicate SameWhereRead(a: RefFacts, b: RefFacts) {
    a == b || (a.Commit? && b.Commit? && a.(dirtyPaths := b.dirtyPaths) == b && !ReadsStatus(b))
  }

  predicate AllSameWhereRead(a: seq<RefFacts>, b: seq<RefFacts>) {
    |a| == |b| && forall i :: 0 <= i < |a| ==> SameWhereRead(a[i], b[i])
  }

  predicate Resolved(repo: Repo, line: PushLine) {
    !IsZeroSha(line.localSha) && Resolves(repo, line)
  }

  ghost predicate IsTreeOf(repo: Repo, lines: seq<PushLine>, n: nat, tree: string) {
    exists i :: 0 <= i < n <= |lines| && Resolved(repo, lines[i]) && TreeOf(repo, lines[i]) == tree
  }

  /** The trees of the first `n` lines, each once. */
  ghost predicate AreTrees(repo: Repo, lines: seq<PushLine>, n: nat, lookups: seq<string>) {
    Distinct(lookups) && forall tree :: tree in lookups <==> IsTreeOf(repo, lines, n, tree)
  }

  lemma TreesOfNext(repo: Repo, lines: seq<PushLine>, n: nat, lookups: seq<string>)
    requires n < |lines| && AreTrees(repo, lines, n, lookups)
    ensures !Resolved(repo, lines[n]) ==> AreTrees(repo, lines, n + 1, lookups)
    ensures Resolved(repo, lines[n]) ==>
      var tree := TreeOf(repo, lines[n]);
      AreTrees(repo, lines, n + 1, if tree in lookups then lookups else lookups + [tree])
  {
    forall tree
      ensures IsTreeOf(repo, lines, n + 1, tree) <==>
        IsTreeOf(repo, lines, n, tree) || (Resolved(repo, lines[n]) && TreeOf(repo, lines[n]) == tree)
    {
      if Resolved(repo, lines[n]) && TreeOf(repo, lines[n]) == tree {
        assert 0 <= n < n + 1 <= |lines|;
      }
    }
    hide IsTreeOf, Resolved, TreeOf;
  }

  /** The status of the working tree matters to one of the first `n` lines. */
  ghost predicate NeedsStatus(repo: Repo, lines: seq<PushLine>, n: nat) {
    exists i :: 0 <= i < n <= |lines| && ReadsStatus(FactOf(repo, lines[i]))
  }

  lemma NoLinesYet(repo: Repo, lines: seq<PushLine>)
    ensures AreTrees(repo, lines, 0, []) && !NeedsStatus(repo, lines, 0)
  {
  }

  lemma StatusOfNext(repo: Repo, lines: seq<PushLine>, n: nat)
    requires n < |lines|
    ensures NeedsStatus(repo, lines, n + 1) <==> NeedsStatus(repo, lines, n) || ReadsStatus(FactOf(repo, lines[n]))
  {
    hide FactOf, ReadsStatus;
  }

  /** Records are read once for a tree, and the status only once it matters: `lookups` are the trees looked up,
      `statusReads` counts the readings of the status. */
  method GatherFacts(repo: Repo, lines: seq<PushLine>)
    returns (facts: seq<RefFacts>, lookups: seq<string>, statusReads: nat)
    ensures AllSameWhereRead(facts, FactsOf(repo, lines))
    ensures AreTrees(repo, lines, |lines|, lookups)
    ensures statusReads == if NeedsStatus(repo, lines, |lines|) then 1 else 0
  {
    hide StatusPaths, IsZeroSha, AreTrees, NeedsStatus;
    NoLinesYet(repo, lines);
    var recordedByTree: map<string, bool> := map[];
    var status: Option<seq<string>> := None;
    facts, lookups, statusReads := [], [], 0;
    for i := 0 to |lines|
      invariant AreTrees(repo, lines, i, lookups) && forall tree :: tree in lookups <==> tree in recordedByTree
      invariant statusReads == if status.Some? then 1 else 0
      invariant status.Some? <==> NeedsStatus(repo, lines, i)
      invariant |facts| == i && forall j :: 0 <= j < i ==> SameWhereRead(facts[j], FactOf(repo, lines[j]))
      invariant forall tree :: tree in recordedByTree ==> recordedByTree[tree] == (tree in repo.records)
      invariant status.Some? ==> status.value == StatusPaths(repo)
    {
      var line := lines[i];
      TreesOfNext(repo, lines, i, lookups);
      StatusOfNext(repo, lines, i);
      if IsZeroSha(line.localSha) {
        facts := facts + [Deletion(line.remoteRef)];
        continue;
      }
      if line.localSha !in repo.commits || repo.commits[line.localSha] !in repo.trees {
        facts := facts + [Unsupported(line.localRef, line.localSha)];
        continue;
      }
      var commit := repo.commits[line.localSha];
      var tree := repo.trees[commit];
      var recorded: bool;
      if tree in recordedByTree {
        recorded := recordedByTree[tree];
      } else {
        recorded := tree in repo.records;
        recordedByTree := recordedByTree[tree := recorded];
        lookups := lookups + [tree];
      }
      if status == None && !recorded && repo.head == Some(commit) {
        var paths := ReadStatus(repo);
        status := Some(paths);
        statusReads := statusReads + 1;
      }
      facts := facts + [
        Commit(line.localRef, commit, tree, recorded, repo.head, if status.Some? then status.value else [])];
    }
  }

  method ReadStatus(repo: Repo) returns (paths: seq<string>)
    ensures paths == StatusPaths(repo)
  {
    if repo.status == None {
      return ["(git status failed)"];
    }
    paths := DirtyPaths(repo.status.value);
  }

  // -- the decision -------------------------------------------------------

  /** The hook's messages, without their wording. */
  datatype Note =
    | NoCheck(ref: string)
    | HiddenEdits(ref: string)
    | NotACommit(ref: string, sha: string)
    | Recorded(ref: string, commit: string, tree: string)
    | NotCheckedOut(ref: string, commit: string, tree: string, head: Option<string>)
    | Dirty(ref: string, commit: string, tree: string, paths: seq<string>)
    | NotChecked(ref: string, commit: string)
    | Checking(refs: seq<string>, commit: string)

  datatype Verdict =
    | Pass(notes: seq<Note>)
    | Refuse(notes: seq<Note>)
    | Fallback(tree: string, commit: string, refs: seq<string>, notes: seq<Note>)

  datatype Standing = Skipped | Refused | Passed | Eligible

  function StandingOf(fact: RefFacts, hidden: seq<string>): Standing {
    if fact.Deletion? then Skipped
    else if hidden != [] || fact.Unsupported? then Refused
    else if fact.recorded then Passed
    else if fact.head == Some(fact.commit) && fact.dirtyPaths == [] then Eligible
    else Refused
  }

  function NoteOf(fact: RefFacts, hidden: seq<string>): Note {
    match fact
    case Deletion(ref) => NoCheck(ref)
    case Unsupported(ref, sha) => if hidden != [] then HiddenEdits(ref) else NotACommit(ref, sha)
    case Commit(ref, commit, tree, recorded, head, dirtyPaths) =>
      if hidden != [] then HiddenEdits(ref)
      else if recorded then Recorded(ref, commit, tree)
      else if head != Some(commit) then NotCheckedOut(ref, commit, tree, head)
      else if dirtyPaths != [] then Dirty(ref, commit, tree, dirtyPaths)
      else NotChecked(ref, commit)
  }

  /** The notes of the facts with one of the given standings, in order. */
  function NotesOf(facts: seq<RefFacts>, hidden: seq<string>, standings: set<Standing>): seq<Note> {
    if facts == [] then []
    else
      var f := facts[|facts| - 1];
      NotesOf(facts[..|facts| - 1], hidden, standings)
        + (if StandingOf(f, hidden) in standings then [NoteOf(f, hidden)] else [])
  }

  function EligibleOf(facts: seq<RefFacts>, hidden: seq<string>): (r: seq<RefFacts>)
    ensures forall f :: f in r <==> f in facts && StandingOf(f, hidden) == Eligible
    ensures forall f :: f in r ==> f.Commit?
  {
    if facts == [] then []
    else
      var f := facts[|facts| - 1];
      assert facts == facts[..|facts| - 1] + [f];
      EligibleOf(facts[..|facts| - 1], hidden) + (if StandingOf(f, hidden) == Eligible then [f] else [])
  }

  function Refs(facts: seq<RefFacts>): seq<string> {
    seq(|facts|, i requires 0 <= i < |facts| => facts[i].ref)
  }

  /** Any refused ref refuses the push, and then nothing is checked; otherwise the eligible refs,
      if any, wait for one check. */
  function Decision(facts: seq<RefFacts>, hidden: seq<string>): Verdict {
    var eligible := EligibleOf(facts, hidden);
    var lines := NotesOf(facts, hidden, {Skipped, Passed});
    if exists f :: f in facts && StandingOf(f, hidden) == Refused then
      Refuse(NotesOf(facts, hidden, {Refused}) + (lines + NotesOf(facts, hidden, {Eligible})))
    else if eligible == [] then Pass(lines)
    else
      Fallback(eligible[0].tree, eligible[0].commit, Refs(eligible),
        lines + [Checking(Refs(eligible), eligible[0].commit)])
  }

  method DecidePush(facts: seq<RefFacts>, hidden: seq<string>) returns (r: Verdict)
    ensures r == Decision(facts, hidden)
  {
    hide Decision, NotesOf, EligibleOf, Refs;
    NothingNoted(facts[..0], hidden);
    var lines: seq<Note> := [];
    var refused: seq<Note> := [];
    var eligible: seq<RefFacts> := [];
    for i := 0 to |facts|
      invariant lines == NotesOf(facts[..i], hidden, {Skipped, Passed})
      invariant refused == NotesOf(facts[..i], hidden, {Refused})
      invariant eligible == EligibleOf(facts[..i], hidden)
    {
      NotesStep(facts, hidden, i, {Skipped, Passed});
      NotesStep(facts, hidden, i, {Refused});
      EligibleStep(facts, hidden, i);
      var fact := facts[i];
      if fact.Deletion? {
        lines := lines + [NoCheck(fact.ref)];
      } else if |hidden| > 0 {
        refused := refused + [HiddenEdits(fact.ref)];
      } else if fact.Unsupported? {
        refused := refused + [NotACommit(fact.ref, fact.sha)];
      } else if fact.recorded {
        lines := lines + [Recorded(fact.ref, fact.commit, fact.tree)];
      } else if fact.head != Some(fact.commit) {
        refused := refused + [NotCheckedOut(fact.ref, fact.commit, fact.tree, fact.head)];
      } else if |fact.dirtyPaths| > 0 {
        refused := refused + [Dirty(fact.ref, fact.commit, fact.tree, fact.dirtyPaths)];
      } else {
        eligible := eligible + [fact];
      }
    }
    assert facts[..|facts|] == facts;
    NotesMeanStanding(facts, hidden, {Refused});
    if |refused| > 0 {
      ghost var said := lines;
      NothingNoted(eligible[..0], hidden);
      for i := 0 to |eligible|
        invariant lines == said + NotesOf(eligible[..i], hidden, {Eligible})
      {
        assert eligible[i] in eligible;
        NotesStep(eligible, hidden, i, {Eligible});
        lines := lines + [NotChecked(eligible[i].ref, eligible[i].commit)];
      }
      assert eligible[..|eligible|] == eligible;
      EligibleNotes(facts, hidden);
      r := Refuse(refused + lines);
    } else if |eligible| == 0 {
      r := Pass(lines);
    } else {
      assert eligible[0] in eligible;
      r := Fallback(eligible[0].tree, eligible[0].commit, Refs(eligible),
        lines + [Checking(Refs(eligible), eligible[0].commit)]);
    }
    DecisionMeans(facts, hidden);
  }

  lemma NothingNoted(none: seq<RefFacts>, hidden: seq<string>)
    requires none == []
    ensures forall standings :: NotesOf(none, hidden, standings) == []
    ensures EligibleOf(none, hidden) == []
  {
  }

  lemma NotesStep(facts: seq<RefFacts>, hidden: seq<string>, i: nat, standings: set<Standing>)
    requires i < |facts|
    ensures NotesOf(facts[..i + 1], hidden, standings) ==
      NotesOf(facts[..i], hidden, standings)
        + (if StandingOf(facts[i], hidden) in standings then [NoteOf(facts[i], hidden)] else [])
  {
    assert facts[..i + 1][..i] == facts[..i];
  }

  lemma EligibleStep(facts: seq<RefFacts>, hidden: seq<string>, i: nat)
    requires i < |facts|
    ensures EligibleOf(facts[..i + 1], hidden) ==
      EligibleOf(facts[..i], hidden) + (if StandingOf(facts[i], hidden) == Eligible then [facts[i]] else [])
  {
    assert facts[..i + 1][..i] == facts[..i];
  }

  lemma DecisionMeans(facts: seq<RefFacts>, hidden: seq<string>)
    ensures var eligible, lines, r :=
      EligibleOf(facts, hidden), NotesOf(facts, hidden, {Skipped, Passed}), Decision(facts, hidden);
      && (NotesOf(facts, hidden, {Refused}) != [] ==>
         r == Refuse(NotesOf(facts, hidden, {Refused}) + (lines + NotesOf(facts, hidden, {Eligible}))))
      && (NotesOf(facts, hidden, {Refused}) == [] ==>
          if eligible == [] then r == Pass(lines)
          else (
            && eligible[0] in eligible
            && r == Fallback(eligible[0].tree, eligible[0].commit, Refs(eligible),
                 lines + [Checking(Refs(eligible), eligible[0].commit)])))
  {
    NotesMeanStanding(facts, hidden, {Refused});
  }

  lemma LastNote(facts: seq<RefFacts>, hidden: seq<string>, standings: set<Standing>)
    requires facts != []
    ensures var n := |facts| - 1;
      NotesOf(facts, hidden, standings) != [] <==>
        NotesOf(facts[..n], hidden, standings) != [] || StandingOf(facts[n], hidden) in standings
  {
    hide StandingOf, NoteOf;
  }

  lemma {:induction false} NotesMeanStanding(facts: seq<RefFacts>, hidden: seq<string>, standings: set<Standing>)
    ensures NotesOf(facts, hidden, standings) != [] <==> exists f :: f in facts && StandingOf(f, hidden) in standings
  {
    hide StandingOf, NoteOf;
    if facts != [] {
      var n := |facts| - 1;
      NotesMeanStanding(facts[..n], hidden, standings);
      LastNote(facts, hidden, standings);
      hide NotesOf;
      assert forall f :: f in facts <==> f in facts[..n] || f == facts[n];
    }
  }

  lemma {:induction false} EligibleNotes(facts: seq<RefFacts>, hidden: seq<string>)
    ensures NotesOf(EligibleOf(facts, hidden), hidden, {Eligible}) == NotesOf(facts, hidden, {Eligible})
  {
    if facts != [] {
      var n := |facts| - 1;
      EligibleNotes(facts[..n], hidden);
      var rest := EligibleOf(facts[..n], hidden);
      if StandingOf(facts[n], hidden) == Eligible {
        assert (rest + [facts[n]])[..|rest|] == rest;
      } else {
        assert rest + [] == rest;
      }
    }
  }

  /** Each ref of a refused push is named, once: as refused, as passed over, or as not checked. */
  lemma RefusalNamesEachRef(facts: seq<RefFacts>, hidden: seq<string>)
    requires Decision(facts, hidden).Refuse?
    ensures multiset(NoteRefs(Decision(facts, hidden).notes)) == multiset(Refs(facts))
  {
    NotesSplit(facts, hidden);
    hide NotesOf, StandingOf;
    var refused, lines, eligible :=
      NotesOf(facts, hidden, {Refused}), NotesOf(facts, hidden, {Skipped, Passed}), NotesOf(facts, hidden, {Eligible});
    NoteRefsConcat(refused, lines + eligible);
    NoteRefsConcat(lines, eligible);
  }

  function NoteRefs(notes: seq<Note>): seq<string> {
    seq(|notes|, i requires 0 <= i < |notes| => if notes[i].Checking? then "" else notes[i].ref)
  }

  lemma NoteRefsConcat(a: seq<Note>, b: seq<Note>)
    ensures NoteRefs(a + b) == NoteRefs(a) + NoteRefs(b)
  {
  }

  lemma {:induction false} NotesSplit(facts: seq<RefFacts>, hidden: seq<string>)
    ensures
      multiset(NoteRefs(NotesOf(facts, hidden, {Refused})))
        + multiset(NoteRefs(NotesOf(facts, hidden, {Skipped, Passed})))
      + multiset(NoteRefs(NotesOf(facts, hidden, {Eligible}))) == multiset(Refs(facts))
  {
    if facts != [] {
      var n := |facts| - 1;
      var f := facts[n];
      NotesSplit(facts[..n], hidden);
      assert Refs(facts) == Refs(facts[..n]) + [f.ref];
      assert multiset(Refs(facts)) == multiset(Refs(facts[..n])) + multiset{f.ref};
      NotesGrow(facts, hidden, {Refused});
      NotesGrow(facts, hidden, {Skipped, Passed});
      NotesGrow(facts, hidden, {Eligible});
      hide *;
    }
  }

  lemma NotesGrow(facts: seq<RefFacts>, hidden: seq<string>, standings: set<Standing>)
    requires facts != []
    ensures var n := |facts| - 1;
      multiset(NoteRefs(NotesOf(facts, hidden, standings))) ==
        multiset(NoteRefs(NotesOf(facts[..n], hidden, standings)))
        + (if StandingOf(facts[n], hidden) in standings then multiset{facts[n].ref} else multiset{})
  {
    var n := |facts| - 1;
    var before := NotesOf(facts[..n], hidden, standings);
    NamesItsRef(facts[n], hidden);
    NoteRefsConcat(before, [NoteOf(facts[n], hidden)]);
    assert before + [] == before;
  }

  lemma NamesItsRef(f: RefFacts, hidden: seq<string>)
    ensures NoteRefs([NoteOf(f, hidden)]) == [f.ref]
  {
  }

  /** The facts read lazily decide as the true ones would. */
  lemma {:induction false} LazyFactsDecideAlike(a: seq<RefFacts>, b: seq<RefFacts>, hidden: seq<string>)
    requires AllSameWhereRead(a, b)
    ensures Decision(a, hidden) == Decision(b, hidden)
  {
    SameNotes(a, b, hidden, {Refused});
    SameNotes(a, b, hidden, {Skipped, Passed});
    SameNotes(a, b, hidden, {Eligible});
    NotesMeanStanding(a, hidden, {Refused});
    NotesMeanStanding(b, hidden, {Refused});
    SameEligible(a, b, hidden);
  }

  lemma {:induction false} SameNotes(a: seq<RefFacts>, b: seq<RefFacts>, hidden: seq<string>, standings: set<Standing>)
    requires AllSameWhereRead(a, b)
    ensures NotesOf(a, hidden, standings) == NotesOf(b, hidden, standings)
  {
    if a != [] {
      var n := |a| - 1;
      assert SameWhereRead(a[n], b[n]);
      SameNotes(a[..n], b[..n], hidden, standings);
    }
  }

  lemma {:induction false} SameEligible(a: seq<RefFacts>, b: seq<RefFacts>, hidden: seq<string>)
    requires AllSameWhereRead(a, b)
    ensures EligibleOf(a, hidden) == EligibleOf(b, hidden)
  {
    if a != [] {
      var n := |a| - 1;
      assert SameWhereRead(a[n], b[n]);
      SameEligible(a[..n], b[..n], hidden);
    }
  }

  // -- the hook -----------------------------------------------------------

  /** After the fallback: the exit code, and whether its tree is on record. */
  function SettleFallback(exitCode: int, recorded: bool): (code: int)
    ensures code in {0, 1} && (code == 0 <==> exitCode == 0 && recorded)
  {
    if exitCode != 0 || !recorded then 1 else 0
  }

  /** A deletion pushes nothing: its id is 40 or 64 zeros. */
  predicate IsDeletion(line: PushLine) {
    |line.localSha| in {40, 64} && forall i :: 0 <= i < |line.localSha| ==> line.localSha[i] == '0'
  }

  lemma DeletionIff(line: PushLine)
    ensures IsDeletion(line) <==> IsZeroSha(line.localSha)
  {
    ZeroShaIff(line.localSha);
    hide IsZeroSha;
  }

  /** A ref the hook lets through without a check. */
  predicate OnRecord(repo: Repo, line: PushLine) {
    Resolves(repo, line) && TreeOf(repo, line) in repo.records
  }

  /** A ref the hook may check itself: HEAD's commit, unrecorded, with nothing uncommitted. */
  predicate Checkable(repo: Repo, line: PushLine) {
    && Resolves(repo, line) && TreeOf(repo, line) !in repo.records
    && repo.head == Some(repo.commits[line.localSha]) && StatusPaths(repo) == []
  }

  /** No ref stands in the way of a push. */
  ghost predicate Pushable(repo: Repo, hidden: seq<string>, lines: seq<PushLine>) {
    forall line :: line in lines && !IsDeletion(line) ==>
      hidden == [] && (OnRecord(repo, line) || Checkable(repo, line))
  }

  ghost predicate NeedsCheck(repo: Repo, lines: seq<PushLine>) {
    exists line :: line in lines && !IsDeletion(line) && Checkable(repo, line)
  }

  lemma StandingOfLine(repo: Repo, hidden: seq<string>, line: PushLine)
    ensures StandingOf(FactOf(repo, line), hidden) ==
      if IsDeletion(line) then Skipped
      else if hidden != [] then Refused
      else if OnRecord(repo, line) then Passed
      else if Checkable(repo, line) then Eligible
      else Refused
  {
    DeletionIff(line);
    hide StatusPaths, IsZeroSha, IsDeletion;
  }

  /** What the verdict says of the pushed lines; the tree to check is that of every line that needs it. */
  lemma DecisionOfLines(repo: Repo, hidden: seq<string>, lines: seq<PushLine>)
    ensures var r := Decision(FactsOf(repo, lines), hidden);
      && (r.Refuse? <==> !Pushable(repo, hidden, lines))
      && (r.Fallback? <==> Pushable(repo, hidden, lines) && NeedsCheck(repo, lines))
      && (r.Fallback? ==>
          forall line :: line in lines && !IsDeletion(line) && Checkable(repo, line) ==> r.tree == TreeOf(repo, line))
  {
    var facts := FactsOf(repo, lines);
    var r := Decision(facts, hidden);
    DecisionMeans(facts, hidden);
    NotesMeanStanding(facts, hidden, {Refused});
    hide Decision, NotesOf, StandingOf, Refs;
    forall line | line in lines
      ensures FactOf(repo, line) in facts
    {
      var i :| 0 <= i < |lines| && lines[i] == line;
      assert facts[i] == FactOf(repo, line);
    }
    forall f | f in facts
      ensures exists line :: line in lines && f == FactOf(repo, line)
    {
      var i :| 0 <= i < |facts| && facts[i] == f;
      assert f == FactOf(repo, lines[i]);
    }
    hide FactsOf, StatusPaths, IsZeroSha, IsDeletion;
    forall line | line in lines
      ensures StandingOf(FactOf(repo, line), hidden) == Refused <==>
        !IsDeletion(line) && !(hidden == [] && (OnRecord(repo, line) || Checkable(repo, line)))
      ensures StandingOf(FactOf(repo, line), hidden) == Eligible <==>
        !IsDeletion(line) && hidden == [] && Checkable(repo, line)
    {
      StandingOfLine(repo, hidden, line);
    }
    var eligible := EligibleOf(facts, hidden);
    if r.Fallback? {
      assert eligible[0] in eligible;
    }
  }

  /** The whole hook: `hidden` is what the index hides, if it can be read; `exitCode` and `later` are
      how the full check would end and what the repository is then. It lets a push through exactly
      when every ref but deletions is on record or is checked and then on record; so whatever goes
      through has a full pass on record, from before or from the check. */
  method RunPrePush(input: string, repo: Repo, hidden: Option<seq<string>>, exitCode: int,
                    later: Repo) returns (code: int, checks: nat)
    ensures code in {0, 1} && checks <= 1
    ensures var raws := Split(input, '\n');
      var lines := LinesOf(raws);
      var readable := forall raw :: raw in raws ==> !ReadLine(raw).Malformed?;
      var pushable := readable && lines != [] && hidden.Some? && Pushable(repo, hidden.value, lines);
      && (checks == 1 <==> pushable && NeedsCheck(repo, lines))
      && (code == 0 <==>
          || (readable && lines == [])
          || (pushable && !NeedsCheck(repo, lines))
          || (pushable && NeedsCheck(repo, lines) && exitCode == 0
              && forall line :: line in lines && !IsDeletion(line) && Checkable(repo, line) ==>
                 TreeOf(repo, line) in later.records))
    ensures code == 0 ==> forall line :: line in LinesOf(Split(input, '\n')) && !IsDeletion(line) ==>
      Resolves(repo, line) && TreeOf(repo, line) in repo.records + later.records
  {
    hide Split, LinesOf, ReadLine;
    checks := 0;
    var parsed := ParsePushInput(input);
    if parsed.Unreadable? {
      return 1, 0;
    }
    if |parsed.lines| == 0 {
      return 0, 0;
    }
    if hidden == None {
      return 1, 0;
    }
    var facts, lookups, statusReads := GatherFacts(repo, parsed.lines);
    var verdict := DecidePush(facts, hidden.value);
    LazyFactsDecideAlike(facts, FactsOf(repo, parsed.lines), hidden.value);
    DecisionOfLines(repo, hidden.value, parsed.lines);
    if verdict.Refuse? {
      return 1, 0;
    }
    forall line | line in parsed.lines && !IsDeletion(line)
      ensures Resolves(repo, line)
      ensures (forall l :: l in parsed.lines && !IsDeletion(l) && Checkable(repo, l) ==>
        TreeOf(repo, l) in later.records)
        ==> TreeOf(repo, line) in repo.records + later.records
      ensures !NeedsCheck(repo, parsed.lines) ==> TreeOf(repo, line) in repo.records + later.records
    {
    }
    assert NeedsCheck(repo, parsed.lines) ==>
      exists line :: line in parsed.lines && !IsDeletion(line) && Checkable(repo, line);
    hide *;
    if verdict.Pass? {
      return 0, 0;
    }
    checks := 1;
    var recorded := verdict.tree in later.records;
    code := SettleFallback(exitCode, recorded);
  }
}
