/** Small text helpers shared by the models. */
module Strings {
  /** `parts` with `sep` between neighbours. */
  function Join(parts: seq<string>, sep: string): string {
    if |parts| == 0 then []
    else if |parts| == 1 then parts[0]
    else parts[0] + sep + Join(parts[1..], sep)
  }

  /** The text of `s` before its first `c`, and whether there is one. */
  function Before(s: string, c: char): (r: string)
    ensures c !in r && |r| <= |s| && r == s[..|r|]
    ensures |r| < |s| ==> s[|r|] == c
  {
    if s == [] || s[0] == c then [] else [s[0]] + Before(s[1..], c)
  }

  predicate EndsWith(s: string, part: string) {
    |s| >= |part| && s[|s| - |part|..] == part
  }

  /** The white space of the original's `trim` and of its pattern for it. */
  predicate IsSpace(c: char) {
    || '\t' <= c <= '\r' || c == ' ' || c == '\U{00A0}' || c == '\U{1680}' || '\U{2000}' <= c <= '\U{200A}'
    || c == '\U{2028}' || c == '\U{2029}' || c == '\U{202F}' || c == '\U{205F}' || c == '\U{3000}' || c == '\U{FEFF}'
  }

  lemma EndsWithIff(s: string, part: string)
    ensures EndsWith(s, part) <==> exists front :: s == front + part
  {
    if EndsWith(s, part) {
      assert s == s[..|s| - |part|] + part;
    }
  }

  /** The white space of ECMAScript, with its line ends: sections 12.2 and 12.3 of ECMA-262. */
  lemma SpaceIff(c: char)
    ensures IsSpace(c) <==>
      || c as int in {0x9, 0xA, 0xB, 0xC, 0xD, 0x20, 0xA0, 0x1680, 0x2028, 0x2029, 0x202F, 0x205F, 0x3000, 0xFEFF}
      || c as int in {0x2000, 0x2001, 0x2002, 0x2003, 0x2004, 0x2005, 0x2006, 0x2007, 0x2008, 0x2009, 0x200A}
  {
  }

  function TrimStart(s: string): string {
    if s != [] && IsSpace(s[0]) then TrimStart(s[1..]) else s
  }

  function TrimEnd(s: string): string {
    if s != [] && IsSpace(s[|s| - 1]) then TrimEnd(s[..|s| - 1]) else s
  }

  function Trim(s: string): string {
    TrimEnd(TrimStart(s))
  }

  lemma {:induction false} BeforePrefix(a: string, b: string, c: char)
    requires c !in a && (b == [] || b[0] == c)
    ensures Before(a + b, c) == a
  {
    if a == [] {
      assert a + b == b;
    } else {
      assert (a + b)[1..] == a[1..] + b;
      BeforePrefix(a[1..], b, c);
    }
  }

  lemma JoinSplits(a: seq<string>, c: char)
    requires |a| > 0 && forall i :: 0 <= i < |a| ==> c !in a[i]
    ensures Before(Join(a, [c]), c) == a[0]
    ensures |a| == 1 ==> Join(a, [c]) == a[0]
    ensures |a| > 1 ==> Join(a, [c]) == a[0] + [c] + Join(a[1..], [c])
  {
    if |a| == 1 {
      BeforePrefix(a[0], [], c);
      assert a[0] + [] == a[0];
    } else {
      assert Join(a, [c]) == a[0] + ([c] + Join(a[1..], [c]));
      BeforePrefix(a[0], [c] + Join(a[1..], [c]), c);
    }
  }

  /** Parts that do not hold the separator can be read back from their join. */
  lemma {:induction false} JoinInjective(a: seq<string>, b: seq<string>, c: char)
    requires |a| > 0 && |b| > 0
    requires forall i :: 0 <= i < |a| ==> c !in a[i]
    requires forall i :: 0 <= i < |b| ==> c !in b[i]
    requires Join(a, [c]) == Join(b, [c])
    ensures a == b
  {
    JoinSplits(a, c);
    JoinSplits(b, c);
    if |a| > 1 && |b| > 1 {
      var s := Join(a, [c]);
      assert s[|a[0]| + 1..] == Join(a[1..], [c]);
      assert s[|b[0]| + 1..] == Join(b[1..], [c]);
      JoinInjective(a[1..], b[1..], c);
      assert a == [a[0]] + a[1..] && b == [b[0]] + b[1..];
    }
  }

  /** The pieces of `s` between its `c`s. */
  function Split(s: string, c: char): (r: seq<string>)
    ensures |r| > 0 && Join(r, [c]) == s
    ensures forall i :: 0 <= i < |r| ==> c !in r[i]
    decreases |s|
  {
    var b := Before(s, c);
    if |b| == |s| then [s]
    else
      assert s == b + [c] + s[|b| + 1..];
      [b] + Split(s[|b| + 1..], c)
  }

  lemma SplitOfJoin(parts: seq<string>, c: char)
    requires |parts| > 0 && forall i :: 0 <= i < |parts| ==> c !in parts[i]
    ensures Split(Join(parts, [c]), c) == parts
  {
    JoinInjective(Split(Join(parts, [c]), c), parts, c);
  }

  /** The dictionary order of texts. */
  predicate Less(a: string, b: string) {
    b != [] && (a == [] || a[0] < b[0] || (a[0] == b[0] && Less(a[1..], b[1..])))
  }

  lemma {:induction false} LessIsTotal(a: string, b: string)
    ensures Less(a, b) ==> !Less(b, a)
    ensures a == b || Less(a, b) || Less(b, a)
  {
    if a != [] && b != [] && a[0] == b[0] {
      LessIsTotal(a[1..], b[1..]);
      assert a == [a[0]] + a[1..] && b == [b[0]] + b[1..];
    }
  }

  lemma {:induction false} NotLessIsTransitive(a: string, b: string, c: string)
    requires !Less(b, a) && !Less(c, b)
    ensures !Less(c, a)
  {
    if a != [] && b != [] && c != [] && a[0] == b[0] == c[0] {
      NotLessIsTransitive(a[1..], b[1..], c[1..]);
    }
  }

  /** Leftmost occurrences of `pattern`, none overlapping, replaced from left to right. */
  function ReplaceAll(s: string, pattern: string, with: string): string
    requires |pattern| > 0
    decreases |s|
  {
    if s == [] then []
    else if |pattern| <= |s| && s[..|pattern|] == pattern then with + ReplaceAll(s[|pattern|..], pattern, with)
    else [s[0]] + ReplaceAll(s[1..], pattern, with)
  }

  lemma ReplacePasses(s: string, pattern: string, with: string)
    requires |pattern| > 0 && s != [] && !(|pattern| <= |s| && s[..|pattern|] == pattern)
    ensures ReplaceAll(s, pattern, with) == [s[0]] + ReplaceAll(s[1..], pattern, with)
  {
  }

  lemma ReplaceHere(s: string, pattern: string, with: string, rest: string)
    requires |pattern| > 0 && s == pattern + rest
    ensures ReplaceAll(s, pattern, with) == with + ReplaceAll(rest, pattern, with)
  {
    assert s[..|pattern|] == pattern && s[|pattern|..] == rest;
  }

  /** Text without the pattern's first character is passed over. */
  lemma {:induction false} ReplaceSkips(plain: string, rest: string, pattern: string, with: string)
    requires |pattern| > 0 && pattern[0] !in plain
    ensures ReplaceAll(plain + rest, pattern, with) == plain + ReplaceAll(rest, pattern, with)
  {
    if plain == [] {
      assert plain + rest == rest;
    } else {
      var s := plain + rest;
      assert s[0] == plain[0] != pattern[0];
      assert s[1..] == plain[1..] + rest;
      ReplaceSkips(plain[1..], rest, pattern, with);
      assert |pattern| <= |s| ==> s[..|pattern|][0] == s[0];
    }
  }
}
