/** When the decoder gives the meaning of well-formed text: characters, the five named entities, and
    decimal or hexadecimal references. */
module XmlReferences {
  import opened Lists
  import opened Strings
  import opened XmlEntities

  datatype Piece = Plain(c: char) | Named(c: char) | Dec(digits: string) | Hex(digits: string)

  predicate IsReference(digits: string, radix: nat) {
    && digits != [] && (forall i :: 0 <= i < |digits| ==> DigitValue(digits[i], radix) >= 0)
    && |SafeCodePoint(Number(digits, radix))| == 1
  }

  // -- what a reference stands for ----------------------------------------

  predicate DigitOf(c: char, d: nat, radix: nat) {
    d < radix <= 16 && (c == "0123456789abcdef"[d] || c == "0123456789ABCDEF"[d])
  }

  ghost predicate IsDigit(c: char, radix: nat) {
    exists d: nat :: DigitOf(c, d, radix)
  }

  /** The value of a digit, in either case; -1 for what is none of the radix. */
  lemma DigitValueIff(c: char, d: nat, radix: nat)
    requires radix <= 16
    ensures DigitValue(c, radix) == d <==> DigitOf(c, d, radix)
  {
    if d < 16 {
      DigitsInOrder(d);
    }
  }

  lemma DigitsInOrder(d: nat)
    requires d < 16
    ensures "0123456789abcdef"[d] as int == if d < 10 then '0' as int + d else 'a' as int + d - 10
    ensures "0123456789ABCDEF"[d] as int == if d < 10 then '0' as int + d else 'A' as int + d - 10
  {
    if d < 8 {
      assert d == 0 || d == 1 || d == 2 || d == 3 || d == 4 || d == 5 || d == 6 || d == 7;
    } else {
      assert d == 8 || d == 9 || d == 10 || d == 11 || d == 12 || d == 13 || d == 14 || d == 15;
    }
  }

  lemma DigitValueRange(c: char, radix: nat)
    requires radix <= 16
    ensures -1 <= DigitValue(c, radix) < radix || (radix == 0 && DigitValue(c, radix) == -1)
  {
  }

  /** Digits read from the left, each worth the radix times the next. */
  lemma NumberIs(front: string, c: char, d: nat, radix: nat)
    requires DigitOf(c, d, radix)
    ensures Number([], radix) == 0 && Number(front + [c], radix) == Number(front, radix) * radix + d
  {
    assert (front + [c])[..|front|] == front;
    DigitValueIff(c, d, radix);
    hide DigitValue;
  }

  /** A reference is one digit of its radix or more, and stands for a character other than U+0000. */
  lemma ReferenceIff(digits: string, radix: nat)
    requires radix <= 16
    ensures IsReference(digits, radix) <==>
      && digits != [] && (forall i :: 0 <= i < |digits| ==> IsDigit(digits[i], radix))
      && (0 < Number(digits, radix) < 0xD800 || 0xE000 <= Number(digits, radix) <= 0x10FFFF)
    ensures IsReference(digits, radix) ==>
      SafeCodePoint(Number(digits, radix)) == [Number(digits, radix) as char]
  {
    forall i | 0 <= i < |digits|
      ensures DigitValue(digits[i], radix) >= 0 <==> IsDigit(digits[i], radix)
    {
      DigitIff(digits[i], radix);
    }
    hide DigitValue, IsDigit;
  }

  lemma DigitIff(c: char, radix: nat)
    requires radix <= 16
    ensures DigitValue(c, radix) >= 0 <==> IsDigit(c, radix)
  {
    DigitValueRange(c, radix);
    var v := DigitValue(c, radix);
    if v >= 0 {
      DigitValueIff(c, v, radix);
    }
    hide DigitValue, DigitOf;
    if d: nat :| DigitOf(c, d, radix) {
      DigitValueIff(c, d, radix);
    }
  }

  predicate PieceOk(p: Piece) {
    match p
    case Plain(_) => true
    case Named(c) => c in SPECIAL
    case Dec(digits) => IsReference(digits, 10)
    case Hex(digits) => IsReference(digits, 16)
  }

  /** The character a piece stands for. */
  function ValueOf(p: Piece): char
    requires PieceOk(p)
  {
    match p
    case Plain(c) => c
    case Named(c) => c
    case Dec(digits) => SafeCodePoint(Number(digits, 10))[0]
    case Hex(digits) => SafeCodePoint(Number(digits, 16))[0]
  }

  function PieceText(p: Piece): (r: string)
    ensures |r| >= 1
  {
    match p
    case Plain(c) => [c]
    case Named(c) => Entity(c)
    case Dec(digits) => "&#" + digits + ";"
    case Hex(digits) => "&#x" + digits + ";"
  }

  function Text(ps: seq<Piece>): string {
    if ps == [] then [] else PieceText(ps[0]) + Text(ps[1..])
  }

  predicate AllOk(ps: seq<Piece>) {
    forall i :: 0 <= i < |ps| ==> PieceOk(ps[i])
  }

  function Meaning(ps: seq<Piece>): string
    requires AllOk(ps)
  {
    seq(|ps|, i requires 0 <= i < |ps| => ValueOf(ps[i]))
  }

  // -- the passes, by number ----------------------------------------------

  /** The character whose entity the pass replaces. */
  function PassChar(k: nat): (c: char)
    requires 2 <= k <= 6
    ensures c in SPECIAL && (c == '&' <==> k == 6)
  {
    if k == 2 then '<' else if k == 3 then '>' else if k == 4 then '"' else if k == 5 then '\'' else '&'
  }

  function Pass(k: nat, s: string): string
    requires k <= 6
  {
    if k == 0 then ReplaceNumeric(s, "&#x", 16)
    else if k == 1 then ReplaceNumeric(s, "&#", 10)
    else ReplaceAll(s, Entity(PassChar(k)), [PassChar(k)])
  }

  /** The passes from the `k`th on. */
  function Passes(k: nat, s: string): string
    requires k <= 7
    decreases 7 - k
  {
    if k == 7 then s else Passes(k + 1, Pass(k, s))
  }

  lemma UnescapeIsPasses(s: string)
    ensures UnescapeXml(s) == Passes(0, s)
  {
    hide ReplaceNumeric, ReplaceAll;
    var t2 := Pass(1, Pass(0, s));
    var t5 := Pass(4, Pass(3, Pass(2, t2)));
    assert Passes(0, s) == Passes(1, Pass(0, s)) == Passes(2, t2);
    assert Passes(2, t2) == Passes(3, Pass(2, t2)) == Passes(4, Pass(3, Pass(2, t2))) == Passes(5, t5);
    assert Passes(5, t5) == Passes(6, Pass(5, t5)) == Passes(7, Pass(6, Pass(5, t5)));
  }

  /** The pass that a piece is for; none for a character. */
  function Kind(p: Piece): nat {
    match p
    case Plain(_) => 7
    case Hex(_) => 0
    case Dec(_) => 1
    case Named(c) => if c == '<' then 2 else if c == '>' then 3 else if c == '"' then 4 else if c == '\'' then 5 else 6
  }

  /** Nothing is left for a pass before the `k`th. */
  predicate From(ps: seq<Piece>, k: nat) {
    AllOk(ps) && forall i :: 0 <= i < |ps| ==> Kind(ps[i]) >= k
  }

  function StagePiece(p: Piece, k: nat): Piece
    requires PieceOk(p)
  {
    if Kind(p) == k then Plain(ValueOf(p)) else p
  }

  /** What a pass should make of the pieces. */
  function Stage(ps: seq<Piece>, k: nat): seq<Piece>
    requires AllOk(ps)
  {
    seq(|ps|, i requires 0 <= i < |ps| => StagePiece(ps[i], k))
  }

  lemma StageHolds(ps: seq<Piece>, k: nat)
    requires From(ps, k) && k <= 6
    ensures From(Stage(ps, k), k + 1) && Meaning(Stage(ps, k)) == Meaning(ps)
  {
  }

  // -- one match ----------------------------------------------------------

  /** The length of a match of the pass at the start of `s`, or 0. */
  function MatchAt(k: nat, s: string): nat
    requires k <= 6
  {
    if k == 0 then NumericAt(s, "&#x", 16)
    else if k == 1 then NumericAt(s, "&#", 10)
    else if Begins(s, Entity(PassChar(k))) then |Entity(PassChar(k))|
    else 0
  }

  predicate Begins(s: string, part: string) {
    |part| <= |s| && s[..|part|] == part
  }

  function Replacement(k: nat, s: string, n: nat): (r: string)
    requires k <= 6 && 4 <= n <= |s|
    ensures |r| <= 1
  {
    if k == 0 then SafeCodePoint(Number(s[3..n - 1], 16))
    else if k == 1 then SafeCodePoint(Number(s[2..n - 1], 10))
    else [PassChar(k)]
  }

  lemma {:induction false} RunHasNoAmpersand(s: string, radix: nat)
    ensures '&' !in s[..DigitRun(s, radix)]
  {
    var n := DigitRun(s, radix);
    if n > 0 {
      RunHasNoAmpersand(s[1..], radix);
      assert s[..n] == [s[0]] + s[1..][..n - 1];
    }
  }

  lemma NumericShape(s: string, opening: string, radix: nat)
    requires opening == "&#" || opening == "&#x"
    requires NumericAt(s, opening, radix) > 0
    ensures var n := NumericAt(s, opening, radix); 4 <= n <= |s| && s[0] == '&' && '&' !in s[1..n]
  {
    var n := NumericAt(s, opening, radix);
    var k := |opening|;
    RunHasNoAmpersand(s[k..], radix);
    assert s[..k] == opening && s[0] == opening[0];
    forall i | 1 <= i < n
      ensures s[i] != '&'
    {
      if i < k {
        assert s[..k][i] == s[i];
      } else if i < n - 1 {
        assert s[k..][..n - 1 - k][i - k] == s[i];
      }
    }
  }

  /** A match begins with its only ampersand and is at least four characters long. */
  lemma MatchShape(k: nat, s: string)
    requires k <= 6 && MatchAt(k, s) > 0
    ensures var n := MatchAt(k, s); 4 <= n <= |s| && s[0] == '&' && '&' !in s[1..n]
  {
    if k <= 1 {
      NumericShape(s, if k == 0 then "&#x" else "&#", if k == 0 then 16 else 10);
    } else {
      EntityShape(PassChar(k));
      var e := Entity(PassChar(k));
      hide Entity;
      assert s[1..|e|] == e[1..];
    }
  }

  lemma NumericStep(s: string, opening: string, radix: nat)
    requires opening == "&#" || opening == "&#x"
    requires s != []
    ensures var n := NumericAt(s, opening, radix);
      ReplaceNumeric(s, opening, radix) ==
        if n > 0 then SafeCodePoint(Number(s[|opening|..n - 1], radix)) + ReplaceNumeric(s[n..], opening, radix)
        else [s[0]] + ReplaceNumeric(s[1..], opening, radix)
  {
    hide NumericAt, SafeCodePoint, Number;
  }

  lemma NamedStep(s: string, e: string, c: char)
    requires s != [] && |e| > 0
    ensures ReplaceAll(s, e, [c]) ==
      if Begins(s, e) then [c] + ReplaceAll(s[|e|..], e, [c]) else [s[0]] + ReplaceAll(s[1..], e, [c])
  {
  }

  lemma PassStep(k: nat, s: string)
    requires k <= 6 && s != []
    ensures MatchAt(k, s) == 0 ==> Pass(k, s) == [s[0]] + Pass(k, s[1..])
    ensures MatchAt(k, s) > 0 ==> 4 <= MatchAt(k, s) <= |s|
    ensures MatchAt(k, s) > 0 ==> Pass(k, s) == Replacement(k, s, MatchAt(k, s)) + Pass(k, s[MatchAt(k, s)..])
  {
    hide NumericAt, SafeCodePoint, Number, Entity, ReplaceNumeric, ReplaceAll, Begins, PassChar;
    if k <= 1 {
      var opening, radix := if k == 0 then "&#x" else "&#", if k == 0 then 16 else 10;
      NumericStep(s, opening, radix);
      if MatchAt(k, s) > 0 {
        NumericShape(s, opening, radix);
      }
    } else {
      EntityShape(PassChar(k));
      NamedStep(s, Entity(PassChar(k)), PassChar(k));
      if MatchAt(k, s) > 0 {
        BeginsIsNoLonger(s, Entity(PassChar(k)));
      }
    }
  }

  lemma BeginsIsNoLonger(s: string, part: string)
    requires Begins(s, part)
    ensures |part| <= |s|
  {
  }

  lemma NoMatchWithoutAmpersand(k: nat, s: string)
    requires k <= 6 && s != [] && s[0] != '&'
    ensures MatchAt(k, s) == 0
  {
    if MatchAt(k, s) > 0 {
      MatchShape(k, s);
    }
  }

  /** Text without an ampersand is passed over. */
  lemma {:induction false} PassSkips(k: nat, plain: string, rest: string)
    requires k <= 6 && '&' !in plain
    ensures Pass(k, plain + rest) == plain + Pass(k, rest)
  {
    hide *;
    if plain == [] {
      assert plain + rest == rest;
    } else {
      var s := plain + rest;
      assert s[1..] == plain[1..] + rest;
      PassSkips(k, plain[1..], rest);
      NoMatchWithoutAmpersand(k, s);
      PassStep(k, s);
      assert plain == [plain[0]] + plain[1..];
    }
  }

  // -- one piece ----------------------------------------------------------

  lemma {:induction false} DigitsRun(digits: string, radix: nat, rest: string)
    requires forall i :: 0 <= i < |digits| ==> DigitValue(digits[i], radix) >= 0
    requires rest != [] && DigitValue(rest[0], radix) < 0
    ensures DigitRun(digits + rest, radix) == |digits|
  {
    var s := digits + rest;
    if digits == [] {
      assert s == rest;
    } else {
      assert s[1..] == digits[1..] + rest;
      DigitsRun(digits[1..], radix, rest);
    }
  }

  lemma ReferenceMatches(opening: string, digits: string, radix: nat, rest: string)
    requires opening == "&#" || opening == "&#x"
    requires IsReference(digits, radix)
    ensures var s := (opening + digits + ";") + rest;
      && NumericAt(s, opening, radix) == |opening| + |digits| + 1
      && s[|opening|..|opening| + |digits|] == digits
  {
    var s := (opening + digits + ";") + rest;
    assert s[..|opening|] == opening && s[|opening|..] == digits + (";" + rest);
    DigitsRun(digits, radix, ";" + rest);
  }

  lemma OwnPieceMatches(k: nat, p: Piece, rest: string)
    requires k <= 6 && PieceOk(p) && Kind(p) == k
    ensures var s, n := PieceText(p) + rest, |PieceText(p)|;
      4 <= n && MatchAt(k, s) == n && Replacement(k, s, n) == [ValueOf(p)]
  {
    hide Number, DigitRun, NumericAt, Entity, SafeCodePoint;
    match p {
      case Hex(digits) => ReferenceMatches("&#x", digits, 16, rest);
      case Dec(digits) => ReferenceMatches("&#", digits, 10, rest);
      case Named(c) => assert (Entity(c) + rest)[..|Entity(c)|] == Entity(c);
    }
  }

  /** A piece of the pass's kind is matched whole and becomes its character. */
  lemma OwnPieceDecodes(k: nat, p: Piece, rest: string)
    requires k <= 6 && PieceOk(p) && Kind(p) == k
    ensures Pass(k, PieceText(p) + rest) == [ValueOf(p)] + Pass(k, rest)
  {
    hide *;
    var s := PieceText(p) + rest;
    OwnPieceMatches(k, p, rest);
    PassStep(k, s);
    assert s[|PieceText(p)|..] == rest;
  }

  lemma DecimalHasNoX(digits: string, rest: string)
    requires IsReference(digits, 10)
    ensures NumericAt(("&#" + digits + ";") + rest, "&#x", 16) == 0
    ensures '&' !in ("#" + digits + ";")
  {
    var s := ("&#" + digits + ";") + rest;
    assert s[2] == digits[0] != 'x';
    if |s| >= 3 {
      PrefixAt(s, 3, "&#x", 2);
    }
  }

  lemma NamedIsAnothers(k: nat, c: char, rest: string)
    requires k <= 6 && c in SPECIAL && Kind(Named(c)) != k
    ensures MatchAt(k, Entity(c) + rest) == 0
  {
    var s := Entity(c) + rest;
    EntityShape(c);
    if k <= 1 {
      var opening := if k == 0 then "&#x" else "&#";
      hide Entity;
      if |opening| <= |s| {
        PrefixAt(s, |opening|, opening, 1);
      }
    } else {
      var p := Entity(PassChar(k));
      EntityShape(PassChar(k));
      EntitiesDiffer(PassChar(k), c);
      hide Entity;
      if |p| <= |s| {
        PrefixAt(s, |p|, p, if p[1] != Entity(c)[1] then 1 else 2);
      }
    }
  }

  lemma HeadStays(k: nat, t: string, rest: string)
    requires k <= 6 && t != [] && MatchAt(k, t + rest) == 0 && '&' !in t[1..]
    ensures Pass(k, t + rest) == t + Pass(k, rest)
  {
    hide *;
    var s := t + rest;
    PassStep(k, s);
    PassSkips(k, t[1..], rest);
    assert s[1..] == t[1..] + rest && t == [t[0]] + t[1..];
  }

  /** A piece of a later kind is passed over. */
  lemma OtherPieceStays(k: nat, p: Piece, rest: string)
    requires k <= 6 && PieceOk(p) && Kind(p) > k && p != Plain('&')
    ensures Pass(k, PieceText(p) + rest) == PieceText(p) + Pass(k, rest)
  {
    hide Pass, SafeCodePoint, Number, DigitRun, DigitValue, Entity, NumericAt;
    match p {
      case Plain(c) =>
        PassSkips(k, [c], rest);
      case Dec(digits) =>
        DecimalHasNoX(digits, rest);
        assert ("&#" + digits + ";")[1..] == "#" + digits + ";";
        HeadStays(k, "&#" + digits + ";", rest);
      case Named(c) =>
        NamedIsAnothers(k, c, rest);
        EntityShape(c);
        HeadStays(k, Entity(c), rest);
    }
  }

  // -- a whole pass -------------------------------------------------------

  /** A bare ampersand, left by a pass before, that with what follows it reads as a reference. */
  predicate ExtraHere(ps: seq<Piece>, k: nat)
    requires k <= 6
  {
    ps != [] && ps[0] == Plain('&') && MatchAt(k, Text(ps)) > 0
  }

  predicate HasExtra(ps: seq<Piece>, k: nat)
    requires k <= 6
  {
    ps != [] && (ExtraHere(ps, k) || HasExtra(ps[1..], k))
  }

  /** Text without an ampersand comes from characters only, one each. */
  lemma {:induction false} CharactersOnly(ps: seq<Piece>, n: nat)
    requires AllOk(ps) && n <= |Text(ps)| && '&' !in Text(ps)[..n]
    ensures n <= |ps| && Text(ps)[n..] == Text(ps[n..])
  {
    if n > 0 {
      FirstIsCharacter(ps, n);
      TextBehind(ps);
      hide Text, PieceText, IsReference;
      var s := Text(ps);
      assert s[1..] == Text(ps[1..]);
      SliceBehind(s, n);
      CharactersOnly(ps[1..], n - 1);
      SliceBehind(ps, n);
    }
  }

  lemma FirstIsCharacter(ps: seq<Piece>, n: nat)
    requires AllOk(ps) && 1 <= n <= |Text(ps)| && '&' !in Text(ps)[..n]
    ensures ps != [] && ps[0].Plain?
  {
    if ps != [] {
      FirstCharSpecial(ps[0]);
      hide PieceText, IsReference;
      assert Text(ps)[..n][0] == Text(ps)[0] == PieceText(ps[0])[0];
    }
  }

  lemma StageSplits(p: Piece, ps: seq<Piece>, k: nat)
    requires PieceOk(p) && AllOk(ps)
    ensures Stage([p] + ps, k) == [StagePiece(p, k)] + Stage(ps, k)
  {
  }

  /** Whatever bare ampersands there are, a pass gives the text of some pieces: of those it should, and
      otherwise of fewer. */
  lemma {:induction false} PassGives(ps: seq<Piece>, k: nat) returns (qs: seq<Piece>)
    requires k <= 6 && From(ps, k)
    ensures From(qs, k + 1) && Pass(k, Text(ps)) == Text(qs) && |qs| <= |ps|
    ensures !HasExtra(ps, k) ==> qs == Stage(ps, k)
    ensures HasExtra(ps, k) ==> |qs| < |ps|
    decreases |ps|
  {
    if ps == [] {
      qs := [];
      NothingToReplace(k);
    } else if ExtraHere(ps, k) {
      qs := AfterExtra(ps, k);
    } else {
      var rest := PassGives(ps[1..], k);
      qs := FirstThenRest(ps, k, rest);
    }
  }

  lemma NothingToReplace(k: nat)
    requires k <= 6
    ensures Pass(k, []) == []
  {
  }

  lemma FirstThenRest(ps: seq<Piece>, k: nat, rest: seq<Piece>) returns (qs: seq<Piece>)
    requires k <= 6 && ps != [] && From(ps, k) && !ExtraHere(ps, k)
    requires From(rest, k + 1) && Pass(k, Text(ps[1..])) == Text(rest) && |rest| <= |ps| - 1
    requires !HasExtra(ps[1..], k) ==> rest == Stage(ps[1..], k)
    requires HasExtra(ps[1..], k) ==> |rest| < |ps| - 1
    ensures From(qs, k + 1) && Pass(k, Text(ps)) == Text(qs) && |qs| <= |ps|
    ensures !HasExtra(ps, k) ==> qs == Stage(ps, k)
    ensures HasExtra(ps, k) ==> |qs| < |ps|
  {
    var p := ps[0];
    var q := StagePiece(p, k);
    qs := [q] + rest;
    FirstDecodes(ps, k);
    TextCons(q, rest);
    FromCons(q, rest, k + 1);
    assert ps == [p] + ps[1..];
    StageSplits(p, ps[1..], k);
    hide Pass, MatchAt, Stage, PieceText, Text, StagePiece, From;
  }

  lemma TextCons(q: Piece, rest: seq<Piece>)
    ensures Text([q] + rest) == PieceText(q) + Text(rest)
  {
    assert ([q] + rest)[1..] == rest;
  }

  lemma FromCons(q: Piece, rest: seq<Piece>, k: nat)
    requires PieceOk(q) && Kind(q) >= k && From(rest, k)
    ensures From([q] + rest, k)
  {
  }

  lemma FirstDecodes(ps: seq<Piece>, k: nat)
    requires k <= 6 && ps != [] && From(ps, k) && !ExtraHere(ps, k)
    ensures Pass(k, Text(ps)) == PieceText(StagePiece(ps[0], k)) + Pass(k, Text(ps[1..]))
  {
    var p, rest := ps[0], Text(ps[1..]);
    assert Text(ps) == PieceText(p) + rest;
    hide Pass, MatchAt, IsReference, Text;
    if Kind(p) == k {
      OwnPieceDecodes(k, p, rest);
    } else if p == Plain('&') {
      assert Text(ps)[0] == '&' && Text(ps)[1..] == rest;
      PassStep(k, Text(ps));
    } else {
      OtherPieceStays(k, p, rest);
    }
  }

  lemma AfterExtra(ps: seq<Piece>, k: nat) returns (qs: seq<Piece>)
    requires k <= 6 && From(ps, k) && ExtraHere(ps, k)
    ensures From(qs, k + 1) && Pass(k, Text(ps)) == Text(qs) && |qs| < |ps|
    decreases |ps|, 0
  {
    ExtraSpans(ps, k);
    hide Pass, MatchAt, ExtraHere, Replacement, Text, From;
    var n := MatchAt(k, Text(ps));
    FromDrops(ps, k, n);
    var rest := PassGives(ps[n..], k);
    var r := Replacement(k, Text(ps), n);
    if r == [] {
      qs := rest;
      assert r + Text(rest) == Text(rest);
    } else {
      qs := [Plain(r[0])] + rest;
      assert r == PieceText(Plain(r[0]));
      TextCons(Plain(r[0]), rest);
      FromCons(Plain(r[0]), rest, k + 1);
    }
  }

  lemma FromDrops(ps: seq<Piece>, k: nat, n: nat)
    requires From(ps, k) && n <= |ps|
    ensures From(ps[n..], k)
  {
  }

  lemma ExtraSpans(ps: seq<Piece>, k: nat)
    requires k <= 6 && From(ps, k) && ExtraHere(ps, k)
    ensures var n := MatchAt(k, Text(ps));
      && 4 <= n <= |ps| && n <= |Text(ps)|
      && Pass(k, Text(ps)) == Replacement(k, Text(ps), n) + Pass(k, Text(ps[n..]))
  {
    var s := Text(ps);
    var n := MatchAt(k, s);
    MatchShape(k, s);
    PassStep(k, s);
    BareFirst(ps, k);
    BehindBare(ps, n);
    hide *;
  }

  lemma BareFirst(ps: seq<Piece>, k: nat)
    requires k <= 6 && ExtraHere(ps, k)
    ensures ps != [] && ps[0] == Plain('&') && MatchAt(k, Text(ps)) > 0
  {
  }

  lemma BehindBare(ps: seq<Piece>, n: nat)
    requires AllOk(ps) && ps != [] && ps[0].Plain? && 1 <= n <= |Text(ps)| && '&' !in Text(ps)[1..n]
    ensures n <= |ps| && Text(ps)[n..] == Text(ps[n..])
  {
    TextBehind(ps);
    hide Text;
    var s := Text(ps);
    assert s[1..] == Text(ps[1..]);
    SliceBehind(s, n);
    CharactersOnly(ps[1..], n - 1);
    if n <= |ps| {
      SliceBehind(ps, n);
    }
  }

  // -- all passes ---------------------------------------------------------

  predicate NoExtra(ps: seq<Piece>, k: nat)
    requires k <= 7 && AllOk(ps)
    decreases 7 - k
  {
    k == 7 || (!HasExtra(ps, k) && From(ps, k) && (StageHolds(ps, k); NoExtra(Stage(ps, k), k + 1)))
  }

  lemma {:induction false} TextOfCharacters(ps: seq<Piece>)
    requires From(ps, 7)
    ensures Text(ps) == Meaning(ps)
  {
    if ps != [] {
      TextOfCharacters(ps[1..]);
      assert Meaning(ps) == [ValueOf(ps[0])] + Meaning(ps[1..]);
    }
  }

  /** The passes give the meaning when no bare ampersand is read again, and otherwise a shorter text. */
  lemma {:induction false} PassesGive(ps: seq<Piece>, k: nat)
    requires k <= 7 && From(ps, k)
    ensures |Passes(k, Text(ps))| <= |ps|
    ensures if NoExtra(ps, k) then Passes(k, Text(ps)) == Meaning(ps) else |Passes(k, Text(ps))| < |ps|
    decreases 7 - k
  {
    if k == 7 {
      TextOfCharacters(ps);
    } else {
      var qs := PassGives(ps, k);
      PassesGive(qs, k + 1);
      StageHolds(ps, k);
      hide Pass, Text, HasExtra, Stage, Meaning;
    }
  }

  // -- when that happens --------------------------------------------------

  /** The text once its hexadecimal references are decoded. */
  function AfterHex(ps: seq<Piece>): string
    requires AllOk(ps)
  {
    Text(Stage(ps, 0))
  }

  /** The text once all its numeric references are decoded. */
  function AfterNumeric(ps: seq<Piece>): string
    requires AllOk(ps)
  {
    Text(Stage(Stage(ps, 0), 1))
  }

  /** What makes a decimal reference of an ampersand before it. */
  predicate BeginsDecimal(t: string) {
    t != [] && t[0] == '#' && var run := DigitRun(t[1..], 10); run > 0 && 1 + run < |t| && t[1 + run] == ';'
  }

  /** What makes an entity of an ampersand before it. */
  predicate BeginsName(t: string) {
    exists c :: c in SPECIAL && Begins(t, Entity(c)[1..])
  }

  predicate IsAmpersandReference(p: Piece)
    requires PieceOk(p)
  {
    (p.Hex? || p.Dec?) && ValueOf(p) == '&'
  }

  /** A reference to the ampersand whose result is read again: in front of what then reads as an entity
      or, for a hexadecimal one, as a decimal reference. */
  predicate TwiceAt(ps: seq<Piece>, i: nat)
    requires AllOk(ps) && i < |ps|
  {
    && IsAmpersandReference(ps[i])
    && ((ps[i].Hex? && BeginsDecimal(AfterHex(ps[i + 1..]))) || BeginsName(AfterNumeric(ps[i + 1..])))
  }

  /** Well-formed text: every ampersand begins an entity or a reference. */
  predicate WellFormed(ps: seq<Piece>) {
    AllOk(ps) && forall i :: 0 <= i < |ps| ==> ps[i] != Plain('&')
  }

  lemma DecimalBehindAmpersand(t: string)
    ensures NumericAt(['&'] + t, "&#", 10) > 0 <==> BeginsDecimal(t)
  {
    var s := ['&'] + t;
    assert s[1..] == t;
    if t != [] {
      assert s[2..] == t[1..];
      assert s[..2] == "&#" <==> t[0] == '#';
    }
  }

  lemma NameBehindAmpersand(t: string, e: string)
    requires e != [] && e[0] == '&'
    ensures Begins(['&'] + t, e) <==> Begins(t, e[1..])
  {
    var s := ['&'] + t;
    if |e| <= |s| {
      assert s[..|e|] == ['&'] + t[..|e| - 1];
      assert e == ['&'] + e[1..];
      assert s[..|e|][1..] == t[..|e| - 1];
    }
  }

  lemma TextBehind(ps: seq<Piece>)
    requires ps != [] && ps[0].Plain?
    ensures Text(ps) == [ps[0].c] + Text(ps[1..])
  {
  }

  /** A bare ampersand is matched by what is behind it. */
  lemma ExtraIff(ps: seq<Piece>, k: nat)
    requires 1 <= k <= 6 && ps != [] && ps[0] == Plain('&')
    ensures ExtraHere(ps, k) <==>
      if k == 1 then BeginsDecimal(Text(ps[1..])) else Begins(Text(ps[1..]), Entity(PassChar(k))[1..])
  {
    TextBehind(ps);
    var t := Text(ps[1..]);
    if k == 1 {
      DecimalBehindAmpersand(t);
    } else {
      EntityShape(PassChar(k));
      NameBehindAmpersand(t, Entity(PassChar(k)));
    }
    hide Text, NumericAt, Entity, Begins, BeginsDecimal;
  }

  predicate ExtraAt(ps: seq<Piece>, i: nat, k: nat)
    requires i < |ps| && k <= 6
  {
    ExtraHere(ps[i..], k)
  }

  lemma {:induction false} HasExtraIff(ps: seq<Piece>, k: nat)
    requires k <= 6
    ensures HasExtra(ps, k) <==> exists i :: 0 <= i < |ps| && ExtraAt(ps, i, k)
  {
    if ps != [] {
      HasExtraIff(ps[1..], k);
      assert ps[0..] == ps;
      hide ExtraHere;
      assert forall i :: 0 <= i < |ps| - 1 ==> ps[1..][i..] == ps[i + 1..];
      if i :| 0 <= i < |ps| && ExtraAt(ps, i, k) {
        assert i > 0 ==> ps[1..][i - 1..] == ps[i..] && ExtraAt(ps[1..], i - 1, k);
      }
      if i :| 0 <= i < |ps| - 1 && ExtraAt(ps[1..], i, k) {
        assert ExtraAt(ps, i + 1, k);
      }
      assert ExtraHere(ps, k) <==> ExtraAt(ps, 0, k);
    }
  }

  /** Letters behind an ampersand stay what they are while entities are decoded. */
  lemma {:induction false} TailSame(ps: seq<Piece>, k: nat, t: string)
    requires AllOk(ps) && 2 <= k && forall i :: 0 <= i < |t| ==> t[i] !in SPECIAL
    ensures Begins(Text(ps), t) <==> Begins(Text(Stage(ps, k)), t)
  {
    if t != [] && ps != [] {
      var p, q := ps[0], StagePiece(ps[0], k);
      var qs := Stage(ps, k);
      assert Stage(ps, k)[1..] == Stage(ps[1..], k);
      assert Text(ps)[0] == PieceText(p)[0] && Text(qs)[0] == PieceText(q)[0];
      if p.Plain? {
        TailSame(ps[1..], k, t[1..]);
        BeginsStep(p.c, Text(ps[1..]), t);
        BeginsStep(p.c, Text(qs[1..]), t);
      } else {
        FirstCharSpecial(p);
        FirstCharSpecial(q);
        hide Text, Stage, PieceText, StagePiece;
        assert !Begins(Text(ps), t) && !Begins(Text(qs), t);
      }
    }
  }

  lemma FirstCharSpecial(p: Piece)
    requires PieceOk(p)
    ensures !p.Plain? ==> PieceText(p)[0] == '&'
  {
    if p.Named? {
      EntityShape(p.c);
    }
  }

  lemma BeginsStep(c: char, s: string, t: string)
    requires t != []
    ensures Begins([c] + s, t) <==> c == t[0] && Begins(s, t[1..])
  {
    var u := [c] + s;
    if |t| <= |u| {
      assert u[..|t|] == [c] + s[..|t| - 1];
      assert t == [t[0]] + t[1..];
      assert u[..|t|][1..] == s[..|t| - 1];
    }
  }

  lemma TailIsPlain(c: char)
    ensures forall i :: 0 <= i < |Entity(c)| - 1 ==> Entity(c)[1..][i] !in SPECIAL
  {
  }

  lemma StageKeepsExtraHere(ps: seq<Piece>, k: nat, m: nat)
    requires 2 <= k < m <= 6 && From(ps, k) && ps != []
    ensures ExtraHere(Stage(ps, k), m) <==> ExtraHere(ps, m)
  {
    var qs := Stage(ps, k);
    assert qs[0] == Plain('&') <==> ps[0] == Plain('&') by {
      if Kind(ps[0]) == k {
        assert ValueOf(ps[0]) != '&';
      }
    }
    assert qs[1..] == Stage(ps[1..], k);
    if ps[0] == Plain('&') {
      ExtraIff(ps, m);
      ExtraIff(qs, m);
      TailIsPlain(PassChar(m));
      TailSame(ps[1..], k, Entity(PassChar(m))[1..]);
    }
  }

  lemma {:induction false} StageKeepsExtra(ps: seq<Piece>, k: nat, m: nat)
    requires 2 <= k < m <= 6 && From(ps, k)
    ensures HasExtra(Stage(ps, k), m) <==> HasExtra(ps, m)
  {
    if ps != [] {
      StageKeepsExtraHere(ps, k, m);
      StageKeepsExtra(ps[1..], k, m);
      assert Stage(ps, k)[1..] == Stage(ps[1..], k);
      hide ExtraHere, Stage;
    }
  }

  /** No pass from the `k`th on reads a bare ampersand again. */
  predicate NoneFrom(ps: seq<Piece>, k: nat) {
    forall m :: k <= m <= 6 ==> !HasExtra(ps, m)
  }

  lemma NoneFromStep(ps: seq<Piece>, next: seq<Piece>, k: nat)
    requires 2 <= k <= 6
    requires forall m :: k < m <= 6 ==> (HasExtra(next, m) <==> HasExtra(ps, m))
    ensures NoneFrom(ps, k) <==> !HasExtra(ps, k) && NoneFrom(next, k + 1)
  {
    hide HasExtra;
  }

  lemma {:induction false} NoExtraNamed(ps: seq<Piece>, k: nat)
    requires 2 <= k <= 7 && From(ps, k)
    ensures NoExtra(ps, k) <==> NoneFrom(ps, k)
    decreases 7 - k
  {
    if k < 7 {
      var next := Stage(ps, k);
      StageHolds(ps, k);
      NoExtraNamed(next, k + 1);
      hide HasExtra, Stage, NoneFrom;
      forall m | k < m <= 6
        ensures HasExtra(next, m) <==> HasExtra(ps, m)
      {
        StageKeepsExtra(ps, k, m);
      }
      NoneFromStep(ps, next, k);
    }
  }

  // -- the law ------------------------------------------------------------

  lemma StagedBehind(ps: seq<Piece>, i: nat)
    requires AllOk(ps) && i < |ps|
    ensures AllOk(ps[i + 1..]) && AllOk(Stage(ps, 0))
    ensures Stage(ps, 0)[i..][1..] == Stage(ps[i + 1..], 0)
    ensures Stage(Stage(ps, 0), 1)[i..][1..] == Stage(Stage(ps[i + 1..], 0), 1)
  {
  }

  /** Where a bare ampersand is read again, in terms of the pieces. */
  lemma ReadAgainIff(ps: seq<Piece>, i: nat)
    requires WellFormed(ps) && i < |ps|
    ensures var s1, s2 := Stage(ps, 0), Stage(Stage(ps, 0), 1);
      TwiceAt(ps, i) <==> ExtraAt(s1, i, 1) || exists m :: 2 <= m <= 6 && ExtraAt(s2, i, m)
  {
    var s1, s2 := Stage(ps, 0), Stage(Stage(ps, 0), 1);
    StagedBehind(ps, i);
    assert s1[i..][0] == Plain('&') <==> ps[i].Hex? && ValueOf(ps[i]) == '&';
    assert s2[i..][0] == Plain('&') <==> IsAmpersandReference(ps[i]);
    if s1[i..][0] == Plain('&') {
      ExtraIff(s1[i..], 1);
    }
    if s2[i..][0] == Plain('&') {
      var t := AfterNumeric(ps[i + 1..]);
      forall m | 2 <= m <= 6
        ensures ExtraAt(s2, i, m) <==> Begins(t, Entity(PassChar(m))[1..])
      {
        ExtraIff(s2[i..], m);
      }
      NamesAreNumbered(t);
    }
    hide Text, Stage, MatchAt, BeginsDecimal, BeginsName, Begins, ValueOf;
  }

  lemma NamesAreNumbered(t: string)
    ensures BeginsName(t) <==> exists m :: 2 <= m <= 6 && Begins(t, Entity(PassChar(m))[1..])
  {
    hide Entity, Begins;
    if BeginsName(t) {
      var c :| c in SPECIAL && Begins(t, Entity(c)[1..]);
      assert c == PassChar(Kind(Named(c)));
    }
  }

  lemma NoBareAmpersand(ps: seq<Piece>)
    requires WellFormed(ps)
    ensures !HasExtra(ps, 0)
    decreases |ps|
  {
    if ps != [] {
      NoBareAmpersand(ps[1..]);
    }
  }

  lemma StageLength(ps: seq<Piece>)
    requires WellFormed(ps)
    ensures AllOk(ps) && From(ps, 0) && |Stage(ps, 0)| == |ps| && From(Stage(ps, 0), 1)
      && |Stage(Stage(ps, 0), 1)| == |ps|
  {
  }

  lemma NoExtraIff(ps: seq<Piece>)
    requires WellFormed(ps)
    ensures NoExtra(ps, 0) <==> !exists i :: 0 <= i < |ps| && TwiceAt(ps, i)
  {
    hide Stage, HasExtra, NoExtra, ExtraAt, TwiceAt, WellFormed, From, AllOk;
    StageLength(ps);
    var s1 := Stage(ps, 0);
    StageHolds(ps, 0);
    StageHolds(s1, 1);
    var s2 := Stage(s1, 1);
    NumericExtras(ps);
    NoExtraNamed(s2, 2);
    HasExtraIff(s1, 1);
    assert NoneFrom(s2, 2) <==> !exists m :: 2 <= m <= 6 && HasExtra(s2, m);
    forall m | 2 <= m <= 6
      ensures HasExtra(s2, m) <==> exists i :: 0 <= i < |ps| && ExtraAt(s2, i, m)
    {
      HasExtraIff(s2, m);
    }
    forall i | 0 <= i < |ps|
      ensures TwiceAt(ps, i) <==> ExtraAt(s1, i, 1) || exists m :: 2 <= m <= 6 && ExtraAt(s2, i, m)
    {
      ReadAgainIff(ps, i);
    }
    if i :| 0 <= i < |ps| && TwiceAt(ps, i) {
      assert ExtraAt(s1, i, 1) ==> HasExtra(s1, 1);
      assert forall m :: 2 <= m <= 6 && ExtraAt(s2, i, m) ==> HasExtra(s2, m);
    }
    if HasExtra(s1, 1) {
      var i :| 0 <= i < |s1| && ExtraAt(s1, i, 1);
      assert TwiceAt(ps, i);
    }
    if m :| 2 <= m <= 6 && HasExtra(s2, m) {
      var i :| 0 <= i < |ps| && ExtraAt(s2, i, m);
      assert TwiceAt(ps, i);
    }
  }

  lemma NumericExtras(ps: seq<Piece>)
    requires WellFormed(ps)
    ensures var s1 := Stage(ps, 0);
      && From(s1, 1) && From(Stage(s1, 1), 2)
      && (NoExtra(ps, 0) <==> !HasExtra(s1, 1) && NoExtra(Stage(s1, 1), 2))
  {
    StageHolds(ps, 0);
    StageHolds(Stage(ps, 0), 1);
    NoBareAmpersand(ps);
    hide HasExtra, Stage;
  }

  /** Well-formed text decodes to its meaning exactly when no reference to the ampersand stands in front of
      what then reads as an entity or, if it is hexadecimal, as a decimal reference. */
  lemma DecodesIff(ps: seq<Piece>)
    requires WellFormed(ps)
    ensures UnescapeXml(Text(ps)) == Meaning(ps) <==> !exists i :: 0 <= i < |ps| && TwiceAt(ps, i)
  {
    UnescapeIsPasses(Text(ps));
    PassesGive(ps, 0);
    NoExtraIff(ps);
  }

  /** So text without such references always does, whatever entities and other references it holds. */
  lemma DecodesWithoutAmpersandReferences(ps: seq<Piece>)
    requires WellFormed(ps) && forall i :: 0 <= i < |ps| ==> !IsAmpersandReference(ps[i])
    ensures UnescapeXml(Text(ps)) == Meaning(ps)
  {
    DecodesIff(ps);
  }
}
