/** The entity decoder of the report reader: seven successive replacements, each over the
    whole output of the one before. */
module XmlEntities {
  import opened Strings

  function DigitValue(c: char, radix: nat): (v: int) {
    var v :=
      if '0' <= c <= '9' then c as int - '0' as int
      else if 'a' <= c <= 'f' then c as int - 'a' as int + 10
      else if 'A' <= c <= 'F' then c as int - 'A' as int + 10
      else -1;
    if v < radix then v else -1
  }

  /** How many characters at the start of `s` are digits. */
  function DigitRun(s: string, radix: nat): (n: nat)
    ensures n <= |s|
  {
    if s == [] || DigitValue(s[0], radix) < 0 then 0 else 1 + DigitRun(s[1..], radix)
  }

  function Number(digits: string, radix: nat): int {
    if digits == [] then 0
    else Number(digits[..|digits| - 1], radix) * radix + DigitValue(digits[|digits| - 1], radix)
  }

  /** The character of a code point; none for 0, for one beyond U+10FFFF, and (unlike the
      original, which would make half a surrogate pair of it) for a surrogate. */
  function SafeCodePoint(code: int): string {
    if 0 < code < 0xD800 || 0xE000 <= code <= 0x10FFFF then [code as char] else []
  }

  /** The length of a numeric reference with this opening at the start of `s`, or 0. */
  function NumericAt(s: string, opening: string, radix: nat): (n: nat)
    ensures n <= |s|
    ensures n > 0 ==> n > |opening| + 1 && s[..|opening|] == opening
  {
    if |s| < |opening| || s[..|opening|] != opening then 0
    else
      var run := DigitRun(s[|opening|..], radix);
      var end := |opening| + run;
      if run == 0 || end == |s| || s[end] != ';' then 0 else end + 1
  }

  function ReplaceNumeric(s: string, opening: string, radix: nat): string
    requires |opening| > 0
    decreases |s|
  {
    if s == [] then []
    else
      var n := NumericAt(s, opening, radix);
      if n > 0 then SafeCodePoint(Number(s[|opening|..n - 1], radix)) + ReplaceNumeric(s[n..], opening, radix)
      else [s[0]] + ReplaceNumeric(s[1..], opening, radix)
  }

  function UnescapeXml(text: string): string {
    var t1 := ReplaceNumeric(text, "&#x", 16);
    var t2 := ReplaceNumeric(t1, "&#", 10);
    var t3 := ReplaceAll(t2, "&lt;", "<");
    var t4 := ReplaceAll(t3, "&gt;", ">");
    var t5 := ReplaceAll(t4, "&quot;", "\"");
    var t6 := ReplaceAll(t5, "&apos;", "'");
    ReplaceAll(t6, "&amp;", "&")
  }

  // -- the five predefined entities (section 4.6 of XML 1.0) ---------------

  const SPECIAL: set<char> := {'&', '<', '>', '"', '\''}

  function Entity(c: char): (r: string)
    ensures |r| >= 4
  {
    if c == '&' then "&amp;"
    else if c == '<' then "&lt;"
    else if c == '>' then "&gt;"
    else if c == '"' then "&quot;"
    else "&apos;"
  }

  /** `s` with the characters in `escaped` written as entities. */
  function Escaped(s: string, escaped: set<char>): string {
    if s == [] then []
    else (if s[0] in escaped then Entity(s[0]) else [s[0]]) + Escaped(s[1..], escaped)
  }

  lemma EntityShape(d: char)
    ensures |Entity(d)| >= 4 && Entity(d)[0] == '&' && Entity(d)[1] != '#' && '&' !in Entity(d)[1..]
  {
  }

  lemma EntitiesDiffer(c: char, d: char)
    requires c in SPECIAL && d in SPECIAL && c != d
    ensures Entity(c)[1] != Entity(d)[1] || Entity(c)[2] != Entity(d)[2]
  {
  }

  lemma PrefixAt(s: string, n: nat, p: string, k: nat)
    requires k < |p| == n <= |s| && k < n && s[k] != p[k]
    ensures s[..n] != p
  {
    assert s[..n][k] == s[k];
  }

  lemma Appended(u: string, v: string, w: string)
    ensures u + (v + w) == (u + v) + w
  {
  }

  /** Another entity is passed over: after its ampersand the pattern does not match. */
  lemma ReplaceSkipsEntity(c: char, d: char, rest: string)
    requires c in SPECIAL && d in SPECIAL && c != d
    ensures ReplaceAll(Entity(d) + rest, Entity(c), [c]) == Entity(d) + ReplaceAll(rest, Entity(c), [c])
  {
    EntityShape(c);
    EntityShape(d);
    EntitiesDiffer(c, d);
    hide Entity;
    var s, p := Entity(d) + rest, Entity(c);
    assert s[1..] == Entity(d)[1..] + rest;
    if |p| <= |s| {
      PrefixAt(s, |p|, p, if p[1] != Entity(d)[1] then 1 else 2);
    }
    hide ReplaceAll;
    ReplacePasses(s, p, [c]);
    ReplaceSkips(Entity(d)[1..], rest, p, [c]);
    assert Entity(d) == [s[0]] + Entity(d)[1..];
    Appended([s[0]], Entity(d)[1..], ReplaceAll(rest, p, [c]));
  }

  /** One pass undoes the escaping of its own character and no other, as long as ampersands
      are escaped or it is the ampersand's own pass, the last. */
  lemma {:induction false} PassUndoesOne(s: string, escaped: set<char>, c: char)
    requires c in escaped && escaped <= SPECIAL && (c == '&' ==> escaped == {'&'}) && '&' in escaped
    ensures ReplaceAll(Escaped(s, escaped), Entity(c), [c]) == Escaped(s, escaped - {c})
  {
    if s != [] {
      var rest := Escaped(s[1..], escaped);
      PassUndoesOne(s[1..], escaped, c);
      if s[0] == c {
        ReplaceHere(Escaped(s, escaped), Entity(c), [c], rest);
      } else if s[0] in escaped {
        ReplaceSkipsEntity(c, s[0], rest);
      } else {
        ReplaceSkips([s[0]], rest, Entity(c), [c]);
      }
    }
  }

  lemma {:induction false} NumericSkips(plain: string, rest: string, opening: string, radix: nat)
    requires |opening| > 0 && opening[0] !in plain
    ensures ReplaceNumeric(plain + rest, opening, radix) == plain + ReplaceNumeric(rest, opening, radix)
  {
    hide DigitRun, Number, SafeCodePoint;
    if plain == [] {
      assert plain + rest == rest;
    } else {
      var s := plain + rest;
      assert s[0] == plain[0] != opening[0] && s[1..] == plain[1..] + rest;
      NumericSkips(plain[1..], rest, opening, radix);
      assert |opening| <= |s| ==> s[..|opening|][0] == s[0];
    }
  }

  lemma NumericSkipsEntity(d: char, rest: string, opening: string, radix: nat)
    requires opening == "&#" || opening == "&#x"
    ensures ReplaceNumeric(Entity(d) + rest, opening, radix) == Entity(d) + ReplaceNumeric(rest, opening, radix)
  {
    EntityShape(d);
    hide Entity, DigitRun, Number, SafeCodePoint;
    var t := Entity(d) + rest;
    assert t[1..] == Entity(d)[1..] + rest;
    if |opening| <= |t| {
      PrefixAt(t, |opening|, opening, 1);
    }
    assert NumericAt(t, opening, radix) == 0;
    NumericSkips(Entity(d)[1..], rest, opening, radix);
    assert Entity(d) == [t[0]] + Entity(d)[1..];
  }

  /** Escaped text holds no numeric reference: no ampersand is followed by a number sign. */
  lemma {:induction false} NumericPassKeeps(s: string, opening: string, radix: nat)
    requires opening == "&#" || opening == "&#x"
    ensures ReplaceNumeric(Escaped(s, SPECIAL), opening, radix) == Escaped(s, SPECIAL)
  {
    hide Entity, ReplaceNumeric;
    if s == [] {
      NumericOfNothing(opening, radix);
    } else {
      NumericPassKeeps(s[1..], opening, radix);
      if s[0] in SPECIAL {
        NumericSkipsEntity(s[0], Escaped(s[1..], SPECIAL), opening, radix);
      } else {
        NumericSkips([s[0]], Escaped(s[1..], SPECIAL), opening, radix);
      }
    }
  }

  lemma NumericOfNothing(opening: string, radix: nat)
    requires |opening| > 0
    ensures ReplaceNumeric([], opening, radix) == []
  {
  }

  lemma {:induction false} NothingEscaped(s: string)
    ensures Escaped(s, {}) == s
  {
    if s != [] {
      NothingEscaped(s[1..]);
    }
  }

  /** Decoding inverts five-entity escaping for every text, though each pass rescans what the
      passes before it wrote. */
  lemma UnescapeInvertsEscape(s: string)
    ensures UnescapeXml(Escaped(s, SPECIAL)) == s
  {
    hide ReplaceAll, ReplaceNumeric, Escaped;
    NumericPassKeeps(s, "&#x", 16);
    NumericPassKeeps(s, "&#", 10);
    PassUndoesOne(s, SPECIAL, '<');
    assert SPECIAL - {'<'} == {'&', '>', '"', '\''};
    PassUndoesOne(s, {'&', '>', '"', '\''}, '>');
    assert {'&', '>', '"', '\''} - {'>'} == {'&', '"', '\''};
    PassUndoesOne(s, {'&', '"', '\''}, '"');
    assert {'&', '"', '\''} - {'"'} == {'&', '\''};
    PassUndoesOne(s, {'&', '\''}, '\'');
    assert {'&', '\''} - {'\''} == {'&'};
    PassUndoesOne(s, {'&'}, '&');
    assert {'&'} - {'&'} == {};
    NothingEscaped(s);
  }

  const TWICE := "&#38;lt;"

  lemma HexPassKeepsTwice()
    ensures ReplaceNumeric(TWICE, "&#x", 16) == TWICE
  {
    hide DigitRun, Number, SafeCodePoint;
    PrefixAt(TWICE, 3, "&#x", 2);
    assert TWICE[1..] == "#38;lt;";
    NumericSkips("#38;lt;", [], "&#x", 16);
    NumericOfNothing("&#x", 16);
    assert "#38;lt;" + [] == "#38;lt;";
    assert TWICE == ['&'] + "#38;lt;";
  }

  lemma ThirtyEight()
    ensures DigitRun("38;lt;", 10) == 2 && Number("38", 10) == 38 && SafeCodePoint(38) == "&"
  {
    assert "38;lt;"[1..] == "8;lt;" && "8;lt;"[1..] == ";lt;";
    assert "38"[..1] == "3" && "3"[..0] == "";
    assert Number("3", 10) == Number("", 10) * 10 + 3;
  }

  lemma DecimalPassOfTwice()
    ensures ReplaceNumeric(TWICE, "&#", 10) == "&lt;"
  {
    ThirtyEight();
    hide DigitRun, Number, SafeCodePoint, DigitValue;
    assert TWICE[..2] == "&#" && TWICE[2..] == "38;lt;" && TWICE[5..] == "lt;" && TWICE[2..4] == "38";
    assert NumericAt(TWICE, "&#", 10) == 5;
    NumericSkips("lt;", [], "&#", 10);
    NumericOfNothing("&#", 10);
    assert "lt;" + [] == "lt;";
  }

  lemma NamedPassesOfLt()
    ensures ReplaceAll("&lt;", "&lt;", "<") == "<"
    ensures ReplaceAll("<", "&gt;", ">") == "<" && ReplaceAll("<", "&quot;", "\"") == "<"
    ensures ReplaceAll("<", "&apos;", "'") == "<" && ReplaceAll("<", "&amp;", "&") == "<"
  {
    assert "&lt;" == "&lt;" + [] && "<" + [] == "<";
    ReplaceHere("&lt;", "&lt;", "<", []);
    ReplaceSkips("<", [], "&gt;", ">");
    ReplaceSkips("<", [], "&quot;", "\"");
    ReplaceSkips("<", [], "&apos;", "'");
    ReplaceSkips("<", [], "&amp;", "&");
  }

  /** A numeric reference to the ampersand is decoded twice when what follows it spells an
      entity: this text stands for `&lt;` but comes out as `<`. */
  lemma NumericAmpersandDecodesTwice()
    ensures UnescapeXml("&#38;lt;") == "<"
  {
    HexPassKeepsTwice();
    DecimalPassOfTwice();
    NamedPassesOfLt();
    hide ReplaceAll, ReplaceNumeric;
  }
}
