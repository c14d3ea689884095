/** The token matchers both grammars are built from, written as functions from
    an input string and a start position to a match and the position after it.
    Each matcher skips leading whitespace first, as every pyparsing element does. */
module Lexical {
  import opened Chars
  import opened Ast

  /** A matcher's outcome: the produced value and the position after it, or no
      match (a pyparsing ParseException, which alternatives may recover from). */
  datatype Match<+T> = Match(value: T, next: nat) | NoMatch

  /** The first position at or after `i` that is not whitespace. */
  function SkipWs(s: string, i: nat): (j: nat)
    requires i <= |s|
    ensures i <= j <= |s|
    ensures forall k :: i <= k < j ==> IsWhite(s[k])
    ensures j == |s| || !IsWhite(s[j])
    decreases |s| - i
  {
    if i < |s| && IsWhite(s[i]) then SkipWs(s, i + 1) else i
  }

  /** The end of the longest run of characters satisfying `p` that starts at `i`. */
  function SpanEnd(s: string, i: nat, p: char -> bool): (j: nat)
    requires i <= |s|
    ensures i <= j <= |s|
    ensures forall k :: i <= k < j ==> p(s[k])
    ensures j == |s| || !p(s[j])
    decreases |s| - i
  {
    if i < |s| && p(s[i]) then SpanEnd(s, i + 1, p) else i
  }

  /** pyparsing's `a ^ b` (Or): the alternative that reaches furthest; on a tie
      the one declared first. */
  function Longest<T>(a: Match<T>, b: Match<T>): (r: Match<T>)
    ensures r == a || r == b
    ensures r.Match? <==> a.Match? || b.Match?
    ensures r.Match? && a.Match? ==> a.next <= r.next
    ensures r.Match? && b.Match? ==> b.next <= r.next
    ensures a.Match? && b.Match? && a.next >= b.next ==> r == a
  {
    if a.Match? && (b.NoMatch? || a.next >= b.next) then a else b
  }

  /** `r` is what an Or over `alts` yields: it matches iff one of them does,
      it is one of them, it reaches at least as far as each that matches, and
      every alternative before it that matches falls short of it. */
  ghost predicate IsLongestOf<T>(r: Match<T>, alts: seq<Match<T>>) {
    && (r.Match? <==> exists k :: 0 <= k < |alts| && alts[k].Match?)
    && (r.Match? ==> exists k :: && 0 <= k < |alts| && r == alts[k]
                                 && (forall m :: 0 <= m < |alts| && alts[m].Match? ==> alts[m].next <= r.next)
                                 && (forall m :: 0 <= m < k && alts[m].Match? ==> alts[m].next < r.next))
  }

  lemma LongestOfSingle<T>(a: Match<T>)
    ensures IsLongestOf(a, [a])
  {
    if a.Match? {
      assert [a][0] == a;
    }
  }

  /** Adding one more alternative to an Or: `^` of the Or so far and the new
      alternative is the longest of all, earliest on a tie. */
  lemma LongestOfAppend<T>(a: Match<T>, alts: seq<Match<T>>, b: Match<T>)
    requires IsLongestOf(a, alts)
    ensures IsLongestOf(Longest(a, b), alts + [b])
  {
    var all := alts + [b];
    var r := Longest(a, b);
    assert forall m :: 0 <= m < |alts| ==> all[m] == alts[m];
    assert all[|alts|] == b;
    if r.Match? {
      if a.Match? && r == a {
        var k :| && 0 <= k < |alts| && a == alts[k]
                 && (forall m :: 0 <= m < |alts| && alts[m].Match? ==> alts[m].next <= a.next)
                 && (forall m :: 0 <= m < k && alts[m].Match? ==> alts[m].next < a.next);
        assert r == all[k];
      } else {
        assert r == b && r == all[|alts|];
        if a.Match? {
          assert a.next < b.next;
        }
      }
    } else {
      assert a.NoMatch? && b.NoMatch?;
    }
  }

  /** `a ^ b ^ c ^ d` is the longest of the four, earliest on a tie. */
  lemma LongestOfFour<T>(a: Match<T>, b: Match<T>, c: Match<T>, d: Match<T>)
    ensures IsLongestOf(Longest(Longest(Longest(a, b), c), d), [a, b, c, d])
  {
    LongestOfSingle(a);
    LongestOfAppend(a, [a], b);
    assert [a] + [b] == [a, b];
    LongestOfAppend(Longest(a, b), [a, b], c);
    assert [a, b] + [c] == [a, b, c];
    LongestOfAppend(Longest(Longest(a, b), c), [a, b, c], d);
    assert [a, b, c] + [d] == [a, b, c, d];
  }

  /** pyparsing's `a | b` (MatchFirst): the first alternative that matches. */
  function FirstMatch<T>(a: Match<T>, b: Match<T>): (r: Match<T>)
    ensures a.Match? ==> r == a
    ensures a.NoMatch? ==> r == b
  {
    if a.Match? then a else b
  }

  /** `kw` stands at position `j`, matched exactly or up to case, and no
      identifier character touches it on either side. */
  predicate KeywordAt(s: string, j: nat, kw: string, caseless: bool)
    requires j <= |s|
  {
    && j + |kw| <= |s|
    && (if caseless then Lower(s[j..j + |kw|]) == Lower(kw) else s[j..j + |kw|] == kw)
    && (j + |kw| == |s| || !IsIdentChar(s[j + |kw|]))
    && (j == 0 || !IsIdentChar(s[j - 1]))
  }

  /** A caseless keyword at `j` starts with its first letter, up to case. */
  lemma CaselessKeywordFirstChar(s: string, j: nat, kw: string)
    requires j <= |s| && |kw| > 0
    requires KeywordAt(s, j, kw, true)
    ensures LowerChar(s[j]) == LowerChar(kw[0])
  {
    assert Lower(s[j..j + |kw|])[0] == LowerChar(s[j..j + |kw|][0]);
  }

  /** `Keyword(kw)` / `CaselessKeyword(kw)`: yields the keyword as declared,
      whatever the case of the input. */
  function ParseKeyword(s: string, i: nat, kw: string, caseless: bool): (r: Match<string>)
    requires i <= |s|
    ensures r.Match? <==> KeywordAt(s, SkipWs(s, i), kw, caseless)
    ensures r.Match? ==> r.value == kw && r.next == SkipWs(s, i) + |kw| <= |s|
  {
    var j := SkipWs(s, i);
    if KeywordAt(s, j, kw, caseless) then Match(kw, j + |kw|) else NoMatch
  }

  /** `kws[k]` is the longest of the keywords that stand at `j`, and no keyword
      declared before it that stands at `j` is as long. */
  predicate IsLongestFirst(s: string, j: nat, kws: seq<string>, k: int, caseless: bool)
    requires j <= |s|
  {
    && 0 <= k < |kws|
    && KeywordAt(s, j, kws[k], caseless)
    && (forall m :: 0 <= m < |kws| && KeywordAt(s, j, kws[m], caseless) ==> |kws[m]| <= |kws[k]|)
    && (forall m :: 0 <= m < k && KeywordAt(s, j, kws[m], caseless) ==> |kws[m]| < |kws[k]|)
  }

  /** An Or over keywords: the longest keyword that stands at the position, the
      first declared among equally long ones. */
  function LongestKeyword(s: string, i: nat, kws: seq<string>, caseless: bool): (r: Match<string>)
    requires i <= |s|
    ensures r.Match? <==> exists k :: 0 <= k < |kws| && KeywordAt(s, SkipWs(s, i), kws[k], caseless)
    ensures r.Match? ==> exists k :: IsLongestFirst(s, SkipWs(s, i), kws, k, caseless)
                                     && r.value == kws[k] && r.next == SkipWs(s, i) + |kws[k]|
    ensures r.Match? ==> r.next <= |s|
    decreases |kws|
  {
    if kws == [] then NoMatch
    else
      var front := kws[..|kws| - 1];
      var a := LongestKeyword(s, i, front, caseless);
      var b := ParseKeyword(s, i, kws[|kws| - 1], caseless);
      LongestKeywordStep(s, SkipWs(s, i), kws, front, caseless, a, b);
      Longest(a, b)
  }

  /** None of `kws` stands at `j` when each is too long for what is left or
      begins with another letter. */
  lemma NoKeywordsHere(s: string, j: nat, kws: seq<string>)
    requires j < |s|
    requires forall k :: 0 <= k < |kws| ==> |kws[k]| > 0 && (j + |kws[k]| > |s| || LowerChar(s[j]) != LowerChar(kws[k][0]))
    ensures forall k :: 0 <= k < |kws| ==> !KeywordAt(s, j, kws[k], true) && !KeywordAt(s, j, kws[k], false)
  {
    forall k | 0 <= k < |kws| && j + |kws[k]| <= |s|
      ensures !KeywordAt(s, j, kws[k], true) && !KeywordAt(s, j, kws[k], false)
    {
      assert s[j..j + |kws[k]|][0] == s[j];
      assert Lower(s[j..j + |kws[k]|])[0] == LowerChar(s[j]);
    }
  }

  /** What the Or over keywords yields is one of them, standing where no
      identifier character precedes it. */
  lemma LongestKeywordFound(s: string, i: nat, kws: seq<string>, caseless: bool)
    requires i <= |s|
    ensures var r := LongestKeyword(s, i, kws, caseless);
            r.Match? ==> r.value in kws && (SkipWs(s, i) == 0 || !IsIdentChar(s[SkipWs(s, i) - 1]))
  {
    var j := SkipWs(s, i);
    var r := LongestKeyword(s, i, kws, caseless);
    if r.Match? {
      var k :| IsLongestFirst(s, j, kws, k, caseless) && r.value == kws[k];
      LongestFirstStandsAlone(s, j, kws, k, caseless);
    }
  }

  /** The keyword chosen is one of those declared, and nothing of an
      identifier precedes it. */
  lemma LongestFirstStandsAlone(s: string, j: nat, kws: seq<string>, k: int, caseless: bool)
    requires j <= |s| && IsLongestFirst(s, j, kws, k, caseless)
    ensures kws[k] in kws && (j == 0 || !IsIdentChar(s[j - 1]))
  {
  }

  /** One step of the Or over keywords: the Or over all but the last, then
      the last keyword, make the Or over all of them. */
  lemma LongestKeywordStep(s: string, j: nat, kws: seq<string>, front: seq<string>, caseless: bool,
                           a: Match<string>, b: Match<string>)
    requires j <= |s| && |kws| > 0 && front == kws[..|kws| - 1]
    requires a.Match? <==> exists k :: 0 <= k < |front| && KeywordAt(s, j, front[k], caseless)
    requires a.Match? ==> exists k :: IsLongestFirst(s, j, front, k, caseless)
                                      && a.value == front[k] && a.next == j + |front[k]|
    requires b.Match? <==> KeywordAt(s, j, kws[|kws| - 1], caseless)
    requires b.Match? ==> b.value == kws[|kws| - 1] && b.next == j + |kws[|kws| - 1]| <= |s|
    ensures var r := Longest(a, b);
            && (r.Match? <==> exists k :: 0 <= k < |kws| && KeywordAt(s, j, kws[k], caseless))
            && (r.Match? ==> exists k :: IsLongestFirst(s, j, kws, k, caseless)
                                         && r.value == kws[k] && r.next == j + |kws[k]|)
            && (r.Match? ==> r.next <= |s|)
  {
    var last := |kws| - 1;
    var r := Longest(a, b);
    assert forall m :: 0 <= m < last ==> kws[m] == front[m];
    if r.Match? && r == a {
      var k :| IsLongestFirst(s, j, front, k, caseless) && a.value == front[k] && a.next == j + |front[k]|;
      LongestFirstKept(s, j, kws, k, caseless);
    } else if r.Match? {
      if a.Match? {
        var k :| IsLongestFirst(s, j, front, k, caseless) && a.value == front[k] && a.next == j + |front[k]|;
        LongestFirstLast(s, j, kws, front, caseless, k);
      } else {
        LongestFirstLast(s, j, kws, front, caseless, -1);
      }
    }
  }

  /** The longest-first keyword of all but the last stays so when the last
      keyword is absent or no longer. */
  lemma LongestFirstKept(s: string, j: nat, kws: seq<string>, k: int, caseless: bool)
    requires j <= |s| && |kws| > 0
    requires IsLongestFirst(s, j, kws[..|kws| - 1], k, caseless)
    requires KeywordAt(s, j, kws[|kws| - 1], caseless) ==> |kws[|kws| - 1]| <= |kws[k]|
    ensures IsLongestFirst(s, j, kws, k, caseless)
  {
    var front := kws[..|kws| - 1];
    assert forall m :: 0 <= m < |front| ==> kws[m] == front[m];
  }

  /** The last keyword is the longest-first one when it stands at `j` and the
      earlier ones either do not, or their longest-first one (`k`) is shorter. */
  lemma LongestFirstLast(s: string, j: nat, kws: seq<string>, front: seq<string>, caseless: bool, k: int)
    requires j <= |s| && |kws| > 0 && front == kws[..|kws| - 1]
    requires KeywordAt(s, j, kws[|kws| - 1], caseless)
    requires 0 <= k ==> IsLongestFirst(s, j, front, k, caseless) && |front[k]| < |kws[|kws| - 1]|
    requires k < 0 ==> !exists m :: 0 <= m < |front| && KeywordAt(s, j, front[m], caseless)
    ensures IsLongestFirst(s, j, kws, |kws| - 1, caseless)
  {
    assert forall m :: 0 <= m < |front| ==> kws[m] == front[m];
  }

  /** `Literal(lit)`: the exact text, with no boundary condition. */
  function ParseLiteral(s: string, i: nat, lit: string): (r: Match<string>)
    requires i <= |s|
    ensures r.Match? <==> SkipWs(s, i) + |lit| <= |s| && s[SkipWs(s, i)..SkipWs(s, i) + |lit|] == lit
    ensures r.Match? ==> r.value == lit && r.next == SkipWs(s, i) + |lit|
  {
    var j := SkipWs(s, i);
    if j + |lit| <= |s| && s[j..j + |lit|] == lit then Match(lit, j + |lit|) else NoMatch
  }

  /** `Word(alphanums + '_')` with its Field action: the longest run of word
      characters, digits included. */
  function ParseField(s: string, i: nat): (r: Match<Node>)
    requires i <= |s|
    ensures r.Match? <==> SkipWs(s, i) < |s| && IsWordChar(s[SkipWs(s, i)])
    ensures r.Match? ==> && SkipWs(s, i) < r.next <= |s|
                         && r.value == Field(s[SkipWs(s, i)..r.next])
                         && AllWordChars(r.value.text)
                         && (r.next == |s| || !IsWordChar(s[r.next]))
  {
    var j := SkipWs(s, i);
    var k := SpanEnd(s, j, IsWordChar);
    if j < k then Match(Field(s[j..k]), k) else NoMatch
  }

  /** Length of an optional leading `+` or `-`. */
  function SignLength(t: string): (n: nat)
    ensures n <= 1 && n <= |t|
    ensures n == 1 <==> |t| > 0 && (t[0] == '+' || t[0] == '-')
  {
    if |t| > 0 && (t[0] == '+' || t[0] == '-') then 1 else 0
  }

  predicate IsDigits(t: string) {
    |t| > 0 && forall k :: 0 <= k < |t| ==> IsDigit(t[k])
  }

  /** Integer text: an optional sign and one or more digits, nothing else. */
  predicate IsIntegerText(t: string) {
    IsDigits(t[SignLength(t)..])
  }

  /** Float text: an optional sign, digits, a `.`, digits, nothing else. */
  predicate IsFloatText(t: string) {
    exists p :: SignLength(t) < p < |t| && t[p] == '.' && IsDigits(t[SignLength(t)..p]) && IsDigits(t[p + 1..])
  }

  /** `Combine(Optional(plusorminus) + Word(nums))` with its Integer action. */
  function ParseInteger(s: string, i: nat): (r: Match<Node>)
    requires i <= |s|
    ensures r.Match? <==> var d := SkipWs(s, i) + SignLength(s[SkipWs(s, i)..]); d < |s| && IsDigit(s[d])
    ensures r.Match? ==> && SkipWs(s, i) < r.next <= |s|
                         && r.value == Integer(s[SkipWs(s, i)..r.next])
                         && IsIntegerText(r.value.text)
                         && (r.next == |s| || !IsDigit(s[r.next]))
  {
    var j := SkipWs(s, i);
    var d := j + SignLength(s[j..]);
    var k := SpanEnd(s, d, IsDigit);
    if d < k then
      IntegerTextOfSpan(s, j, d, k);
      Match(Integer(s[j..k]), k)
    else NoMatch
  }

  /** A sign span followed by a non-empty digit span is integer text. */
  lemma IntegerTextOfSpan(s: string, j: nat, d: nat, k: nat)
    requires j <= d < k <= |s|
    requires d == j + SignLength(s[j..])
    requires forall m :: d <= m < k ==> IsDigit(s[m])
    ensures IsIntegerText(s[j..k])
  {
    var t := s[j..k];
    assert t[0] == s[j] == s[j..][0];
    assert SignLength(t) == d - j;
    assert t[d - j..] == s[d..k];
    forall m | 0 <= m < k - d
      ensures IsDigit(s[d..k][m])
    {
      assert s[d..k][m] == s[d + m];
    }
  }

  /** Where the integer part of a float text starting at `j` ends. */
  function FloatDot(s: string, j: nat): (p: nat)
    requires j <= |s|
    ensures j <= p <= |s|
  {
    SpanEnd(s, j + SignLength(s[j..]), IsDigit)
  }

  /** A sign, digits, a dot and a digit start at `j`. */
  predicate FloatAt(s: string, j: nat)
    requires j <= |s|
  {
    var p := FloatDot(s, j);
    j + SignLength(s[j..]) < p < |s| - 1 && s[p] == '.' && IsDigit(s[p + 1])
  }

  /** `Combine(Optional(plusorminus) + Word(nums) + '.' + Word(nums))` with its Float action. */
  function ParseFloat(s: string, i: nat): (r: Match<Node>)
    requires i <= |s|
    ensures r.Match? <==> FloatAt(s, SkipWs(s, i))
    ensures r.Match? ==> && SkipWs(s, i) < r.next <= |s|
                         && r.value == Float(s[SkipWs(s, i)..r.next])
                         && IsFloatText(r.value.text)
                         && (r.next == |s| || !IsDigit(s[r.next]))
  {
    var j := SkipWs(s, i);
    if FloatAt(s, j) then
      var p := FloatDot(s, j);
      var k := SpanEnd(s, p + 1, IsDigit);
      FloatTextOfSpans(s, j, p, k);
      Match(Float(s[j..k]), k)
    else NoMatch
  }

  /** Sign, digits up to `p`, a dot at `p`, digits up to `k`: float text. */
  lemma FloatTextOfSpans(s: string, j: nat, p: nat, k: nat)
    requires j <= p < k <= |s| && s[p] == '.'
    requires j + SignLength(s[j..]) < p
    requires forall m :: j + SignLength(s[j..]) <= m < p ==> IsDigit(s[m])
    requires forall m :: p < m < k ==> IsDigit(s[m])
    requires p + 1 < k
    ensures IsFloatText(s[j..k])
  {
    var t := s[j..k];
    var d := SignLength(s[j..]);
    var q := p - j;
    assert t[0] == s[j];
    assert SignLength(t) == d;
    assert t[q] == '.';
    var before, after := t[d..q], t[q + 1..];
    forall m | 0 <= m < |before|
      ensures IsDigit(before[m])
    {
      assert before[m] == t[d + m] == s[j + d + m];
    }
    forall m | 0 <= m < |after|
      ensures IsDigit(after[m])
    {
      assert after[m] == t[q + 1 + m] == s[p + 1 + m];
    }
    assert d < q < |t| && IsDigits(t[d..q]) && IsDigits(t[q + 1..]);
  }

  /** Neither number rule reads anything where neither a sign nor a digit stands. */
  lemma NoNumberAt(s: string, i: nat)
    requires i <= |s| && SkipWs(s, i) < |s|
    requires !IsDigit(s[SkipWs(s, i)]) && s[SkipWs(s, i)] != '+' && s[SkipWs(s, i)] != '-'
    ensures ParseInteger(s, i).NoMatch? && ParseFloat(s, i).NoMatch?
  {
    var j := SkipWs(s, i);
    assert s[j..][0] == s[j];
    assert SignLength(s[j..]) == 0;
    assert SpanEnd(s, j, IsDigit) == j;
    assert FloatDot(s, j) == j;
  }

  /** May stand inside a string quoted with `q`: neither that quote nor a line break. */
  predicate InQuotes(q: char, c: char) {
    c != q && c != '\n' && c != '\r'
  }

  /** The end of the run of characters from `i` that may stand inside a
      string quoted with `q`. */
  function QuotedEnd(s: string, i: nat, q: char): (j: nat)
    requires i <= |s|
    ensures i <= j <= |s|
    ensures forall k :: i <= k < j ==> InQuotes(q, s[k])
    ensures j == |s| || !InQuotes(q, s[j])
    decreases |s| - i
  {
    if i < |s| && InQuotes(q, s[i]) then QuotedEnd(s, i + 1, q) else i
  }

  /** `QuotedString(q)` with the String action: the text between the quotes. */
  function ParseQuoted(s: string, i: nat, q: char): (r: Match<Node>)
    requires i <= |s|
    ensures r.Match? ==> && SkipWs(s, i) + 2 <= r.next <= |s|
                         && s[SkipWs(s, i)] == q && s[r.next - 1] == q
                         && r.value == String(s[SkipWs(s, i) + 1..r.next - 1])
                         && forall k :: 0 <= k < |r.value.text| ==> InQuotes(q, r.value.text[k])
    ensures r.NoMatch? <==> var j := SkipWs(s, i);
                              !(j < |s| && s[j] == q && QuotedEnd(s, j + 1, q) < |s|
                                && s[QuotedEnd(s, j + 1, q)] == q)
  {
    var j := SkipWs(s, i);
    if j < |s| && s[j] == q then
      var k := QuotedEnd(s, j + 1, q);
      if k < |s| && s[k] == q then Match(String(s[j + 1..k]), k + 1) else NoMatch
    else NoMatch
  }

  /** `QuotedString("'") ^ QuotedString('"')`. */
  function ParseQuotedString(s: string, i: nat): (r: Match<Node>)
    requires i <= |s|
    ensures r.Match? ==> r.value.String? && SkipWs(s, i) < r.next <= |s|
    ensures r.Match? <==> ParseQuoted(s, i, '\'').Match? || ParseQuoted(s, i, '"').Match?
    ensures ParseQuoted(s, i, '\'').Match? ==> r == ParseQuoted(s, i, '\'')
    ensures ParseQuoted(s, i, '"').Match? ==> r == ParseQuoted(s, i, '"')
  {
    Longest(ParseQuoted(s, i, '\''), ParseQuoted(s, i, '"'))
  }

  /** The configured boolean spellings (defined outside the parser). */
  datatype BooleanSpellings = BooleanSpellings(trueValues: seq<string>, falseValues: seq<string>) {
    function All(): seq<string> {
      trueValues + falseValues
    }
  }

  /** `Or([CaselessKeyword(v) for v in true + false spellings])` with its Boolean
      action: the node holds the spelling as configured. */
  function ParseBoolean(s: string, i: nat, sp: BooleanSpellings): (r: Match<Node>)
    requires i <= |s|
    ensures r.Match? <==> exists k :: 0 <= k < |sp.All()| && KeywordAt(s, SkipWs(s, i), sp.All()[k], true)
    ensures r.Match? ==> && r.value.Boolean? && r.value.text in sp.All()
                         && KeywordAt(s, SkipWs(s, i), r.value.text, true)
                         && r.next == SkipWs(s, i) + |r.value.text| <= |s|
    ensures r.Match? ==> exists k :: IsLongestFirst(s, SkipWs(s, i), sp.All(), k, true) && r.value == Boolean(sp.All()[k])
  {
    match LongestKeyword(s, i, sp.All(), true)
    case NoMatch => NoMatch
    case Match(v, k) => Match(Boolean(v), k)
  }

  /** `quoted_string ^ num_integer ^ num_float ^ boolean`. */
  function ParseValue(s: string, i: nat, sp: BooleanSpellings): (r: Match<Node>)
    requires i <= |s|
    ensures r.Match? ==> IsValue(r.value) && SkipWs(s, i) <= r.next <= |s|
    ensures r.Match? <==> || ParseQuotedString(s, i).Match? || ParseInteger(s, i).Match?
                          || ParseFloat(s, i).Match? || ParseBoolean(s, i, sp).Match?
    ensures IsLongestOf(r, [ParseQuotedString(s, i), ParseInteger(s, i), ParseFloat(s, i), ParseBoolean(s, i, sp)])
  {
    var q, n, f, b := ParseQuotedString(s, i), ParseInteger(s, i), ParseFloat(s, i), ParseBoolean(s, i, sp);
    LongestOfFour(q, n, f, b);
    Longest(Longest(Longest(q, n), f), b)
  }
}
