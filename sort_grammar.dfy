/** The sort grammar: a comma-separated list of `[+|-]field` directives. */
module SortGrammar {
  import opened Chars
  import opened Ast
  import opened Lexical

  /** `Literal('+') | Literal('-')` with its SortDirection action. */
  function ParseSign(s: string, i: nat): (r: Match<Node>)
    requires i <= |s|
    ensures r.Match? <==> SkipWs(s, i) < |s| && (s[SkipWs(s, i)] == '+' || s[SkipWs(s, i)] == '-')
    ensures r.Match? ==> && r.value == SortDirection([s[SkipWs(s, i)]])
                         && r.next == SkipWs(s, i) + 1
  {
    var j := SkipWs(s, i);
    assert j < |s| ==> s[j..j + 1] == [s[j]];
    match FirstMatch(ParseLiteral(s, i, "+"), ParseLiteral(s, i, "-"))
    case NoMatch => NoMatch
    case Match(v, k) => Match(SortDirection(v), k)
  }

  /** A SortDirective the grammar builds: an optional `+`/`-` SortDirection,
      then exactly one non-empty Field. */
  predicate WellFormedDirective(d: Node) {
    && d.SortDirective?
    && 1 <= |d.tokens| <= 2
    && d.tokens[|d.tokens| - 1].Field?
    && d.tokens[|d.tokens| - 1].text != []
    && AllWordChars(d.tokens[|d.tokens| - 1].text)
    && (|d.tokens| == 2 ==> d.tokens[0] == SortDirection("+") || d.tokens[0] == SortDirection("-"))
  }

  /** `sort_directive`: `Group(Optional(plusorminus) + field)` as a SortDirective. */
  function ParseSortDirective(s: string, i: nat): (r: Match<Node>)
    requires i <= |s|
    ensures r.Match? ==> WellFormedDirective(r.value) && SkipWs(s, i) < r.next <= |s|
    ensures var sign := ParseSign(s, i);
            var f := ParseField(s, if sign.Match? then sign.next else SkipWs(s, i));
            && (r.Match? <==> f.Match?)
            && (r.Match? ==> r.next == f.next)
            && (r.Match? && sign.Match? ==> r.value == SortDirective([sign.value, f.value]))
            && (r.Match? && sign.NoMatch? ==> r.value == SortDirective([f.value]))
  {
    var sign := ParseSign(s, i);
    var at := if sign.Match? then sign.next else SkipWs(s, i);
    match ParseField(s, at)
    case NoMatch => NoMatch
    case Match(f, k) =>
      var toks := (if sign.Match? then [sign.value] else []) + [f];
      FlattenOneLevel(toks, []);
      DirectiveOfParts(sign, f, toks);
      Match(SortDirective(Flatten([toks])), k)
  }

  /** An optional sign and a field make a well-formed directive. */
  lemma DirectiveOfParts(sign: Match<Node>, f: Node, toks: seq<Node>)
    requires sign.Match? ==> sign.value.SortDirection? && |sign.value.text| == 1
                             && (sign.value.text[0] == '+' || sign.value.text[0] == '-')
    requires f.Field? && f.text != [] && AllWordChars(f.text)
    requires toks == (if sign.Match? then [sign.value] else []) + [f]
    ensures WellFormedDirective(SortDirective(toks))
  {
    if sign.Match? {
      assert sign.value.text == [sign.value.text[0]];
    }
  }

  /** The `,` token: the separator is matched by a plain Literal, so it stays
      in the result between the directives. */
  const Comma: Node := Text(",")

  /** What `ZeroOrMore(Literal(',') + sort_directive)` collects. */
  predicate IsCommaDirectives(items: seq<Node>) {
    && |items| % 2 == 0
    && forall k :: 0 <= k < |items| ==> if k % 2 == 0 then items[k] == Comma else WellFormedDirective(items[k])
  }

  lemma CommaDirectivesCons(d: Node, rest: seq<Node>)
    requires WellFormedDirective(d) && IsCommaDirectives(rest)
    ensures IsCommaDirectives([Comma, d] + rest)
  {
    var items := [Comma, d] + rest;
    forall k | 2 <= k < |items|
      ensures if k % 2 == 0 then items[k] == Comma else WellFormedDirective(items[k])
    {
      assert items[k] == rest[k - 2] && (k - 2) % 2 == k % 2;
    }
  }

  /** The whole sort result: an optional leading directive, then `,`-directive pairs. */
  predicate IsSortList(items: seq<Node>) {
    IsCommaDirectives(items) || (items != [] && WellFormedDirective(items[0]) && IsCommaDirectives(items[1..]))
  }

  /** `ZeroOrMore(Literal(',') + sort_directive)`: never fails; ends where the
      last pair ended, or at `i` when there is none. */
  function ParseSortMore(s: string, i: nat): (r: Match<seq<Node>>)
    requires i <= |s|
    ensures r.Match? && IsCommaDirectives(r.value) && i <= r.next <= |s|
    ensures r.value == [] ==> r.next == i
    ensures ParseLiteral(s, i, ",").NoMatch? ==> r == Match([], i)
    ensures ParseLiteral(s, i, ",").Match? ==>
              var d := ParseSortDirective(s, ParseLiteral(s, i, ",").next);
              && (d.NoMatch? ==> r == Match([], i))
              && (d.Match? ==> r == Match([Comma, d.value] + ParseSortMore(s, d.next).value, ParseSortMore(s, d.next).next))
    decreases |s| - i
  {
    match ParseLiteral(s, i, ",")
    case NoMatch => Match([], i)
    case Match(c, k) =>
      match ParseSortDirective(s, k)
      case NoMatch => Match([], i)
      case Match(d, k') =>
        var rest := ParseSortMore(s, k');
        CommaDirectivesCons(d, rest.value);
        Match([Comma, d] + rest.value, rest.next)
  }

  /** The sort grammar applied to a whole sort string:
      `Optional(sort_directive) + ZeroOrMore(Literal(',') + sort_directive)`. */
  function ParseSort(s: string): (r: Match<seq<Node>>)
    ensures r.Match? && r.next <= |s| && IsSortList(r.value)
    ensures s == [] ==> r == Match([], 0)
    ensures ParseSortDirective(s, 0).Match? ==>
              r.value == [ParseSortDirective(s, 0).value] + ParseSortMore(s, ParseSortDirective(s, 0).next).value
    ensures ParseSortDirective(s, 0).NoMatch? ==> r.value == ParseSortMore(s, SkipWs(s, 0)).value
  {
    var first := ParseSortDirective(s, 0);
    var start := if first.Match? then first.next else SkipWs(s, 0);
    var more := ParseSortMore(s, start);
    var items := (if first.Match? then [first.value] else []) + more.value;
    SortListOf(first, more.value);
    Match(items, if more.value == [] then SkipWs(s, start) else more.next)
  }

  /** An optional well-formed directive followed by comma-directive pairs is a sort list. */
  lemma SortListOf(first: Match<Node>, more: seq<Node>)
    requires first.Match? ==> WellFormedDirective(first.value)
    requires IsCommaDirectives(more)
    ensures IsSortList((if first.Match? then [first.value] else []) + more)
  {
    var items := (if first.Match? then [first.value] else []) + more;
    if first.Match? {
      assert items[1..] == more;
    } else {
      assert items == more;
    }
  }

  /** A well-formed directive has exactly one Field, read back by `field`, and
      `direction` gives its sign, or `+` when it has none. */
  lemma DirectiveAccessors(d: Node)
    requires WellFormedDirective(d)
    ensures SortDirectiveField(d) == Some(d.tokens[|d.tokens| - 1])
    ensures |FilterClass(d.tokens, FieldClass)| == 1
    ensures |FilterClass(d.tokens, SortDirectionClass)| == |d.tokens| - 1
    ensures SortDirectiveDirection(d) == if |d.tokens| == 2 then d.tokens[0] else SortDirection("+")
  {
    DirectiveFieldOf(d);
    DirectiveDirectionOf(d);
  }

  lemma DirectiveFieldOf(d: Node)
    requires WellFormedDirective(d)
    ensures SortDirectiveField(d) == Some(d.tokens[|d.tokens| - 1])
    ensures |FilterClass(d.tokens, FieldClass)| == 1
  {
    FilterClassOfFew(d.tokens, FieldClass);
    FirstOfClassIsHeadOfFilter(d.tokens, FieldClass);
  }

  lemma DirectiveDirectionOf(d: Node)
    requires WellFormedDirective(d)
    ensures |FilterClass(d.tokens, SortDirectionClass)| == |d.tokens| - 1
    ensures SortDirectiveDirection(d) == if |d.tokens| == 2 then d.tokens[0] else SortDirection("+")
  {
    FilterClassOfFew(d.tokens, SortDirectionClass);
    FirstOfClassIsHeadOfFilter(d.tokens, SortDirectionClass);
  }

  /** The text with every whitespace character removed. */
  function RemoveWs(t: string): (r: string)
    ensures |r| <= |t|
  {
    if t == [] then [] else (if IsWhite(t[0]) then [] else [t[0]]) + RemoveWs(t[1..])
  }

  lemma {:induction false} RemoveWsAppend(a: string, b: string)
    ensures RemoveWs(a + b) == RemoveWs(a) + RemoveWs(b)
  {
    if a == [] {
      assert a + b == b;
    } else {
      assert (a + b)[0] == a[0] && (a + b)[1..] == a[1..] + b;
      RemoveWsAppend(a[1..], b);
    }
  }

  lemma {:induction false} RemoveWsOfWhite(t: string)
    requires forall k :: 0 <= k < |t| ==> IsWhite(t[k])
    ensures RemoveWs(t) == []
  {
    if t != [] {
      RemoveWsOfWhite(t[1..]);
    }
  }

  lemma {:induction false} RemoveWsOfWord(t: string)
    requires AllWordChars(t)
    ensures RemoveWs(t) == t
  {
    if t != [] {
      assert IsWordChar(t[0]) && !IsWhite(t[0]);
      assert AllWordChars(t[1..]);
      RemoveWsOfWord(t[1..]);
      assert [t[0]] + t[1..] == t;
    }
  }

  /** Removing whitespace from s[a..c] is removing it from s[a..b] and s[b..c]. */
  lemma RemoveWsSplit(s: string, a: nat, b: nat, c: nat)
    requires a <= b <= c <= |s|
    ensures RemoveWs(s[a..c]) == RemoveWs(s[a..b]) + RemoveWs(s[b..c])
  {
    assert s[a..c] == s[a..b] + s[b..c];
    RemoveWsAppend(s[a..b], s[b..c]);
  }

  lemma RemoveWsSkipped(s: string, i: nat)
    requires i <= |s|
    ensures RemoveWs(s[i..SkipWs(s, i)]) == []
  {
    RemoveWsOfWhite(s[i..SkipWs(s, i)]);
  }

  /** The text a sort item stands for: `,`, or the sign and the field name. */
  function ItemText(n: Node): string {
    match n
    case SortDirective(ts) => if |ts| == 2 then TokenText(ts[0]) + TokenText(ts[1]) else if |ts| == 1 then TokenText(ts[0]) else []
    case _ => TokenText(n)
  }

  function TokenText(n: Node): string {
    match n
    case Text(t) => t
    case Field(t) => t
    case SortDirection(t) => t
    case _ => []
  }

  /** The concatenated texts of a sort result. */
  function RenderSort(items: seq<Node>): string {
    if items == [] then [] else ItemText(items[0]) + RenderSort(items[1..])
  }

  lemma {:induction false} RenderSortAppend(a: seq<Node>, b: seq<Node>)
    ensures RenderSort(a + b) == RenderSort(a) + RenderSort(b)
  {
    if a == [] {
      assert a + b == b;
    } else {
      assert (a + b)[0] == a[0] && (a + b)[1..] == a[1..] + b;
      RenderSortAppend(a[1..], b);
    }
  }

  /** A directive stands for exactly the non-whitespace text it consumed. */
  lemma DirectiveKeepsText(s: string, i: nat)
    requires i <= |s|
    requires ParseSortDirective(s, i).Match?
    ensures ItemText(ParseSortDirective(s, i).value) == RemoveWs(s[i..ParseSortDirective(s, i).next])
  {
    var sign := ParseSign(s, i);
    var at := if sign.Match? then sign.next else SkipWs(s, i);
    var f := ParseField(s, at);
    FieldKeepsText(s, at);
    RemoveWsSplit(s, i, at, f.next);
    if sign.Match? {
      SignKeepsText(s, i);
      DirectiveText(sign.value.text, f.value.text);
    } else {
      RemoveWsSkipped(s, i);
      DirectiveText([], f.value.text);
      assert [] + f.value.text == f.value.text;
    }
  }

  /** The text of a directive is its sign, if any, then its field name. */
  lemma DirectiveText(sign: string, name: string)
    ensures ItemText(SortDirective([SortDirection(sign), Field(name)])) == sign + name
    ensures ItemText(SortDirective([Field(name)])) == name
  {
  }

  /** A field loses nothing but the whitespace before it. */
  lemma FieldKeepsText(s: string, at: nat)
    requires at <= |s| && ParseField(s, at).Match?
    ensures RemoveWs(s[at..ParseField(s, at).next]) == ParseField(s, at).value.text
  {
    var f := ParseField(s, at);
    var fj := SkipWs(s, at);
    var w := s[fj..f.next];
    assert f.value.text == w && AllWordChars(w);
    RemoveWsSplit(s, at, fj, f.next);
    RemoveWsSkipped(s, at);
    RemoveWsOfWord(w);
    assert RemoveWs(s[at..f.next]) == [] + w;
  }

  /** A sign loses nothing but the whitespace before it. */
  lemma SignKeepsText(s: string, i: nat)
    requires i <= |s| && ParseSign(s, i).Match?
    ensures RemoveWs(s[i..ParseSign(s, i).next]) == ParseSign(s, i).value.text
  {
    var j := SkipWs(s, i);
    var at := ParseSign(s, i).next;
    RemoveWsSplit(s, i, j, at);
    RemoveWsSkipped(s, i);
    assert s[j..at] == [s[j]];
    assert RemoveWs([s[j]]) == [s[j]] + RemoveWs([]);
  }

  lemma {:induction false} SortMoreKeepsText(s: string, i: nat)
    requires i <= |s|
    ensures RenderSort(ParseSortMore(s, i).value) == RemoveWs(s[i..ParseSortMore(s, i).next])
    decreases |s| - i
  {
    var r := ParseSortMore(s, i);
    var c := ParseLiteral(s, i, ",");
    if c.Match? && ParseSortDirective(s, c.next).Match? {
      var k := c.next;
      var d := ParseSortDirective(s, k);
      var rest := ParseSortMore(s, d.next);
      assert r.value == [Comma, d.value] + rest.value && r.next == rest.next;
      CommaKeepsText(s, i);
      SortMoreKeepsText(s, d.next);
      DirectiveKeepsText(s, k);
      SortMoreStep(s, i, k, d.next, rest.next, d.value, rest.value);
    } else {
      assert r.value == [] && r.next == i;
      assert s[i..i] == [];
    }
  }

  /** The separator loses nothing but the whitespace before it. */
  lemma CommaKeepsText(s: string, i: nat)
    requires i <= |s| && ParseLiteral(s, i, ",").Match?
    ensures RemoveWs(s[i..ParseLiteral(s, i, ",").next]) == ","
  {
    var k := ParseLiteral(s, i, ",").next;
    var j := SkipWs(s, i);
    RemoveWsSplit(s, i, j, k);
    RemoveWsSkipped(s, i);
    assert s[j..k] == ",";
    assert RemoveWs(s[j..k]) == "," + RemoveWs([]);
  }

  /** A comma, a directive and the rest, each keeping its text, keep the
      text of all three together. */
  lemma SortMoreStep(s: string, i: nat, k: nat, m: nat, e: nat, d: Node, rest: seq<Node>)
    requires i <= k <= m <= e <= |s|
    requires RemoveWs(s[i..k]) == ","
    requires ItemText(d) == RemoveWs(s[k..m])
    requires RenderSort(rest) == RemoveWs(s[m..e])
    ensures RenderSort([Comma, d] + rest) == RemoveWs(s[i..e])
  {
    RemoveWsSplit(s, i, k, e);
    RemoveWsSplit(s, k, m, e);
    RenderSortAppend([Comma, d], rest);
    assert RenderSort([Comma, d]) == "," + (ItemText(d) + RenderSort([]));
  }


  /** Sort directives come out in input order and lose nothing but whitespace:
      rendered back to text they give the consumed input without its whitespace. */
  lemma SortKeepsText(s: string)
    ensures RenderSort(ParseSort(s).value) == RemoveWs(s[..ParseSort(s).next])
  {
    var r := ParseSort(s);
    var first := ParseSortDirective(s, 0);
    var start := if first.Match? then first.next else SkipWs(s, 0);
    var more := ParseSortMore(s, start);
    var e := r.next;
    assert s[..e] == s[0..e];
    assert RemoveWs(s[start..e]) == RenderSort(more.value) by {
      SortMoreKeepsText(s, start);
      if more.value == [] {
        RemoveWsSkipped(s, start);
        assert s[start..start] == [];
      }
    }
    RemoveWsSplit(s, 0, start, e);
    if first.Match? {
      assert r.value == [first.value] + more.value;
      DirectiveKeepsText(s, 0);
      RenderSortAppend([first.value], more.value);
      assert RenderSort([first.value]) == ItemText(first.value) + RenderSort([]);
    } else {
      assert r.value == more.value;
      RemoveWsSkipped(s, 0);
    }
  }
}
