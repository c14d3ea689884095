/** The filter grammar: comparison operators, the four comparison shapes, the
    value-against-value trap, and `and`/`or` chains of statements with
    parenthesised sub-expressions, as recursive-descent functions. */
module FilterGrammar {
  import opened Chars
  import opened Ast
  import opened Lexical

  /** Operators matched with case-sensitive `Keyword`, in declaration order. */
  const CaseSensitiveOperators: seq<string> := ["=", "!=", ">=", "<=", "<", ">", "lte", "lt", "gte", "gt"]

  /** Operators matched with `CaselessKeyword`, the only ones `not` may precede. */
  const TextualOperators: seq<string> := ["contains", "icontains", "startswith", "istartswith", "endswith", "iendswith", "eq"]

  lemma OperatorSpellingsNonEmpty()
    ensures forall v :: v in CaseSensitiveOperators ==> |v| > 0
    ensures forall v :: v in TextualOperators ==> |v| > 0
  {
  }

  /** An Operator the comparison operator rule can build: one verb, and a
      leading Negation only before a textual verb. */
  predicate IsBinaryOperator(n: Node) {
    && n.Operator?
    && (|| (|n.tokens| == 1 && n.tokens[0].Text?
            && (n.tokens[0].text in CaseSensitiveOperators || n.tokens[0].text in TextualOperators))
        || (|n.tokens| == 2 && n.tokens[0] == Negation("not")
            && n.tokens[1].Text? && n.tokens[1].text in TextualOperators))
  }

  /** An Operator the unary rule can build: `isnull`, possibly negated. */
  predicate IsUnaryOperator(n: Node) {
    n == Operator([Text("isnull")]) || n == Operator([Negation("not"), Text("isnull")])
  }

  /** No identifier character stands right before position `j`. */
  predicate AfterBoundary(s: string, j: nat)
    requires j <= |s|
  {
    j == 0 || !IsIdentChar(s[j - 1])
  }

  /** Where the verb after an optional `not` starts: past the `not` when one
      stands at the position, else past the whitespace. */
  function VerbStart(s: string, i: nat): (j: nat)
    requires i <= |s|
    ensures SkipWs(s, i) <= j <= |s|
  {
    var neg := ParseKeyword(s, i, "not", true);
    SkipWs(s, if neg.Match? then neg.next else SkipWs(s, i))
  }

  /** `Optional(negation) + (verb ^ verb ^ ...)`: the verb as declared, after a
      Negation node when `not` precedes it. */
  function ParseNegatable(s: string, i: nat, verbs: seq<string>): (r: Match<seq<Node>>)
    requires i <= |s|
    requires forall v :: v in verbs ==> |v| > 0
    ensures r.Match? ==> SkipWs(s, i) < r.next <= |s|
    ensures r.Match? ==> && 1 <= |r.value| <= 2 && r.value[|r.value| - 1].Text?
                         && r.value[|r.value| - 1].text in verbs
                         && (|r.value| == 2 ==> r.value[0] == Negation("not"))
    ensures r.Match? <==> exists k :: 0 <= k < |verbs| && KeywordAt(s, VerbStart(s, i), verbs[k], true)
    ensures r.Match? ==> exists k :: && IsLongestFirst(s, VerbStart(s, i), verbs, k, true)
                                     && r.value[|r.value| - 1] == Text(verbs[k])
                                     && r.next == VerbStart(s, i) + |verbs[k]|
    ensures r.Match? ==> (|r.value| == 2 <==> ParseKeyword(s, i, "not", true).Match?)
    ensures r.Match? ==> AfterBoundary(s, SkipWs(s, i))
  {
    var neg := ParseKeyword(s, i, "not", true);
    var at := if neg.Match? then neg.next else SkipWs(s, i);
    match LongestKeyword(s, at, verbs, true)
    case NoMatch => NoMatch
    case Match(v, k) =>
      VerbStartBoundary(s, i, verbs);
      Match((if neg.Match? then [Negation("not")] else []) + [Text(v)], k)
  }

  /** Where a verb stands after the optional `not`, no identifier character
      precedes the whole operator. */
  lemma VerbStartBoundary(s: string, i: nat, verbs: seq<string>)
    requires i <= |s|
    requires exists k :: 0 <= k < |verbs| && KeywordAt(s, VerbStart(s, i), verbs[k], true)
    ensures AfterBoundary(s, SkipWs(s, i))
  {
    var j := SkipWs(s, i);
    if !ParseKeyword(s, i, "not", true).Match? {
      assert SkipWs(s, j) == j;
      var k :| 0 <= k < |verbs| && KeywordAt(s, VerbStart(s, i), verbs[k], true);
      assert VerbStart(s, i) == j;
    }
  }

  /** The case-sensitive alternatives of `comparison_operator`: the longest
      of them that stands at the position, as one Text token. */
  function ParseSymbolicOperator(s: string, i: nat): (r: Match<seq<Node>>)
    requires i <= |s|
    ensures r.Match? ==> && SymbolicTokens(r.value)
                         && SkipWs(s, i) < r.next <= |s| && AfterBoundary(s, SkipWs(s, i))
    ensures r.Match? <==> exists k :: 0 <= k < |CaseSensitiveOperators| && KeywordAt(s, SkipWs(s, i), CaseSensitiveOperators[k], false)
    ensures r.Match? ==> exists k :: && IsLongestFirst(s, SkipWs(s, i), CaseSensitiveOperators, k, false)
                                     && r.value == [Text(CaseSensitiveOperators[k])]
                                     && r.next == SkipWs(s, i) + |CaseSensitiveOperators[k]|
  {
    OperatorSpellingsNonEmpty();
    LongestKeywordFound(s, i, CaseSensitiveOperators, false);
    match LongestKeyword(s, i, CaseSensitiveOperators, false)
    case NoMatch => NoMatch
    case Match(v, k) => Match([Text(v)], k)
  }

  /** The tokens of a case-sensitive operator: its one spelling. */
  predicate SymbolicTokens(t: seq<Node>) {
    |t| == 1 && t[0].Text? && t[0].text in CaseSensitiveOperators
  }

  /** The tokens of a textual operator: its spelling, after an optional `not`. */
  predicate TextualTokens(t: seq<Node>) {
    && 1 <= |t| <= 2 && t[|t| - 1].Text? && t[|t| - 1].text in TextualOperators
    && (|t| == 2 ==> t[0] == Negation("not"))
  }

  /** The textual alternatives of `comparison_operator`, possibly negated. */
  function ParseTextualOperator(s: string, i: nat): (r: Match<seq<Node>>)
    requires i <= |s|
    ensures r.Match? ==> && TextualTokens(r.value)
                         && SkipWs(s, i) < r.next <= |s| && AfterBoundary(s, SkipWs(s, i))
    ensures r.Match? <==> exists k :: 0 <= k < |TextualOperators| && KeywordAt(s, VerbStart(s, i), TextualOperators[k], true)
    ensures r.Match? ==> exists k :: && IsLongestFirst(s, VerbStart(s, i), TextualOperators, k, true)
                                     && r.value[|r.value| - 1] == Text(TextualOperators[k])
                                     && r.next == VerbStart(s, i) + |TextualOperators[k]|
    ensures r.Match? ==> (|r.value| == 2 <==> ParseKeyword(s, i, "not", true).Match?)
  {
    OperatorSpellingsNonEmpty();
    ParseNegatable(s, i, TextualOperators)
  }

  /** `comparison_operator`: an Or over the case-sensitive operators and the
      optionally negated textual ones, grouped into an Operator node. */
  function ParseComparisonOperator(s: string, i: nat): (r: Match<Node>)
    requires i <= |s|
    ensures r.Match? ==> IsBinaryOperator(r.value) && SkipWs(s, i) < r.next <= |s|
    ensures r.Match? <==> ParseSymbolicOperator(s, i).Match? || ParseTextualOperator(s, i).Match?
    ensures r.Match? ==> IsLongestOf(Match(r.value.tokens, r.next), [ParseSymbolicOperator(s, i), ParseTextualOperator(s, i)])
    ensures r.Match? ==> AfterBoundary(s, SkipWs(s, i))
  {
    var symbolic := ParseSymbolicOperator(s, i);
    var textual := ParseTextualOperator(s, i);
    BinaryOperatorOfLongest(symbolic, textual);
    OperatorOfLongest(symbolic, textual);
    match Longest(symbolic, textual)
    case NoMatch => NoMatch
    case Match(toks, k) =>
      FlattenOneLevel(toks, []);
      Match(Operator(Flatten([toks])), k)
  }

  /** The Operator grouped from an Or of two token lists holds the tokens of
      the longer alternative, the first on a tie. */
  lemma OperatorOfLongest(a: Match<seq<Node>>, b: Match<seq<Node>>)
    ensures var l := Longest(a, b);
            l.Match? ==> IsLongestOf(Match(Operator(Flatten([l.value])).tokens, l.next), [a, b])
  {
    LongestOfSingle(a);
    LongestOfAppend(a, [a], b);
    assert [a] + [b] == [a, b];
    var l := Longest(a, b);
    if l.Match? {
      FlattenOneLevel(l.value, []);
      assert Match(Operator(Flatten([l.value])).tokens, l.next) == l;
    }
  }

  /** Either alternative of the comparison operator Or makes a binary Operator. */
  lemma BinaryOperatorOfLongest(a: Match<seq<Node>>, b: Match<seq<Node>>)
    requires a.Match? ==> SymbolicTokens(a.value)
    requires b.Match? ==> TextualTokens(b.value)
    ensures Longest(a, b).Match? ==> IsBinaryOperator(Operator(Longest(a, b).value))
  {
  }

  /** `single_value_operator`: `isnull ^ (Optional(negation) + isnull)`. */
  function ParseUnaryOperator(s: string, i: nat): (r: Match<Node>)
    requires i <= |s|
    ensures r.Match? <==> || KeywordAt(s, SkipWs(s, i), "isnull", true)
                          || (ParseKeyword(s, i, "not", true).Match? && KeywordAt(s, VerbStart(s, i), "isnull", true))
    ensures r.Match? ==> (r.value == Operator([Negation("not"), Text("isnull")]) <==> ParseKeyword(s, i, "not", true).Match?)
    ensures r.Match? ==> r.next == VerbStart(s, i) + |"isnull"|
    ensures r.Match? ==> IsUnaryOperator(r.value) && SkipWs(s, i) < r.next <= |s|
  {
    NotAndIsNullApart(s, SkipWs(s, i));
    var plain := match ParseKeyword(s, i, "isnull", true)
                 case NoMatch => NoMatch
                 case Match(v, k) => Match([Text(v)], k);
    var negatable := ParseNegatable(s, i, ["isnull"]);
    UnaryOperatorOfLongest(plain, negatable);
    match Longest(plain, negatable)
    case NoMatch => NoMatch
    case Match(toks, k) =>
      FlattenOneLevel(toks, []);
      Match(Operator(Flatten([toks])), k)
  }

  /** `not` and `isnull` never stand at the same position. */
  lemma NotAndIsNullApart(s: string, j: nat)
    requires j <= |s|
    ensures !(KeywordAt(s, j, "not", true) && KeywordAt(s, j, "isnull", true))
  {
    if KeywordAt(s, j, "not", true) && KeywordAt(s, j, "isnull", true) {
      CaselessKeywordFirstChar(s, j, "not");
      CaselessKeywordFirstChar(s, j, "isnull");
      assert false;
    }
  }

  /** Either alternative of the unary operator Or makes a unary Operator. */
  lemma UnaryOperatorOfLongest(a: Match<seq<Node>>, b: Match<seq<Node>>)
    requires a.Match? ==> a.value == [Text("isnull")]
    requires b.Match? ==> && 1 <= |b.value| <= 2 && b.value[|b.value| - 1].Text?
                          && b.value[|b.value| - 1].text in ["isnull"]
                          && (|b.value| == 2 ==> b.value[0] == Negation("not"))
    ensures Longest(a, b).Match? ==> IsUnaryOperator(Operator(Longest(a, b).value))
  {
    if b.Match? {
      if |b.value| == 1 {
        assert b.value == [Text("isnull")];
      } else {
        assert b.value == [Negation("not"), Text("isnull")];
      }
    }
  }

  /** The elements a comparison shape is a sequence of. */
  datatype Piece = FieldPiece | OperatorPiece | UnaryOperatorPiece | ValuePiece

  predicate Fits(n: Node, p: Piece) {
    match p
    case FieldPiece => n.Field?
    case OperatorPiece => IsBinaryOperator(n)
    case UnaryOperatorPiece => IsUnaryOperator(n)
    case ValuePiece => IsValue(n)
  }

  function ParsePiece(s: string, i: nat, p: Piece, sp: BooleanSpellings): (r: Match<Node>)
    requires i <= |s|
    ensures r.Match? ==> Fits(r.value, p) && i <= r.next <= |s|
    ensures r.Match? && p != ValuePiece ==> i < r.next
  {
    match p
    case FieldPiece => ParseField(s, i)
    case OperatorPiece => ParseComparisonOperator(s, i)
    case UnaryOperatorPiece => ParseUnaryOperator(s, i)
    case ValuePiece => ParseValue(s, i, sp)
  }

  /** pyparsing's `a + b + ...` (And): each piece where the previous one ended. */
  function ParseSequence(s: string, i: nat, pieces: seq<Piece>, sp: BooleanSpellings): (r: Match<seq<Node>>)
    requires i <= |s|
    ensures r.Match? ==> && |r.value| == |pieces| && i <= r.next <= |s|
                         && forall k :: 0 <= k < |pieces| ==> Fits(r.value[k], pieces[k])
    ensures r.Match? && (exists k :: 0 <= k < |pieces| && pieces[k] != ValuePiece) ==> i < r.next
    decreases |pieces|
  {
    if pieces == [] then Match([], i)
    else
      match ParsePiece(s, i, pieces[0], sp)
      case NoMatch => NoMatch
      case Match(n, k) =>
        match ParseSequence(s, k, pieces[1..], sp)
        case NoMatch => NoMatch
        case Match(ns, e) =>
          SequenceStep(pieces, n, ns, i, k, e);
          Match([n] + ns, e)
  }

  /** The first node and the nodes of the rest fit the pieces in order. */
  lemma SequenceStep(pieces: seq<Piece>, n: Node, ns: seq<Node>, i: nat, k: nat, e: nat)
    requires |pieces| > 0 && Fits(n, pieces[0]) && i <= k <= e
    requires pieces[0] != ValuePiece ==> i < k
    requires |ns| == |pieces| - 1 && forall m :: 0 <= m < |ns| ==> Fits(ns[m], pieces[1..][m])
    requires (exists m :: 0 <= m < |pieces| - 1 && pieces[1..][m] != ValuePiece) ==> k < e
    ensures |[n] + ns| == |pieces| && forall m :: 0 <= m < |pieces| ==> Fits(([n] + ns)[m], pieces[m])
    ensures (exists m :: 0 <= m < |pieces| && pieces[m] != ValuePiece) ==> i < e
  {
    forall m | 0 <= m < |pieces|
      ensures Fits(([n] + ns)[m], pieces[m])
    {
      if m > 0 {
        assert ([n] + ns)[m] == ns[m - 1] && pieces[m] == pieces[1..][m - 1];
      }
    }
    if exists m :: 0 <= m < |pieces| && pieces[m] != ValuePiece {
      var m :| 0 <= m < |pieces| && pieces[m] != ValuePiece;
      if m > 0 {
        assert pieces[1..][m - 1] != ValuePiece;
      }
    }
  }

  const FieldOpValue: seq<Piece> := [FieldPiece, OperatorPiece, ValuePiece]
  const ValueOpField: seq<Piece> := [ValuePiece, OperatorPiece, FieldPiece]
  const FieldOpField: seq<Piece> := [FieldPiece, OperatorPiece, FieldPiece]
  const FieldUnary: seq<Piece> := [FieldPiece, UnaryOperatorPiece]
  const ValueOpValue: seq<Piece> := [ValuePiece, OperatorPiece, ValuePiece]

  /** A Comparison one of the four shapes builds. */
  predicate WellFormedComparison(c: Node) {
    && c.Comparison?
    && (|| (&& |c.tokens| == 3 && IsBinaryOperator(c.tokens[1])
            && ((c.tokens[0].Field? && (IsValue(c.tokens[2]) || c.tokens[2].Field?))
                || (IsValue(c.tokens[0]) && c.tokens[2].Field?)))
        || (|c.tokens| == 2 && c.tokens[0].Field? && IsUnaryOperator(c.tokens[1])))
  }

  /** `comparison`: the Or of `field op value`, `value op field`,
      `field op field` and `field unary-op`, grouped into a Comparison node. */
  function ParseComparison(s: string, i: nat, sp: BooleanSpellings): (r: Match<Node>)
    requires i <= |s|
    ensures r.Match? ==> WellFormedComparison(r.value) && i < r.next <= |s|
    ensures r.NoMatch? <==> && ParseSequence(s, i, FieldOpValue, sp).NoMatch?
                            && ParseSequence(s, i, ValueOpField, sp).NoMatch?
                            && ParseSequence(s, i, FieldOpField, sp).NoMatch?
                            && ParseSequence(s, i, FieldUnary, sp).NoMatch?
    ensures r.Match? ==> IsLongestOf(Match(r.value.tokens, r.next),
                                     [ParseSequence(s, i, FieldOpValue, sp), ParseSequence(s, i, ValueOpField, sp),
                                      ParseSequence(s, i, FieldOpField, sp), ParseSequence(s, i, FieldUnary, sp)])
  {
    var a, b, c, d := ParseSequence(s, i, FieldOpValue, sp), ParseSequence(s, i, ValueOpField, sp),
                      ParseSequence(s, i, FieldOpField, sp), ParseSequence(s, i, FieldUnary, sp);
    var best := Longest(Longest(Longest(a, b), c), d);
    LongestOfFour(a, b, c, d);
    match best
    case NoMatch => NoMatch
    case Match(toks, k) =>
      ShapeIsWellFormed(s, i, sp);
      FlattenOneLevel(toks, []);
      assert Match(Comparison(Flatten([toks])).tokens, k) == best;
      Match(Comparison(Flatten([toks])), k)
  }

  /** Whatever one of the four shapes matches makes a well-formed Comparison,
      and it moves past the operator. */
  lemma ShapeIsWellFormed(s: string, i: nat, sp: BooleanSpellings)
    requires i <= |s|
    ensures forall shape ::
              (shape in [FieldOpValue, ValueOpField, FieldOpField, FieldUnary] && ParseSequence(s, i, shape, sp).Match?) ==>
                 WellFormedComparison(Comparison(ParseSequence(s, i, shape, sp).value))
                 && i < ParseSequence(s, i, shape, sp).next
  {
    forall shape | shape in [FieldOpValue, ValueOpField, FieldOpField, FieldUnary] && ParseSequence(s, i, shape, sp).Match?
      ensures WellFormedComparison(Comparison(ParseSequence(s, i, shape, sp).value))
      ensures i < ParseSequence(s, i, shape, sp).next
    {
      var toks := ParseSequence(s, i, shape, sp).value;
      assert shape[1] != ValuePiece;
      assert forall k :: 0 <= k < |shape| ==> Fits(toks[k], shape[k]);
    }
  }

  /** The outcome of a statement or expression: the nodes and the position
      after them, no match (a syntax error), or a BadQuery rejection that ends
      the whole parse. */
  datatype Parse<+T> = Done(value: T, next: nat) | Fail | BadQuery(message: string)

  const TrapPrefix: string := "Value may not be compared with values: "

  predicate IsLeaf(n: Node) {
    || n.Text? || n.Field? || n.Negation? || n.String? || n.Integer? || n.Float?
    || n.Boolean? || n.LogicalOp? || n.SortDirection?
  }

  /** The texts of leaf tokens, separated by single spaces. */
  function JoinTexts(ts: seq<Node>): string
    requires forall k :: 0 <= k < |ts| ==> IsLeaf(ts[k])
  {
    if ts == [] then ""
    else
      assert IsLeaf(ts[0]);
      if |ts| == 1 then ts[0].text else ts[0].text + " " + JoinTexts(ts[1..])
  }

  /** The BadQuery message for `value op value`: the fixed prefix, then the
      left operand, the operator words and the right operand. */
  function TrapMessage(x: seq<Node>): (m: string)
    requires |x| == 3 && IsValue(x[0]) && IsBinaryOperator(x[1]) && IsValue(x[2])
    ensures TrapPrefix <= m
    ensures x[0].text <= m[|TrapPrefix|..]
    ensures |x[2].text| <= |m| && m[|m| - |x[2].text|..] == x[2].text
    ensures |TrapPrefix| + |x[0].text| <= |m| - |x[2].text|
    ensures m[|TrapPrefix| + |x[0].text|..|m| - |x[2].text|] == " " + JoinTexts(x[1].tokens) + " "
  {
    var mid := " " + JoinTexts(x[1].tokens) + " ";
    MessageParts(TrapPrefix, x[0].text, mid, x[2].text);
    TrapPrefix + (x[0].text + mid + x[2].text)
  }

  /** A message `p + (a + mid + c)` begins with `p`, continues with `a`,
      ends with `c`, and holds `mid` between the two. */
  lemma MessageParts(p: string, a: string, mid: string, c: string)
    ensures p <= p + (a + mid + c)
    ensures a <= (p + (a + mid + c))[|p|..]
    ensures (p + (a + mid + c))[|p + (a + mid + c)| - |c|..] == c
    ensures (p + (a + mid + c))[|p| + |a|..|p + (a + mid + c)| - |c|] == mid
  {
    var body := a + mid + c;
    assert (p + body)[|p|..] == body;
    assert (p + body)[|p + body| - |c|..] == body[|body| - |c|..];
    assert (p + body)[|p| + |a|..|p + body| - |c|] == body[|a|..|body| - |c|];
    assert body[|a|..|body| - |c|] == mid;
  }

  /** What `fail(...)` raises inside the invalid_comparison action. */
  datatype Raised = RaisedBadQuery(message: string) | RaisedTypeError

  /** Python's `sep.join(items)`: defined only when every item is a str (a
      bare Text token); any node object makes it raise TypeError. */
  function PyJoin(sep: string, items: seq<Node>): (r: Option<string>)
    ensures r.Some? <==> forall k :: 0 <= k < |items| ==> items[k].Text?
  {
    if items == [] then Some("")
    else if !items[0].Text? then None
    else
      match PyJoin(sep, items[1..])
      case None => None
      case Some(rest) => Some(if |items| == 1 then items[0].text else items[0].text + sep + rest)
  }

  /** The invalid_comparison parse action as written: it formats its message
      with `' '.join(x)` over the matched tokens. */
  function TrapActionAsWritten(x: seq<Node>): (r: Raised)
    ensures r == RaisedTypeError <==> exists k :: 0 <= k < |x| && !x[k].Text?
    ensures r.RaisedBadQuery? ==> TrapPrefix <= r.message
  {
    match PyJoin(" ", x)
    case None => RaisedTypeError
    case Some(j) => RaisedBadQuery(TrapPrefix + j)
  }

  /** The tokens a `value op value` match hands to that action are Value and
      Operator nodes, so the action raises TypeError and never BadQuery. */
  lemma TrapActionAsWrittenRaisesTypeError(s: string, i: nat, sp: BooleanSpellings)
    requires i <= |s|
    requires ParseSequence(s, i, ValueOpValue, sp).Match?
    ensures TrapActionAsWritten(ParseSequence(s, i, ValueOpValue, sp).value) == RaisedTypeError
  {
    var x := ParseSequence(s, i, ValueOpValue, sp).value;
    assert Fits(x[0], ValueOpValue[0]);
    assert !x[0].Text?;
  }

  predicate IsJoin(n: Node) {
    n == LogicalOp("and") || n == LogicalOp("or")
  }

  /** A Statement node: one well-formed Comparison, or a nested expression. */
  predicate IsStatementNode(n: Node)
    decreases n, 0
  {
    && n.Statement?
    && ((|n.body| == 1 && WellFormedComparison(n.body[0])) || IsExpression(n.body))
  }

  /** An expression: Statement, LogicalOp, Statement, ... of odd length. */
  predicate IsExpression(ns: seq<Node>)
    decreases ns, 1
  {
    && |ns| % 2 == 1
    && forall k :: 0 <= k < |ns| ==> if k % 2 == 0 then IsStatementNode(ns[k]) else IsJoin(ns[k])
  }

  /** What `ZeroOrMore(logical_op + statement)` collects: LogicalOp, Statement pairs. */
  predicate IsJoinedStatements(ns: seq<Node>) {
    && |ns| % 2 == 0
    && forall k :: 0 <= k < |ns| ==> if k % 2 == 0 then IsJoin(ns[k]) else IsStatementNode(ns[k])
  }

  lemma ExpressionCons(st: Node, rest: seq<Node>)
    requires IsStatementNode(st) && IsJoinedStatements(rest)
    ensures IsExpression([st] + rest)
  {
    var ns := [st] + rest;
    forall k | 0 <= k < |ns|
      ensures if k % 2 == 0 then IsStatementNode(ns[k]) else IsJoin(ns[k])
    {
      if k > 0 {
        assert ns[k] == rest[k - 1];
      }
    }
  }

  lemma JoinedCons(op: Node, st: Node, rest: seq<Node>)
    requires IsJoin(op) && IsStatementNode(st) && IsJoinedStatements(rest)
    ensures IsJoinedStatements([op, st] + rest)
  {
    var ns := [op, st] + rest;
    forall k | 0 <= k < |ns|
      ensures if k % 2 == 0 then IsJoin(ns[k]) else IsStatementNode(ns[k])
    {
      if k > 1 {
        assert ns[k] == rest[k - 2];
      }
    }
  }

  /** `logical_op`: `and | or`, as a LogicalOp node holding the declared spelling. */
  function ParseLogicalOp(s: string, i: nat): (r: Match<Node>)
    requires i <= |s|
    ensures r.Match? ==> IsJoin(r.value) && SkipWs(s, i) < r.next <= |s|
    ensures r.Match? <==> KeywordAt(s, SkipWs(s, i), "and", true) || KeywordAt(s, SkipWs(s, i), "or", true)
    ensures KeywordAt(s, SkipWs(s, i), "and", true) ==> r == Match(LogicalOp("and"), SkipWs(s, i) + 3)
    ensures KeywordAt(s, SkipWs(s, i), "or", true) ==> r == Match(LogicalOp("or"), SkipWs(s, i) + 2)
  {
    AndOrApart(s, SkipWs(s, i));
    match FirstMatch(ParseKeyword(s, i, "and", true), ParseKeyword(s, i, "or", true))
    case NoMatch => NoMatch
    case Match(v, k) => Match(LogicalOp(v), k)
  }

  /** `and` and `or` cannot stand at the same position: they differ in their first letter. */
  lemma AndOrApart(s: string, j: nat)
    requires j <= |s|
    ensures !(KeywordAt(s, j, "and", true) && KeywordAt(s, j, "or", true))
  {
    if KeywordAt(s, j, "and", true) && KeywordAt(s, j, "or", true) {
      CaselessKeywordFirstChar(s, j, "and");
      CaselessKeywordFirstChar(s, j, "or");
      assert false;
    }
  }

  /** `statement`: a comparison, else the value-against-value trap (which
      rejects the query), else a parenthesised expression; wrapped in a
      Statement node with the parentheses dropped. */
  function ParseStatement(s: string, i: nat, sp: BooleanSpellings): (r: Parse<Node>)
    requires i <= |s|
    ensures r.Done? ==> IsStatementNode(r.value) && i < r.next <= |s|
    ensures r.BadQuery? ==> TrapPrefix <= r.message
    ensures ParseComparison(s, i, sp).Match? ==>
              r == Done(Statement([ParseComparison(s, i, sp).value]), ParseComparison(s, i, sp).next)
    ensures ParseComparison(s, i, sp).NoMatch? && ParseSequence(s, i, ValueOpValue, sp).Match? ==>
              r == BadQuery(TrapMessage(ParseSequence(s, i, ValueOpValue, sp).value))
    ensures ParseComparison(s, i, sp).NoMatch? && ParseSequence(s, i, ValueOpValue, sp).NoMatch? ==>
              r == ParseGroup(s, i, sp)
    decreases |s| - i, 1
  {
    match ParseComparison(s, i, sp)
    case Match(c, k) => Done(Statement([c]), k)
    case NoMatch =>
      match ParseSequence(s, i, ValueOpValue, sp)
      case Match(x, _) =>
        assert Fits(x[0], ValueOpValue[0]) && Fits(x[1], ValueOpValue[1]) && Fits(x[2], ValueOpValue[2]);
        BadQuery(TrapMessage(x))
      case NoMatch => ParseGroup(s, i, sp)
  }

  /** The parenthesised alternative of `statement`: `(`, an expression and
      `)` give a Statement of the inner nodes; an abort inside is passed on. */
  function ParseGroup(s: string, i: nat, sp: BooleanSpellings): (r: Parse<Node>)
    requires i <= |s|
    ensures r.Done? ==> IsStatementNode(r.value) && i < r.next <= |s|
    ensures r.BadQuery? ==> TrapPrefix <= r.message
    ensures if ParseLiteral(s, i, "(").NoMatch? then r.Fail?
            else
              var inner := ParseExpression(s, ParseLiteral(s, i, "(").next, sp);
              && (inner.Fail? ==> r.Fail?)
              && (inner.BadQuery? ==> r == BadQuery(inner.message))
              && (inner.Done? && ParseLiteral(s, inner.next, ")").Match? ==>
                    r == Done(Statement(inner.value), ParseLiteral(s, inner.next, ")").next))
              && (inner.Done? && ParseLiteral(s, inner.next, ")").NoMatch? ==> r.Fail?)
    decreases |s| - i, 0
  {
    match ParseLiteral(s, i, "(")
    case NoMatch => Fail
    case Match(_, k) =>
      match ParseExpression(s, k, sp)
      case Fail => Fail
      case BadQuery(m) => BadQuery(m)
      case Done(inner, e) =>
        match ParseLiteral(s, e, ")")
        case NoMatch => Fail
        case Match(_, k') => Done(Statement(inner), k')
  }

  /** `expr`: a statement followed by zero or more (logical_op, statement)
      pairs. When no pair follows, the end is past the trailing whitespace. */
  function ParseExpression(s: string, i: nat, sp: BooleanSpellings): (r: Parse<seq<Node>>)
    requires i <= |s|
    ensures r.Done? ==> IsExpression(r.value) && i < r.next <= |s|
    ensures r.BadQuery? ==> TrapPrefix <= r.message
    ensures ParseStatement(s, i, sp).BadQuery? ==> r == BadQuery(ParseStatement(s, i, sp).message)
    ensures ParseStatement(s, i, sp).Fail? ==> r.Fail?
    ensures ParseStatement(s, i, sp).Done? && ParseMore(s, ParseStatement(s, i, sp).next, sp).BadQuery? ==>
              r == BadQuery(ParseMore(s, ParseStatement(s, i, sp).next, sp).message)
    ensures ParseStatement(s, i, sp).Done? && ParseMore(s, ParseStatement(s, i, sp).next, sp).Done? ==>
              var st := ParseStatement(s, i, sp);
              var more := ParseMore(s, st.next, sp);
              r == Done([st.value] + more.value, if more.value == [] then SkipWs(s, st.next) else more.next)
    decreases |s| - i, 2
  {
    match ParseStatement(s, i, sp)
    case Fail => Fail
    case BadQuery(m) => BadQuery(m)
    case Done(st, k) =>
      match ParseMore(s, k, sp)
      case Fail => Fail
      case BadQuery(m) => BadQuery(m)
      case Done(rest, e) =>
        ExpressionCons(st, rest);
        Done([st] + rest, if rest == [] then SkipWs(s, k) else e)
  }

  /** `ZeroOrMore(logical_op + statement)`: collects pairs until one fails to
      match, and ends where the last pair ended. A BadQuery inside a pair is
      not a failure to match: it ends the whole parse. */
  function ParseMore(s: string, i: nat, sp: BooleanSpellings): (r: Parse<seq<Node>>)
    requires i <= |s|
    ensures !r.Fail?
    ensures r.Done? ==> IsJoinedStatements(r.value) && i <= r.next <= |s|
    ensures r.Done? && r.value == [] ==> r.next == i
    ensures r.BadQuery? ==> TrapPrefix <= r.message
    ensures ParseLogicalOp(s, i).NoMatch? ==> r == Done([], i)
    ensures ParseLogicalOp(s, i).Match? ==>
              var st := ParseStatement(s, ParseLogicalOp(s, i).next, sp);
              && (st.Fail? ==> r == Done([], i))
              && (st.BadQuery? ==> r == BadQuery(st.message))
              && (st.Done? && ParseMore(s, st.next, sp).BadQuery? ==> r == BadQuery(ParseMore(s, st.next, sp).message))
              && (st.Done? && ParseMore(s, st.next, sp).Done? ==>
                    r == Done([ParseLogicalOp(s, i).value, st.value] + ParseMore(s, st.next, sp).value,
                              ParseMore(s, st.next, sp).next))
    decreases |s| - i, 3
  {
    match ParseLogicalOp(s, i)
    case NoMatch => Done([], i)
    case Match(op, k) =>
      match ParseStatement(s, k, sp)
      case Fail => Done([], i)
      case BadQuery(m) => BadQuery(m)
      case Done(st, k') =>
        match ParseMore(s, k', sp)
        case Fail => Done([], i)
        case BadQuery(m) => BadQuery(m)
        case Done(rest, e) =>
          JoinedCons(op, st, rest);
          Done([op, st] + rest, e)
  }

  /** The whole filter grammar applied to a query string. */
  function ParseFilter(s: string, sp: BooleanSpellings): (r: Parse<seq<Node>>)
    ensures r.Done? ==> IsExpression(r.value) && 0 < r.next <= |s|
    ensures r.BadQuery? ==> TrapPrefix <= r.message
    ensures ParseStatement(s, 0, sp).BadQuery? ==> r == BadQuery(ParseStatement(s, 0, sp).message)
    ensures ParseStatement(s, 0, sp).Done? && ParseMore(s, ParseStatement(s, 0, sp).next, sp).BadQuery? ==>
              r == BadQuery(ParseMore(s, ParseStatement(s, 0, sp).next, sp).message)
    ensures ParseStatement(s, 0, sp).Fail? ==> r.Fail?
    ensures ParseStatement(s, 0, sp).Done? && ParseMore(s, ParseStatement(s, 0, sp).next, sp).Done? ==>
              var st := ParseStatement(s, 0, sp);
              var more := ParseMore(s, st.next, sp);
              r == Done([st.value] + more.value, if more.value == [] then SkipWs(s, st.next) else more.next)
  {
    ParseExpression(s, 0, sp)
  }

  /** A parse that stops at `e` accounts for all of `s` when only whitespace follows. */
  predicate ConsumesAll(s: string, e: nat)
    requires e <= |s|
  {
    SkipWs(s, e) == |s|
  }
}
