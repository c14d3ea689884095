/** Worked examples: what the grammars make of particular query strings. */
module Examples {
  import opened Chars
  import opened Ast
  import opened Lexical
  import opened FilterGrammar
  import opened SortGrammar
  import opened FilterProperties

  /** The boolean spellings the examples are read with. */
  const Spellings: BooleanSpellings := BooleanSpellings(["true"], ["false"])

  /** A keyword whose text stands at `j` between two non-identifier characters
      is there, matched exactly or up to case. */
  lemma KeywordHere(s: string, j: nat, kw: string)
    requires j + |kw| <= |s| && s[j..j + |kw|] == kw
    requires j == 0 || !IsIdentChar(s[j - 1])
    requires j + |kw| == |s| || !IsIdentChar(s[j + |kw|])
    ensures KeywordAt(s, j, kw, true) && KeywordAt(s, j, kw, false)
  {
  }

  /** When every other keyword is too long or begins with another letter,
      the one standing at `j` is the only one there. */
  lemma OnlyKeywordHere(s: string, j: nat, kws: seq<string>, k: nat, caseless: bool)
    requires j < |s| && k < |kws|
    requires KeywordAt(s, j, kws[k], caseless)
    requires forall m :: 0 <= m < |kws| && m != k ==>
               |kws[m]| > 0 && (j + |kws[m]| > |s| || LowerChar(s[j]) != LowerChar(kws[m][0]))
    ensures forall m :: 0 <= m < |kws| && KeywordAt(s, j, kws[m], caseless) ==> m == k
  {
    forall m | 0 <= m < |kws| && m != k && j + |kws[m]| <= |s|
      ensures !KeywordAt(s, j, kws[m], caseless)
    {
      assert s[j..j + |kws[m]|][0] == s[j];
      assert Lower(s[j..j + |kws[m]|])[0] == LowerChar(s[j]);
    }
  }

  /** An Or over keywords of which only one stands at the position yields it. */
  lemma LongestOfOne(s: string, i: nat, kws: seq<string>, k: nat, caseless: bool)
    requires i <= |s| && k < |kws|
    requires KeywordAt(s, SkipWs(s, i), kws[k], caseless)
    requires forall m :: 0 <= m < |kws| && KeywordAt(s, SkipWs(s, i), kws[m], caseless) ==> m == k
    ensures LongestKeyword(s, i, kws, caseless) == Match(kws[k], SkipWs(s, i) + |kws[k]|)
  {
  }

  lemma AgeField(s: string)
    requires s == "age isnull"
    ensures ParseField(s, 0) == Match(Field("age"), 3)
  {
    assert SkipWs(s, 0) == 0;
    assert SpanEnd(s, 3, IsWordChar) == 3;
    assert SpanEnd(s, 0, IsWordChar) == 3;
    assert s[0..3] == "age";
  }

  lemma AgeNotValue(s: string)
    requires s == "age isnull"
    ensures ParseValue(s, 0, Spellings).NoMatch?
  {
    assert SkipWs(s, 0) == 0;
    NoKeywordsHere(s, 0, Spellings.All());
  }

  lemma NoOperatorAtIsNull(s: string)
    requires s == "age isnull"
    ensures ParseComparisonOperator(s, 3).NoMatch?
  {
    assert SkipWs(s, 3) == 4;
    NoKeywordsHere(s, 4, CaseSensitiveOperators);
    NoKeywordsHere(s, 4, TextualOperators);
    NoKeywordsHere(s, 4, ["not"]);
    assert ["not"][0] == "not";
    NoOperatorWhereNoneStands(s, 3);
  }

  lemma UnaryAtIsNull(s: string)
    requires s == "age isnull"
    ensures ParseUnaryOperator(s, 3) == Match(Operator([Text("isnull")]), 10)
  {
    assert SkipWs(s, 3) == 4;
    NoKeywordsHere(s, 4, ["not"]);
    assert ["not"][0] == "not";
    KeywordHere(s, 4, "isnull");
    UnaryWhereIsNullStands(s, 3);
  }

  lemma AgeIsNullShapes(s: string)
    requires s == "age isnull"
    ensures ParseSequence(s, 0, FieldOpValue, Spellings).NoMatch?
    ensures ParseSequence(s, 0, ValueOpField, Spellings).NoMatch?
    ensures ParseSequence(s, 0, FieldOpField, Spellings).NoMatch?
  {
    AgeField(s);
    AgeNotValue(s);
    NoOperatorAtIsNull(s);
    FieldPieceIs(s, 0, Spellings);
    ValuePieceIs(s, 0, Spellings);
    OperatorPieceIs(s, 3, Spellings);
    SecondOfThreeFails(s, 0, FieldPiece, OperatorPiece, ValuePiece, Spellings, 3);
    FirstOfThreeFails(s, 0, ValuePiece, OperatorPiece, FieldPiece, Spellings);
    SecondOfThreeFails(s, 0, FieldPiece, OperatorPiece, FieldPiece, Spellings, 3);
  }

  lemma AgeIsNullUnaryShape(s: string)
    requires s == "age isnull"
    ensures ParseSequence(s, 0, FieldUnary, Spellings)
            == Match([Field("age"), Operator([Text("isnull")])], 10)
  {
    AgeField(s);
    UnaryAtIsNull(s);
    FieldPieceIs(s, 0, Spellings);
    UnaryPieceIs(s, 3, Spellings);
    TwoPieces(s, 0, FieldPiece, UnaryOperatorPiece, Spellings, Field("age"), Operator([Text("isnull")]), 3, 10);
  }

  lemma AgeIsNullComparison(s: string)
    requires s == "age isnull"
    ensures ParseComparison(s, 0, Spellings)
            == Match(Comparison([Field("age"), Operator([Text("isnull")])]), 10)
  {
    AgeIsNullShapes(s);
    AgeIsNullUnaryShape(s);
    FlattenOneLevel([Field("age"), Operator([Text("isnull")])], []);
  }

  lemma NothingMoreAtEnd(s: string, sp: BooleanSpellings)
    ensures ParseMore(s, |s|, sp) == Done([], |s|)
  {
    assert SkipWs(s, |s|) == |s|;
  }

  /** `isnull` needs no value: one Field and the unary Operator. */
  lemma IsNullExample()
    ensures ParseFilter("age isnull", Spellings)
            == Done([Statement([Comparison([Field("age"), Operator([Text("isnull")])])])], 10)
    ensures ConsumesAll("age isnull", 10)
  {
    var st := Statement([Comparison([Field("age"), Operator([Text("isnull")])])]);
    assert ParseStatement("age isnull", 0, Spellings) == Done(st, 10) by {
      AgeIsNullComparison("age isnull");
    }
    NothingMoreAtEnd("age isnull", Spellings);
    assert SkipWs("age isnull", 10) == 10;
    assert [st] + [] == [st];
  }

  /** `not isnull`: the unary Operator holds a Negation before `isnull`. */
  lemma NotIsNullExample()
    ensures ParseFilter("age not isnull", Spellings)
            == Done([Statement([Comparison([Field("age"), Operator([Negation("not"), Text("isnull")])])])], 14)
    ensures ConsumesAll("age not isnull", 14)
  {
    var s := "age not isnull";
    var st := Statement([Comparison([Field("age"), Operator([Negation("not"), Text("isnull")])])]);
    assert ParseStatement(s, 0, Spellings) == Done(st, 14) by {
      NotIsNullComparison(s);
    }
    NothingMoreAtEnd(s, Spellings);
    assert [st] + [] == [st];
  }

  lemma NotIsNullComparison(s: string)
    requires s == "age not isnull"
    ensures ParseComparison(s, 0, Spellings)
            == Match(Comparison([Field("age"), Operator([Negation("not"), Text("isnull")])]), 14)
  {
    NotIsNullShapes(s);
    NotIsNullUnaryShape(s);
    FlattenOneLevel([Field("age"), Operator([Negation("not"), Text("isnull")])], []);
  }

  lemma NotIsNullShapes(s: string)
    requires s == "age not isnull"
    ensures ParseSequence(s, 0, FieldOpValue, Spellings).NoMatch?
    ensures ParseSequence(s, 0, ValueOpField, Spellings).NoMatch?
    ensures ParseSequence(s, 0, FieldOpField, Spellings).NoMatch?
  {
    NotIsNullAge(s);
    NotBeforeIsNull(s);
    FieldPieceIs(s, 0, Spellings);
    ValuePieceIs(s, 0, Spellings);
    OperatorPieceIs(s, 3, Spellings);
    SecondOfThreeFails(s, 0, FieldPiece, OperatorPiece, ValuePiece, Spellings, 3);
    FirstOfThreeFails(s, 0, ValuePiece, OperatorPiece, FieldPiece, Spellings);
    SecondOfThreeFails(s, 0, FieldPiece, OperatorPiece, FieldPiece, Spellings, 3);
  }

  lemma NotIsNullUnaryShape(s: string)
    requires s == "age not isnull"
    ensures ParseSequence(s, 0, FieldUnary, Spellings)
            == Match([Field("age"), Operator([Negation("not"), Text("isnull")])], 14)
  {
    NotIsNullAge(s);
    NotBeforeIsNull(s);
    FieldPieceIs(s, 0, Spellings);
    UnaryPieceIs(s, 3, Spellings);
    TwoPieces(s, 0, FieldPiece, UnaryOperatorPiece, Spellings,
              Field("age"), Operator([Negation("not"), Text("isnull")]), 3, 14);
  }

  lemma NotIsNullAge(s: string)
    requires s == "age not isnull"
    ensures ParseField(s, 0) == Match(Field("age"), 3)
    ensures ParseValue(s, 0, Spellings).NoMatch?
  {
    assert SkipWs(s, 0) == 0;
    assert SpanEnd(s, 3, IsWordChar) == 3;
    assert SpanEnd(s, 0, IsWordChar) == 3;
    assert s[0..3] == "age";
    NoKeywordsHere(s, 0, Spellings.All());
  }

  /** After `age`, `not isnull` is no binary operator, since `isnull` is not a
      textual verb, but it is the negated unary operator. */
  lemma NotBeforeIsNull(s: string)
    requires s == "age not isnull"
    ensures ParseComparisonOperator(s, 3).NoMatch?
    ensures ParseUnaryOperator(s, 3) == Match(Operator([Negation("not"), Text("isnull")]), 14)
  {
    assert SkipWs(s, 3) == 4;
    assert s[4..7] == "not";
    KeywordHere(s, 4, "not");
    assert ParseKeyword(s, 3, "not", true) == Match("not", 7);
    assert SkipWs(s, 7) == 8;
    assert VerbStart(s, 3) == 8;
    assert s[8..14] == "isnull";
    KeywordHere(s, 8, "isnull");
    NoKeywordsHere(s, 4, CaseSensitiveOperators);
    NoKeywordsHere(s, 8, TextualOperators);
    assert ParseSymbolicOperator(s, 3).NoMatch?;
    assert ParseTextualOperator(s, 3).NoMatch?;
  }

  /** In `1 = 2` both sides could be values, but `1` is also a field name:
      `field op value`, `value op field` and `field op field` all match to the
      end, and the first declared of them wins the tie. The query is accepted. */
  lemma DigitsAsFieldExample()
    ensures ParseFilter("1 = 2", Spellings)
            == Done([Statement([Comparison([Field("1"), Operator([Text("=")]), Integer("2")])])], 5)
    ensures ConsumesAll("1 = 2", 5)
  {
    var st := Statement([Comparison([Field("1"), Operator([Text("=")]), Integer("2")])]);
    assert ParseStatement("1 = 2", 0, Spellings) == Done(st, 5) by {
      DigitsComparison("1 = 2");
    }
    NothingMoreAtEnd("1 = 2", Spellings);
    assert [st] + [] == [st];
  }

  lemma OneField(s: string)
    requires s == "1 = 2"
    ensures ParseField(s, 0) == Match(Field("1"), 1)
  {
    assert SkipWs(s, 0) == 0;
    assert SpanEnd(s, 1, IsWordChar) == 1;
    assert SpanEnd(s, 0, IsWordChar) == 1;
    assert s[0..1] == "1";
  }

  lemma OneValue(s: string)
    requires s == "1 = 2"
    ensures ParseValue(s, 0, Spellings) == Match(Integer("1"), 1)
  {
    assert SkipWs(s, 0) == 0;
    assert SignLength(s[0..]) == 0;
    assert SpanEnd(s, 1, IsDigit) == 1;
    assert SpanEnd(s, 0, IsDigit) == 1;
    assert s[0..1] == "1";
    NoKeywordsHere(s, 0, Spellings.All());
  }

  lemma TwoField(s: string)
    requires s == "1 = 2"
    ensures ParseField(s, 3) == Match(Field("2"), 5)
  {
    assert SkipWs(s, 3) == 4;
    assert SpanEnd(s, 5, IsWordChar) == 5;
    assert SpanEnd(s, 4, IsWordChar) == 5;
    assert s[4..5] == "2";
  }

  lemma TwoValue(s: string)
    requires s == "1 = 2"
    ensures ParseValue(s, 3, Spellings) == Match(Integer("2"), 5)
  {
    assert SkipWs(s, 3) == 4;
    assert SignLength(s[4..]) == 0;
    assert SpanEnd(s, 5, IsDigit) == 5;
    assert SpanEnd(s, 4, IsDigit) == 5;
    assert s[4..5] == "2";
    NoKeywordsHere(s, 4, Spellings.All());
  }

  lemma EqualsInDigits(s: string)
    requires s == "1 = 2"
    ensures ParseComparisonOperator(s, 1) == Match(Operator([Text("=")]), 3)
  {
    assert SkipWs(s, 1) == 2;
    EqualsOperator(s, 1);
  }

  /** `=` stands at `j` with a character after it, and no identifier
      character touches it on either side. */
  predicate LoneEqualsAt(s: string, j: nat) {
    && j + 1 < |s| && s[j] == '=' && !IsIdentChar(s[j + 1])
    && (j == 0 || !IsIdentChar(s[j - 1]))
  }

  /** A lone `=` is the binary Operator `=`. */
  lemma EqualsOperator(s: string, i: nat)
    requires i <= |s| && LoneEqualsAt(s, SkipWs(s, i))
    ensures ParseComparisonOperator(s, i) == Match(Operator([Text("=")]), SkipWs(s, i) + 1)
  {
    EqualsIsLongest(s, i);
    EqualsNotTextual(s, i);
    SymbolicOperatorWins(s, i, "=", SkipWs(s, i) + 1);
  }

  /** Among the case-sensitive operators only `=` stands at a lone `=`. */
  lemma EqualsIsLongest(s: string, i: nat)
    requires i <= |s| && LoneEqualsAt(s, SkipWs(s, i))
    ensures LongestKeyword(s, i, CaseSensitiveOperators, false) == Match("=", SkipWs(s, i) + 1)
  {
    var j := SkipWs(s, i);
    assert s[j..j + 1] == "=";
    KeywordHere(s, j, "=");
    OnlyKeywordHere(s, j, CaseSensitiveOperators, 0, false);
    LongestOfOne(s, i, CaseSensitiveOperators, 0, false);
  }

  /** No textual operator stands at a lone `=`. */
  lemma EqualsNotTextual(s: string, i: nat)
    requires i <= |s| && LoneEqualsAt(s, SkipWs(s, i))
    ensures ParseNegatable(s, i, TextualOperators).NoMatch?
  {
    NoTextualOperatorAt(s, i);
  }

  /** No unary operator starts with `=`. */
  lemma NotUnaryAtEquals(s: string, i: nat)
    requires i <= |s| && SkipWs(s, i) < |s| && s[SkipWs(s, i)] == '='
    ensures ParseUnaryOperator(s, i).NoMatch?
  {
    NoKeywordsHere(s, SkipWs(s, i), ["not", "isnull"]);
    assert ["not", "isnull"][0] == "not" && ["not", "isnull"][1] == "isnull";
    NoUnaryWhereNoneStands(s, i);
  }

  lemma DigitsFieldOpValue(s: string)
    requires s == "1 = 2"
    ensures ParseSequence(s, 0, FieldOpValue, Spellings)
            == Match([Field("1"), Operator([Text("=")]), Integer("2")], 5)
  {
    OneField(s);
    EqualsInDigits(s);
    TwoValue(s);
    FieldPieceIs(s, 0, Spellings);
    OperatorPieceIs(s, 1, Spellings);
    ValuePieceIs(s, 3, Spellings);
    ThreePieces(s, 0, FieldPiece, OperatorPiece, ValuePiece, Spellings,
                Field("1"), Operator([Text("=")]), Integer("2"), 1, 3, 5);
  }

  lemma DigitsValueOpField(s: string)
    requires s == "1 = 2"
    ensures ParseSequence(s, 0, ValueOpField, Spellings)
            == Match([Integer("1"), Operator([Text("=")]), Field("2")], 5)
  {
    OneValue(s);
    EqualsInDigits(s);
    TwoField(s);
    ValuePieceIs(s, 0, Spellings);
    OperatorPieceIs(s, 1, Spellings);
    FieldPieceIs(s, 3, Spellings);
    ThreePieces(s, 0, ValuePiece, OperatorPiece, FieldPiece, Spellings,
                Integer("1"), Operator([Text("=")]), Field("2"), 1, 3, 5);
  }

  lemma DigitsFieldOpField(s: string)
    requires s == "1 = 2"
    ensures ParseSequence(s, 0, FieldOpField, Spellings)
            == Match([Field("1"), Operator([Text("=")]), Field("2")], 5)
  {
    OneField(s);
    EqualsInDigits(s);
    TwoField(s);
    FieldPieceIs(s, 0, Spellings);
    OperatorPieceIs(s, 1, Spellings);
    FieldPieceIs(s, 3, Spellings);
    ThreePieces(s, 0, FieldPiece, OperatorPiece, FieldPiece, Spellings,
                Field("1"), Operator([Text("=")]), Field("2"), 1, 3, 5);
  }

  lemma DigitsFieldUnary(s: string)
    requires s == "1 = 2"
    ensures ParseSequence(s, 0, FieldUnary, Spellings).NoMatch?
  {
    OneField(s);
    assert SkipWs(s, 1) == 2;
    NotUnaryAtEquals(s, 1);
    FieldPieceIs(s, 0, Spellings);
    UnaryPieceIs(s, 1, Spellings);
    SecondOfTwoFails(s, 0, FieldPiece, UnaryOperatorPiece, Spellings, 1);
  }

  lemma DigitsComparison(s: string)
    requires s == "1 = 2"
    ensures ParseComparison(s, 0, Spellings)
            == Match(Comparison([Field("1"), Operator([Text("=")]), Integer("2")]), 5)
  {
    DigitsFieldOpValue(s);
    DigitsValueOpField(s);
    DigitsFieldOpField(s);
    DigitsFieldUnary(s);
    FlattenOneLevel([Field("1"), Operator([Text("=")]), Integer("2")], []);
  }

  /** Two quoted strings compared: no shape with a field matches, so the
      value-against-value trap rejects the query with its message. */
  lemma TrapExample()
    ensures ParseFilter("'a' = 'b'", Spellings) == BadQuery("Value may not be compared with values: a = b")
  {
    TrapFilter("'a' = 'b'");
  }

  /** A trap after a valid statement and `and` still rejects the whole query:
      the BadQuery is not a failed match that ends the chain early. */
  lemma LaterTrapExample()
    ensures ParseFilter("a = 1 and 'x' = 'y'", Spellings).BadQuery?
  {
    LaterTrapFilter("a = 1 and 'x' = 'y'");
  }

  lemma LaterTrapFilter(s: string)
    requires s == "a = 1 and 'x' = 'y'"
    ensures ParseFilter(s, Spellings) == BadQuery(TrapMessage([String("x"), Operator([Text("=")]), String("y")]))
  {
    LaterTrapFirstStatement(s);
    LaterTrapJoin(s);
    LaterTrapStatement(s);
    TrapAfterJoin(s, 0, 5, 9, Spellings);
  }

  /** A statement, a logical operator, then a statement that is the trap: the
      whole expression is rejected with that statement's message. */
  lemma TrapAfterJoin(s: string, i: nat, k: nat, k': nat, sp: BooleanSpellings)
    requires i <= |s|
    requires ParseStatement(s, i, sp).Done? && ParseStatement(s, i, sp).next == k
    requires ParseLogicalOp(s, k).Match? && ParseLogicalOp(s, k).next == k'
    requires ParseStatement(s, k', sp).BadQuery?
    ensures ParseExpression(s, i, sp) == BadQuery(ParseStatement(s, k', sp).message)
  {
  }

  lemma LaterTrapJoin(s: string)
    requires s == "a = 1 and 'x' = 'y'"
    ensures ParseLogicalOp(s, 5) == Match(LogicalOp("and"), 9)
  {
    assert SkipWs(s, 5) == 6;
    assert s[6..9] == "and";
    KeywordHere(s, 6, "and");
  }

  /** `a = 1` is a comparison ending before ` and`: `field op value` and
      `field op field` both reach the `1`. */
  lemma LaterTrapFirstStatement(s: string)
    requires s == "a = 1 and 'x' = 'y'"
    ensures ParseStatement(s, 0, Spellings).Done? && ParseStatement(s, 0, Spellings).next == 5
  {
    LaterTrapShapes(s);
    assert ParseComparison(s, 0, Spellings).next == 5;
  }

  lemma LaterTrapShapes(s: string)
    requires s == "a = 1 and 'x' = 'y'"
    ensures ParseSequence(s, 0, FieldOpValue, Spellings) == Match([Field("a"), Operator([Text("=")]), Integer("1")], 5)
    ensures ParseSequence(s, 0, ValueOpField, Spellings).NoMatch?
    ensures ParseSequence(s, 0, FieldOpField, Spellings) == Match([Field("a"), Operator([Text("=")]), Field("1")], 5)
    ensures ParseSequence(s, 0, FieldUnary, Spellings).NoMatch?
  {
    LaterTrapLeft(s);
    LaterTrapRight(s);
    FieldPieceIs(s, 0, Spellings);
    ValuePieceIs(s, 0, Spellings);
    OperatorPieceIs(s, 1, Spellings);
    UnaryPieceIs(s, 1, Spellings);
    ValuePieceIs(s, 3, Spellings);
    FieldPieceIs(s, 3, Spellings);
    ThreePieces(s, 0, FieldPiece, OperatorPiece, ValuePiece, Spellings,
                Field("a"), Operator([Text("=")]), Integer("1"), 1, 3, 5);
    FirstOfThreeFails(s, 0, ValuePiece, OperatorPiece, FieldPiece, Spellings);
    ThreePieces(s, 0, FieldPiece, OperatorPiece, FieldPiece, Spellings,
                Field("a"), Operator([Text("=")]), Field("1"), 1, 3, 5);
    SecondOfTwoFails(s, 0, FieldPiece, UnaryOperatorPiece, Spellings, 1);
  }

  /** `a` is a field and no value, and `=` after it is the only operator. */
  lemma LaterTrapLeft(s: string)
    requires s == "a = 1 and 'x' = 'y'"
    ensures ParseField(s, 0) == Match(Field("a"), 1)
    ensures ParseValue(s, 0, Spellings).NoMatch?
    ensures ParseComparisonOperator(s, 1) == Match(Operator([Text("=")]), 3)
    ensures ParseUnaryOperator(s, 1).NoMatch?
  {
    LaterTrapLeftOperand(s);
    LaterTrapEquals(s);
  }

  lemma LaterTrapLeftOperand(s: string)
    requires s == "a = 1 and 'x' = 'y'"
    ensures ParseField(s, 0) == Match(Field("a"), 1)
    ensures ParseValue(s, 0, Spellings).NoMatch?
  {
    assert SkipWs(s, 0) == 0;
    assert SpanEnd(s, 1, IsWordChar) == 1;
    assert SpanEnd(s, 0, IsWordChar) == 1;
    assert s[0..1] == "a";
    NoKeywordsHere(s, 0, Spellings.All());
  }

  lemma LaterTrapEquals(s: string)
    requires s == "a = 1 and 'x' = 'y'"
    ensures ParseComparisonOperator(s, 1) == Match(Operator([Text("=")]), 3)
    ensures ParseUnaryOperator(s, 1).NoMatch?
  {
    assert SkipWs(s, 1) == 2;
    assert LoneEqualsAt(s, 2);
    EqualsOperator(s, 1);
    LaterTrapNoUnary(s);
  }

  lemma LaterTrapNoUnary(s: string)
    requires s == "a = 1 and 'x' = 'y'"
    ensures ParseUnaryOperator(s, 1).NoMatch?
  {
    assert SkipWs(s, 1) == 2;
    assert s[2] == '=';
    NotUnaryAtEquals(s, 1);
  }

  /** `1` is both an Integer value and a field. */
  lemma LaterTrapRight(s: string)
    requires s == "a = 1 and 'x' = 'y'"
    ensures ParseValue(s, 3, Spellings) == Match(Integer("1"), 5)
    ensures ParseField(s, 3) == Match(Field("1"), 5)
  {
    assert SkipWs(s, 3) == 4;
    assert SignLength(s[4..]) == 0;
    assert SpanEnd(s, 5, IsDigit) == 5;
    assert SpanEnd(s, 4, IsDigit) == 5;
    assert SpanEnd(s, 5, IsWordChar) == 5;
    assert SpanEnd(s, 4, IsWordChar) == 5;
    assert s[4..5] == "1";
    NoKeywordsHere(s, 4, Spellings.All());
  }

  /** `'x' = 'y'` after the `and` is the trap. */
  lemma LaterTrapStatement(s: string)
    requires s == "a = 1 and 'x' = 'y'"
    ensures ParseStatement(s, 9, Spellings) == BadQuery(TrapMessage([String("x"), Operator([Text("=")]), String("y")]))
  {
    LaterTrapNoComparison(s);
    LaterTrapTwoValues(s);
  }

  lemma LaterTrapNoComparison(s: string)
    requires s == "a = 1 and 'x' = 'y'"
    ensures ParseComparison(s, 9, Spellings).NoMatch?
  {
    LaterTrapNoFields(s);
    LaterTrapValues(s);
    LaterTrapOperator(s);
    NoFieldNoComparison(s, 9, Spellings, 13, 15);
  }

  lemma LaterTrapTwoValues(s: string)
    requires s == "a = 1 and 'x' = 'y'"
    ensures ParseSequence(s, 9, ValueOpValue, Spellings) == Match([String("x"), Operator([Text("=")]), String("y")], 19)
  {
    LaterTrapValues(s);
    LaterTrapOperator(s);
    TwoValuesCompared(s, 9, Spellings, String("x"), Operator([Text("=")]), String("y"), 13, 15, 19);
  }

  lemma LaterTrapNoFields(s: string)
    requires s == "a = 1 and 'x' = 'y'"
    ensures ParseField(s, 9).NoMatch? && ParseField(s, 15).NoMatch?
  {
    assert SkipWs(s, 9) == 10 && !IsWordChar(s[10]);
    assert SkipWs(s, 15) == 16 && !IsWordChar(s[16]);
  }

  lemma LaterTrapValues(s: string)
    requires s == "a = 1 and 'x' = 'y'"
    ensures ParseValue(s, 9, Spellings) == Match(String("x"), 13)
    ensures ParseValue(s, 15, Spellings) == Match(String("y"), 19)
  {
    LaterTrapLeftValue(s);
    LaterTrapRightValue(s);
  }

  lemma LaterTrapLeftValue(s: string)
    requires s == "a = 1 and 'x' = 'y'"
    ensures ParseValue(s, 9, Spellings) == Match(String("x"), 13)
  {
    assert s[9] == ' ' && s[10] == '\'' && s[11] == 'x' && s[12] == '\'';
    QuotedValue(s, 9, 10, 'x');
  }

  lemma LaterTrapRightValue(s: string)
    requires s == "a = 1 and 'x' = 'y'"
    ensures ParseValue(s, 15, Spellings) == Match(String("y"), 19)
  {
    assert s[15] == ' ' && s[16] == '\'' && s[17] == 'y' && s[18] == '\'';
    QuotedValue(s, 15, 16, 'y');
  }

  lemma LaterTrapOperator(s: string)
    requires s == "a = 1 and 'x' = 'y'"
    ensures ParseComparisonOperator(s, 13) == Match(Operator([Text("=")]), 15)
  {
    assert SkipWs(s, 13) == 14;
    EqualsOperator(s, 13);
  }

  lemma TrapFilter(s: string)
    requires s == "'a' = 'b'"
    ensures ParseFilter(s, Spellings) == BadQuery("Value may not be compared with values: a = b")
  {
    TrapStatement(s);
    TrapMessageExample();
  }

  /** The message the trap builds for `'a' = 'b'`; the action as written
      raises TypeError on the same tokens instead. */
  lemma TrapMessageExample()
    ensures TrapMessage([String("a"), Operator([Text("=")]), String("b")])
            == "Value may not be compared with values: a = b"
    ensures TrapActionAsWritten([String("a"), Operator([Text("=")]), String("b")]) == RaisedTypeError
  {
    assert JoinTexts([Text("=")]) == "=";
  }

  lemma TrapStatement(s: string)
    requires s == "'a' = 'b'"
    ensures ParseStatement(s, 0, Spellings) == BadQuery(TrapMessage([String("a"), Operator([Text("=")]), String("b")]))
  {
    TrapShapes(s);
    TrapValues(s);
  }

  /** No comparison shape matches `'a' = 'b'`. */
  lemma TrapShapes(s: string)
    requires s == "'a' = 'b'"
    ensures ParseComparison(s, 0, Spellings).NoMatch?
  {
    TrapOperands(s);
    TrapOperator(s);
    NoFieldNoComparison(s, 0, Spellings, 3, 5);
  }

  /** `'a' = 'b'` is two values compared. */
  lemma TrapValues(s: string)
    requires s == "'a' = 'b'"
    ensures ParseSequence(s, 0, ValueOpValue, Spellings) == Match([String("a"), Operator([Text("=")]), String("b")], 9)
  {
    TrapOperands(s);
    TrapOperator(s);
    ValuePieceIs(s, 0, Spellings);
    OperatorPieceIs(s, 3, Spellings);
    ValuePieceIs(s, 5, Spellings);
    ThreePieces(s, 0, ValuePiece, OperatorPiece, ValuePiece, Spellings,
                String("a"), Operator([Text("=")]), String("b"), 3, 5, 9);
  }

  lemma TrapOperands(s: string)
    requires s == "'a' = 'b'"
    ensures ParseField(s, 0).NoMatch? && ParseField(s, 5).NoMatch?
    ensures ParseValue(s, 0, Spellings) == Match(String("a"), 3)
    ensures ParseValue(s, 5, Spellings) == Match(String("b"), 9)
  {
    TrapNoFields(s);
    TrapLeftValue(s);
    TrapRightValue(s);
  }

  lemma TrapNoFields(s: string)
    requires s == "'a' = 'b'"
    ensures ParseField(s, 0).NoMatch? && ParseField(s, 5).NoMatch?
  {
    assert SkipWs(s, 0) == 0 && !IsWordChar(s[0]);
    assert SkipWs(s, 5) == 6 && !IsWordChar(s[6]);
  }

  lemma TrapLeftValue(s: string)
    requires s == "'a' = 'b'"
    ensures ParseValue(s, 0, Spellings) == Match(String("a"), 3)
  {
    QuotedValue(s, 0, 0, 'a');
  }

  lemma TrapRightValue(s: string)
    requires s == "'a' = 'b'"
    ensures ParseValue(s, 5, Spellings) == Match(String("b"), 9)
  {
    QuotedValue(s, 5, 6, 'b');
  }

  lemma TrapOperator(s: string)
    requires s == "'a' = 'b'"
    ensures ParseComparisonOperator(s, 3) == Match(Operator([Text("=")]), 5)
  {
    assert SkipWs(s, 3) == 4;
    EqualsOperator(s, 3);
  }

  /** A one-letter string in single quotes at `j`, read from a position `i`
      just before it, is a String value. */
  lemma QuotedValue(s: string, i: nat, j: nat, c: char)
    requires j + 3 <= |s| && s[j] == '\'' && s[j + 1] == c && s[j + 2] == '\''
    requires 'a' <= c <= 'z' && (i == j || (i + 1 == j && IsWhite(s[i])))
    ensures ParseValue(s, i, Spellings) == Match(String([c]), j + 3)
  {
    assert SkipWs(s, i) == j;
    NoNumberAt(s, i);
    QuotedStringAt(s, i, j, c);
    NoKeywordsHere(s, j, Spellings.All());
    assert ParseBoolean(s, i, Spellings).NoMatch?;
  }

  lemma QuotedStringAt(s: string, i: nat, j: nat, c: char)
    requires j + 3 <= |s| && s[j] == '\'' && s[j + 1] == c && s[j + 2] == '\''
    requires 'a' <= c <= 'z' && (i == j || (i + 1 == j && IsWhite(s[i])))
    ensures ParseQuotedString(s, i) == Match(String([c]), j + 3)
  {
    assert SkipWs(s, j) == j;
    assert SkipWs(s, i) == j;
    assert QuotedEnd(s, j + 2, '\'') == j + 2;
    assert QuotedEnd(s, j + 1, '\'') == j + 2;
    assert s[j + 1..j + 2] == [c];
    assert ParseQuoted(s, i, '\'') == Match(String([c]), j + 3);
    assert ParseQuoted(s, i, '"').NoMatch?;
  }

  /** A descending and an ascending directive separated by a comma; the
      comma stays in the result between them. */
  lemma SortExample()
    ensures ParseSort("-name,+age")
            == Match([SortDirective([SortDirection("-"), Field("name")]), Comma,
                      SortDirective([SortDirection("+"), Field("age")])], 10)
  {
    SortList("-name,+age");
  }

  lemma SortList(s: string)
    requires s == "-name,+age"
    ensures ParseSort(s)
            == Match([SortDirective([SortDirection("-"), Field("name")]), Comma,
                      SortDirective([SortDirection("+"), Field("age")])], 10)
  {
    var d1 := SortDirective([SortDirection("-"), Field("name")]);
    var d2 := SortDirective([SortDirection("+"), Field("age")]);
    SortFirst(s);
    SortRest(s);
    assert [d1] + [Comma, d2] == [d1, Comma, d2];
  }

  lemma SortFirst(s: string)
    requires s == "-name,+age"
    ensures ParseSortDirective(s, 0) == Match(SortDirective([SortDirection("-"), Field("name")]), 5)
  {
    SignedDirective(s, 0, 4, '-');
    assert s[1..5] == "name";
  }

  lemma SortRest(s: string)
    requires s == "-name,+age"
    ensures ParseSortMore(s, 5) == Match([Comma, SortDirective([SortDirection("+"), Field("age")])], 10)
  {
    var d2 := SortDirective([SortDirection("+"), Field("age")]);
    assert ParseLiteral(s, 5, ",") == Match(",", 6) by {
      assert SkipWs(s, 5) == 5;
      assert s[5..6] == ",";
    }
    assert ParseSortDirective(s, 6) == Match(d2, 10) by {
      SignedDirective(s, 6, 3, '+');
      assert s[7..10] == "age";
    }
    assert ParseSortMore(s, 10) == Match([], 10) by {
      assert SkipWs(s, 10) == 10;
    }
    assert [Comma, d2] + [] == [Comma, d2];
  }

  /** A sign directly followed by a word of `n` letters that the end of the
      text or a comma closes is one signed directive. */
  lemma SignedDirective(s: string, j: nat, n: nat, sign: char)
    requires j + 1 + n <= |s| && (sign == '+' || sign == '-') && s[j] == sign
    requires j == 0 || s[j - 1] == ','
    requires forall k :: j < k <= j + n ==> 'a' <= s[k] <= 'z'
    requires j + 1 + n == |s| || s[j + 1 + n] == ','
    requires n > 0
    ensures ParseSortDirective(s, j)
            == Match(SortDirective([SortDirection([sign]), Field(s[j + 1..j + 1 + n])]), j + 1 + n)
  {
    LettersAfterSign(s, j, n, sign);
    SignThenField(s, j, [sign], j + 1, Field(s[j + 1..j + 1 + n]), j + 1 + n);
  }

  /** The sign and the word after it, each read on its own. */
  lemma LettersAfterSign(s: string, j: nat, n: nat, sign: char)
    requires j + 1 + n <= |s| && (sign == '+' || sign == '-') && s[j] == sign
    requires j == 0 || s[j - 1] == ','
    requires forall k :: j < k <= j + n ==> 'a' <= s[k] <= 'z'
    requires j + 1 + n == |s| || s[j + 1 + n] == ','
    requires n > 0
    ensures ParseSign(s, j) == Match(SortDirection([sign]), j + 1)
    ensures ParseField(s, j + 1) == Match(Field(s[j + 1..j + 1 + n]), j + 1 + n)
  {
    assert SkipWs(s, j) == j;
    LettersField(s, j + 1, j + 1 + n);
  }

  /** A run of lower-case letters that the end of the text or a comma closes
      is one field. */
  lemma LettersField(s: string, a: nat, b: nat)
    requires a < b <= |s|
    requires forall k :: a <= k < b ==> 'a' <= s[k] <= 'z'
    requires b == |s| || s[b] == ','
    ensures ParseField(s, a) == Match(Field(s[a..b]), b)
  {
    assert !IsWhite(s[a]);
    assert SkipWs(s, a) == a;
    SpanOfLetters(s, a, b);
  }

  /** A sign and the field read where it ends make a signed directive. */
  lemma SignThenField(s: string, i: nat, sign: string, m: nat, f: Node, k: nat)
    requires i <= |s|
    requires ParseSign(s, i) == Match(SortDirection(sign), m)
    requires m <= |s| && ParseField(s, m) == Match(f, k)
    ensures ParseSortDirective(s, i) == Match(SortDirective([SortDirection(sign), f]), k)
  {
    FlattenOneLevel([SortDirection(sign), f], []);
    assert [SortDirection(sign)] + [f] == [SortDirection(sign), f];
  }

  lemma {:induction false} SpanOfLetters(s: string, a: nat, b: nat)
    requires a <= b <= |s|
    requires forall k :: a <= k < b ==> 'a' <= s[k] <= 'z'
    requires b == |s| || s[b] == ','
    ensures SpanEnd(s, a, IsWordChar) == b
    decreases b - a
  {
    if a < b {
      SpanOfLetters(s, a + 1, b);
    }
  }

  /** Two comparisons joined by `and`: the expression holds the first
      Statement, the LogicalOp and the second Statement, in input order, and
      nothing of the query is left over. */
  lemma AndChainExample()
    ensures ParseFilter("a = 1 and b = 2", Spellings)
            == Done([Statement([Comparison([Field("a"), Operator([Text("=")]), Integer("1")])]),
                     LogicalOp("and"),
                     Statement([Comparison([Field("b"), Operator([Text("=")]), Integer("2")])])], 15)
    ensures ConsumesAll("a = 1 and b = 2", 15)
  {
    AndChain("a = 1 and b = 2");
    assert SkipWs("a = 1 and b = 2", 15) == 15;
  }

  lemma AndChain(s: string)
    requires s == "a = 1 and b = 2"
    ensures ParseFilter(s, Spellings)
            == Done([Statement([Comparison([Field("a"), Operator([Text("=")]), Integer("1")])]),
                     LogicalOp("and"),
                     Statement([Comparison([Field("b"), Operator([Text("=")]), Integer("2")])])], 15)
  {
    AndChainText(s);
    AndChainFirst(s);
    AndChainJoin(s);
    AndChainSecond(s);
    NothingMoreAtEnd(s, Spellings);
    TwoStatementsJoined(s, Spellings,
                        Statement([Comparison([Field("a"), Operator([Text("=")]), Integer("1")])]), 5,
                        LogicalOp("and"), 9,
                        Statement([Comparison([Field("b"), Operator([Text("=")]), Integer("2")])]), 15);
  }

  /** A statement, a logical operator and a statement, with no further pair
      after them: the expression holds the three nodes in input order. */
  lemma TwoStatementsJoined(s: string, sp: BooleanSpellings, st1: Node, k1: nat, op: Node, k2: nat, st2: Node, k3: nat)
    requires k1 <= |s| && k3 <= |s|
    requires ParseStatement(s, 0, sp) == Done(st1, k1)
    requires ParseLogicalOp(s, k1) == Match(op, k2)
    requires k2 <= |s| && ParseStatement(s, k2, sp) == Done(st2, k3)
    requires ParseMore(s, k3, sp) == Done([], k3)
    ensures ParseFilter(s, sp) == Done([st1, op, st2], k3)
  {
    LastPair(s, sp, k1, op, k2, st2, k3);
    ConsTwo(st1, op, st2);
  }

  lemma ConsTwo<T>(a: T, b: T, c: T)
    ensures [a] + [b, c] == [a, b, c]
  {
  }

  /** A logical operator and a statement with no further pair after them are
      the last pair the chain collects. */
  lemma LastPair(s: string, sp: BooleanSpellings, k1: nat, op: Node, k2: nat, st2: Node, k3: nat)
    requires k1 <= |s| && k2 <= |s|
    requires ParseLogicalOp(s, k1) == Match(op, k2)
    requires ParseStatement(s, k2, sp) == Done(st2, k3)
    requires k3 <= |s| && ParseMore(s, k3, sp) == Done([], k3)
    ensures ParseMore(s, k1, sp) == Done([op, st2], k3)
  {
    assert [op, st2] + [] == [op, st2];
  }

  lemma AndChainFirst(s: string)
    requires SkipWs(s, 0) == 0 && FieldEqualsDigitAt(s, 0, 'a', '1')
    ensures ParseStatement(s, 0, Spellings)
            == Done(Statement([Comparison([Field("a"), Operator([Text("=")]), Integer("1")])]), 5)
  {
    FieldEqualsDigit(s, 0, 0, 'a', '1');
  }

  lemma AndChainJoin(s: string)
    requires s == "a = 1 and b = 2"
    ensures ParseLogicalOp(s, 5) == Match(LogicalOp("and"), 9)
  {
    assert SkipWs(s, 5) == 6;
    assert s[6..9] == "and";
    KeywordHere(s, 6, "and");
  }

  lemma AndChainSecond(s: string)
    requires FieldEqualsDigitAt(s, 10, 'b', '2') && SkipWs(s, 9) == 10
    ensures ParseStatement(s, 9, Spellings)
            == Done(Statement([Comparison([Field("b"), Operator([Text("=")]), Integer("2")])]), 15)
  {
    FieldEqualsDigit(s, 9, 10, 'b', '2');
  }

  /** Where the two comparisons of `a = 1 and b = 2` stand. */
  lemma AndChainText(s: string)
    requires s == "a = 1 and b = 2"
    ensures SkipWs(s, 0) == 0 && FieldEqualsDigitAt(s, 0, 'a', '1')
    ensures SkipWs(s, 9) == 10 && FieldEqualsDigitAt(s, 10, 'b', '2')
  {
    assert SkipWs(s, 10) == 10;
  }

  /** At `j` stands `x = d`: the one-letter field name `x`, which starts no
      boolean spelling, ` = `, the digit `d`, and then the end of the query or
      a space. */
  predicate FieldEqualsDigitAt(s: string, j: nat, x: char, d: char) {
    && j + 5 <= |s|
    && s[j] == x && IsLetter(x) && LowerChar(x) != 't' && LowerChar(x) != 'f'
    && s[j + 1] == ' ' && s[j + 2] == '=' && s[j + 3] == ' ' && s[j + 4] == d && IsDigit(d)
    && (j + 5 == |s| || s[j + 5] == ' ')
  }

  /** `x = d` is a statement holding `field op value`: the digit also reads
      as a field, but `field op value` is declared first and wins the tie. */
  lemma FieldEqualsDigit(s: string, i: nat, j: nat, x: char, d: char)
    requires FieldEqualsDigitAt(s, j, x, d) && i <= j && SkipWs(s, i) == j
    ensures ParseStatement(s, i, Spellings)
            == Done(Statement([Comparison([Field([x]), Operator([Text("=")]), Integer([d])])]), j + 5)
  {
    FieldEqualsDigitShapes(s, i, j, x, d);
    FlattenOneLevel([Field([x]), Operator([Text("=")]), Integer([d])], []);
  }

  lemma FieldEqualsDigitShapes(s: string, i: nat, j: nat, x: char, d: char)
    requires FieldEqualsDigitAt(s, j, x, d) && i <= j && SkipWs(s, i) == j
    ensures ParseSequence(s, i, FieldOpValue, Spellings)
            == Match([Field([x]), Operator([Text("=")]), Integer([d])], j + 5)
    ensures ParseSequence(s, i, ValueOpField, Spellings).NoMatch?
    ensures ParseSequence(s, i, FieldOpField, Spellings)
            == Match([Field([x]), Operator([Text("=")]), Field([d])], j + 5)
    ensures ParseSequence(s, i, FieldUnary, Spellings).NoMatch?
  {
    LetterOperand(s, i, j, x, d);
    EqualsAfterLetter(s, j, x, d);
    DigitValue(s, j, x, d);
    DigitField(s, j, x, d);
    FieldPieceIs(s, i, Spellings);
    ValuePieceIs(s, i, Spellings);
    OperatorPieceIs(s, j + 1, Spellings);
    UnaryPieceIs(s, j + 1, Spellings);
    ValuePieceIs(s, j + 3, Spellings);
    FieldPieceIs(s, j + 3, Spellings);
    ThreePieces(s, i, FieldPiece, OperatorPiece, ValuePiece, Spellings,
                Field([x]), Operator([Text("=")]), Integer([d]), j + 1, j + 3, j + 5);
    FirstOfThreeFails(s, i, ValuePiece, OperatorPiece, FieldPiece, Spellings);
    ThreePieces(s, i, FieldPiece, OperatorPiece, FieldPiece, Spellings,
                Field([x]), Operator([Text("=")]), Field([d]), j + 1, j + 3, j + 5);
    SecondOfTwoFails(s, i, FieldPiece, UnaryOperatorPiece, Spellings, j + 1);
  }

  /** The letter is a field, and no value. */
  lemma LetterOperand(s: string, i: nat, j: nat, x: char, d: char)
    requires FieldEqualsDigitAt(s, j, x, d) && i <= j && SkipWs(s, i) == j
    ensures ParseField(s, i) == Match(Field([x]), j + 1)
    ensures ParseValue(s, i, Spellings).NoMatch?
  {
    assert SpanEnd(s, j + 1, IsWordChar) == j + 1;
    assert s[j..j + 1] == [x];
    NoNumberAt(s, i);
    assert ParseQuotedString(s, i).NoMatch?;
    assert Spellings.All() == ["true", "false"];
    NoKeywordsHere(s, j, Spellings.All());
    assert ParseBoolean(s, i, Spellings).NoMatch?;
  }

  /** The `=` after the letter is the binary Operator `=`, and no unary one. */
  lemma EqualsAfterLetter(s: string, j: nat, x: char, d: char)
    requires FieldEqualsDigitAt(s, j, x, d)
    ensures ParseComparisonOperator(s, j + 1) == Match(Operator([Text("=")]), j + 3)
    ensures ParseUnaryOperator(s, j + 1).NoMatch?
  {
    assert SkipWs(s, j + 2) == j + 2;
    assert SkipWs(s, j + 1) == j + 2;
    assert LoneEqualsAt(s, j + 2);
    EqualsOperator(s, j + 1);
    NotUnaryAtEquals(s, j + 1);
  }

  /** The digit is an Integer value. */
  lemma DigitValue(s: string, j: nat, x: char, d: char)
    requires FieldEqualsDigitAt(s, j, x, d)
    ensures ParseValue(s, j + 3, Spellings) == Match(Integer([d]), j + 5)
  {
    assert SkipWs(s, j + 4) == j + 4;
    assert SkipWs(s, j + 3) == j + 4;
    assert s[j + 4..][0] == s[j + 4];
    assert SignLength(s[j + 4..]) == 0;
    assert SpanEnd(s, j + 5, IsDigit) == j + 5;
    assert SpanEnd(s, j + 4, IsDigit) == j + 5;
    assert s[j + 4..j + 5] == [d];
    assert FloatDot(s, j + 4) == j + 5;
    assert ParseFloat(s, j + 3).NoMatch?;
    assert ParseQuotedString(s, j + 3).NoMatch?;
    assert Spellings.All() == ["true", "false"];
    NoKeywordsHere(s, j + 4, Spellings.All());
    assert ParseBoolean(s, j + 3, Spellings).NoMatch?;
  }

  /** The digit also reads as a field. */
  lemma DigitField(s: string, j: nat, x: char, d: char)
    requires FieldEqualsDigitAt(s, j, x, d)
    ensures ParseField(s, j + 3) == Match(Field([d]), j + 5)
  {
    assert SkipWs(s, j + 4) == j + 4;
    assert SkipWs(s, j + 3) == j + 4;
    assert SpanEnd(s, j + 5, IsWordChar) == j + 5;
    assert SpanEnd(s, j + 4, IsWordChar) == j + 5;
    assert s[j + 4..j + 5] == [d];
  }
}
