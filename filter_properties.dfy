/** Properties of the filter grammar that relate several of its rules: longest
    match among operators and literals, the accessors on the comparisons the
    grammar builds, and when the value-against-value trap can fire. */
module FilterProperties {
  import opened Chars
  import opened Ast
  import opened Lexical
  import opened FilterGrammar

  /** A float is never cut short to the integer before its dot: when the float
      rule matches, the value is not an Integer, and it is that Float unless a
      configured boolean spelling stands there and reaches further. */
  lemma FloatIsNeverInteger(s: string, i: nat, sp: BooleanSpellings)
    requires i <= |s|
    requires ParseFloat(s, i).Match?
    ensures ParseValue(s, i, sp).Match? && !ParseValue(s, i, sp).value.Integer?
    ensures ParseBoolean(s, i, sp).NoMatch? ==> ParseValue(s, i, sp) == ParseFloat(s, i)
  {
    var j := SkipWs(s, i);
    var d := j + SignLength(s[j..]);
    var p := SpanEnd(s, d, IsDigit);
    assert ParseInteger(s, i).next == p;
    assert ParseQuotedString(s, i).NoMatch? by {
      assert s[j] == '+' || s[j] == '-' || IsDigit(s[j]);
    }
  }

  /** The kinds of children a well-formed comparison has, without the
      operator's spelling. */
  predicate ComparisonShape(t: seq<Node>) {
    && 2 <= |t| <= 3
    && t[1].Operator?
    && (|t| == 2 ==> t[0].Field?)
    && (|t| == 3 ==> (t[0].Field? && (IsValue(t[2]) || t[2].Field?)) || (IsValue(t[0]) && t[2].Field?))
  }

  lemma ShapeOfWellFormed(c: Node)
    requires WellFormedComparison(c)
    ensures ComparisonShape(c.tokens)
  {
  }

  lemma OperatorIsSecond(t: seq<Node>)
    requires ComparisonShape(t)
    ensures FirstOfClass(t, OperatorClass) == Some(t[1])
  {
    var k :| IsFirstOf(t, k, OperatorClass) && t[k] == FirstOfClass(t, OperatorClass).value;
    assert !IsInstance(t[0], OperatorClass) && IsInstance(t[1], OperatorClass);
  }

  lemma OperandsOfShape(t: seq<Node>)
    requires ComparisonShape(t)
    ensures FilterClass(t, FieldClass) != []
    ensures |t| == 2 ==> FilterClass(t, FieldClass) == [t[0]] && FilterClass(t, ValueClass) == []
    ensures |t| == 3 ==> || FilterClass(t, FieldClass) + FilterClass(t, ValueClass) == [t[0], t[2]]
                         || FilterClass(t, ValueClass) + FilterClass(t, FieldClass) == [t[0], t[2]]
  {
    if |t| == 2 {
      OperandsOfUnary(t);
    } else {
      OperandsOfBinary(t);
    }
  }

  lemma OperandsOfUnary(t: seq<Node>)
    requires |t| == 2 && t[0].Field? && t[1].Operator?
    ensures FilterClass(t, FieldClass) == [t[0]] && FilterClass(t, ValueClass) == []
  {
    FilterClassOfFew(t, FieldClass);
    FilterClassOfFew(t, ValueClass);
    KeepOperand(t[0]);
    KeepOperand(t[1]);
    assert FilterClass(t, FieldClass) == [t[0]] + [];
    assert FilterClass(t, ValueClass) == [] + [];
  }

  lemma OperandsOfBinary(t: seq<Node>)
    requires |t| == 3 && t[1].Operator?
    requires (t[0].Field? && (IsValue(t[2]) || t[2].Field?)) || (IsValue(t[0]) && t[2].Field?)
    ensures FilterClass(t, FieldClass) != []
    ensures || FilterClass(t, FieldClass) + FilterClass(t, ValueClass) == [t[0], t[2]]
            || FilterClass(t, ValueClass) + FilterClass(t, FieldClass) == [t[0], t[2]]
  {
    var a, b := if t[0].Field? then [t[0]] else [], if t[2].Field? then [t[2]] else [];
    var c, d := if t[0].Field? then [] else [t[0]], if t[2].Field? then [] else [t[2]];
    OperandsOfThree(t);
    if t[0].Field? && t[2].Field? {
      assert a + b + (c + d) == [t[0], t[2]];
    } else if t[0].Field? {
      assert a + b + (c + d) == [t[0], t[2]];
    } else {
      assert c + d + (a + b) == [t[0], t[2]];
    }
  }

  /** The fields and the values among two operands around an operator. */
  lemma OperandsOfThree(t: seq<Node>)
    requires |t| == 3 && t[1].Operator?
    requires (t[0].Field? || IsValue(t[0])) && (t[2].Field? || IsValue(t[2]))
    ensures FilterClass(t, FieldClass) == (if t[0].Field? then [t[0]] else []) + (if t[2].Field? then [t[2]] else [])
    ensures FilterClass(t, ValueClass) == (if t[0].Field? then [] else [t[0]]) + (if t[2].Field? then [] else [t[2]])
  {
    FilterClassOfFew(t, FieldClass);
    FilterClassOfFew(t, ValueClass);
    KeepOperand(t[0]);
    KeepOperand(t[1]);
    KeepOperand(t[2]);
    EmptyMiddle(Keep(t[0], FieldClass), Keep(t[2], FieldClass));
    EmptyMiddle(Keep(t[0], ValueClass), Keep(t[2], ValueClass));
  }

  lemma EmptyMiddle(x: seq<Node>, y: seq<Node>)
    ensures x + [] + y == x + y
  {
  }

  /** A Field is kept as a field, a Value as a value, an Operator as neither. */
  lemma KeepOperand(n: Node)
    ensures Keep(n, FieldClass) == if n.Field? then [n] else []
    ensures Keep(n, ValueClass) == if IsValue(n) then [n] else []
  {
  }

  /** The comparison the grammar builds has its operator second; `isnull`
      comparisons have one Field and no Value; binary ones have their two
      operands as fields and values, in order, at least one of them a Field. */
  lemma ComparisonAccessors(c: Node)
    requires WellFormedComparison(c)
    ensures ComparisonOperator(c) == Some(c.tokens[1])
    ensures ComparisonFields(c) != []
    ensures |c.tokens| == 2 ==> ComparisonFields(c) == [c.tokens[0]] && ComparisonValues(c) == []
    ensures |c.tokens| == 3 ==> || ComparisonFields(c) + ComparisonValues(c) == [c.tokens[0], c.tokens[2]]
                                || ComparisonValues(c) + ComparisonFields(c) == [c.tokens[0], c.tokens[2]]
  {
    ShapeOfWellFormed(c);
    OperatorIsSecond(c.tokens);
    OperandsOfShape(c.tokens);
  }

  /** The operators one of whose prefixes is another operator. */
  const LongOperators: seq<string> := ["<=", ">=", "!=", "lte", "gte"]

  /** Facts about the spellings: the case-sensitive operators are at most
      three characters long, the three-character ones begin with `l` or `g`,
      and the long operators are case-sensitive operators of two characters
      beginning with `<`, `>` or `!`, or of three. */
  lemma OperatorSpellingFacts()
    ensures forall m :: 0 <= m < |CaseSensitiveOperators| ==>
              && |CaseSensitiveOperators[m]| <= 3
              && (|CaseSensitiveOperators[m]| == 3 ==> CaseSensitiveOperators[m][0] in "lg")
    ensures forall w :: w in LongOperators ==>
              && w in CaseSensitiveOperators
              && 2 <= |w|
              && (|w| == 2 ==> w[0] in "<>!")
  {
  }

  /** Two words standing at the same position are equal when equally long,
      and begin with the same character. */
  lemma SameStart(s: string, j: nat, v: string, w: string)
    requires 0 < |w| <= |v| && j + |v| <= |s|
    requires s[j..j + |v|] == v && s[j..j + |w|] == w
    ensures v[0] == w[0]
    ensures |v| == |w| ==> v == w
  {
    assert s[j..j + |v|][0] == s[j] == s[j..j + |w|][0];
  }

  /** A case-sensitive operator standing where a long operator stands, and
      at least as long, is that long operator. */
  lemma LongOperatorUnique(s: string, j: nat, v: string, w: string)
    requires j <= |s|
    requires v in CaseSensitiveOperators && w in LongOperators
    requires KeywordAt(s, j, v, false) && KeywordAt(s, j, w, false)
    requires |w| <= |v|
    ensures v == w
  {
    OperatorSpellingFacts();
    SameStart(s, j, v, w);
  }

  /** Among the case-sensitive operators, the longest one standing at the
      position is the long operator there. */
  lemma LongOperatorIsLongest(s: string, i: nat, w: string)
    requires i <= |s|
    requires w in LongOperators
    requires KeywordAt(s, SkipWs(s, i), w, false)
    ensures LongestKeyword(s, i, CaseSensitiveOperators, false) == Match(w, SkipWs(s, i) + |w|)
  {
    var j := SkipWs(s, i);
    var kws := CaseSensitiveOperators;
    var k0 := LongOperatorIndex(w);
    assert KeywordAt(s, j, kws[k0], false);
    var sym := LongestKeyword(s, i, kws, false);
    var k :| IsLongestFirst(s, j, kws, k, false) && sym.value == kws[k] && sym.next == j + |kws[k]|;
    LongestIsTheLongOperator(s, j, k, w);
  }

  /** Where a long operator stands among the case-sensitive ones. */
  function LongOperatorIndex(w: string): (k: nat)
    requires w in LongOperators
    ensures k < |CaseSensitiveOperators| && CaseSensitiveOperators[k] == w
  {
    if w == "<=" then 3 else if w == ">=" then 2 else if w == "!=" then 1 else if w == "lte" then 6 else 8
  }

  /** The longest case-sensitive operator standing where a long operator
      stands is that long operator. */
  lemma LongestIsTheLongOperator(s: string, j: nat, k: int, w: string)
    requires j <= |s|
    requires w in LongOperators && KeywordAt(s, j, w, false)
    requires IsLongestFirst(s, j, CaseSensitiveOperators, k, false)
    ensures CaseSensitiveOperators[k] == w
  {
    var k0 := LongOperatorIndex(w);
    assert |CaseSensitiveOperators[k0]| <= |CaseSensitiveOperators[k]|;
    LongOperatorUnique(s, j, CaseSensitiveOperators[k], w);
  }

  /** No textual operator, negated or not, starts with one of these characters. */
  lemma NoTextualOperatorAt(s: string, i: nat)
    requires i <= |s|
    requires SkipWs(s, i) < |s|
    requires s[SkipWs(s, i)] in "=<>!lg"
    ensures ParseNegatable(s, i, TextualOperators).NoMatch?
  {
    var j := SkipWs(s, i);
    assert SkipWs(s, j) == j;
    assert LowerChar(s[j]) == s[j];
    NoKeywordsHere(s, j, ["not"]);
    NoKeywordsHere(s, j, TextualOperators);
    assert ParseKeyword(s, i, "not", true).NoMatch?;
    assert LongestKeyword(s, j, TextualOperators, true).NoMatch?;
  }

  /** Where neither `not` nor any operator spelling stands, no binary
      comparison operator is read. */
  lemma NoOperatorWhereNoneStands(s: string, i: nat)
    requires i <= |s|
    requires !KeywordAt(s, SkipWs(s, i), "not", true)
    requires forall k :: 0 <= k < |CaseSensitiveOperators| ==> !KeywordAt(s, SkipWs(s, i), CaseSensitiveOperators[k], false)
    requires forall k :: 0 <= k < |TextualOperators| ==> !KeywordAt(s, SkipWs(s, i), TextualOperators[k], true)
    ensures ParseComparisonOperator(s, i).NoMatch?
  {
    var j := SkipWs(s, i);
    assert SkipWs(s, j) == j;
    assert ParseKeyword(s, i, "not", true).NoMatch?;
    assert LongestKeyword(s, j, TextualOperators, true).NoMatch?;
    assert ParseTextualOperator(s, i).NoMatch?;
    assert ParseSymbolicOperator(s, i).NoMatch?;
  }

  /** Where neither `not` nor `isnull` stands, no unary operator is read. */
  lemma NoUnaryWhereNoneStands(s: string, i: nat)
    requires i <= |s|
    requires !KeywordAt(s, SkipWs(s, i), "not", true)
    requires !KeywordAt(s, SkipWs(s, i), "isnull", true)
    ensures ParseUnaryOperator(s, i).NoMatch?
  {
    var j := SkipWs(s, i);
    assert SkipWs(s, j) == j;
    assert ParseKeyword(s, i, "not", true).NoMatch?;
    assert ParseKeyword(s, i, "isnull", true).NoMatch?;
    assert LongestKeyword(s, j, ["isnull"], true).NoMatch?;
    assert ParseNegatable(s, i, ["isnull"]).NoMatch?;
  }

  /** Where `isnull` stands and `not` does not, the unary operator is `isnull`. */
  lemma UnaryWhereIsNullStands(s: string, i: nat)
    requires i <= |s|
    requires !KeywordAt(s, SkipWs(s, i), "not", true)
    requires KeywordAt(s, SkipWs(s, i), "isnull", true)
    ensures ParseUnaryOperator(s, i) == Match(Operator([Text("isnull")]), SkipWs(s, i) + 6)
  {
    var j := SkipWs(s, i);
    assert SkipWs(s, j) == j;
    assert ParseKeyword(s, i, "not", true).NoMatch?;
    assert ParseKeyword(s, i, "isnull", true) == Match("isnull", j + 6);
    assert LongestKeyword(s, j, ["isnull"], true) == Match("isnull", j + 6);
    assert [] + [Text("isnull")] == [Text("isnull")];
    assert ParseNegatable(s, i, ["isnull"]) == Match([Text("isnull")], j + 6);
    FlattenOneLevel([Text("isnull")], []);
  }

  lemma LongOperatorFirstChar(s: string, i: nat, w: string)
    requires i <= |s|
    requires w in LongOperators
    requires KeywordAt(s, SkipWs(s, i), w, false)
    ensures SkipWs(s, i) < |s| && s[SkipWs(s, i)] in "<>!lg"
  {
    var j := SkipWs(s, i);
    OperatorSpellingFacts();
    assert s[j..j + |w|][0] == w[0];
  }

  /** `<=`, `>=`, `!=`, `lte` and `gte` are read whole: the longest-match Or
      never stops at the `<`, `>`, `lt` or `gt` they begin with. */
  lemma LongerOperatorWins(s: string, i: nat, w: string)
    requires i <= |s|
    requires w in LongOperators
    requires KeywordAt(s, SkipWs(s, i), w, false)
    ensures ParseComparisonOperator(s, i) == Match(Operator([Text(w)]), SkipWs(s, i) + |w|)
  {
    LongOperatorIsLongest(s, i, w);
    LongOperatorFirstChar(s, i, w);
    NoTextualOperatorAt(s, i);
    SymbolicOperatorWins(s, i, w, SkipWs(s, i) + |w|);
  }

  /** Where a case-sensitive operator stands and no textual one does, the
      comparison operator is that one operator. */
  lemma SymbolicOperatorWins(s: string, i: nat, w: string, k: nat)
    requires i <= |s|
    requires LongestKeyword(s, i, CaseSensitiveOperators, false) == Match(w, k)
    requires ParseNegatable(s, i, TextualOperators).NoMatch?
    ensures ParseComparisonOperator(s, i) == Match(Operator([Text(w)]), k)
  {
    assert ParseSymbolicOperator(s, i) == Match([Text(w)], k);
    assert ParseTextualOperator(s, i).NoMatch?;
    FlattenOneLevel([Text(w)], []);
  }

  /** Only the integer rule yields Integer nodes among the value alternatives. */
  lemma IntegerValueIsInteger(s: string, i: nat, sp: BooleanSpellings)
    requires i <= |s|
    requires ParseValue(s, i, sp).Match? && ParseValue(s, i, sp).value.Integer?
    ensures ParseValue(s, i, sp) == ParseInteger(s, i)
  {
  }

  /** Bare digits the integer rule reads are read by the field rule too, and
      the field stops where the integer does unless a word character follows
      the digits directly, in which case no keyword may start there. */
  lemma DigitsAreAField(s: string, i: nat)
    requires i <= |s|
    requires ParseInteger(s, i).Match? && IsDigits(ParseInteger(s, i).value.text)
    ensures ParseField(s, i).Match?
    ensures ParseInteger(s, i).next <= ParseField(s, i).next
    ensures ParseInteger(s, i).next < ParseField(s, i).next ==>
              SkipWs(s, ParseInteger(s, i).next) == ParseInteger(s, i).next
              && !AfterBoundary(s, ParseInteger(s, i).next)
  {
    var v := ParseInteger(s, i);
    var j := SkipWs(s, i);
    DigitsInside(s, j, v.next);
    SpanReaches(s, j, v.next);
  }

  /** Digit text cut out of `s` has a digit at each of its places in `s`. */
  lemma DigitsInside(s: string, j: nat, k: nat)
    requires j <= k <= |s| && IsDigits(s[j..k])
    ensures j < k && IsDigit(s[k - 1]) && IsWordChar(s[j])
    ensures forall m :: j <= m < k ==> IsWordChar(s[m])
  {
    var t := s[j..k];
    forall m | j <= m < k
      ensures IsDigit(s[m])
    {
      assert s[m] == t[m - j];
    }
  }

  /** The word characters from `j` reach at least to `k` when every
      character before `k` is one. */
  lemma {:induction false} SpanReaches(s: string, j: nat, k: nat)
    requires j <= k <= |s|
    requires forall m :: j <= m < k ==> IsWordChar(s[m])
    ensures k <= SpanEnd(s, j, IsWordChar)
    decreases k - j
  {
    if j < k {
      SpanReaches(s, j + 1, k);
    }
  }

  /** One step of the And: the first piece, then the rest where it ended. */
  lemma SequenceCons(s: string, i: nat, pieces: seq<Piece>, sp: BooleanSpellings)
    requires i <= |s| && |pieces| > 0
    ensures var a := ParsePiece(s, i, pieces[0], sp);
            ParseSequence(s, i, pieces, sp) ==
              if a.NoMatch? then NoMatch
              else var r := ParseSequence(s, a.next, pieces[1..], sp);
                   if r.NoMatch? then NoMatch else Match([a.value] + r.value, r.next)
  {
  }

  /** A two-piece And matches when the second piece matches where the first
      one ended, and yields the two nodes in order. */
  lemma SequenceOfTwo(s: string, i: nat, shape: seq<Piece>, sp: BooleanSpellings)
    requires i <= |s| && |shape| == 2
    ensures var a := ParsePiece(s, i, shape[0], sp);
            var b := if a.Match? then ParsePiece(s, a.next, shape[1], sp) else NoMatch;
            && (ParseSequence(s, i, shape, sp).Match? <==> b.Match?)
            && (b.Match? ==> ParseSequence(s, i, shape, sp) == Match([a.value, b.value], b.next))
  {
    var a := ParsePiece(s, i, shape[0], sp);
    SequenceCons(s, i, shape, sp);
    if a.Match? {
      var rest := shape[1..];
      assert rest == [shape[1]] && rest[1..] == [];
      SequenceCons(s, a.next, rest, sp);
      var b := ParsePiece(s, a.next, shape[1], sp);
      if b.Match? {
        assert ParseSequence(s, b.next, [], sp) == Match([], b.next);
        assert [b.value] + [] == [b.value];
        assert [a.value] + [b.value] == [a.value, b.value];
      }
    }
  }

  /** A three-piece And matches when each piece matches where the previous
      one ended, and yields the three nodes in order. */
  lemma SequenceOfThree(s: string, i: nat, shape: seq<Piece>, sp: BooleanSpellings)
    requires i <= |s| && |shape| == 3
    ensures var a := ParsePiece(s, i, shape[0], sp);
            var b := if a.Match? then ParsePiece(s, a.next, shape[1], sp) else NoMatch;
            var c := if b.Match? then ParsePiece(s, b.next, shape[2], sp) else NoMatch;
            && (ParseSequence(s, i, shape, sp).Match? <==> c.Match?)
            && (c.Match? ==> ParseSequence(s, i, shape, sp) == Match([a.value, b.value, c.value], c.next))
  {
    var a := ParsePiece(s, i, shape[0], sp);
    SequenceCons(s, i, shape, sp);
    if a.Match? {
      var rest := shape[1..];
      assert |rest| == 2 && rest[0] == shape[1] && rest[1] == shape[2];
      SequenceOfTwo(s, a.next, rest, sp);
      var b := ParsePiece(s, a.next, shape[1], sp);
      if b.Match? {
        var c := ParsePiece(s, b.next, shape[2], sp);
        if c.Match? {
          assert ParseSequence(s, a.next, rest, sp) == Match([b.value, c.value], c.next);
          assert [a.value] + [b.value, c.value] == [a.value, b.value, c.value];
        }
      }
    }
  }

  /** Each piece is read by its own rule. */
  lemma FieldPieceIs(s: string, i: nat, sp: BooleanSpellings)
    requires i <= |s|
    ensures ParsePiece(s, i, FieldPiece, sp) == ParseField(s, i)
  {
  }

  lemma OperatorPieceIs(s: string, i: nat, sp: BooleanSpellings)
    requires i <= |s|
    ensures ParsePiece(s, i, OperatorPiece, sp) == ParseComparisonOperator(s, i)
  {
  }

  lemma UnaryPieceIs(s: string, i: nat, sp: BooleanSpellings)
    requires i <= |s|
    ensures ParsePiece(s, i, UnaryOperatorPiece, sp) == ParseUnaryOperator(s, i)
  {
  }

  lemma ValuePieceIs(s: string, i: nat, sp: BooleanSpellings)
    requires i <= |s|
    ensures ParsePiece(s, i, ValuePiece, sp) == ParseValue(s, i, sp)
  {
  }

  /** The three-piece And fails when its first piece fails. */
  lemma FirstOfThreeFails(s: string, i: nat, p0: Piece, p1: Piece, p2: Piece, sp: BooleanSpellings)
    requires i <= |s|
    requires ParsePiece(s, i, p0, sp).NoMatch?
    ensures ParseSequence(s, i, [p0, p1, p2], sp).NoMatch?
  {
    SequenceOfThree(s, i, [p0, p1, p2], sp);
  }

  /** The three-piece And fails when its second piece fails where the first ended. */
  lemma SecondOfThreeFails(s: string, i: nat, p0: Piece, p1: Piece, p2: Piece, sp: BooleanSpellings, k: nat)
    requires i <= |s|
    requires ParsePiece(s, i, p0, sp).Match? && ParsePiece(s, i, p0, sp).next == k
    requires ParsePiece(s, k, p1, sp).NoMatch?
    ensures ParseSequence(s, i, [p0, p1, p2], sp).NoMatch?
  {
    SequenceOfThree(s, i, [p0, p1, p2], sp);
  }

  /** The three-piece And fails when its third piece fails where the second ended. */
  lemma ThirdOfThreeFails(s: string, i: nat, p0: Piece, p1: Piece, p2: Piece, sp: BooleanSpellings, k1: nat, k2: nat)
    requires i <= |s|
    requires ParsePiece(s, i, p0, sp).Match? && ParsePiece(s, i, p0, sp).next == k1
    requires ParsePiece(s, k1, p1, sp).Match? && ParsePiece(s, k1, p1, sp).next == k2
    requires ParsePiece(s, k2, p2, sp).NoMatch?
    ensures ParseSequence(s, i, [p0, p1, p2], sp).NoMatch?
  {
    SequenceOfThree(s, i, [p0, p1, p2], sp);
  }

  /** Three pieces matching one after the other make the And match. */
  lemma ThreePieces(s: string, i: nat, p0: Piece, p1: Piece, p2: Piece, sp: BooleanSpellings,
                    a: Node, b: Node, c: Node, i1: nat, i2: nat, i3: nat)
    requires i <= |s|
    requires ParsePiece(s, i, p0, sp) == Match(a, i1)
    requires ParsePiece(s, i1, p1, sp) == Match(b, i2)
    requires ParsePiece(s, i2, p2, sp) == Match(c, i3)
    ensures ParseSequence(s, i, [p0, p1, p2], sp) == Match([a, b, c], i3)
  {
    SequenceOfThree(s, i, [p0, p1, p2], sp);
  }

  /** The two-piece And fails when its first piece fails. */
  lemma FirstOfTwoFails(s: string, i: nat, p0: Piece, p1: Piece, sp: BooleanSpellings)
    requires i <= |s|
    requires ParsePiece(s, i, p0, sp).NoMatch?
    ensures ParseSequence(s, i, [p0, p1], sp).NoMatch?
  {
    SequenceOfTwo(s, i, [p0, p1], sp);
  }

  /** The two-piece And fails when its second piece fails where the first ended. */
  lemma SecondOfTwoFails(s: string, i: nat, p0: Piece, p1: Piece, sp: BooleanSpellings, k: nat)
    requires i <= |s|
    requires ParsePiece(s, i, p0, sp).Match? && ParsePiece(s, i, p0, sp).next == k
    requires ParsePiece(s, k, p1, sp).NoMatch?
    ensures ParseSequence(s, i, [p0, p1], sp).NoMatch?
  {
    SequenceOfTwo(s, i, [p0, p1], sp);
  }

  /** Two pieces matching one after the other make the And match. */
  lemma TwoPieces(s: string, i: nat, p0: Piece, p1: Piece, sp: BooleanSpellings,
                  a: Node, b: Node, i1: nat, i2: nat)
    requires i <= |s|
    requires ParsePiece(s, i, p0, sp) == Match(a, i1)
    requires ParsePiece(s, i1, p1, sp) == Match(b, i2)
    ensures ParseSequence(s, i, [p0, p1], sp) == Match([a, b], i2)
  {
    SequenceOfTwo(s, i, [p0, p1], sp);
  }

  /** When no field can be read where the statement starts, nor after the
      operator that follows the first value, no comparison shape matches. */
  lemma NoFieldNoComparison(s: string, i: nat, sp: BooleanSpellings, k1: nat, k2: nat)
    requires i <= |s|
    requires ParseField(s, i).NoMatch?
    requires ParseValue(s, i, sp).Match? && ParseValue(s, i, sp).next == k1
    requires ParseComparisonOperator(s, k1).Match? && ParseComparisonOperator(s, k1).next == k2
    requires ParseField(s, k2).NoMatch?
    ensures ParseComparison(s, i, sp).NoMatch?
  {
    FieldShapesFail(s, i, sp);
    ValueOpFieldFails(s, i, sp, k1, k2);
  }

  /** Two values around an operator make the `value op value` pattern. */
  lemma TwoValuesCompared(s: string, i: nat, sp: BooleanSpellings, a: Node, op: Node, b: Node,
                          k1: nat, k2: nat, k3: nat)
    requires i <= |s|
    requires ParseValue(s, i, sp) == Match(a, k1)
    requires ParseComparisonOperator(s, k1) == Match(op, k2)
    requires ParseValue(s, k2, sp) == Match(b, k3)
    ensures ParseSequence(s, i, ValueOpValue, sp) == Match([a, op, b], k3)
  {
    ValuePieceIs(s, i, sp);
    OperatorPieceIs(s, k1, sp);
    ValuePieceIs(s, k2, sp);
    ThreePieces(s, i, ValuePiece, OperatorPiece, ValuePiece, sp, a, op, b, k1, k2, k3);
  }

  /** The shapes that begin with a field fail where no field can be read. */
  lemma FieldShapesFail(s: string, i: nat, sp: BooleanSpellings)
    requires i <= |s|
    requires ParseField(s, i).NoMatch?
    ensures ParseSequence(s, i, FieldOpValue, sp).NoMatch?
    ensures ParseSequence(s, i, FieldOpField, sp).NoMatch?
    ensures ParseSequence(s, i, FieldUnary, sp).NoMatch?
  {
    FieldPieceIs(s, i, sp);
    FirstOfThreeFails(s, i, FieldPiece, OperatorPiece, ValuePiece, sp);
    FirstOfThreeFails(s, i, FieldPiece, OperatorPiece, FieldPiece, sp);
    FirstOfTwoFails(s, i, FieldPiece, UnaryOperatorPiece, sp);
  }

  /** `value op field` fails where no field follows the operator. */
  lemma ValueOpFieldFails(s: string, i: nat, sp: BooleanSpellings, k1: nat, k2: nat)
    requires i <= |s|
    requires ParseValue(s, i, sp).Match? && ParseValue(s, i, sp).next == k1
    requires ParseComparisonOperator(s, k1).Match? && ParseComparisonOperator(s, k1).next == k2
    requires ParseField(s, k2).NoMatch?
    ensures ParseSequence(s, i, ValueOpField, sp).NoMatch?
  {
    ValuePieceIs(s, i, sp);
    OperatorPieceIs(s, k1, sp);
    FieldPieceIs(s, k2, sp);
    ThirdOfThreeFails(s, i, ValuePiece, OperatorPiece, FieldPiece, sp, k1, k2);
  }

  /** `value op value` whose left operand is bare digits matches `field op value` too. */
  lemma LeftDigitsAreField(s: string, i: nat, sp: BooleanSpellings)
    requires i <= |s|
    requires ParseSequence(s, i, ValueOpValue, sp).Match?
    requires ParseSequence(s, i, ValueOpValue, sp).value[0].Integer?
    requires IsDigits(ParseSequence(s, i, ValueOpValue, sp).value[0].text)
    ensures ParseSequence(s, i, FieldOpValue, sp).Match?
  {
    SequenceOfThree(s, i, ValueOpValue, sp);
    var v := ParseValue(s, i, sp);
    assert v.Match? && ParseSequence(s, i, ValueOpValue, sp).value[0] == v.value;
    var op := ParseComparisonOperator(s, v.next);
    assert op.Match? && ParseValue(s, op.next, sp).Match?;
    IntegerValueIsInteger(s, i, sp);
    DigitsAreAField(s, i);
    var f := ParseField(s, i);
    assert f.next == v.next;
    SequenceOfThree(s, i, FieldOpValue, sp);
  }

  /** `value op value` whose right operand is bare digits matches `value op field` too. */
  lemma RightDigitsAreField(s: string, i: nat, sp: BooleanSpellings)
    requires i <= |s|
    requires ParseSequence(s, i, ValueOpValue, sp).Match?
    requires ParseSequence(s, i, ValueOpValue, sp).value[2].Integer?
    requires IsDigits(ParseSequence(s, i, ValueOpValue, sp).value[2].text)
    ensures ParseSequence(s, i, ValueOpField, sp).Match?
  {
    SequenceOfThree(s, i, ValueOpValue, sp);
    SequenceOfThree(s, i, ValueOpField, sp);
    var v := ParseValue(s, i, sp);
    var op := ParseComparisonOperator(s, v.next);
    IntegerValueIsInteger(s, op.next, sp);
    DigitsAreAField(s, op.next);
  }

  /** The value-against-value trap fires only when neither operand can be read
      as a field: with a bare-digits operand the statement is a comparison. */
  lemma TrapNeedsNonFieldOperands(s: string, i: nat, sp: BooleanSpellings)
    requires i <= |s|
    requires ParseSequence(s, i, ValueOpValue, sp).Match?
    requires var x := ParseSequence(s, i, ValueOpValue, sp).value;
             || (x[0].Integer? && IsDigits(x[0].text))
             || (x[2].Integer? && IsDigits(x[2].text))
    ensures ParseComparison(s, i, sp).Match?
    ensures ParseStatement(s, i, sp) == Done(Statement([ParseComparison(s, i, sp).value]), ParseComparison(s, i, sp).next)
  {
    var x := ParseSequence(s, i, ValueOpValue, sp).value;
    if x[0].Integer? && IsDigits(x[0].text) {
      LeftDigitsAreField(s, i, sp);
    } else {
      RightDigitsAreField(s, i, sp);
    }
  }
}
