# rest_framework_filterdsl parser, modelled in Dafny

`rest_framework_filterdsl` lets a REST API client filter and sort a
listing with two small query languages. A filter is a chain of comparisons
such as `name icontains 'bob' and (age > 30 or age isnull)`. A sort is a
comma-separated list of fields, each with an optional sign, such as `-name,+age`.
The module `parser.py` declares both languages as pyparsing grammars and
builds a tree of token objects. These are Field, Operator, Integer, Comparison,
Statement, SortDirective and so on, and typed accessors read the tree.

This project models that module.

- **The token tree** (`ast.dfy`, module `Ast`) is one `Node` datatype.
  - A `Class` datatype stands in for the Python class hierarchy, and
    `IsInstance` for `isinstance`.
  - `Flatten` is `GroupToken.__init__`. `FilterClass` and `FirstOfClass` are
    `_filter_class` and `_filter_class_first`.
  - Each property accessor is a function.
  - The two `for` loops of the source are also written as methods. They are
    proved equal to the functions.
- **The grammars** are recursive-descent functions that thread a position
  through the query string.
  - `lexical.dfy`, module `Lexical`: whitespace, keywords, fields, numbers,
    quoted strings and booleans.
  - `filter_grammar.dfy`, module `FilterGrammar`: operators, comparisons, the
    `value op value` trap, statements and `and`/`or` chains.
  - `sort_grammar.dfy`, module `SortGrammar`: the sort list.
  - A lexical parser returns `Match(value, next)` or `NoMatch`. A statement
    or expression returns `Done`, `Fail`, or `BadQuery(message)`. The last is
    the exception raised by `fail`. The statement parser raises it with the
    corrected message of the "Findings" row below: the trap action as written
    raises TypeError before `fail` is reached.
- **The pyparsing behaviour** the grammar relies on is written out explicitly.
  - `^` (`Or`) is `Longest`: the longest alternative wins, and on a tie the
    one declared first.
  - `|` (`MatchFirst`) is `FirstMatch`.
  - Whitespace is skipped before every token. `Combine` allows none inside a
    number.
  - `Keyword` and `CaselessKeyword` need a non-identifier character on both
    sides. The identifier characters are letters, digits, `_` and `$`.
  - A `CaselessKeyword` yields its declared spelling, not the input's.
  - The `,` of the sort grammar is a plain `Literal`, so it stays in the
    result as a `Text(",")` node.
- **Properties** are proved as function contracts and as lemmas in
  `filter_properties.dfy` and `sort_grammar.dfy`. `examples.dfy` works
  through seven queries end to end.

A word made only of digits is both an integer and a field name, because
`Word(alphanums + '_')` accepts digits. So `1 = 2` parses as the Comparison
`Field("1") = Integer("2")`; it is not rejected as two values compared. The
`value op value` trap therefore fires only when neither operand can be read
as a field, for example with two quoted strings. See `FilterProperties.TrapNeedsNonFieldOperands` and
`Examples.DigitsAsFieldExample`.

## Model

| member | source | states |
|---|---|---|
| Chars.Lower | rest_framework_filterdsl/parser.py:63-66 | `str.lower` on ASCII: same length, each character lower-cased, nothing else changed |
| Chars.LowerIsLowerCase | rest_framework_filterdsl/parser.py:63-66 | the result of lowering is lower case, and lowering is idempotent |
| Ast.Flatten | rest_framework_filterdsl/parser.py:45-46 | `GroupToken.__init__` chains the groups: a token is in the result exactly when it is in one of the groups |
| Ast.FlattenAppend | rest_framework_filterdsl/parser.py:45-46 | flattening keeps the order of the groups, since it distributes over concatenation |
| Ast.FlattenOneLevel | rest_framework_filterdsl/parser.py:45-46 | only one level is removed: a single group flattens to itself, and appending a group appends its tokens |
| Ast.FilterClass | rest_framework_filterdsl/parser.py:48-49 | `_filter_class` never yields more tokens than it is given |
| Ast.FilterClassMembers | rest_framework_filterdsl/parser.py:48-49 | `_filter_class` keeps exactly the children that are instances of the class |
| Ast.FilterClassAppend | rest_framework_filterdsl/parser.py:48-49 | `_filter_class` keeps the children's order, since it distributes over concatenation |
| Ast.FirstOfClass | rest_framework_filterdsl/parser.py:51-54 | `_filter_class_first` yields None iff no child is an instance; otherwise it yields the instance with no instance before it |
| Ast.FilterClassFirst | rest_framework_filterdsl/parser.py:51-54 | the scanning loop returns the same as `FirstOfClass` |
| Ast.FirstOfClassIsHeadOfFilter | rest_framework_filterdsl/parser.py:48-54 | the first instance is the head of the `_filter_class` list, and None when that list is empty |
| Ast.FieldName | rest_framework_filterdsl/parser.py:63-66 | `Field.name` is lower case and equals the raw text up to case |
| Ast.LowerCaseUnique | rest_framework_filterdsl/parser.py:63-66 | only one lower-case string equals a text up to case, so the `name` contract fixes its result |
| Ast.LogicalOpName | rest_framework_filterdsl/parser.py:106-109 | `LogicalOp.op` is lower case and equals the raw text up to case |
| Ast.FirstNonNegation | rest_framework_filterdsl/parser.py:73-76 | the first child that is not a Negation, with only Negations before it; None iff every child is a Negation |
| Ast.OperatorOp | rest_framework_filterdsl/parser.py:71-76 | `Operator.op` is None iff every child is a Negation; otherwise it is the lower-cased text of the first non-Negation child |
| Ast.OperatorOpScan | rest_framework_filterdsl/parser.py:73-76 | the scanning loop returns the same as `OperatorOp` |
| Ast.OperatorNegate | rest_framework_filterdsl/parser.py:78-80 | `Operator.negate` holds iff some child is a Negation |
| Ast.BooleanValue | rest_framework_filterdsl/parser.py:96-104 | True iff the lowered text is a true spelling; False iff it is a false spelling and not a true one; otherwise the lowered text itself |
| Ast.ComparisonFields | rest_framework_filterdsl/parser.py:113-115 | `Comparison.fields` holds exactly the Field children |
| Ast.ComparisonValues | rest_framework_filterdsl/parser.py:121-123 | `Comparison.values` holds exactly the String, Integer, Float and Boolean children |
| Ast.ComparisonOperator | rest_framework_filterdsl/parser.py:117-119 | `Comparison.operator` is the first Operator child, or None when there is none |
| Ast.SortDirectiveField | rest_framework_filterdsl/parser.py:132-134 | `SortDirective.field` is the first Field child, or None when there is none |
| Ast.SortDirectiveDirection | rest_framework_filterdsl/parser.py:136-138 | `SortDirective.direction` is the first SortDirection child, or `+` when there is none |
| Lexical.SkipWs | rest_framework_filterdsl/parser.py:140-143 | whitespace skipping stops at the first non-white character and passes only white ones |
| Lexical.Longest | rest_framework_filterdsl/parser.py:155-176 | `^` keeps one of its alternatives, matches iff either does, is at least as long as each, and prefers the first on a tie |
| Lexical.LongestOfAppend | rest_framework_filterdsl/parser.py:155-176 | adding an alternative to an Or keeps it the longest of all its alternatives, the earliest on a tie |
| Lexical.LongestOfFour | rest_framework_filterdsl/parser.py:208-213 | `a ^ b ^ c ^ d` is the longest of the four, the earliest on a tie |
| Lexical.FirstMatch | rest_framework_filterdsl/parser.py:237-241 | `\|` keeps the first alternative when it matches and the second otherwise |
| Lexical.ParseKeyword | rest_framework_filterdsl/parser.py:152-153 | a keyword matches iff it stands at the position, exactly or up to case, with no identifier character on either side; it yields the declared spelling |
| Lexical.LongestKeyword | rest_framework_filterdsl/parser.py:155-176 | an Or of keywords matches iff one of them stands there; it yields the longest, and the earliest declared among equally long ones |
| Lexical.LongestKeywordFound | rest_framework_filterdsl/parser.py:203-206 | what an Or of keywords yields is one of the declared keywords, and no identifier character precedes it |
| Lexical.ParseLiteral | rest_framework_filterdsl/parser.py:240 | a literal matches iff its text follows the whitespace |
| Lexical.ParseField | rest_framework_filterdsl/parser.py:140-143 | a field matches iff a word character follows the whitespace; it yields the longest run of word characters |
| Lexical.ParseInteger | rest_framework_filterdsl/parser.py:185-190 | an integer matches iff digits follow an optional sign; the text is integer text, and it ends where the digits end |
| Lexical.ParseFloat | rest_framework_filterdsl/parser.py:192-195 | a float matches iff an optional sign, digits, `.` and a digit stand there; the text is float text |
| Lexical.NoNumberAt | rest_framework_filterdsl/parser.py:185-195 | neither number rule matches where no digit or sign stands |
| Lexical.ParseQuoted | rest_framework_filterdsl/parser.py:197-201 | a quoted string yields the text between the two quotes, which holds no quote and no line break; it fails iff no closing quote ends the run |
| Lexical.ParseQuotedString | rest_framework_filterdsl/parser.py:197-201 | single or double quotes: it matches iff either kind does, and then it is that kind's match (text between the quotes); the two kinds never both match |
| Lexical.ParseBoolean | rest_framework_filterdsl/parser.py:203-206 | a boolean matches iff one of the spellings stands there as a caseless keyword; it yields the longest such spelling as declared, the earliest on a tie |
| Lexical.ParseValue | rest_framework_filterdsl/parser.py:208-213 | the Or of quoted string, integer, float and boolean: it matches iff one of them does, and yields the match of the one reaching furthest, the earliest declared on a tie; the token is a value |
| FilterGrammar.ParseNegatable | rest_framework_filterdsl/parser.py:166-175 | `Optional(not) + (verb ^ ...)`: matches iff a verb stands where the optional `not` ends; yields the longest such verb, earliest on a tie, after `Negation("not")` exactly when `not` stands at the position |
| FilterGrammar.ParseSymbolicOperator | rest_framework_filterdsl/parser.py:156-165 | matches iff a case-sensitive operator stands there; yields the longest one standing, the earliest declared on a tie, as one Text token |
| FilterGrammar.ParseTextualOperator | rest_framework_filterdsl/parser.py:166-175 | matches iff a textual verb stands after the optional `not`; yields the longest, earliest on a tie, with a Negation exactly when `not` stands there |
| FilterGrammar.ParseComparisonOperator | rest_framework_filterdsl/parser.py:155-177 | matches iff the symbolic or the textual alternative does; its tokens are those of the one reaching further, the symbolic one on a tie; the Operator has one verb, and `not` only before a textual verb |
| FilterGrammar.OperatorOfLongest | rest_framework_filterdsl/parser.py:155-177 | the Operator grouped from an Or of two alternatives holds the tokens of the longer, the first on a tie |
| FilterGrammar.NotAndIsNullApart | rest_framework_filterdsl/parser.py:179-183 | `not` and `isnull` never stand at the same position, so the two unary alternatives never compete |
| FilterGrammar.ParseUnaryOperator | rest_framework_filterdsl/parser.py:179-183 | matches iff `isnull` stands there, or `not` and then `isnull`; yields `Operator([Negation("not"), Text("isnull")])` exactly when `not` stands there, and ends after `isnull` |
| FilterGrammar.ParsePiece | rest_framework_filterdsl/parser.py:215-220 | each piece of a shape yields a node of its kind, and every piece except a value consumes input |
| FilterGrammar.ParseSequence | rest_framework_filterdsl/parser.py:215-220 | an And of pieces yields one node per piece, each of its piece's kind |
| FilterGrammar.ParseComparison | rest_framework_filterdsl/parser.py:215-221 | fails iff all four shapes fail; otherwise its tokens are those of the shape reaching furthest, the first declared on a tie, and they form a well-formed Comparison |
| FilterGrammar.ShapeIsWellFormed | rest_framework_filterdsl/parser.py:215-221 | whichever shape matches builds a well-formed Comparison and consumes input |
| FilterGrammar.TrapMessage | rest_framework_filterdsl/parser.py:28-29 | the BadQuery message is the fixed prefix, the left operand, the operator words between single spaces, then the right operand |
| FilterGrammar.TrapActionAsWritten | rest_framework_filterdsl/parser.py:228 | the trap action as written raises TypeError iff some token is not a string |
| FilterGrammar.TrapActionAsWrittenRaisesTypeError | rest_framework_filterdsl/parser.py:223-229 | wherever the trap's pattern matches, the action as written raises TypeError, never BadQuery |
| FilterGrammar.ParseLogicalOp | rest_framework_filterdsl/parser.py:231-234 | matches iff `and` or `or` stands in any case; `and` yields `LogicalOp("and")` ending after three characters and `or` yields `LogicalOp("or")` ending after two |
| FilterGrammar.AndOrApart | rest_framework_filterdsl/parser.py:231-232 | `and` and `or` never stand at the same position, so the MatchFirst order between them never matters |
| FilterGrammar.ParseStatement | rest_framework_filterdsl/parser.py:236-242 | a comparison wins; otherwise `value op value` aborts with the trap message; otherwise the parenthesised alternative decides; a Statement consumes at least one character |
| FilterGrammar.ParseGroup | rest_framework_filterdsl/parser.py:240 | without `(` there is no match; `(`, an expression and `)` give a Statement of the inner nodes; a BadQuery inside the parentheses is the result; a missing `)` or a failed inner expression is no match |
| FilterGrammar.ParseExpression | rest_framework_filterdsl/parser.py:244 | an expression alternates Statement and LogicalOp and has odd length; a failing first statement fails; a BadQuery in the first statement or in any later pair ends the parse with its message; otherwise the result is the first statement followed by every collected pair, ending past trailing whitespace when no pair follows |
| FilterGrammar.ParseMore | rest_framework_filterdsl/parser.py:244 | `ZeroOrMore(logical_op + statement)` never fails; with no logical operator, or a statement after it that fails to match, it yields nothing and backtracks to where it started; otherwise it yields the operator, the statement and the later pairs, in order; a BadQuery in the statement or in a later pair is the result |
| FilterGrammar.ParseFilter | rest_framework_filterdsl/parser.py:236-246 | a whole filter yields an alternating expression, or a BadQuery carrying the trap message; a failing first statement fails; a BadQuery from the first statement or from any later `and`/`or` pair aborts the whole parse with that message; otherwise the result is the first statement followed by every `and`/`or` pair |
| SortGrammar.ParseSign | rest_framework_filterdsl/parser.py:256-257 | a sign matches iff `+` or `-` follows the whitespace, and it yields that SortDirection |
| SortGrammar.ParseSortDirective | rest_framework_filterdsl/parser.py:259-261 | matches iff a field stands after the optional sign; the directive is that sign, when there is one, then that field, and ends where the field ends |
| SortGrammar.ParseSortMore | rest_framework_filterdsl/parser.py:263-265 | never fails and alternates a comma with a well-formed directive; with no `,`, or no directive after it, it yields nothing and stays put; otherwise it yields the comma, the directive and the later pairs, in order |
| SortGrammar.ParseSort | rest_framework_filterdsl/parser.py:263-266 | a sort always matches and the empty query yields nothing; a directive at the start is the first item, followed by the comma-directive pairs read after it |
| SortGrammar.DirectiveAccessors | rest_framework_filterdsl/parser.py:131-138 | on a parsed directive, `field` is its one Field, and `direction` is its sign or `+` |
| SortGrammar.SortKeepsText | rest_framework_filterdsl/parser.py:263-266 | the sort result spells out exactly the non-white characters it consumed, in input order |
| SortGrammar.SortMoreKeepsText | rest_framework_filterdsl/parser.py:263-265 | the same for the `,`-directive pairs |
| SortGrammar.DirectiveKeepsText | rest_framework_filterdsl/parser.py:259-261 | the same for one directive |
| FilterProperties.FloatIsNeverInteger | rest_framework_filterdsl/parser.py:208-213 | where a float stands, the value is never the shorter Integer, so `-1.5` is a Float |
| FilterProperties.ComparisonAccessors | rest_framework_filterdsl/parser.py:111-123 | on a parsed comparison, `operator` is the middle token and `fields` is never empty; `field isnull` has one field and no values; a binary comparison's fields and values are its two operands |
| FilterProperties.OperandsOfThree | rest_framework_filterdsl/parser.py:113-123 | in a binary comparison, `fields` and `values` split the two operands by kind, in order |
| FilterProperties.LongOperatorIsLongest | rest_framework_filterdsl/parser.py:156-165 | where `<=`, `>=`, `!=`, `lte` or `gte` stands, the Or of case-sensitive operators yields it |
| FilterProperties.LongerOperatorWins | rest_framework_filterdsl/parser.py:155-177 | where `<=`, `>=`, `!=`, `lte` or `gte` stands, the operator is that one, not `<`, `>`, `lt`, `gt` or `=` |
| FilterProperties.NoTextualOperatorAt | rest_framework_filterdsl/parser.py:166-175 | no textual operator, negated or not, starts with a symbol, `l` or `g` |
| FilterProperties.NoOperatorWhereNoneStands | rest_framework_filterdsl/parser.py:155-177 | with no operator and no `not` at the position, the binary operator rule fails |
| FilterProperties.NoUnaryWhereNoneStands | rest_framework_filterdsl/parser.py:179-183 | with neither `not` nor `isnull` at the position, the unary rule fails |
| FilterProperties.UnaryWhereIsNullStands | rest_framework_filterdsl/parser.py:179-183 | a bare `isnull` yields the unary Operator `isnull` |
| FilterProperties.IntegerValueIsInteger | rest_framework_filterdsl/parser.py:208-213 | a value that comes out as an Integer is what the integer rule reads |
| FilterProperties.DigitsAreAField | rest_framework_filterdsl/parser.py:141 | an unsigned integer is also a field, which reaches at least as far |
| FilterProperties.SequenceOfThree | rest_framework_filterdsl/parser.py:216-218 | a three-piece shape matches iff each piece matches where the previous ended, and yields the three nodes |
| FilterProperties.NoFieldNoComparison | rest_framework_filterdsl/parser.py:215-221 | with no field on either side of `value op`, no comparison shape matches |
| FilterProperties.LeftDigitsAreField | rest_framework_filterdsl/parser.py:215-227 | when `value op value` has unsigned digits on the left, `field op value` matches as well |
| FilterProperties.RightDigitsAreField | rest_framework_filterdsl/parser.py:215-227 | when `value op value` has unsigned digits on the right, `value op field` matches as well |
| FilterProperties.TrapNeedsNonFieldOperands | rest_framework_filterdsl/parser.py:237-239 | when either operand of `value op value` is unsigned digits, the statement is a Comparison and never a BadQuery |
| Examples.IsNullExample | rest_framework_filterdsl/parser.py:219 | `age isnull` is one Statement holding the Comparison of Field `age` and Operator `isnull`, and nothing is left over |
| Examples.NotIsNullExample | rest_framework_filterdsl/parser.py:179-183 | `age not isnull` is the Comparison of Field `age` and `Operator([Negation("not"), Text("isnull")])`, and nothing is left over |
| Examples.DigitsAsFieldExample | rest_framework_filterdsl/parser.py:216 | `1 = 2` is the Comparison `Field("1") = Integer("2")`, and nothing is left over |
| Examples.TrapExample | rest_framework_filterdsl/parser.py:223-229 | `'a' = 'b'` is rejected with the message `Value may not be compared with values: a = b` |
| Examples.LaterTrapExample | rest_framework_filterdsl/parser.py:236-244 | in `a = 1 and 'x' = 'y'` the trap in the second statement rejects the whole query |
| Examples.AndChainExample | rest_framework_filterdsl/parser.py:231-244 | `a = 1 and b = 2` is the expression of the Statement `a = 1`, `LogicalOp("and")` and the Statement `b = 2`, in input order, and nothing is left over |
| Examples.TwoStatementsJoined | rest_framework_filterdsl/parser.py:244 | a statement, a logical operator and a second statement, with no pair after them, make the three-node expression ending where the second statement ends |
| Examples.FieldEqualsDigit | rest_framework_filterdsl/parser.py:212-218 | a one-letter name, `=` and one digit are the Comparison `field op value`; the digit also reads as a field, but the first declared shape wins the tie |
| Examples.TrapMessageExample | rest_framework_filterdsl/parser.py:228 | for `'a' = 'b'` the corrected message is `... a = b`, while the action as written raises TypeError |
| Examples.SortExample | rest_framework_filterdsl/parser.py:253-266 | `-name,+age` is the descending directive on `name`, a comma, then the ascending directive on `age` |
| Examples.EqualsOperator | rest_framework_filterdsl/parser.py:156 | a lone `=` is the binary Operator `=` |

## Left out

- The `lru_cache` fallback and the memoising of the grammar builders (parser.py:11-25, 148-149, 252-253) are left out. They change speed, not results.
- The `__repr__` methods (parser.py:35-36, 56-60, 84-85) are left out. They only format for debugging.
- Setting up the parsers as mutable pyparsing objects is left out: `setParseAction` and the `Forward` wiring at parser.py:244. The model is the parsing those objects perform, written as functions.
- Lexical.ParseQuoted: pyparsing's `QuotedString` also turns escaped whitespace such as `\t` into the character. The model keeps the text between the quotes as it is.
- Chars.Lower: lowers ASCII letters only. Python's `str.lower` also maps non-ASCII letters.
- Lexical.ParseKeyword: caseless matching compares ASCII-lowered text. pyparsing's `CaselessKeyword` compares the `.upper()` of the input, under which non-ASCII letters such as `ı` (U+0131) and `ſ` (U+017F) become `I` and `S`. So `age ısnull` reads as `age isnull` there, but the model finds no keyword in it.
- A failed parse carries no position or pyparsing error message. `NoMatch` and `Fail` say only that nothing matched.
- The `BadQuery` exception class comes from `exceptions.py`, which is not part of this model. It is modelled as the `BadQuery(message)` result.
- The boolean spellings `BOOLEAN_TRUE_VALUES` and `BOOLEAN_FALSE_VALUES` come from `base.py`, which is not part of this model. They are parameters (`BooleanSpellings`).
- Converting Integer and Float text to numbers is left out. So is the translation of the tree into database queries. Values stay text.
- Whether the whole query must be consumed is decided by the caller, which is not part of this model. The parsers return their end position. `FilterGrammar.ConsumesAll` states full consumption, and the accepted examples are shown to consume their whole query.
- Ast.OperatorOp: its requires assumes every non-Negation child of an Operator is operator text, since `t.lower()` is called on it. Both operator rules build only such Operators.

## Findings

| source | as written | input that shows it | evidently intended | confidence | as-written member | corrected member |
|---|---|---|---|---|---|---|
| rest_framework_filterdsl/parser.py:228 | The trap action builds its message with `' '.join(x)`. `x` holds String, Operator and String token objects, not strings, so `str.join` raises TypeError before `fail` runs. | `'a' = 'b'` | The query is rejected with BadQuery: "Value may not be compared with values: a = b". | high (not executed) | FilterGrammar.TrapActionAsWritten | FilterGrammar.TrapMessage |
