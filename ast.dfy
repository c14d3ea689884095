/** The AST the filter and sort grammars produce: the Token / GroupToken node
    classes of the parser, as one sum type, with their typed accessors. */
module Ast {
  import opened Chars

  datatype Option<+T> = None | Some(value: T)

  /** One parse result. `Text` is a bare string token (a matched keyword or
      literal with no node class of its own); every other variant is one of the
      node classes. Leaf tokens keep their raw text; `Operator`, `Comparison` and
      `SortDirective` are GroupTokens owning the flattened child tokens;
      `Statement` is a Token whose value is the matched token list as is. */
  datatype Node =
    | Text(text: string)
    | Field(text: string)
    | Negation(text: string)
    | String(text: string)
    | Integer(text: string)
    | Float(text: string)
    | Boolean(text: string)
    | LogicalOp(text: string)
    | SortDirection(text: string)
    | Operator(tokens: seq<Node>)
    | Comparison(tokens: seq<Node>)
    | SortDirective(tokens: seq<Node>)
    | Statement(body: seq<Node>)

  /** The node classes an `isinstance` test can name. */
  datatype Class =
    | TokenClass | GroupTokenClass | FieldClass | NegationClass | OperatorClass
    | ValueClass | StringClass | IntegerClass | FloatClass | BooleanClass
    | LogicalOpClass | ComparisonClass | StatementClass
    | SortDirectionClass | SortDirectiveClass

  /** String, Integer, Float and Boolean are the subclasses of Value. */
  predicate IsValue(n: Node) {
    n.String? || n.Integer? || n.Float? || n.Boolean?
  }

  predicate IsGroupToken(n: Node) {
    n.Operator? || n.Comparison? || n.SortDirective?
  }

  /** `isinstance(n, c)` over the node class hierarchy. */
  predicate IsInstance(n: Node, c: Class) {
    match c
    case TokenClass => !n.Text?
    case GroupTokenClass => IsGroupToken(n)
    case FieldClass => n.Field?
    case NegationClass => n.Negation?
    case OperatorClass => n.Operator?
    case ValueClass => IsValue(n)
    case StringClass => n.String?
    case IntegerClass => n.Integer?
    case FloatClass => n.Float?
    case BooleanClass => n.Boolean?
    case LogicalOpClass => n.LogicalOp?
    case ComparisonClass => n.Comparison?
    case StatementClass => n.Statement?
    case SortDirectionClass => n.SortDirection?
    case SortDirectiveClass => n.SortDirective?
  }

  /** GroupToken construction: the children of every group, concatenated in order. */
  function Flatten(groups: seq<seq<Node>>): (r: seq<Node>)
    ensures forall t :: t in r <==> exists k :: 0 <= k < |groups| && t in groups[k]
  {
    if groups == [] then [] else groups[0] + Flatten(groups[1..])
  }

  lemma {:induction false} FlattenAppend(a: seq<seq<Node>>, b: seq<seq<Node>>)
    ensures Flatten(a + b) == Flatten(a) + Flatten(b)
  {
    if a == [] {
      assert a + b == b;
    } else {
      assert (a + b)[0] == a[0] && (a + b)[1..] == a[1..] + b;
      FlattenAppend(a[1..], b);
    }
  }

  /** Flattening removes exactly one level: a single group gives its own
      children back, and the groups' children keep their order. */
  lemma FlattenOneLevel(g: seq<Node>, groups: seq<seq<Node>>)
    ensures Flatten([g]) == g
    ensures Flatten(groups + [g]) == Flatten(groups) + g
  {
    assert Flatten([g]) == g + Flatten([]);
    FlattenAppend(groups, [g]);
  }

  /** `_filter_class`: the children that are instances of `c`, in order. */
  function FilterClass(tokens: seq<Node>, c: Class): (r: seq<Node>)
    ensures |r| <= |tokens|
  {
    if tokens == [] then []
    else (if IsInstance(tokens[0], c) then [tokens[0]] else []) + FilterClass(tokens[1..], c)
  }

  /** FilterClass keeps exactly the instances of `c`. */
  lemma {:induction false} FilterClassMembers(tokens: seq<Node>, c: Class)
    ensures forall t :: t in FilterClass(tokens, c) <==> t in tokens && IsInstance(t, c)
  {
    if tokens != [] {
      FilterClassMembers(tokens[1..], c);
      assert forall t :: t in tokens <==> t == tokens[0] || t in tokens[1..];
    }
  }

  lemma {:induction false} FilterClassAppend(a: seq<Node>, b: seq<Node>, c: Class)
    ensures FilterClass(a + b, c) == FilterClass(a, c) + FilterClass(b, c)
  {
    if a == [] {
      assert a + b == b;
    } else {
      var rest := a[1..];
      assert a == [a[0]] + rest;
      assert a + b == [a[0]] + (rest + b);
      FilterClassCons(a[0], rest, c);
      FilterClassCons(a[0], rest + b, c);
      FilterClassAppend(rest, b, c);
      var k := Keep(a[0], c);
      assert k + (FilterClass(rest, c) + FilterClass(b, c)) == (k + FilterClass(rest, c)) + FilterClass(b, c);
    }
  }

  /** The instances of `c` among one token: the token itself or nothing. */
  function Keep(t: Node, c: Class): seq<Node> {
    if IsInstance(t, c) then [t] else []
  }

  /** FilterClass looks at the first token, then at the rest. */
  lemma FilterClassCons(t: Node, rest: seq<Node>, c: Class)
    ensures FilterClass([t] + rest, c) == Keep(t, c) + FilterClass(rest, c)
  {
    var ts := [t] + rest;
    assert ts[0] == t && ts[1..] == rest;
  }

  /** FilterClass on a group of one to three children, child by child. */
  lemma FilterClassOfFew(t: seq<Node>, c: Class)
    requires 1 <= |t| <= 3
    ensures FilterClass(t, c) == Keep(t[0], c) + (if |t| >= 2 then Keep(t[1], c) else [])
                                 + (if |t| == 3 then Keep(t[2], c) else [])
  {
    if |t| == 1 {
      assert t == [t[0]];
      FilterClassOfOne(t[0], c);
    } else if |t| == 2 {
      assert t == [t[0], t[1]];
      FilterClassOfTwo(t[0], t[1], c);
    } else {
      assert t == [t[0], t[1], t[2]];
      FilterClassOfThree(t[0], t[1], t[2], c);
    }
  }

  lemma FilterClassOfOne(x: Node, c: Class)
    ensures FilterClass([x], c) == Keep(x, c) + [] + []
  {
    assert [x] == [x] + [];
    FilterClassCons(x, [], c);
  }

  lemma FilterClassOfTwo(x: Node, y: Node, c: Class)
    ensures FilterClass([x, y], c) == Keep(x, c) + Keep(y, c) + []
  {
    assert [x, y] == [x] + [y] && [y] == [y] + [];
    FilterClassCons(x, [y], c);
    FilterClassCons(y, [], c);
  }

  lemma FilterClassOfThree(x: Node, y: Node, z: Node, c: Class)
    ensures FilterClass([x, y, z], c) == Keep(x, c) + Keep(y, c) + Keep(z, c)
  {
    assert [x, y, z] == [x] + [y, z];
    FilterClassCons(x, [y, z], c);
    FilterClassOfTwo(y, z, c);
    var kx, ky, kz := Keep(x, c), Keep(y, c), Keep(z, c);
    assert kx + (ky + kz + []) == kx + ky + kz;
  }

  /** `k` is the position of the first instance of `c` among `tokens`. */
  predicate IsFirstOf(tokens: seq<Node>, k: int, c: Class) {
    && 0 <= k < |tokens|
    && IsInstance(tokens[k], c)
    && forall j :: 0 <= j < k ==> !IsInstance(tokens[j], c)
  }

  /** `_filter_class_first`: the first child that is an instance of `c`, or None. */
  function FirstOfClass(tokens: seq<Node>, c: Class): (r: Option<Node>)
    ensures r.None? <==> forall k :: 0 <= k < |tokens| ==> !IsInstance(tokens[k], c)
    ensures r.Some? ==> exists k :: IsFirstOf(tokens, k, c) && tokens[k] == r.value
  {
    if tokens == [] then None
    else if IsInstance(tokens[0], c) then (assert IsFirstOf(tokens, 0, c); Some(tokens[0]))
    else
      var r := FirstOfClass(tokens[1..], c);
      if r.Some? then
        var k :| IsFirstOf(tokens[1..], k, c) && tokens[1..][k] == r.value;
        assert IsFirstOf(tokens, k + 1, c);
        r
      else r
  }

  /** `_filter_class_first` as the source runs it: scan the children in
      order and return at the first instance of `c`. */
  method FilterClassFirst(tokens: seq<Node>, c: Class) returns (r: Option<Node>)
    ensures r == FirstOfClass(tokens, c)
  {
    var k := 0;
    while k < |tokens|
      invariant 0 <= k <= |tokens|
      invariant FirstOfClass(tokens[k..], c) == FirstOfClass(tokens, c)
    {
      FirstOfClassStep(tokens[k..], c);
      assert tokens[k..][0] == tokens[k] && tokens[k..][1..] == tokens[k + 1..];
      if IsInstance(tokens[k], c) {
        return Some(tokens[k]);
      }
      k := k + 1;
    }
    assert tokens[k..] == [];
    return None;
  }

  /** FirstOfClass looks at the first token, then at the rest. */
  lemma FirstOfClassStep(tokens: seq<Node>, c: Class)
    requires tokens != []
    ensures FirstOfClass(tokens, c) ==
              if IsInstance(tokens[0], c) then Some(tokens[0]) else FirstOfClass(tokens[1..], c)
  {
  }

  /** The first instance is the head of the filtered list. */
  lemma {:induction false} FirstOfClassIsHeadOfFilter(tokens: seq<Node>, c: Class)
    ensures FirstOfClass(tokens, c) == if FilterClass(tokens, c) == [] then None else Some(FilterClass(tokens, c)[0])
  {
    if tokens != [] && !IsInstance(tokens[0], c) {
      FirstOfClassIsHeadOfFilter(tokens[1..], c);
    }
  }

  /** `Field.name`: the raw text in lower case. */
  function FieldName(f: Node): (r: string)
    requires f.Field?
    ensures IsLowerCase(r) && Lower(r) == Lower(f.text)
  {
    LowerIsLowerCase(f.text);
    Lower(f.text)
  }

  /** A lower-case string is fixed by the text it equals up to case, so the
      contracts of FieldName and LogicalOpName determine their results. */
  lemma LowerCaseUnique(r: string, r': string, t: string)
    requires IsLowerCase(r) && Lower(r) == Lower(t)
    requires IsLowerCase(r') && Lower(r') == Lower(t)
    ensures r == r'
  {
    LowerIsLowerCase(r);
    LowerIsLowerCase(r');
  }

  /** `LogicalOp.op`: the raw text in lower case. */
  function LogicalOpName(op: Node): (r: string)
    requires op.LogicalOp?
    ensures IsLowerCase(r) && Lower(r) == Lower(op.text)
  {
    LowerIsLowerCase(op.text);
    Lower(op.text)
  }

  /** The first child that is not a Negation. */
  function FirstNonNegation(tokens: seq<Node>): (r: Option<Node>)
    ensures r.None? <==> forall k :: 0 <= k < |tokens| ==> tokens[k].Negation?
    ensures r.Some? ==> exists k :: 0 <= k < |tokens| && tokens[k] == r.value && !r.value.Negation?
                                    && forall j :: 0 <= j < k ==> tokens[j].Negation?
  {
    if tokens == [] then None
    else if !tokens[0].Negation? then Some(tokens[0])
    else
      var r := FirstNonNegation(tokens[1..]);
      if r.Some? then
        var k :| 0 <= k < |tokens[1..]| && tokens[1..][k] == r.value && !r.value.Negation?
                 && forall j :: 0 <= j < k ==> tokens[1..][j].Negation?;
        assert tokens[k + 1] == r.value && forall j :: 0 <= j < k + 1 ==> tokens[j].Negation?;
        r
      else r
  }

  /** `Operator.op`: the first non-Negation child (a bare verb string), lower-cased;
      None when every child is a Negation. */
  function OperatorOp(op: Node): (r: Option<string>)
    requires op.Operator?
    requires forall t :: t in op.tokens && !t.Negation? ==> t.Text?
    ensures r.None? <==> forall k :: 0 <= k < |op.tokens| ==> op.tokens[k].Negation?
    ensures r.Some? ==> IsLowerCase(r.value)
                        && exists k :: 0 <= k < |op.tokens| && op.tokens[k].Text?
                                       && Lower(r.value) == Lower(op.tokens[k].text)
                                       && forall j :: 0 <= j < k ==> op.tokens[j].Negation?
  {
    match FirstNonNegation(op.tokens)
    case None => None
    case Some(t) =>
      LowerIsLowerCase(t.text);
      Some(Lower(t.text))
  }

  /** The loop of `Operator.op`: scan the children in order and return the
      first one that is not a Negation, lower-cased. */
  method OperatorOpScan(op: Node) returns (r: Option<string>)
    requires op.Operator?
    requires forall t :: t in op.tokens && !t.Negation? ==> t.Text?
    ensures r == OperatorOp(op)
  {
    var k := 0;
    while k < |op.tokens|
      invariant 0 <= k <= |op.tokens|
      invariant FirstNonNegation(op.tokens[k..]) == FirstNonNegation(op.tokens)
    {
      var t := op.tokens[k];
      assert op.tokens[k..][0] == t;
      if !t.Negation? {
        return Some(Lower(t.text));
      }
      assert op.tokens[k..][1..] == op.tokens[k + 1..];
      k := k + 1;
    }
    assert op.tokens[k..] == [];
    return None;
  }

  /** `Operator.negate`: whether a Negation child is present. */
  function OperatorNegate(op: Node): (r: bool)
    requires op.Operator?
    ensures r <==> exists k :: 0 <= k < |op.tokens| && op.tokens[k].Negation?
  {
    FirstOfClass(op.tokens, NegationClass).Some?
  }

  /** What `Boolean.value` returns: a truth value, or the lower-cased text. */
  datatype BooleanResult = Flag(flag: bool) | Unrecognised(text: string)

  /** `Boolean.value`: the true spellings are tried first, then the false ones;
      text in neither comes back lower-cased. */
  function BooleanValue(b: Node, trueSpellings: seq<string>, falseSpellings: seq<string>): (r: BooleanResult)
    requires b.Boolean?
    ensures r == Flag(true) <==> Lower(b.text) in trueSpellings
    ensures r == Flag(false) <==> Lower(b.text) !in trueSpellings && Lower(b.text) in falseSpellings
    ensures r.Unrecognised? <==> Lower(b.text) !in trueSpellings + falseSpellings
    ensures r.Unrecognised? ==> r.text == Lower(b.text)
  {
    var v := Lower(b.text);
    if v in trueSpellings then Flag(true)
    else if v in falseSpellings then Flag(false)
    else Unrecognised(v)
  }

  /** `Comparison.fields`: every Field child, in order. */
  function ComparisonFields(c: Node): (r: seq<Node>)
    requires c.Comparison?
    ensures forall t :: t in r <==> t in c.tokens && t.Field?
  {
    FilterClassMembers(c.tokens, FieldClass);
    FilterClass(c.tokens, FieldClass)
  }

  /** `Comparison.values`: every Value child, in order. */
  function ComparisonValues(c: Node): (r: seq<Node>)
    requires c.Comparison?
    ensures forall t :: t in r <==> t in c.tokens && IsValue(t)
  {
    FilterClassMembers(c.tokens, ValueClass);
    FilterClass(c.tokens, ValueClass)
  }

  /** `Comparison.operator`: the first Operator child. */
  function ComparisonOperator(c: Node): (r: Option<Node>)
    requires c.Comparison?
    ensures r.None? <==> forall k :: 0 <= k < |c.tokens| ==> !c.tokens[k].Operator?
    ensures r.Some? ==> exists k :: IsFirstOf(c.tokens, k, OperatorClass) && c.tokens[k] == r.value
  {
    FirstOfClass(c.tokens, OperatorClass)
  }

  /** `SortDirective.field`: the first Field child. */
  function SortDirectiveField(d: Node): (r: Option<Node>)
    requires d.SortDirective?
    ensures r.None? <==> forall k :: 0 <= k < |d.tokens| ==> !d.tokens[k].Field?
    ensures r.Some? ==> exists k :: IsFirstOf(d.tokens, k, FieldClass) && d.tokens[k] == r.value
  {
    FirstOfClass(d.tokens, FieldClass)
  }

  /** `SortDirective.direction`: the first SortDirection child, or an implicit `+`. */
  function SortDirectiveDirection(d: Node): (r: Node)
    requires d.SortDirective?
    ensures r.SortDirection?
    ensures (forall k :: 0 <= k < |d.tokens| ==> !d.tokens[k].SortDirection?) ==> r == SortDirection("+")
    ensures (exists k :: 0 <= k < |d.tokens| && d.tokens[k].SortDirection?) ==>
              exists k :: IsFirstOf(d.tokens, k, SortDirectionClass) && d.tokens[k] == r
  {
    match FirstOfClass(d.tokens, SortDirectionClass)
    case Some(t) => t
    case None => SortDirection("+")
  }
}
