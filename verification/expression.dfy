/** The `Expression` constructor of js/expression.js and its two queries.
    Construction is a pure function of the text and the collaborators:
    the trimmed text is cut into chunks around its top-level parenthesis
    groups, every group is parsed recursively, and every plain chunk is
    split into connectives and conditions. */
module Expressions {

  import opened Wrappers
  import opened JsText
  import opened Operators
  import opened Collaborators
  import opened Chunking

  /** A leaf: `new Condition.Condition(text)`. */
  datatype Condition = Condition(text: string)

  /** `new EvalTree.EvalTree(self, target)`: the planner is not part of this
      model, so a plan only records the outcome it was requested for. */
  datatype EvalTree = EvalTree(target: bool)

  datatype Operand = Cond(condition: Condition) | Expr(expression: Expression)

  /** A parsed expression. `conditions` keeps the source's name for the
      operand list, which holds nested expressions as well as conditions. */
  datatype Expression = Expression(
    conditions: seq<Operand>,
    operators: seq<Operator>,
    hasMixedOperators: bool,
    truePaths: Option<EvalTree>,
    falsePaths: Option<EvalTree>)

  /** An entry of `textChunks`: a plain span, or a parsed sub-expression. */
  datatype Chunk = Text(text: string) | Sub(sub: Expression)

  /** Operands and operators contributed by part of the input. */
  datatype Parts = Parts(operands: seq<Operand>, operators: seq<Operator>)

  /** A segment after removal of its leading connective, if any. */
  datatype Leading = Leading(operator: Option<Operator>, rest: string)

  /** The flag and plan slots a constructed node holds for its own operators. */
  predicate NodeConsistent(e: Expression) {
    var mixed := HasMixedOperators(e.operators);
    && e.hasMixedOperators == mixed
    && e.truePaths == (if mixed then None else Some(EvalTree(true)))
    && e.falsePaths == (if mixed then None else Some(EvalTree(false)))
  }

  /** The `Expression` constructor. */
  function Build(u: Utils, text: string): (r: Expression)
    requires Valid(u)
    ensures NodeConsistent(r)
    decreases |text|, 1, 0
  {
    var t := u.trimParenthesisPairs(text);
    var parts := ChunksParts(u, Chunks(u, |t|, Pieces(t, u.findTopLevelParenthesis(t))));
    var mixed := HasMixedOperators(parts.operators);
    Expression(parts.operands, parts.operators, mixed,
      if mixed then None else Some(EvalTree(true)),
      if mixed then None else Some(EvalTree(false)))
  }

  /** `textChunks`: the pieces of the text, each group's text parsed into a
      sub-expression (see `ChunkAt`) and each plain span kept as it is. */
  function Chunks(u: Utils, bound: nat, ps: seq<Piece>): (r: seq<Chunk>)
    requires Valid(u)
    requires forall j | 0 <= j < |ps| :: ps[j].Paren? ==> |ps[j].text| < bound
    ensures |r| == |ps|
    ensures forall j {:trigger r[j]} | 0 <= j < |ps| :: ps[j].Plain? ==> r[j] == Text(ps[j].text)
    ensures forall j {:trigger r[j]} | 0 <= j < |ps| :: ps[j].Paren? ==> r[j].Sub?
    decreases bound, 0, |ps|
  {
    if |ps| == 0 then
      []
    else
      var first := match ps[0]
        case Plain(s) => Text(s)
        case Paren(s) => Sub(Build(u, s));
      var rest := Chunks(u, bound, ps[1..]);
      assert forall j | 1 <= j < |ps| :: ([first] + rest)[j] == rest[j - 1] && ps[j] == ps[1..][j - 1];
      [first] + rest
  }

  /** A parenthesised piece becomes the expression parsed from its text. */
  lemma {:induction false} ChunkAt(u: Utils, bound: nat, ps: seq<Piece>, j: nat)
    requires Valid(u)
    requires forall j | 0 <= j < |ps| :: ps[j].Paren? ==> |ps[j].text| < bound
    requires j < |ps| && ps[j].Paren?
    ensures Chunks(u, bound, ps)[j] == Sub(Build(u, ps[j].text))
  {
    if j > 0 {
      ChunkAt(u, bound, ps[1..], j - 1);
    }
  }

  /** The leading-connective tests of one segment, AND before OR before XOR;
      a match is cut off with `substring(match.length)`. */
  function LeadingOperator(u: Utils, segment: string): (r: Leading)
    ensures r.operator == Some(And) <==> u.leadingAnd(segment).Some?
    ensures r.operator == Some(Or) <==> u.leadingAnd(segment).None? && u.leadingOr(segment).Some?
    ensures r.operator == Some(Xor) <==>
      u.leadingAnd(segment).None? && u.leadingOr(segment).None? && u.leadingXor(segment).Some?
    ensures u.leadingAnd(segment).Some? ==>
      r.rest == SubstringFrom(segment, u.leadingAnd(segment).value)
    ensures u.leadingAnd(segment).None? && u.leadingOr(segment).Some? ==>
      r.rest == SubstringFrom(segment, u.leadingOr(segment).value)
    ensures u.leadingAnd(segment).None? && u.leadingOr(segment).None? && u.leadingXor(segment).Some? ==>
      r.rest == SubstringFrom(segment, u.leadingXor(segment).value)
    ensures r.operator.None? ==> r.rest == segment
    ensures |r.rest| <= |segment| && r.rest == segment[|segment| - |r.rest|..]
  {
    match u.leadingAnd(segment)
    case Some(n) => Leading(Some(And), SubstringFrom(segment, n))
    case None =>
      match u.leadingOr(segment)
      case Some(n) => Leading(Some(Or), SubstringFrom(segment, n))
      case None =>
        match u.leadingXor(segment)
        case Some(n) => Leading(Some(Xor), SubstringFrom(segment, n))
        case None => Leading(None, segment)
  }

  /** Every operand is a condition. */
  predicate AllConditions(os: seq<Operand>) {
    forall k | 0 <= k < |os| :: os[k].Cond?
  }

  /** The body of the inner `forEach`: one segment yields at most one
      operator, the first of AND, OR, XOR whose matcher matches, and at most
      one condition (see `SegmentOperand`). */
  function SegmentParts(u: Utils, ignored: map<string, string>, segment: string): (r: Parts)
    ensures u.leadingAnd(segment).Some? ==> r.operators == [And]
    ensures u.leadingAnd(segment).None? && u.leadingOr(segment).Some? ==> r.operators == [Or]
    ensures u.leadingAnd(segment).None? && u.leadingOr(segment).None? && u.leadingXor(segment).Some?
      ==> r.operators == [Xor]
    ensures u.leadingAnd(segment).None? && u.leadingOr(segment).None? && u.leadingXor(segment).None?
      ==> r.operators == []
    ensures |r.operands| <= 1 && AllConditions(r.operands)
  {
    var lead := LeadingOperator(u, segment);
    var body := Trim(lead.rest);
    Parts(if body != "" then [Cond(Condition(u.restoreIgnoredText(body, ignored)))] else [],
          match lead.operator case Some(op) => [op] case None => [])
  }

  lemma AllConditionsAppend(a: seq<Operand>, b: seq<Operand>)
    requires AllConditions(a) && AllConditions(b)
    ensures AllConditions(a + b)
  {
    assert forall k | |a| <= k < |a + b| :: (a + b)[k] == b[k - |a|];
  }

  /** The inner `forEach` over the segments of one masked chunk. */
  function SegmentsParts(u: Utils, ignored: map<string, string>, segments: seq<string>): (r: Parts)
    ensures |r.operators| <= |segments|
    ensures |r.operands| <= |segments|
    ensures AllConditions(r.operands)
  {
    if |segments| == 0 then
      Parts([], [])
    else
      var first := SegmentParts(u, ignored, segments[0]);
      var rest := SegmentsParts(u, ignored, segments[1..]);
      AllConditionsAppend(first.operands, rest.operands);
      Parts(first.operands + rest.operands, first.operators + rest.operators)
  }

  /** The segments of a plain chunk once its literals are masked. */
  function Segments(u: Utils, text: string): seq<string> {
    u.splitAtConnectives(u.removeIgnoredText(text).text)
  }

  /** The body of the outer `forEach`: a sub-expression is stored as is, a
      plain chunk is masked, split and parsed segment by segment. */
  function ChunkParts(u: Utils, c: Chunk): (r: Parts)
    ensures c.Sub? ==> r.operands == [Expr(c.sub)] && r.operators == []
    ensures c.Text? ==> AllConditions(r.operands)
    ensures c.Text? ==> |r.operators| <= |Segments(u, c.text)| && |r.operands| <= |Segments(u, c.text)|
  {
    match c
    case Sub(e) => Parts([Expr(e)], [])
    case Text(s) =>
      var masked := u.removeIgnoredText(s);
      SegmentsParts(u, masked.ignored, u.splitAtConnectives(masked.text))
  }

  /** The nested expressions of an operand list, in order. */
  function Nested(os: seq<Operand>): seq<Expression> {
    if |os| == 0 then []
    else (if os[0].Expr? then [os[0].expression] else []) + Nested(os[1..])
  }

  /** The sub-expression chunks of a chunk list, in order. */
  function SubChunks(cs: seq<Chunk>): seq<Expression> {
    if |cs| == 0 then []
    else (if cs[0].Sub? then [cs[0].sub] else []) + SubChunks(cs[1..])
  }

  /** The number of segments of the plain chunks of a chunk list. */
  function SegmentCount(u: Utils, cs: seq<Chunk>): nat {
    if |cs| == 0 then 0
    else (if cs[0].Text? then |Segments(u, cs[0].text)| else 0) + SegmentCount(u, cs[1..])
  }

  lemma {:induction false} NestedAppend(a: seq<Operand>, b: seq<Operand>)
    ensures Nested(a + b) == Nested(a) + Nested(b)
  {
    if |a| == 0 {
      assert a + b == b;
    } else {
      assert (a + b)[0] == a[0];
      assert (a + b)[1..] == a[1..] + b;
      NestedAppend(a[1..], b);
      var head := if a[0].Expr? then [a[0].expression] else [];
      calc {
        Nested(a + b);
        head + Nested(a[1..] + b);
        head + (Nested(a[1..]) + Nested(b));
        (head + Nested(a[1..])) + Nested(b);
      }
    }
  }

  lemma {:induction false} NestedOfConditions(os: seq<Operand>)
    requires AllConditions(os)
    ensures Nested(os) == []
  {
    if |os| > 0 {
      NestedOfConditions(os[1..]);
    }
  }

  /** The outer `forEach` over all chunks. */
  function ChunksParts(u: Utils, cs: seq<Chunk>): Parts {
    if |cs| == 0 then
      Parts([], [])
    else
      var first := ChunkParts(u, cs[0]);
      var rest := ChunksParts(u, cs[1..]);
      Parts(first.operands + rest.operands, first.operators + rest.operators)
  }

  /** Over all chunks, plain chunks add only conditions and sub-expressions
      are passed through in order, so the nested operands are exactly the
      sub-expression chunks; and no plain chunk adds more operators, or
      more conditions, than it has segments. */
  lemma {:induction false} ChunksPartsSpec(u: Utils, cs: seq<Chunk>)
    ensures var r := ChunksParts(u, cs);
      && Nested(r.operands) == SubChunks(cs)
      && |r.operators| <= SegmentCount(u, cs)
      && |r.operands| <= SegmentCount(u, cs) + |SubChunks(cs)|
  {
    if |cs| > 0 {
      var first := ChunkParts(u, cs[0]);
      var rest := ChunksParts(u, cs[1..]);
      ChunksPartsSpec(u, cs[1..]);
      NestedAppend(first.operands, rest.operands);
      if cs[0].Text? {
        NestedOfConditions(first.operands);
      }
    }
  }

  /** `getEvalPaths(treeType)`: on a constructed node, the plan exists
      exactly when the node's own operators are not mixed, and it is the
      plan for the requested outcome. */
  function GetEvalPaths(e: Expression, treeType: bool): (r: Option<EvalTree>)
    ensures NodeConsistent(e) ==> (r.Some? <==> !e.hasMixedOperators)
    ensures NodeConsistent(e) && r.Some? ==> r.value.target == treeType
  {
    if treeType then e.truePaths else e.falsePaths
  }

  /** `hasMixedOperatorsDeep()`: a node with mixed operators answers true
      whatever it contains; see `DeepIffSomeNodeMixed` for the whole tree. */
  function HasMixedOperatorsDeep(e: Expression): (r: bool)
    ensures e.hasMixedOperators ==> r
    decreases e, 1
  {
    e.hasMixedOperators || AnyNestedDeep(e, 0)
  }

  /** The `some` over `conditions[i..]`: is any nested expression from index
      `i` on deep-mixed? */
  function AnyNestedDeep(e: Expression, i: nat): (r: bool)
    requires i <= |e.conditions|
    ensures r <==> exists j | i <= j < |e.conditions| ::
      e.conditions[j].Expr? && HasMixedOperatorsDeep(e.conditions[j].expression)
    decreases e, 0, |e.conditions| - i
  {
    if i == |e.conditions| then false
    else
      var c := e.conditions[i];
      (c.Expr? && HasMixedOperatorsDeep(c.expression)) || AnyNestedDeep(e, i + 1)
  }
}
