/** Properties of the `Expression` constructor and its queries that relate
    several calls or a whole tree. */
module ExpressionProperties {

  import opened Wrappers
  import opened JsText
  import opened Operators
  import opened Collaborators
  import opened Chunking
  import opened Expressions

  /** Every node of the tree holds the flag and plan slots for its own
      operators: what the constructor establishes, recursively. */
  predicate WellFormed(e: Expression)
    decreases e
  {
    && NodeConsistent(e)
    && forall j | 0 <= j < |e.conditions| ::
         e.conditions[j].Expr? ==> WellFormed(e.conditions[j].expression)
  }

  /** The node reached from `e` by following `path`, one operand index per
      level, if every step lands on a nested expression. */
  function At(e: Expression, path: seq<nat>): Option<Expression>
    decreases |path|
  {
    if |path| == 0 then Some(e)
    else if path[0] < |e.conditions| && e.conditions[path[0]].Expr? then
      At(e.conditions[path[0]].expression, path[1..])
    else None
  }

  /** The operand one segment of a plain chunk adds: none when what is left
      after its connective is all whitespace; otherwise exactly one
      condition, over the restored text of the span between the leading and
      the trailing whitespace of what is left. */
  lemma SegmentOperand(u: Utils, ignored: map<string, string>, segment: string)
    ensures var r := SegmentParts(u, ignored, segment);
      var rest := LeadingOperator(u, segment).rest;
      r.operands == [] <==> AllWhitespace(rest)
    ensures var r := SegmentParts(u, ignored, segment);
      var rest := LeadingOperator(u, segment).rest;
      r.operands != [] ==>
        exists a, b | 0 <= a < b <= |rest| ::
          && r.operands == [Cond(Condition(u.restoreIgnoredText(rest[a..b], ignored)))]
          && AllWhitespace(rest[..a]) && AllWhitespace(rest[b..])
          && !IsWhitespace(rest[a]) && !IsWhitespace(rest[b - 1])
  {
    var r := SegmentParts(u, ignored, segment);
    var rest := LeadingOperator(u, segment).rest;
    TrimSpec(rest);
    var a := SkipWhitespace(rest, 0);
    var b := SkipWhitespaceBack(rest, a, |rest|);
    assert Trim(rest) == rest[a..b];
    if r.operands != [] {
      assert a < b;
      assert AllWhitespace(rest[..a]) && AllWhitespace(rest[b..]);
      assert r.operands == [Cond(Condition(u.restoreIgnoredText(rest[a..b], ignored)))];
    }
  }

  /** An expression operand of a list is among its nested expressions. */
  lemma {:induction false} ExprOperandIsNested(os: seq<Operand>, j: nat)
    requires j < |os| && os[j].Expr?
    ensures os[j].expression in Nested(os)
  {
    if j > 0 {
      ExprOperandIsNested(os[1..], j - 1);
      assert os[1..][j - 1] == os[j];
    }
  }

  /** The expressions parsed from a list of texts, in order. */
  function Builds(u: Utils, texts: seq<string>): (r: seq<Expression>)
    requires Valid(u)
    ensures |r| == |texts|
  {
    if |texts| == 0 then [] else [Build(u, texts[0])] + Builds(u, texts[1..])
  }

  lemma {:induction false} BuildsAt(u: Utils, texts: seq<string>, m: nat)
    requires Valid(u)
    requires m < |texts|
    ensures Builds(u, texts)[m] == Build(u, texts[m])
  {
    if m > 0 {
      BuildsAt(u, texts[1..], m - 1);
    }
  }

  /** Parsing the pieces turns the group texts, in order, into the
      sub-expression chunks. */
  lemma {:induction false} SubChunksOfChunks(u: Utils, bound: nat, ps: seq<Piece>)
    requires Valid(u)
    requires forall j | 0 <= j < |ps| :: ps[j].Paren? ==> |ps[j].text| < bound
    ensures SubChunks(Chunks(u, bound, ps)) == Builds(u, ParenTexts(ps))
  {
    if |ps| == 0 {
      assert Chunks(u, bound, ps) == [];
      assert ParenTexts(ps) == [];
    } else {
      var cs := Chunks(u, bound, ps);
      var rest := Chunks(u, bound, ps[1..]);
      var texts := ParenTexts(ps);
      var tail := ParenTexts(ps[1..]);
      SubChunksOfChunks(u, bound, ps[1..]);
      assert cs[1..] == rest;
      if ps[0].Paren? {
        var b := Build(u, ps[0].text);
        assert cs[0] == Sub(b);
        assert SubChunks(cs) == [b] + SubChunks(rest);
        assert texts == [ps[0].text] + tail;
        assert texts[0] == ps[0].text && texts[1..] == tail;
        assert Builds(u, texts) == [b] + Builds(u, tail);
      } else {
        assert cs[0].Text?;
        assert SubChunks(cs) == SubChunks(rest);
        assert texts == tail;
      }
    }
  }

  /** The nested expressions among the operands of a node are exactly the
      parses of its top-level groups, one per group and in group order:
      sub-expressions are never split, dropped or reordered. */
  lemma NestedOperandsAreGroups(u: Utils, text: string)
    requires Valid(u)
    ensures var t := u.trimParenthesisPairs(text);
      var gs := u.findTopLevelParenthesis(t);
      var nested := Nested(Build(u, text).conditions);
      && |nested| == |gs|
      && forall k | 0 <= k < |gs| :: nested[k] == Build(u, GroupText(t, gs[k]))
  {
    var t := u.trimParenthesisPairs(text);
    var gs := u.findTopLevelParenthesis(t);
    var ps := Pieces(t, gs);
    ChunksPartsSpec(u, Chunks(u, |t|, ps));
    SubChunksOfChunks(u, |t|, ps);
    ParenTextsOfPieces(t, gs);
    forall k | 0 <= k < |gs|
      ensures Builds(u, ParenTexts(ps))[k] == Build(u, GroupText(t, gs[k]))
    {
      BuildsAt(u, ParenTexts(ps), k);
    }
  }

  /** Operands whose nested expressions are all well formed. */
  lemma NestedWellFormed(os: seq<Operand>)
    requires forall k | 0 <= k < |Nested(os)| :: WellFormed(Nested(os)[k])
    ensures forall j | 0 <= j < |os| && os[j].Expr? :: WellFormed(os[j].expression)
  {
    forall j | 0 <= j < |os| && os[j].Expr?
      ensures WellFormed(os[j].expression)
    {
      ExprOperandIsNested(os, j);
    }
  }

  /** A constructed tree is well formed at every level. */
  lemma {:induction false} BuildWellFormed(u: Utils, text: string)
    requires Valid(u)
    ensures WellFormed(Build(u, text))
    decreases |text|
  {
    var e := Build(u, text);
    var t := u.trimParenthesisPairs(text);
    var gs := u.findTopLevelParenthesis(t);
    NestedOperandsAreGroups(u, text);
    var nested := Nested(e.conditions);
    forall k | 0 <= k < |nested|
      ensures WellFormed(nested[k])
    {
      assert |GroupText(t, gs[k])| < |text|;
      BuildWellFormed(u, GroupText(t, gs[k]));
    }
    NestedWellFormed(e.conditions);
  }

  /** `hasMixedOperatorsDeep()` holds exactly when some node reachable
      through nested expressions, the root included, has mixed operators. */
  lemma {:induction false} DeepIffSomeNodeMixed(e: Expression)
    ensures HasMixedOperatorsDeep(e) <==>
      exists path :: At(e, path).Some? && At(e, path).value.hasMixedOperators
    decreases e
  {
    if HasMixedOperatorsDeep(e) {
      if e.hasMixedOperators {
        assert At(e, []) == Some(e);
      } else {
        var j :| 0 <= j < |e.conditions| && e.conditions[j].Expr?
          && HasMixedOperatorsDeep(e.conditions[j].expression);
        var child := e.conditions[j].expression;
        DeepIffSomeNodeMixed(child);
        var path :| At(child, path).Some? && At(child, path).value.hasMixedOperators;
        assert ([j] + path)[1..] == path;
        assert At(e, [j] + path) == At(child, path);
      }
      assert exists path :: At(e, path).Some? && At(e, path).value.hasMixedOperators;
    }
    if exists path :: At(e, path).Some? && At(e, path).value.hasMixedOperators {
      var path :| At(e, path).Some? && At(e, path).value.hasMixedOperators;
      if |path| > 0 {
        var j := path[0];
        assert j < |e.conditions| && e.conditions[j].Expr?;
        var child := e.conditions[j].expression;
        var rest := path[1..];
        assert At(child, rest) == At(e, path);
        assert exists p :: At(child, p).Some? && At(child, p).value.hasMixedOperators;
        DeepIffSomeNodeMixed(child);
        assert AnyNestedDeep(e, 0);
      } else {
        assert At(e, path) == Some(e);
      }
    }
  }

  /** Without nested expressions among its operands, a node is deep-mixed
      exactly when its own operators are mixed. */
  lemma DeepWithoutNested(e: Expression)
    requires forall j | 0 <= j < |e.conditions| :: e.conditions[j].Cond?
    ensures HasMixedOperatorsDeep(e) == e.hasMixedOperators
  {
    assert !AnyNestedDeep(e, 0);
  }

  /** In a well-formed tree every reachable node is well formed. */
  lemma {:induction false} ReachableWellFormed(e: Expression, path: seq<nat>)
    requires WellFormed(e)
    requires At(e, path).Some?
    ensures WellFormed(At(e, path).value)
    decreases |path|
  {
    if |path| > 0 {
      ReachableWellFormed(e.conditions[path[0]].expression, path[1..]);
    }
  }

  /** On a constructed tree, `hasMixedOperatorsDeep()` is false exactly when
      every node offers both evaluation plans. */
  lemma AllPlansIffNotDeep(e: Expression)
    requires WellFormed(e)
    ensures !HasMixedOperatorsDeep(e) <==>
      forall path, b :: At(e, path).Some? ==> GetEvalPaths(At(e, path).value, b).Some?
  {
    DeepIffSomeNodeMixed(e);
    if HasMixedOperatorsDeep(e) {
      var path :| At(e, path).Some? && At(e, path).value.hasMixedOperators;
      ReachableWellFormed(e, path);
      assert GetEvalPaths(At(e, path).value, true).None?;
    } else {
      forall path, b | At(e, path).Some?
        ensures GetEvalPaths(At(e, path).value, b).Some?
      {
        ReachableWellFormed(e, path);
      }
    }
  }

  /** A constructed node whose own operators include two different kinds
      offers no plan for either outcome. */
  lemma TwoKindsNoPlans(e: Expression, i: nat, j: nat)
    requires NodeConsistent(e)
    requires i < |e.operators| && j < |e.operators|
    requires e.operators[i] != e.operators[j]
    ensures GetEvalPaths(e, true).None? && GetEvalPaths(e, false).None?
  {
    var ops := e.operators;
    if ops[i] != ops[0] {
      assert 1 <= i;
    } else {
      assert 1 <= j && ops[j] != ops[0];
    }
  }

  /** A text without groups whose single segment carries no connective
      parses to one condition, no operator, and both plans. */
  lemma SingleCondition(u: Utils, text: string, segment: string)
    requires Valid(u)
    requires u.findTopLevelParenthesis(u.trimParenthesisPairs(text)) == []
    requires Segments(u, u.trimParenthesisPairs(text)) == [segment]
    requires u.leadingAnd(segment).None? && u.leadingOr(segment).None? && u.leadingXor(segment).None?
    requires Trim(segment) != ""
    ensures var e := Build(u, text);
      var ignored := u.removeIgnoredText(u.trimParenthesisPairs(text)).ignored;
      && e.conditions == [Cond(Condition(u.restoreIgnoredText(Trim(segment), ignored)))]
      && e.operators == []
      && !e.hasMixedOperators
      && GetEvalPaths(e, true).Some? && GetEvalPaths(e, false).Some?
  {
    var t := u.trimParenthesisPairs(text);
    var masked := u.removeIgnoredText(t);
    var ps := Pieces(t, []);
    var cs := Chunks(u, |t|, ps);
    assert cs == [Text(t)];
    SegmentOperand(u, masked.ignored, segment);
    var one := SegmentParts(u, masked.ignored, segment);
    assert SegmentsParts(u, masked.ignored, [segment]) == Parts(one.operands + [], one.operators + []);
    assert ChunkParts(u, Text(t)) == SegmentsParts(u, masked.ignored, [segment]);
    assert ChunksParts(u, cs) == Parts(one.operands + [], one.operators + []);
  }
}
