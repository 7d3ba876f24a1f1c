/** The connective kinds and the mixed-operator test the parser asks of
    `Utils.hasMixedOperators`. */
module Operators {

  /** `Operator.TYPE_AND`, `Operator.TYPE_OR`, `Operator.TYPE_XOR`. */
  datatype Operator = And | Or | Xor

  /** The distinct kinds occurring in an operator sequence. */
  function Kinds(ops: seq<Operator>): set<Operator> {
    set o | o in ops
  }

  /** `Utils.hasMixedOperators`, whose body is not part of this model: it is
      taken to answer whether some operator differs from the first one.
      `MixedIffTwoKinds` shows this is "two or more distinct kinds". */
  function HasMixedOperators(ops: seq<Operator>): bool {
    exists k | 1 <= k < |ops| :: ops[k] != ops[0]
  }

  lemma MixedIffTwoKinds(ops: seq<Operator>)
    ensures HasMixedOperators(ops) <==> |Kinds(ops)| >= 2
  {
    if HasMixedOperators(ops) {
      var k :| 1 <= k < |ops| && ops[k] != ops[0];
      assert {ops[0], ops[k]} <= Kinds(ops);
      assert |{ops[0], ops[k]}| == 2;
      assert |Kinds(ops)| >= |{ops[0], ops[k]}| by {
        SubsetCard({ops[0], ops[k]}, Kinds(ops));
      }
    } else if |ops| == 0 {
      assert Kinds(ops) == {};
    } else {
      assert forall o :: o in Kinds(ops) <==> o == ops[0];
      assert Kinds(ops) == {ops[0]};
    }
  }

  lemma SubsetCard(a: set<Operator>, b: set<Operator>)
    requires a <= b
    ensures |a| <= |b|
  {
    assert b == a + (b - a);
  }
}
