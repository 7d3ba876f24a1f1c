# Expression parser core, modelled in Dafny

This project models `js/expression.js` of the conditional-expression parser.
Its `Expression` constructor turns a boolean-expression string into a tree:
- Operands are leaf `Condition`s and nested `Expression`s.
- Operators are AND, OR and XOR connectives.
- Each node also holds the mixed-operator flag and two optional evaluation plans.

The project also models the node's two queries, `getEvalPaths` and
`hasMixedOperatorsDeep`.

The constructor is modelled as the pure function `Expressions.Build` of the
text and a `Utils` record. That record holds the collaborators as total
functions:
- the parenthesis-pair trimmer;
- the top-level group finder;
- literal masking and restoring;
- the split before connective tokens;
- the three anchored AND/OR/XOR matchers.

`Collaborators.Valid` states the only things the parser relies on:
- Trimming never lengthens the text.
- On a trimmed text (the only text the constructor hands it, js/expression.js:15-16), the group finder returns groups that are in bounds, ascending and disjoint, each shorter than the text.

Recursion into groups is therefore bounded by the text length.

Modules, following the steps of the constructor:

- `JsText`: the two JavaScript string operations the parser applies itself.
  These are `trim` (over the ECMAScript whitespace and line-terminator
  characters) and `substring(start)`.
- `Operators`: the three connective kinds and the mixed-operator test.
- `Collaborators`: the `Utils` record, the group offsets and the
  well-formedness assumptions.
- `Chunking`: the group loop and the trailing-text rule that cut the trimmed
  text into plain spans and group texts.
- `Expressions`: the node datatype and `Build`. `Build` parses each group
  recursively and turns each plain chunk into connectives and conditions.
  This module also holds `getEvalPaths` and `hasMixedOperatorsDeep`.
- `ExpressionProperties`: properties about a whole tree or several calls.

## Model

| member | source | states |
|---|---|---|
| Chunking.GroupPieces | js/expression.js:27-34 | The group loop pushes exactly two chunks per group, and leaves `lastPosition` one past the end of the last group (unchanged when there is no group). |
| Chunking.GroupPiecesAt | js/expression.js:27-34 | Group k contributes, in group order, the plain span from the previous `lastPosition` to its start, then its own text with both parentheses. |
| Chunking.PiecesShape | js/expression.js:22-39 | With no group the chunk list is exactly the whole trimmed text. Otherwise it is, for each group in order, the span before it and the group text. A trailing span from `lastPosition` follows if and only if `lastPosition < length - 1`. |
| Chunking.PiecesCover | js/expression.js:27-39 | Concatenated in order, the chunks give back the trimmed text. The one exception: when the last group ends one character before the end, that character is lost. |
| Chunking.ParenTextsOfPieces | js/expression.js:27-34 | The sub-expression chunks are exactly the group substrings `start..end` inclusive, one per group, in group order. |
| Expressions.Chunks | js/expression.js:27-34 | Each plain span stays a text chunk with the same text. Each group text becomes a sub-expression chunk, at the same position. |
| Expressions.ChunkAt | js/expression.js:31 | A group chunk is the expression constructed recursively from that group's text. |
| Expressions.LeadingOperator | js/expression.js:75-84 | AND is recognised whenever its matcher matches. OR is recognised only when AND does not match, and XOR only when neither does. The recognised operator's match length is cut off the front of the segment with `substring`; with no match the segment is kept whole. |
| Expressions.SegmentParts | js/expression.js:72-93 | A segment adds the first of AND, OR, XOR whose matcher matches, or no operator when none does. It adds at most one operand, and that operand is a condition. |
| ExpressionProperties.SegmentOperand | js/expression.js:86-92 | What is left of a segment after its connective adds no operand exactly when it is all whitespace. Otherwise it adds exactly one condition over the restored text of its span between leading and trailing whitespace; that span starts and ends with a non-whitespace character. |
| Expressions.SegmentsParts | js/expression.js:70-93 | A plain chunk adds no more operators, and no more conditions, than it has segments, and adds only conditions. |
| Expressions.ChunkParts | js/expression.js:59-95 | A sub-expression chunk is stored as one operand, unchanged, with no operator. A plain chunk adds only conditions, no more than it has segments. |
| Expressions.ChunksPartsSpec | js/expression.js:59-96 | Over all chunks, the nested operands are exactly the sub-expression chunks in order. The operators are no more than the segments of the plain chunks. |
| ExpressionProperties.SubChunksOfChunks | js/expression.js:31 | The sub-expression chunks are the recursive parses of the group texts, in order. |
| ExpressionProperties.NestedOperandsAreGroups | js/expression.js:27-62 | A node's nested operands correspond one to one, in order, to the top-level groups of its trimmed text. Each is the parse of its group's text; none is split, dropped or reordered. |
| Expressions.Build | js/expression.js:98-101 | The flag of a constructed node is the mixed test of its own operators. Both plans are absent exactly when the flag is set; otherwise both are present, one per outcome. |
| Operators.MixedIffTwoKinds | js/expression.js:98 | The mixed test holds exactly when the operators contain at least two distinct kinds. |
| ExpressionProperties.TwoKindsNoPlans | js/expression.js:98-101 | A constructed node with two different operators offers no plan for either outcome. |
| ExpressionProperties.BuildWellFormed | js/expression.js:9-104 | Every node of a constructed tree, at every depth, has the flag and plans its own operators call for. |
| ExpressionProperties.SingleCondition | js/expression.js:22-101 | Take a text with no group, whose single segment has no connective. It parses to one condition over the restored, trimmed segment, no operator, an unset flag and both plans. |
| Expressions.GetEvalPaths | js/expression.js:106-108 | On a constructed node, the plan is present exactly when the node is not mixed, and it is the plan for the requested outcome. |
| Expressions.HasMixedOperatorsDeep | js/expression.js:110-115 | A node whose own operators are mixed is deep-mixed. |
| Expressions.AnyNestedDeep | js/expression.js:112-114 | The `some` holds exactly when some nested-expression operand is deep-mixed. |
| ExpressionProperties.DeepIffSomeNodeMixed | js/expression.js:110-115 | A tree is deep-mixed exactly when some node reachable through nested operands has mixed operators; the root counts as reachable. |
| ExpressionProperties.DeepWithoutNested | js/expression.js:110-115 | A node without nested expressions is deep-mixed exactly when its own operators are mixed. |
| ExpressionProperties.AllPlansIffNotDeep | js/expression.js:98-115 | On a constructed tree, `hasMixedOperatorsDeep()` is false exactly when every node offers both plans. |
| JsText.TrimSpec | js/expression.js:87 | `trim` returns an infix of the text with only whitespace around it. The result neither starts nor ends with whitespace, and it is empty exactly when the text is all whitespace. |
| JsText.SubstringFrom | js/expression.js:77 | `substring(n)` is the suffix from n, and the empty string when n is past the end. |

## Left out

- Regular-expression semantics. The split pattern and the three anchored
  token matchers (js/expression.js:44-55) are abstract functions in `Utils`. The
  model does not cover case-insensitivity, lookahead, `\b` or the global flag.
- Internals of `Utils.trimParenthesisPairs`, `findTopLevelParenthesis`,
  `removeIgnoredText`, `restoreIgnoredText` and the token lists. They are not
  part of this model. `Collaborators.Valid` states the only assumptions made of
  them.
- `Utils.hasMixedOperators` is also not part of this model. It is taken to
  answer whether some operator differs from the first; `Operators.MixedIffTwoKinds`
  proves this equals "two or more distinct kinds". That the collaborator behaves
  this way is an assumption.
- Internals of `Condition`, `Operator` and `EvalTree`. A condition wraps its
  text and an operator is one of three kinds. A plan records only the outcome
  it was requested for: the node passed to the planner and the planner's work
  are not modelled.
- Negation handling. The source only marks it as future work (js/expression.js:21, 58).
- The AMD `define`/`require` plumbing (js/expression.js:1-7, 117).
- Object identity and mutation. The constructor fills `self` step by step;
  here a node is an immutable value built in one piece. Sub-expressions are
  built before the plain chunks are parsed, as in the source, but that order
  is not observable because construction is pure.
- The type of the masked-text record is taken to be a map from placeholder
  to removed text.
- No claim that `|operators| == |operands| - 1`. The code neither checks nor
  enforces it.
- Trailing text. Text after the last group is kept only when
  `lastPosition < length - 1` (js/expression.js:37), so a one-character tail
  is dropped. The model follows the code (`Chunking.Pieces`,
  `Chunking.PiecesCover`).
- UTF-16 code units. Text is modelled as a sequence of Unicode code points,
  while JavaScript's `length`, `substring` and the group offsets count UTF-16
  code units. When characters outside the Basic Multilingual Plane occur,
  lengths, offsets and the one-character-tail rule therefore differ from the
  source. For example, after `"(x)"` a single such character is a
  one-element tail in the model and is dropped, but two code units long in
  JavaScript and kept.
