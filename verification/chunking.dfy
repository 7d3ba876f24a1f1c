/** The chunking step of the `Expression` constructor: how the trimmed text
    is cut around its top-level parenthesis groups. Each piece is either a
    plain span or the text of one group; parsing the groups is left to
    `Expressions.Chunks`. */
module Chunking {

  import opened Collaborators

  datatype Piece = Plain(text: string) | Paren(text: string)

  /** The pieces pushed by the group loop and the final `lastPosition`. */
  datatype Scan = Scan(pieces: seq<Piece>, lastPosition: int)

  /** `textToParse.substring(e.start, e.end + 1)`: the text of a group, both
      parentheses included. */
  function GroupText(t: string, g: Group): string
    requires 0 <= g.start <= g.end < |t|
  {
    t[g.start..g.end + 1]
  }

  /** Where the plain span before group `k` starts, when the loop reached
      group `i` with `lastPosition == last`. */
  function SpanStart(gs: seq<Group>, i: nat, last: int, k: nat): int
    requires i <= k < |gs|
  {
    if k == i then last else gs[k - 1].end + 1
  }

  /** `lastPosition` once all groups are processed. */
  function EndOfGroups(gs: seq<Group>): int
    requires |gs| > 0
  {
    gs[|gs| - 1].end + 1
  }

  /** The `forEach` over the groups from index `i` on, entered with
      `lastPosition == last`: for each group, the plain span since
      `lastPosition` and then the group's own text (see `GroupPiecesAt`). */
  function GroupPieces(t: string, gs: seq<Group>, i: nat, last: int): (r: Scan)
    requires GroupsWellFormed(gs, |t|)
    requires i <= |gs|
    requires 0 <= last <= |t|
    requires i < |gs| ==> last <= gs[i].start
    ensures |r.pieces| == 2 * (|gs| - i)
    ensures r.lastPosition == if i == |gs| then last else EndOfGroups(gs)
    decreases |gs| - i
  {
    if i == |gs| then
      Scan([], last)
    else
      var g := gs[i];
      var rest := GroupPieces(t, gs, i + 1, g.end + 1);
      Scan([Plain(t[last..g.start]), Paren(GroupText(t, g))] + rest.pieces, rest.lastPosition)
  }

  /** Group `k` contributes, at positions `2 * (k - i)` and `2 * (k - i) + 1`,
      the plain span from the previous `lastPosition` up to its start and
      then its own text. */
  lemma {:induction false} GroupPiecesAt(t: string, gs: seq<Group>, i: nat, last: int, k: nat)
    requires GroupsWellFormed(gs, |t|)
    requires i <= k < |gs|
    requires 0 <= last <= gs[i].start
    ensures var r := GroupPieces(t, gs, i, last).pieces;
      && r[2 * (k - i)] == Plain(t[SpanStart(gs, i, last, k)..gs[k].start])
      && r[2 * (k - i) + 1] == Paren(GroupText(t, gs[k]))
    decreases k - i
  {
    var g := gs[i];
    if k > i {
      GroupPiecesAt(t, gs, i + 1, g.end + 1, k);
      var rest := GroupPieces(t, gs, i + 1, g.end + 1).pieces;
      var r := GroupPieces(t, gs, i, last).pieces;
      var j := 2 * (k - (i + 1));
      assert r == [Plain(t[last..g.start]), Paren(GroupText(t, g))] + rest;
      assert r[j + 2] == rest[j] && r[j + 3] == rest[j + 1];
      assert SpanStart(gs, i, last, k) == SpanStart(gs, i + 1, g.end + 1, k);
    }
  }

  /** The chunk list of the trimmed text `t` with top-level groups `gs`,
      before the groups are parsed. Every group piece is shorter than `t`,
      which bounds the recursion of the constructor. */
  function Pieces(t: string, gs: seq<Group>): (r: seq<Piece>)
    requires GroupsWellFormed(gs, |t|)
    ensures |gs| == 0 ==> r == [Plain(t)]
    ensures forall j | 0 <= j < |r| :: r[j].Paren? ==> |r[j].text| < |t|
  {
    if |gs| == 0 then
      [Plain(t)]
    else
      var scan := GroupPieces(t, gs, 0, 0);
      var r := scan.pieces + (if scan.lastPosition < |t| - 1 then [Plain(t[scan.lastPosition..])] else []);
      assert forall j | 0 <= j < |r| :: r[j].Paren? ==> |r[j].text| < |t| by {
        forall j | 0 <= j < |r| && r[j].Paren?
          ensures |r[j].text| < |t|
        {
          if j < 2 * |gs| {
            GroupPiecesAt(t, gs, 0, 0, j / 2);
            assert r[j] == scan.pieces[j];
          }
        }
      }
      r
  }

  /** The shape of the chunk list: the whole text when there is no group;
      otherwise, for each group in order, the plain span before it and its
      own text, followed by the trailing text only when
      `lastPosition < |t| - 1` (so a one-character tail is dropped, and
      nothing follows a group that ends the text). */
  lemma PiecesShape(t: string, gs: seq<Group>)
    requires GroupsWellFormed(gs, |t|)
    ensures |gs| == 0 ==> Pieces(t, gs) == [Plain(t)]
    ensures |gs| > 0 ==>
      var r := Pieces(t, gs);
      && |r| == 2 * |gs| + (if EndOfGroups(gs) < |t| - 1 then 1 else 0)
      && (forall k {:trigger GroupText(t, gs[k])} | 0 <= k < |gs| ::
            && r[2 * k] == Plain(t[SpanStart(gs, 0, 0, k)..gs[k].start])
            && r[2 * k + 1] == Paren(GroupText(t, gs[k])))
      && (EndOfGroups(gs) < |t| - 1 ==> r[2 * |gs|] == Plain(t[EndOfGroups(gs)..]))
  {
    if |gs| > 0 {
      var r := Pieces(t, gs);
      var scan := GroupPieces(t, gs, 0, 0);
      forall k | 0 <= k < |gs|
        ensures r[2 * k] == Plain(t[SpanStart(gs, 0, 0, k)..gs[k].start])
        ensures r[2 * k + 1] == Paren(GroupText(t, gs[k]))
      {
        GroupPiecesAt(t, gs, 0, 0, k);
        assert r[2 * k] == scan.pieces[2 * k] && r[2 * k + 1] == scan.pieces[2 * k + 1];
      }
    }
  }

  /** The texts of the pieces, concatenated in order. */
  function Concat(ps: seq<Piece>): string {
    if |ps| == 0 then "" else ps[0].text + Concat(ps[1..])
  }

  /** The texts of the parenthesised pieces, in order. */
  function ParenTexts(ps: seq<Piece>): seq<string> {
    if |ps| == 0 then []
    else (if ps[0].Paren? then [ps[0].text] else []) + ParenTexts(ps[1..])
  }

  lemma {:induction false} ConcatAppend(a: seq<Piece>, b: seq<Piece>)
    ensures Concat(a + b) == Concat(a) + Concat(b)
  {
    if |a| > 0 {
      assert (a + b)[0] == a[0];
      assert (a + b)[1..] == a[1..] + b;
      ConcatAppend(a[1..], b);
    } else {
      assert a + b == b;
    }
  }

  lemma {:induction false} ParenTextsAppend(a: seq<Piece>, b: seq<Piece>)
    ensures ParenTexts(a + b) == ParenTexts(a) + ParenTexts(b)
  {
    if |a| > 0 {
      assert (a + b)[0] == a[0];
      assert (a + b)[1..] == a[1..] + b;
      ParenTextsAppend(a[1..], b);
    } else {
      assert a + b == b;
    }
  }

  lemma SliceJoin(t: string, a: nat, b: nat, c: nat)
    requires a <= b <= c <= |t|
    ensures t[a..b] + t[b..c] == t[a..c]
  {
  }

  /** The pieces of the group loop spell out the text from `last` to the
      final `lastPosition`. */
  lemma {:induction false} ConcatGroupPieces(t: string, gs: seq<Group>, i: nat, last: int)
    requires GroupsWellFormed(gs, |t|)
    requires i <= |gs|
    requires 0 <= last <= |t|
    requires i < |gs| ==> last <= gs[i].start
    ensures var scan := GroupPieces(t, gs, i, last);
      last <= scan.lastPosition <= |t| && Concat(scan.pieces) == t[last..scan.lastPosition]
    decreases |gs| - i
  {
    if i < |gs| {
      var g := gs[i];
      var rest := GroupPieces(t, gs, i + 1, g.end + 1);
      ConcatGroupPieces(t, gs, i + 1, g.end + 1);
      var head := [Plain(t[last..g.start]), Paren(GroupText(t, g))];
      ConcatAppend(head, rest.pieces);
      assert Concat(head) == t[last..g.start] + t[g.start..g.end + 1] by {
        assert head[1..] == [Paren(GroupText(t, g))];
        assert head[1..][1..] == [];
      }
      SliceJoin(t, last, g.start, g.end + 1);
      SliceJoin(t, last, g.end + 1, rest.lastPosition);
    } else {
      assert t[last..last] == [];
    }
  }

  /** The chunks cover the text: the plain spans and the group texts,
      concatenated in order, give back the whole trimmed text, except when
      the last group ends one character before the end, where that last
      character is lost. */
  lemma PiecesCover(t: string, gs: seq<Group>)
    requires GroupsWellFormed(gs, |t|)
    ensures Concat(Pieces(t, gs)) ==
      if |gs| > 0 && EndOfGroups(gs) == |t| - 1 then t[..|t| - 1] else t
  {
    if |gs| == 0 {
      assert Concat([Plain(t)]) == t + Concat([]);
    } else {
      var scan := GroupPieces(t, gs, 0, 0);
      ConcatGroupPieces(t, gs, 0, 0);
      var end := scan.lastPosition;
      if end < |t| - 1 {
        ConcatAppend(scan.pieces, [Plain(t[end..])]);
        assert Concat([Plain(t[end..])]) == t[end..] + Concat([]);
        assert t[0..end] + t[end..] == t;
      } else {
        assert scan.pieces + [] == scan.pieces;
        assert t[0..end] == (if end == |t| - 1 then t[..|t| - 1] else t);
      }
    }
  }

  /** The texts of the groups from index `i` on. */
  function GroupTexts(t: string, gs: seq<Group>, i: nat): (r: seq<string>)
    requires GroupsWellFormed(gs, |t|)
    requires i <= |gs|
    ensures |r| == |gs| - i
    decreases |gs| - i
  {
    if i == |gs| then [] else [GroupText(t, gs[i])] + GroupTexts(t, gs, i + 1)
  }

  lemma {:induction false} GroupTextsAt(t: string, gs: seq<Group>, i: nat, m: nat)
    requires GroupsWellFormed(gs, |t|)
    requires i + m < |gs|
    ensures GroupTexts(t, gs, i)[m] == GroupText(t, gs[i + m])
    decreases m
  {
    if m > 0 {
      GroupTextsAt(t, gs, i + 1, m - 1);
    }
  }

  /** The group pieces of the loop are the group texts, in order. */
  lemma {:induction false} ParenTextsOfGroupPieces(t: string, gs: seq<Group>, i: nat, last: int)
    requires GroupsWellFormed(gs, |t|)
    requires i <= |gs|
    requires 0 <= last <= |t|
    requires i < |gs| ==> last <= gs[i].start
    ensures ParenTexts(GroupPieces(t, gs, i, last).pieces) == GroupTexts(t, gs, i)
    decreases |gs| - i
  {
    if i < |gs| {
      var g := gs[i];
      var rest := GroupPieces(t, gs, i + 1, g.end + 1);
      ParenTextsOfGroupPieces(t, gs, i + 1, g.end + 1);
      var head := [Plain(t[last..g.start]), Paren(GroupText(t, g))];
      ParenTextsAppend(head, rest.pieces);
      assert ParenTexts(head) == [GroupText(t, g)] by {
        assert head[1..] == [Paren(GroupText(t, g))];
        assert head[1..][1..] == [];
      }
    }
  }

  /** The parenthesised pieces of the chunk list are exactly the group
      texts, one per group, in order. */
  lemma ParenTextsOfPieces(t: string, gs: seq<Group>)
    requires GroupsWellFormed(gs, |t|)
    ensures var texts := ParenTexts(Pieces(t, gs));
      && |texts| == |gs|
      && forall k | 0 <= k < |gs| :: texts[k] == GroupText(t, gs[k])
  {
    if |gs| == 0 {
      assert ParenTexts([Plain(t)]) == [] + ParenTexts([]);
    } else {
      var scan := GroupPieces(t, gs, 0, 0);
      ParenTextsOfGroupPieces(t, gs, 0, 0);
      if scan.lastPosition < |t| - 1 {
        var tail := [Plain(t[scan.lastPosition..])];
        ParenTextsAppend(scan.pieces, tail);
        assert ParenTexts(tail) == [] + ParenTexts([]);
      } else {
        assert scan.pieces + [] == scan.pieces;
      }
      forall k | 0 <= k < |gs|
        ensures ParenTexts(Pieces(t, gs))[k] == GroupText(t, gs[k])
      {
        GroupTextsAt(t, gs, 0, k);
      }
    }
  }
}
