/** The `Utils` collaborator and the regular expressions built from its
    token lists, as the parser sees them: total functions whose internals are
    not part of this model, with the few guarantees the parser relies on. */
module Collaborators {

  import opened Wrappers

  /** One top-level parenthesis group: inclusive offsets of its opening and
      closing parenthesis. */
  datatype Group = Group(start: int, end: int)

  /** What `Utils.removeIgnoredText` returns: the masked text and the removed
      spans keyed by placeholder. */
  datatype Masked = Masked(text: string, ignored: map<string, string>)

  datatype Utils = Utils(
    /** `Utils.trimParenthesisPairs` */
    trimParenthesisPairs: string -> string,
    /** `Utils.findTopLevelParenthesis` */
    findTopLevelParenthesis: string -> seq<Group>,
    /** `Utils.removeIgnoredText` */
    removeIgnoredText: string -> Masked,
    /** `Utils.restoreIgnoredText` */
    restoreIgnoredText: (string, map<string, string>) -> string,
    /** `split` with the regular expression matching just before each
        connective token (captured separators included) */
    splitAtConnectives: string -> seq<string>,
    /** the anchored AND, OR and XOR token matchers: the length of the
        leading match, if any */
    leadingAnd: string -> Option<nat>,
    leadingOr: string -> Option<nat>,
    leadingXor: string -> Option<nat>)

  /** The groups lie inside a text of length `n`, in ascending order without
      overlap, and none spans the whole text. */
  predicate GroupsWellFormed(gs: seq<Group>, n: int) {
    && (forall k | 0 <= k < |gs| ::
          0 <= gs[k].start <= gs[k].end < n && gs[k].end + 1 - gs[k].start < n)
    && (forall k, l | 0 <= k < l < |gs| :: gs[k].end < gs[l].start)
  }

  /** The guarantees the parser needs from its collaborators: trimming never
      lengthens a text, and on a trimmed text (the only text it is given)
      the group finder returns well-formed groups. */
  ghost predicate Valid(u: Utils) {
    && (forall s :: |u.trimParenthesisPairs(s)| <= |s|)
    && (forall s :: var t := u.trimParenthesisPairs(s);
          GroupsWellFormed(u.findTopLevelParenthesis(t), |t|))
  }
}
