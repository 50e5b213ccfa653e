/**
 * The change validator (`validate_change_application`,
 * `validate_single_word_replacement`, `validate_style_change`).
 *
 * Occurrences are counted as Python's `str.count` counts them on
 * lower-cased texts: non-overlapping, scanning left to right.
 * `difflib.get_close_matches(word, removed, n=1, cutoff=0.6)` is an oracle
 * that proposes at most one of the removed words.
 */
module Validator {
  import opened PyText
  import opened Intents
  import Contractions

  datatype Status = CorrectlyApplied | PartiallyApplied | NotApplied | InvalidComment
                  | ManualReviewRequired | Unclear

  /** The `details` entry of a validation, by the shape the source gives it. */
  datatype Details =
    | NoDetails
    | Counts(originalCount: nat, remainingCount: nat, newCount: nat)
    | Added(originalCount: nat, revisedCount: nat, addedCount: nat)
    | Inferred(inferredFrom: string, originalCount: nat, remainingCount: nat, newCount: nat)
    | ContractionCounts(originalContractions: nat, revisedContractions: nat)
    | Removed(originalContractions: nat, revisedContractions: nat, removed: seq<string>)
    | Remaining(originalContractions: nat, revisedContractions: nat, remaining: seq<string>)

  /** A validation dictionary; `ambiguous` is the key only the unknown
      branch sets (absent counts as false). */
  datatype Validation = Validation(status: Status, message: string, details: Details, ambiguous: bool)

  /** `get_close_matches(word, removed, n=1, cutoff=0.6)`, first match. */
  type CloseMatch = (string, set<string>) -> Option<string>

  /** The oracle proposes only words it was offered. */
  ghost predicate Proposes(close: CloseMatch)
  {
    forall w, ws :: close(w, ws).Some? ==> close(w, ws).value in ws
  }

  /** `text.lower().count(sub.lower())` */
  function CountLower(text: string, sub: string): nat
  {
    Count(Lower(text), Lower(sub))
  }

  function Quoted(s: string): string
  {
    "\"" + s + "\""
  }

  /** `re.findall(r'\b\w+\b', s)`: the maximal runs of word characters. */
  function Words(s: string): (ws: seq<string>)
    ensures forall k :: 0 <= k < |ws| ==> AllWord(ws[k])
    decreases |s|
  {
    if s == [] then []
    else if !IsWordChar(s[0]) then Words(s[1..])
    else
      var w := WordRun(s);
      [w] + Words(s[|w|..])
  }

  function WordSet(s: string): set<string>
  {
    set w | w in Words(s)
  }

  /** The words of the lower-cased original that the lower-cased revised
      text lacks. */
  function RemovedWords(orig: string, rev: string): set<string>
  {
    WordSet(Lower(orig)) - WordSet(Lower(rev))
  }

  // ---------------------------------------------------------------------
  // validate_single_word_replacement

  /** The removed word the oracle proposes, if any word was removed. */
  function Proposal(target: string, orig: string, rev: string, close: CloseMatch): Option<string>
  {
    var removed := RemovedWords(orig, rev);
    if removed != {} then close(Lower(target), removed) else None
  }

  /** When only the target word is known: its count went up, or a removed
      word resembling it has fewer occurrences while the target count kept
      up, or the outcome is unclear (same count) or left to review. */
  function ValidateSingleWordReplacement(target: string, orig: string, rev: string, close: CloseMatch): Validation
  {
    var ot := CountLower(orig, target);
    var rt := CountLower(rev, target);
    if rt > ot then
      Validation(CorrectlyApplied, Quoted(target) + " was added " + NatToString(rt - ot)
                                   + " time(s) - likely replacing another word",
                 Added(ot, rt, rt - ot), false)
    else
      var inferred := Proposal(target, orig, rev, close);
      var likely := if inferred.Some? then inferred.value else "";
      var oc := Count(Lower(orig), likely);
      var rc := Count(Lower(rev), likely);
      if inferred.Some? && rc < oc && rt >= ot then
        Validation(CorrectlyApplied, "Likely replaced " + Quoted(likely) + " with " + Quoted(target),
                   Inferred(likely, oc, rc, rt), false)
      else if rt == ot then
        Validation(Unclear, Quoted(target) + " appears same number of times in both documents"
                            + " - unclear if change was applied", NoDetails, false)
      else
        Validation(ManualReviewRequired, "Cannot determine if " + Quoted(target)
                                         + " replacement was correctly applied", NoDetails, false)
  }

  // ---------------------------------------------------------------------
  // validate_style_change

  /** Contraction styles compare the number of distinct contractions of the
      two full texts; other styles are left to review. */
  function ValidateStyleChange(description: string, orig: string, rev: string): Validation
  {
    var d := Lower(description);
    if Contains(d, "contraction") then
      var oc := Contractions.Contractions(orig);
      var rc := Contractions.Contractions(rev);
      if oc == [] then
        Validation(CorrectlyApplied, "No contractions found in original text - style rule already satisfied",
                   ContractionCounts(0, |rc|), false)
      else if |rc| < |oc| then
        Validation(CorrectlyApplied, "Contractions reduced from " + NatToString(|oc|) + " to " + NatToString(|rc|),
                   Removed(|oc|, |rc|, oc), false)
      else if |rc| == |oc| then
        Validation(NotApplied, "Contractions still present: " + Join(", ", oc),
                   Remaining(|oc|, |rc|, rc), false)
      else
        Validation(NotApplied, "More contractions found in revised text than original",
                   ContractionCounts(|oc|, |rc|), false)
    else
      Validation(ManualReviewRequired, "Style change " + Quoted(d) + " requires manual review", NoDetails, false)
  }

  // ---------------------------------------------------------------------
  // validate_change_application

  /** Replacements with both texts: a global one must leave no source
      occurrence and at least as many targets as there were sources; a
      local one must remove at least one source occurrence. */
  function ValidateReplacement(from: string, to: string, global: bool, orig: string, rev: string): Validation
  {
    var oc := CountLower(orig, from);
    var rf := CountLower(rev, from);
    var rt := CountLower(rev, to);
    if global then
      if rf == 0 && rt >= oc then
        Validation(CorrectlyApplied, "All " + NatToString(oc) + " instances of " + Quoted(from)
                                     + " were changed to " + Quoted(to), Counts(oc, rf, rt), false)
      else
        Validation(PartiallyApplied, IntToString(oc - rf) + " of " + NatToString(oc) + " instances were changed",
                   Counts(oc, rf, rt), false)
    else if rf < oc then
      Validation(CorrectlyApplied, "At least one instance of " + Quoted(from) + " was changed to " + Quoted(to),
                 Counts(oc, rf, rt), false)
    else
      Validation(NotApplied, "No instances of " + Quoted(from) + " were changed", Counts(oc, rf, rt), false)
  }

  /** `validate_change_application`.  A style intent's description must be
      a string: the source lower-cases it. */
  function ValidateChangeApplication(intent: Intent, orig: string, rev: string, close: CloseMatch): Validation
    requires intent.kind == StyleGrammar ==> intent.styleDescription.Str?
  {
    if intent.kind == Unknown then
      Validation(ManualReviewRequired, "Comment requires manual interpretation", NoDetails, true)
    else if intent.kind == ReplaceGlobal || intent.kind == ReplaceLocal then
      var from := intent.fromText;
      var to := intent.toText;
      if !Truthy(from) && Truthy(to) then ValidateSingleWordReplacement(to.s, orig, rev, close)
      else if !Truthy(from) || !Truthy(to) then
        Validation(InvalidComment, "Could not parse replacement text from comment", NoDetails, false)
      else ValidateReplacement(from.s, to.s, intent.scope == Str("global"), orig, rev)
    else if intent.kind == StyleGrammar then ValidateStyleChange(intent.styleDescription.s, orig, rev)
    else
      Validation(ManualReviewRequired, "Change type " + Quoted(Render(KindValue(intent.kind)))
                                       + " requires manual review", NoDetails, false)
  }

  // ---------------------------------------------------------------------
  // Properties

  /** A global replacement is applied exactly when no source occurrence is
      left and the targets are at least as many as the original sources;
      otherwise it is partial, and the message says how many changed. */
  lemma GlobalReplacement(from: string, to: string, orig: string, rev: string)
    ensures var v := ValidateReplacement(from, to, true, orig, rev);
            var oc, rf, rt := CountLower(orig, from), CountLower(rev, from), CountLower(rev, to);
            && v.details == Counts(oc, rf, rt)
            && (v.status == CorrectlyApplied <==> rf == 0 && rt >= oc)
            && (v.status != CorrectlyApplied ==>
                  v.status == PartiallyApplied
                  && v.message == IntToString(oc - rf) + " of " + NatToString(oc) + " instances were changed")
  {
  }

  /** A local replacement is applied exactly when fewer source occurrences
      remain than the original had; otherwise it is not applied. */
  lemma LocalReplacement(from: string, to: string, orig: string, rev: string)
    ensures var v := ValidateReplacement(from, to, false, orig, rev);
            && v.details == Counts(CountLower(orig, from), CountLower(rev, from), CountLower(rev, to))
            && (v.status == CorrectlyApplied <==> CountLower(rev, from) < CountLower(orig, from))
            && (v.status != CorrectlyApplied ==> v.status == NotApplied)
  {
  }

  /** An unrevised text never counts as a local change. */
  lemma UnrevisedLocalNotApplied(from: string, to: string, text: string)
    ensures ValidateReplacement(from, to, false, text, text).status == NotApplied
  {
  }

  /** An unrevised text counts as a global change exactly when the source
      never occurred in it: the check is then vacuous. */
  lemma UnrevisedGlobal(from: string, to: string, text: string)
    requires from != []
    ensures var v := ValidateReplacement(from, to, true, text, text);
            v.status == CorrectlyApplied <==> !Contains(Lower(text), Lower(from))
  {
    LowerLength(from);
  }

  /** A globally replaced word no longer found anywhere, with the target
      occurring at least as often as the source did, is correctly applied. */
  lemma CompleteGlobalApplied(from: string, to: string, orig: string, rev: string)
    requires from != [] && !Contains(Lower(rev), Lower(from))
    requires CountLower(rev, to) >= CountLower(orig, from)
    ensures ValidateReplacement(from, to, true, orig, rev).status == CorrectlyApplied
  {
    LowerLength(from);
  }

  lemma LowerLength(s: string)
    ensures |Lower(s)| == |s|
  {
  }

  /** Only the unknown intent is ambiguous. */
  lemma AmbiguousOnlyUnknown(intent: Intent, orig: string, rev: string, close: CloseMatch)
    requires intent.kind == StyleGrammar ==> intent.styleDescription.Str?
    ensures ValidateChangeApplication(intent, orig, rev, close).ambiguous <==> intent.kind == Unknown
  {
    if intent.kind == ReplaceGlobal || intent.kind == ReplaceLocal {
      if !Truthy(intent.fromText) && Truthy(intent.toText) {
        SingleWordDecided(intent.toText.s, orig, rev, close);
      } else if Truthy(intent.fromText) && Truthy(intent.toText) {
        ReplacementDecided(intent.fromText.s, intent.toText.s, intent.scope == Str("global"), orig, rev);
      }
    } else if intent.kind == StyleGrammar {
      StyleDecided(intent.styleDescription.s, orig, rev);
    }
  }

  lemma SingleWordDecided(target: string, orig: string, rev: string, close: CloseMatch)
    ensures !ValidateSingleWordReplacement(target, orig, rev, close).ambiguous
  {
  }

  lemma ReplacementDecided(from: string, to: string, global: bool, orig: string, rev: string)
    ensures !ValidateReplacement(from, to, global, orig, rev).ambiguous
  {
  }

  lemma StyleDecided(description: string, orig: string, rev: string)
    ensures !ValidateStyleChange(description, orig, rev).ambiguous
  {
  }

  /** Every type other than the replacements and the style type is left to
      review. */
  lemma OtherTypesReviewed(intent: Intent, orig: string, rev: string, close: CloseMatch)
    requires intent.kind !in {ReplaceGlobal, ReplaceLocal, StyleGrammar}
    ensures ValidateChangeApplication(intent, orig, rev, close).status == ManualReviewRequired
  {
  }

  /** A replacement missing its target, or missing its source while having
      no target either, cannot be checked. */
  lemma MissingTextInvalid(intent: Intent, orig: string, rev: string, close: CloseMatch)
    requires intent.kind == ReplaceGlobal || intent.kind == ReplaceLocal
    requires !Truthy(intent.toText)
    ensures ValidateChangeApplication(intent, orig, rev, close).status == InvalidComment
  {
  }

  /** A replacement with both texts is scored as global exactly when its
      scope is "global". */
  lemma ReplacementScope(intent: Intent, orig: string, rev: string, close: CloseMatch)
    requires intent.kind == ReplaceGlobal || intent.kind == ReplaceLocal
    requires Truthy(intent.fromText) && Truthy(intent.toText)
    ensures ValidateChangeApplication(intent, orig, rev, close)
         == ValidateReplacement(intent.fromText.s, intent.toText.s, intent.scope == Str("global"), orig, rev)
  {
  }

  /** A target-only intent: more targets means applied, by the difference;
      an inference can succeed only when the target count is unchanged; an
      unchanged count without one is unclear; a smaller count is left to
      review. */
  lemma SingleWordOutcomes(target: string, orig: string, rev: string, close: CloseMatch)
    ensures var v := ValidateSingleWordReplacement(target, orig, rev, close);
            var ot, rt := CountLower(orig, target), CountLower(rev, target);
            && (rt > ot ==> v.status == CorrectlyApplied && v.details == Added(ot, rt, rt - ot))
            && (v.details.Inferred? ==> rt == ot && v.status == CorrectlyApplied)
            && (rt == ot && !v.details.Inferred? ==> v.status == Unclear)
            && (rt < ot ==> v.status == ManualReviewRequired)
  {
  }

  /** An inferred source is a word of the original that the revised text
      lacks, with fewer occurrences in the revised text. */
  lemma InferredSourceRemoved(target: string, orig: string, rev: string, close: CloseMatch)
    requires Proposes(close)
    requires ValidateSingleWordReplacement(target, orig, rev, close).details.Inferred?
    ensures var d := ValidateSingleWordReplacement(target, orig, rev, close).details;
            && d.inferredFrom in WordSet(Lower(orig)) && d.inferredFrom !in WordSet(Lower(rev))
            && d.remainingCount < d.originalCount
  {
    var removed := RemovedWords(orig, rev);
    assert removed != {};
    assert close(Lower(target), removed).value in removed;
  }

  /** An unrevised text removes no word, so a target-only intent on it is
      unclear. */
  lemma UnrevisedSingleWordUnclear(target: string, text: string, close: CloseMatch)
    ensures ValidateSingleWordReplacement(target, text, text, close).status == Unclear
  {
    assert RemovedWords(text, text) == {};
  }

  /** The contraction style: satisfied when the original has none, applied
      when the revised text has fewer, not applied when it has as many or
      more; every other style is left to review. */
  lemma StyleOutcomes(description: string, orig: string, rev: string)
    ensures var v := ValidateStyleChange(description, orig, rev);
            var oc, rc := Contractions.Contractions(orig), Contractions.Contractions(rev);
            && (!Contains(Lower(description), "contraction") ==> v.status == ManualReviewRequired)
            && (Contains(Lower(description), "contraction") ==>
                  && (oc == [] ==> v.status == CorrectlyApplied)
                  && (oc != [] ==> (v.status == CorrectlyApplied <==> |rc| < |oc|))
                  && (v.status != CorrectlyApplied ==> v.status == NotApplied))
  {
  }

  /** A text without apostrophes satisfies a contraction style. */
  lemma NoApostropheSatisfied(description: string, orig: string, rev: string)
    requires Contains(Lower(description), "contraction")
    requires forall i :: 0 <= i < |orig| ==> orig[i] != '\''
    ensures ValidateStyleChange(description, orig, rev).status == CorrectlyApplied
  {
    Contractions.NoApostropheNoContractions(orig);
  }

  /** An unrevised text with contractions does not satisfy a contraction
      style. */
  lemma UnrevisedStyleNotApplied(description: string, text: string)
    requires Contains(Lower(description), "contraction") && Contractions.Contractions(text) != []
    ensures ValidateStyleChange(description, text, text).status == NotApplied
  {
  }
}
