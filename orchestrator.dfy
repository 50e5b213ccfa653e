/**
 * Orchestration and aggregation: the per-comment analysis loop of
 * `analyze_comments_with_ai` with its rule-based fallback
 * (`fallback_analyze_comment`), the local-context validator
 * (`validate_local_change_with_context`), `generate_summary`, and the loop
 * of `generate_enhanced_diff` that collects missed instances of partially
 * applied global changes.
 *
 * The AI analysis is an oracle that either returns a result or fails (the
 * source catches the exception and falls back to the rules).
 */
module Orchestrator {
  import opened PyText
  import opened Intents
  import opened Validator
  import Context

  /** A comment as the extractor hands it on: its text, its associated text
      (empty when the key is missing), its stored position (0 when missing)
      and the scope the user chose, when the key is present. */
  datatype Comment = Comment(text: string, associatedText: string, position: nat, userScope: Option<string>)

  /** The `validation` entry of a result, by who produced it. */
  datatype Verdict =
    | Rule(v: Validation)
    | Unlocated
    | LocalContext(status: Status, message: string, associated: string, expected: Option<string>)
    | Ai(aiStatus: string, aiMessage: string)

  datatype AnalysisResult = AnalysisResult(comment: Comment, intent: Intent, verdict: Verdict,
                                           requiresManualReview: bool, aiPowered: bool)

  /** The external services: the capture patterns of the parser, the
      close-match oracle, whether an AI client is configured, and the AI
      analysis, `None` when it raises. */
  datatype Services = Services(grammar: Grammar, close: CloseMatch, aiAvailable: bool,
                               ai: Comment -> Option<AnalysisResult>)

  /** The status strings the source writes. */
  function StatusName(s: Status): string
  {
    match s
    case CorrectlyApplied => "correctly_applied"
    case PartiallyApplied => "partially_applied"
    case NotApplied => "not_applied"
    case InvalidComment => "invalid_comment"
    case ManualReviewRequired => "manual_review_required"
    case Unclear => "unclear"
  }

  /** `result['validation']['status']` */
  function VerdictStatus(x: Verdict): string
  {
    match x
    case Rule(v) => StatusName(v.status)
    case Unlocated => StatusName(ManualReviewRequired)
    case LocalContext(s, _, _, _) => StatusName(s)
    case Ai(s, _) => s
  }

  // ---------------------------------------------------------------------
  // validate_local_change_with_context

  /** The spelling corrections the local validator knows. */
  const SpellingFixes: map<string, string> := map[
    "recieve" := "receive", "teh" := "the", "hte" := "the", "seperate" := "separate",
    "occured" := "occurred", "definately" := "definitely", "thier" := "their",
    "reel" := "real", "absolutly" := "absolutely"
  ]

  /** The word the comment (lower-cased) leads the validator to expect:
      a known spelling correction of the associated text for spelling
      comments, else a fixed word for replacement comments that mention it. */
  function ExpectedChange(lc: string, assoc: string): Option<string>
  {
    if Contains(lc, "spelling") || Contains(lc, "spell") then
      if Lower(assoc) in SpellingFixes then Some(SpellingFixes[Lower(assoc)]) else None
    else if Contains(lc, "change") || Contains(lc, "replace") || Contains(lc, "use") || Contains(lc, "different") then
      if Contains(lc, "sunny") || Contains(lc, "sun") then Some("sunny")
      else if Contains(lc, "jimmy") then Some("Jimmy")
      else if Contains(lc, "smiling") then Some("smiling")
      else if Contains(lc, "excellent") then Some("excellent")
      else None
    else None
  }

  /** The local verdict once the associated text was located: the expected
      word must appear in the revised context, or, without one, the
      associated text must have left it. */
  function LocalVerdict(assoc: string, expected: Option<string>, revisedContext: string): (Status, string)
  {
    var rc := Lower(revisedContext);
    match expected
    case Some(e) =>
      if Contains(rc, Lower(e)) then
        (CorrectlyApplied, "Successfully changed " + Quoted(assoc) + " to " + Quoted(e) + " in the local context")
      else
        (NotApplied, "Expected change from " + Quoted(assoc) + " to " + Quoted(e) + " was not found in revised context")
    case None =>
      if !Contains(rc, Lower(assoc)) then
        (CorrectlyApplied, "Associated text " + Quoted(assoc) + " was modified/removed from the context as requested")
      else
        (NotApplied, "Associated text " + Quoted(assoc) + " still appears unchanged in the revised context")
  }

  /** `validate_local_change_with_context` */
  function ValidateLocalChangeWithContext(c: Comment, intent: Intent, orig: string, rev: string): AnalysisResult
  {
    LocalCheck(c, intent, Context.ExtractCommentContext(c.associatedText, c.position, orig, rev))
  }

  /** The local validator on the extracted context. */
  function LocalCheck(c: Comment, intent: Intent, ctx: Context.CommentContext): AnalysisResult
  {
    var assoc := Strip(c.associatedText);
    if !Contains(Lower(ctx.original), Lower(assoc)) then
      AnalysisResult(c, intent, Unlocated, true, false)
    else
      var expected := ExpectedChange(Lower(c.text), assoc);
      var (status, message) := LocalVerdict(assoc, expected, ctx.revised);
      AnalysisResult(c, intent, LocalContext(status, message, assoc, expected),
                     status != CorrectlyApplied && status != NotApplied, false)
  }

  // ---------------------------------------------------------------------
  // fallback_analyze_comment

  /** The user's scope choice applied to the parsed intent: "global" makes
      it a global replacement, "local" makes it local and demotes a global
      replacement; any other choice leaves it. */
  function ApplyUserScope(intent: Intent, scope: Option<string>): (r: Intent)
  {
    if scope == Some("global") then intent.(scope := Str("global"), kind := ReplaceGlobal)
    else if scope == Some("local") then
      intent.(scope := Str("local"), kind := if intent.kind == ReplaceGlobal then ReplaceLocal else intent.kind)
    else intent
  }

  /** `fallback_analyze_comment` */
  function FallbackAnalyzeComment(c: Comment, orig: string, rev: string, env: Services): AnalysisResult
  {
    Fallback(c, ParseCommentIntent(c.text, Strip(c.associatedText), env.grammar), orig, rev, env.close)
  }

  /** The fallback once the comment is parsed: the user's scope is applied,
      and a local choice on associated text goes to the local validator. */
  function Fallback(c: Comment, parsed: Intent, orig: string, rev: string, close: CloseMatch): AnalysisResult
    requires parsed.styleDescription.Str?
  {
    var intent := ApplyUserScope(parsed, c.userScope);
    if c.userScope == Some("local") && Strip(c.associatedText) != "" then
      ValidateLocalChangeWithContext(c, intent, orig, rev)
    else
      var v := ValidateChangeApplication(intent, orig, rev, close);
      AnalysisResult(c, intent, Rule(v), v.ambiguous, false)
  }

  // ---------------------------------------------------------------------
  // analyze_comments_with_ai

  /** One comment: the AI analysis when a client is configured and it
      succeeds, the rules otherwise. */
  function AnalyzeComment(c: Comment, orig: string, rev: string, env: Services): AnalysisResult
  {
    if env.aiAvailable && env.ai(c).Some? then env.ai(c).value
    else FallbackAnalyzeComment(c, orig, rev, env)
  }

  function AnalyzeAll(cs: seq<Comment>, orig: string, rev: string, env: Services): (rs: seq<AnalysisResult>)
    ensures |rs| == |cs|
  {
    if cs == [] then []
    else AnalyzeAll(cs[..|cs| - 1], orig, rev, env) + [AnalyzeComment(cs[|cs| - 1], orig, rev, env)]
  }

  /** The loop of `analyze_comments_with_ai`: one result per comment, in
      order. */
  method AnalyzeComments(cs: seq<Comment>, orig: string, rev: string, env: Services)
    returns (results: seq<AnalysisResult>)
    ensures results == AnalyzeAll(cs, orig, rev, env)
  {
    results := [];
    for i := 0 to |cs|
      invariant results == AnalyzeAll(cs[..i], orig, rev, env)
    {
      var result: AnalysisResult;
      if env.aiAvailable {
        var ai := env.ai(cs[i]);
        if ai.Some? {
          result := ai.value;
        } else {
          result := FallbackAnalyzeComment(cs[i], orig, rev, env);
        }
      } else {
        result := FallbackAnalyzeComment(cs[i], orig, rev, env);
      }
      assert cs[..i + 1][..i] == cs[..i];
      results := results + [result];
    }
    assert cs[..|cs|] == cs;
  }

  // ---------------------------------------------------------------------
  // generate_summary

  datatype Summary = Summary(total: nat, correctlyApplied: nat, partiallyApplied: nat, notApplied: nat,
                             manualReview: nat, successRate: real)

  /** The number of results whose status is `name`. */
  function CountStatus(rs: seq<AnalysisResult>, name: string): (n: nat)
    ensures n <= |rs|
  {
    if rs == [] then 0
    else CountStatus(rs[..|rs| - 1], name) + (if VerdictStatus(rs[|rs| - 1].verdict) == name then 1 else 0)
  }

  function CountManual(rs: seq<AnalysisResult>): (n: nat)
    ensures n <= |rs|
  {
    if rs == [] then 0
    else CountManual(rs[..|rs| - 1]) + (if rs[|rs| - 1].requiresManualReview then 1 else 0)
  }

  /** `generate_summary` */
  function GenerateSummary(rs: seq<AnalysisResult>): Summary
  {
    var total := |rs|;
    var correct := CountStatus(rs, "correctly_applied");
    Summary(total, correct, CountStatus(rs, "partially_applied"), CountStatus(rs, "not_applied"),
            CountManual(rs),
            if total > 0 then (correct as real) / (total as real) * 100.0 else 0.0)
  }

  // ---------------------------------------------------------------------
  // Missed instances (generate_enhanced_diff)

  datatype MissedInstance = MissedInstance(lineNum: nat, text: string, comment: string, lineContent: string)

  /** A partially applied global change with a source text. */
  predicate Incomplete(r: AnalysisResult)
  {
    VerdictStatus(r.verdict) == "partially_applied" && r.intent.scope == Str("global") && Truthy(r.intent.fromText)
  }

  /** The lines, from line `j` on, that still contain the source text. */
  function MissedLines(r: AnalysisResult, lines: seq<string>, j: nat): seq<MissedInstance>
    requires Incomplete(r)
    decreases |lines| - j
  {
    if j >= |lines| then []
    else
      var from := r.intent.fromText.s;
      (if Contains(Lower(lines[j]), Lower(from)) then [MissedInstance(j, from, r.comment.text, lines[j])] else [])
      + MissedLines(r, lines, j + 1)
  }

  function Missed(rs: seq<AnalysisResult>, lines: seq<string>): seq<MissedInstance>
  {
    if rs == [] then []
    else Missed(rs[..|rs| - 1], lines)
         + (if Incomplete(rs[|rs| - 1]) then MissedLines(rs[|rs| - 1], lines, 0) else [])
  }

  /** The nested loops that collect the missed instances. */
  method CollectMissedInstances(rs: seq<AnalysisResult>, lines: seq<string>) returns (missed: seq<MissedInstance>)
    ensures missed == Missed(rs, lines)
  {
    missed := [];
    for i := 0 to |rs|
      invariant missed == Missed(rs[..i], lines)
    {
      assert rs[..i + 1][..i] == rs[..i];
      var r := rs[i];
      if Incomplete(r) {
        var from := r.intent.fromText.s;
        var found: seq<MissedInstance> := [];
        for j := 0 to |lines|
          invariant found + MissedLines(r, lines, j) == MissedLines(r, lines, 0)
        {
          if Contains(Lower(lines[j]), Lower(from)) {
            found := found + [MissedInstance(j, from, r.comment.text, lines[j])];
          }
        }
        missed := missed + found;
      }
    }
    assert rs[..|rs|] == rs;
  }

  // ---------------------------------------------------------------------
  // Properties

  /** The AI oracle reports on the comment it was given. */
  ghost predicate KeepsComment(ai: Comment -> Option<AnalysisResult>)
  {
    forall c :: ai(c).Some? ==> ai(c).value.comment == c
  }

  /** Result `i` is the analysis of comment `i`. */
  lemma {:induction false} AnalyzeAllAt(cs: seq<Comment>, orig: string, rev: string, env: Services, i: nat)
    requires i < |cs|
    ensures AnalyzeAll(cs, orig, rev, env)[i] == AnalyzeComment(cs[i], orig, rev, env)
    decreases |cs|
  {
    if i < |cs| - 1 {
      AnalyzeAllAt(cs[..|cs| - 1], orig, rev, env, i);
    }
  }

  /** One result per comment, in order; without an AI client every result
      is the rule-based one. */
  lemma ResultsFollowComments(cs: seq<Comment>, orig: string, rev: string, env: Services)
    requires KeepsComment(env.ai)
    ensures var rs := AnalyzeAll(cs, orig, rev, env);
            && |rs| == |cs|
            && (forall i :: 0 <= i < |cs| ==> rs[i].comment == cs[i])
            && (!env.aiAvailable ==> forall i :: 0 <= i < |cs| ==>
                  rs[i] == FallbackAnalyzeComment(cs[i], orig, rev, env) && !rs[i].aiPowered)
  {
    var rs := AnalyzeAll(cs, orig, rev, env);
    forall i | 0 <= i < |cs|
      ensures rs[i].comment == cs[i]
      ensures !env.aiAvailable ==> rs[i] == FallbackAnalyzeComment(cs[i], orig, rev, env) && !rs[i].aiPowered
    {
      AnalyzeAllAt(cs, orig, rev, env, i);
      var parsed := ParseCommentIntent(cs[i].text, Strip(cs[i].associatedText), env.grammar);
      FallbackKeepsComment(cs[i], parsed, orig, rev, env.close);
    }
  }

  lemma FallbackKeepsComment(c: Comment, parsed: Intent, orig: string, rev: string, close: CloseMatch)
    requires parsed.styleDescription.Str?
    ensures Fallback(c, parsed, orig, rev, close).comment == c
    ensures !Fallback(c, parsed, orig, rev, close).aiPowered
  {
  }

  /** The scope override: "global" forces a global replacement, "local"
      makes the intent local and demotes a global replacement, and any other
      choice leaves the intent as parsed. */
  lemma ScopeOverride(intent: Intent, scope: Option<string>)
    ensures var r := ApplyUserScope(intent, scope);
            && (scope == Some("global") ==> r.kind == ReplaceGlobal && r.scope == Str("global"))
            && (scope == Some("local") ==>
                  && r.scope == Str("local") && r.kind != ReplaceGlobal
                  && (intent.kind != ReplaceGlobal ==> r.kind == intent.kind)
                  && (intent.kind == ReplaceGlobal ==> r.kind == ReplaceLocal))
            && (scope != Some("global") && scope != Some("local") ==> r == intent)
            && r.fromText == intent.fromText && r.toText == intent.toText
            && r.styleDescription == intent.styleDescription
  {
  }

  /** The user's "global" makes every comment a global replacement
      validated by the generic rules; such a result is never ambiguous. */
  lemma UserGlobalScope(c: Comment, parsed: Intent, orig: string, rev: string, close: CloseMatch)
    requires parsed.styleDescription.Str? && c.userScope == Some("global")
    ensures var r := Fallback(c, parsed, orig, rev, close);
            && r.intent == parsed.(scope := Str("global"), kind := ReplaceGlobal)
            && r.verdict == Rule(ValidateChangeApplication(r.intent, orig, rev, close))
            && !r.requiresManualReview
  {
    var intent := ApplyUserScope(parsed, c.userScope);
    AmbiguousOnlyUnknown(intent, orig, rev, close);
  }

  /** The user's "local" with associated text hands the comment, its intent
      made local, to the local-context validator; without associated text
      the generic rules decide. */
  lemma UserLocalScope(c: Comment, parsed: Intent, orig: string, rev: string, close: CloseMatch)
    requires parsed.styleDescription.Str? && c.userScope == Some("local")
    ensures var r := Fallback(c, parsed, orig, rev, close);
            var intent := ApplyUserScope(parsed, c.userScope);
            && (Strip(c.associatedText) != "" ==> r == ValidateLocalChangeWithContext(c, intent, orig, rev))
            && (Strip(c.associatedText) == "" ==>
                  r.verdict == Rule(ValidateChangeApplication(intent, orig, rev, close)))
  {
  }

  /** Without a scope choice, the parsed intent is validated by the generic
      rules, and the result needs review exactly when nothing was
      recognised. */
  lemma NoUserScope(c: Comment, parsed: Intent, orig: string, rev: string, close: CloseMatch)
    requires parsed.styleDescription.Str? && c.userScope.None?
    ensures var r := Fallback(c, parsed, orig, rev, close);
            && r.intent == parsed
            && r.verdict == Rule(ValidateChangeApplication(parsed, orig, rev, close))
            && (r.requiresManualReview <==> parsed.kind == Unknown)
  {
    AmbiguousOnlyUnknown(parsed, orig, rev, close);
  }

  /** The local validator needs review exactly when it could not locate the
      associated text in the original context; otherwise it decides by the
      expected word, or by the associated text's disappearance. */
  lemma LocalValidatorOutcomes(c: Comment, intent: Intent, ctx: Context.CommentContext)
    ensures var r := LocalCheck(c, intent, ctx);
            var assoc := Strip(c.associatedText);
            var expected := ExpectedChange(Lower(c.text), assoc);
            && r.intent == intent && r.comment == c && !r.aiPowered
            && (r.requiresManualReview <==> !Contains(Lower(ctx.original), Lower(assoc)))
            && (r.verdict.Unlocated? <==> r.requiresManualReview)
            && (r.verdict.LocalContext? ==>
                  && r.verdict.expected == expected
                  && (expected.Some? ==>
                        (r.verdict.status == CorrectlyApplied <==> Contains(Lower(ctx.revised), Lower(expected.value))))
                  && (expected.None? ==>
                        (r.verdict.status == CorrectlyApplied <==> !Contains(Lower(ctx.revised), Lower(assoc))))
                  && (r.verdict.status != CorrectlyApplied ==> r.verdict.status == NotApplied))
  {
  }

  /** A comment about spelling expects the known correction of its
      associated text; "spelling" already contains "spell". */
  lemma SpellingExpectation(lc: string, assoc: string)
    requires Contains(lc, "spell")
    ensures ExpectedChange(lc, assoc)
         == if Lower(assoc) in SpellingFixes then Some(SpellingFixes[Lower(assoc)]) else None
  {
  }

  /** The summary's counts are bounded by the total, and the success rate
      is the percentage of correctly applied results (0 for none). */
  lemma SummaryBounds(rs: seq<AnalysisResult>)
    ensures var s := GenerateSummary(rs);
            && s.total == |rs|
            && s.correctlyApplied + s.partiallyApplied + s.notApplied <= s.total
            && s.manualReview <= s.total
            && 0.0 <= s.successRate <= 100.0
            && (s.total == 0 ==> s.successRate == 0.0)
            && (s.total > 0 ==> (s.successRate == 100.0 <==> s.correctlyApplied == s.total))
  {
    DistinctStatuses(rs);
    var s := GenerateSummary(rs);
    if s.total > 0 {
      RateBounds(s.correctlyApplied, s.total);
    }
  }

  lemma RateBounds(correct: nat, total: nat)
    requires 0 < total && correct <= total
    ensures var rate := (correct as real) / (total as real) * 100.0;
            0.0 <= rate <= 100.0 && (rate == 100.0 <==> correct == total)
  {
    var c, t := correct as real, total as real;
    var q := c / t;
    assert q * t == c;
    QuotientBounds(q, t, c);
    assert q * 100.0 == 100.0 <==> q == 1.0;
  }

  /** From `q * t == c` with `0 <= c <= t` and `t > 0`: `0 <= q <= 1`, and
      `q == 1` exactly when `c == t`. */
  lemma QuotientBounds(q: real, t: real, c: real)
    requires t > 0.0 && 0.0 <= c <= t && q * t == c
    ensures 0.0 <= q <= 1.0 && (q == 1.0 <==> c == t)
  {
    assert (1.0 - q) * t == t - c;
    assert q * t >= 0.0;
  }

  /** The statuses counted are distinct, so no result is counted twice. */
  lemma {:induction false} DistinctStatuses(rs: seq<AnalysisResult>)
    ensures CountStatus(rs, "correctly_applied") + CountStatus(rs, "partially_applied")
            + CountStatus(rs, "not_applied") <= |rs|
  {
    if rs != [] {
      DistinctStatuses(rs[..|rs| - 1]);
      var st := VerdictStatus(rs[|rs| - 1].verdict);
      StatusNamesDiffer();
    }
  }

  lemma StatusNamesDiffer()
    ensures "correctly_applied" != "partially_applied"
    ensures "correctly_applied" != "not_applied"
    ensures "partially_applied" != "not_applied"
  {
    assert "correctly_applied"[0] == 'c' && "partially_applied"[0] == 'p' && "not_applied"[0] == 'n';
  }

  /** Every missed instance points at a line that still contains the source
      text of an incomplete global change, case-insensitively. */
  lemma {:induction false} MissedSound(rs: seq<AnalysisResult>, lines: seq<string>)
    ensures forall m :: m in Missed(rs, lines) ==>
              && m.lineNum < |lines| && m.lineContent == lines[m.lineNum]
              && Contains(Lower(m.lineContent), Lower(m.text))
              && exists i :: 0 <= i < |rs| && Incomplete(rs[i]) && m.text == rs[i].intent.fromText.s
  {
    if rs != [] {
      var init := rs[..|rs| - 1];
      MissedSound(init, lines);
      var r := rs[|rs| - 1];
      forall m | m in Missed(rs, lines)
        ensures && m.lineNum < |lines| && m.lineContent == lines[m.lineNum]
                && Contains(Lower(m.lineContent), Lower(m.text))
                && exists i :: 0 <= i < |rs| && Incomplete(rs[i]) && m.text == rs[i].intent.fromText.s
      {
        if m in Missed(init, lines) {
          var i :| 0 <= i < |init| && Incomplete(init[i]) && m.text == init[i].intent.fromText.s;
          assert rs[i] == init[i];
        } else {
          assert Incomplete(r) && m in MissedLines(r, lines, 0);
          MissedLinesSound(r, lines, 0, m);
          assert rs[|rs| - 1] == r;
        }
      }
    }
  }

  lemma {:induction false} MissedLinesSound(r: AnalysisResult, lines: seq<string>, j: nat, m: MissedInstance)
    requires Incomplete(r) && m in MissedLines(r, lines, j)
    ensures j <= m.lineNum < |lines| && m.lineContent == lines[m.lineNum]
    ensures Contains(Lower(m.lineContent), Lower(m.text)) && m.text == r.intent.fromText.s
    decreases |lines| - j
  {
    if j < |lines| {
      var here := if Contains(Lower(lines[j]), Lower(r.intent.fromText.s))
                  then [MissedInstance(j, r.intent.fromText.s, r.comment.text, lines[j])] else [];
      assert MissedLines(r, lines, j) == here + MissedLines(r, lines, j + 1);
      if m !in here {
        MissedLinesSound(r, lines, j + 1, m);
      }
    }
  }

  /** Every line that still contains the source text of an incomplete
      global change is reported. */
  lemma {:induction false} MissedComplete(r: AnalysisResult, lines: seq<string>, j: nat, k: nat)
    requires Incomplete(r) && j <= k < |lines|
    requires Contains(Lower(lines[k]), Lower(r.intent.fromText.s))
    ensures MissedInstance(k, r.intent.fromText.s, r.comment.text, lines[k]) in MissedLines(r, lines, j)
    decreases |lines| - j
  {
    if j < k {
      MissedComplete(r, lines, j + 1, k);
    }
  }
}
