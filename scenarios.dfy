/**
 * A worked example of the parser, from the source's parsing tests: the lone
 * name "Jimmy" written as a comment on "Johnny" is read as the local
 * replacement of "Johnny" by "Jimmy".  The capture patterns stay abstract;
 * the example assumes only that the context-aware capture patterns do not
 * match the comment.  The written-out patterns (the style table, the scope
 * commands, the anchored phrase) are shown not to match or to match as
 * expected, one small lemma each.
 */
module Scenarios {
  import opened PyText
  import opened Intents

  /** The first literal of `ps` has a letter, at index `j`, that `s` lacks. */
  predicate Lacks(s: string, ps: Phrase, j: nat)
  {
    ps != [] && ps[0].Lit? && j < |ps[0].w| && ps[0].w[j] !in s
  }

  /** A phrase whose first literal has a letter the text lacks never
      matches. */
  lemma PhraseAbsent(s: string, ps: Phrase, j: nat)
    requires Lacks(s, ps, j)
    ensures !Search(s, ps)
  {
    if Search(s, ps) {
      assert ps == [Lit(ps[0].w)] + ps[1..];
      SearchNeedsLiteral(s, ps[0].w, ps[1..]);
      CharOfContained(s, ps[0].w, j);
    }
  }

  /** A rule of one or two alternatives, each lacking a letter of `s`,
      does not match `s`. */
  lemma RuleAbsent(s: string, alts: seq<Phrase>, j0: nat, j1: nat)
    requires 1 <= |alts| <= 2 && Lacks(s, alts[0], j0) && (|alts| == 2 ==> Lacks(s, alts[1], j1))
    ensures !SearchAny(s, alts)
  {
    PhraseAbsent(s, alts[0], j0);
    if |alts| == 2 {
      PhraseAbsent(s, alts[1], j1);
    }
  }

  lemma JimmyMissesRule0()
    ensures !SearchAny("jimmy", StyleRules()[0].alternatives)
  {
    RuleAbsent("jimmy", StyleRules()[0].alternatives, 0, 0);
  }

  lemma JimmyMissesRule1()
    ensures !SearchAny("jimmy", StyleRules()[1].alternatives)
  {
    RuleAbsent("jimmy", StyleRules()[1].alternatives, 0, 0);
  }

  lemma JimmyMissesRule2()
    ensures !SearchAny("jimmy", StyleRules()[2].alternatives)
  {
    RuleAbsent("jimmy", StyleRules()[2].alternatives, 0, 0);
  }

  lemma JimmyMissesRule3()
    ensures !SearchAny("jimmy", StyleRules()[3].alternatives)
  {
    RuleAbsent("jimmy", StyleRules()[3].alternatives, 1, 1);
  }

  lemma JimmyMissesRule4()
    ensures !SearchAny("jimmy", StyleRules()[4].alternatives)
  {
    RuleAbsent("jimmy", StyleRules()[4].alternatives, 0, 0);
  }

  lemma JimmyMissesRule5()
    ensures !SearchAny("jimmy", StyleRules()[5].alternatives)
  {
    RuleAbsent("jimmy", StyleRules()[5].alternatives, 0, 0);
  }

  lemma JimmyMissesRule6()
    ensures !SearchAny("jimmy", StyleRules()[6].alternatives)
  {
    RuleAbsent("jimmy", StyleRules()[6].alternatives, 0, 0);
  }

  lemma JimmyMissesRule7()
    ensures !SearchAny("jimmy", StyleRules()[7].alternatives)
  {
    RuleAbsent("jimmy", StyleRules()[7].alternatives, 0, 0);
  }

  lemma JimmyMissesRule8()
    ensures !SearchAny("jimmy", StyleRules()[8].alternatives)
  {
    RuleAbsent("jimmy", StyleRules()[8].alternatives, 0, 0);
  }

  lemma JimmyMissesRule9()
    ensures !SearchAny("jimmy", StyleRules()[9].alternatives)
  {
    RuleAbsent("jimmy", StyleRules()[9].alternatives, 2, 2);
  }

  lemma JimmyMissesRule10()
    ensures !SearchAny("jimmy", StyleRules()[10].alternatives)
  {
    RuleAbsent("jimmy", StyleRules()[10].alternatives, 1, 1);
  }

  lemma JimmyMissesRule11()
    ensures !SearchAny("jimmy", StyleRules()[11].alternatives)
  {
    RuleAbsent("jimmy", StyleRules()[11].alternatives, 0, 0);
  }

  /** No style rule applies to "jimmy". */
  lemma JimmyNoStyle()
    ensures FirstStyleRule("jimmy", 0).None?
  {
    JimmyMissesRule0(); JimmyMissesRule1(); JimmyMissesRule2(); JimmyMissesRule3();
    JimmyMissesRule4(); JimmyMissesRule5(); JimmyMissesRule6(); JimmyMissesRule7();
    JimmyMissesRule8(); JimmyMissesRule9(); JimmyMissesRule10(); JimmyMissesRule11();
  }

  lemma JimmyMissesScopeA()
    ensures forall i :: 0 <= i < 3 ==> !Search("jimmy", ScopeCommands[i])
  {
    PhraseAbsent("jimmy", ScopeCommands[0], 0);
    PhraseAbsent("jimmy", ScopeCommands[1], 0);
    PhraseAbsent("jimmy", ScopeCommands[2], 0);
  }

  lemma JimmyMissesScopeB()
    ensures forall i :: 3 <= i < 6 ==> !Search("jimmy", ScopeCommands[i])
  {
    PhraseAbsent("jimmy", ScopeCommands[3], 0);
    PhraseAbsent("jimmy", ScopeCommands[4], 0);
    PhraseAbsent("jimmy", ScopeCommands[5], 0);
  }

  /** "jimmy" names no scope. */
  lemma JimmyNoScopeCommand()
    ensures !SearchAny("jimmy", ScopeCommands)
  {
    JimmyMissesScopeA();
    JimmyMissesScopeB();
  }

  lemma JimmyLower()
    ensures Lower("Jimmy") == "jimmy" && Lower("Johnny") == "johnny"
  {
  }

  lemma JimmyStripped()
    ensures Strip("Jimmy") == "Jimmy"
  {
    var s := "Jimmy";
    assert !IsSpace(s[0]) && !IsSpace(s[4]);
    assert LStrip(s) == s && RStrip(s) == s;
  }

  /** "Jimmy" has no quotes and reads back whole as a phrase. */
  lemma JimmyAnchored()
    ensures Anchored("Jimmy", false) == Some("Jimmy")
  {
    var s := "Jimmy";
    assert QuoteLen(s) == 0 && s[0..] == s;
    assert NonQuoteRun(s[4..]) == "y";
    assert NonQuoteRun(s[3..]) == "my";
    assert NonQuoteRun(s[2..]) == "mmy";
    assert NonQuoteRun(s[1..]) == "immy";
    assert NonQuoteRun(s) == s;
    assert s[|s|..] == [];
  }

  /** "Jimmy" is one word. */
  lemma JimmyOneWord()
    ensures |Split("Jimmy")| == 1
  {
    var s := "Jimmy";
    assert forall i :: 0 <= i < |s| ==> !IsSpace(s[i]);
    SplitWord(s, "");
    assert s + "" == s;
  }

  lemma JohnnyStripped()
    ensures Strip("Johnny") == "Johnny"
  {
    var a := "Johnny";
    assert !IsSpace(a[0]) && !IsSpace(a[5]);
    assert LStrip(a) == a && RStrip(a) == a;
  }

  /** The comment "Jimmy" on "Johnny" replaces "Johnny" by "Jimmy" here
      only, as the source's parsing test expects. */
  lemma JimmyForJohnny(g: Grammar)
    requires FirstCapture(g.namePatterns, "Jimmy", 0).None? && g.shouldBeAtEnd("Jimmy").None?
    requires FirstCapture(g.instructionPatterns, "Jimmy", 0).None?
    ensures var r := ParseCommentIntent("Jimmy", "Johnny", g);
            && r.kind == ReplaceLocal && r.scope == Str("local")
            && r.fromText == Str("Johnny") && r.toText == Str("Jimmy")
  {
    JimmyCase("Jimmy", "Johnny", g);
  }

  /** The same, with the two texts held in variables so that the parser's
      definitions are unfolded only as far as the proof needs. */
  lemma JimmyCase(c: string, a: string, g: Grammar)
    requires c == "Jimmy" && a == "Johnny"
    requires FirstCapture(g.namePatterns, c, 0).None? && g.shouldBeAtEnd(c).None?
    requires FirstCapture(g.instructionPatterns, c, 0).None?
    ensures var r := ParseCommentIntent(c, a, g);
            && r.kind == ReplaceLocal && r.scope == Str("local")
            && r.fromText == Str(a) && r.toText == Str(c)
  {
    JimmyLower();
    JimmyNoStyle();
    JimmyNoScopeCommand();
    JimmyStripped();
    JimmyAnchored();
    JimmyOneWord();
    JohnnyStripped();
    assert !Contains("jimmy", "johnny");
    ShortCommentReplacesAssociated(c, a, g);
  }
}
