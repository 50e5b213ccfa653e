/**
 * The rule-based comment parser (`parse_comment_intent` and the parsers it
 * consults).  An intent dictionary maps field names to values that are
 * either a string or `None`; once `validate_intent_structure` has filled in
 * the missing fields it is a record with every field.
 *
 * Regular expressions that only decide whether a comment matches are
 * written out as phrases over the lower-cased comment; regular expressions
 * whose capture groups are used are supplied as a `Grammar` of matchers.
 * The anchored patterns of the fallbacks are written out exactly.
 */
module Intents {
  import opened PyText
  import Contractions

  datatype Value = Null | Str(s: string)

  /** The fields of an intent dictionary. */
  datatype Field = Type | FromText | ToText | Scope | RawComment | AiInterpretation | StyleDescription

  /** The change types the analyzer knows, and any other value a `type`
      field may hold. */
  datatype Kind = ReplaceGlobal | ReplaceLocal | Delete | Add | Format | StyleGrammar | Unknown
                | OtherKind(value: Value)

  /** The `type` field's value for a change type. */
  function KindValue(k: Kind): Value
  {
    match k
    case ReplaceGlobal => Str("replace_global")
    case ReplaceLocal => Str("replace_local")
    case Delete => Str("delete")
    case Add => Str("add")
    case Format => Str("format")
    case StyleGrammar => Str("style_grammar")
    case Unknown => Str("unknown")
    case OtherKind(v) => v
  }

  /** Reads a `type` field. */
  function KindOf(v: Value): (k: Kind)
    ensures KindValue(k) == v
  {
    if v == Str("replace_global") then ReplaceGlobal
    else if v == Str("replace_local") then ReplaceLocal
    else if v == Str("delete") then Delete
    else if v == Str("add") then Add
    else if v == Str("format") then Format
    else if v == Str("style_grammar") then StyleGrammar
    else if v == Str("unknown") then Unknown
    else OtherKind(v)
  }

  /** A change type in its one representation: other values are never the
      names of the known types. */
  predicate Canonical(k: Kind)
  {
    KindOf(KindValue(k)) == k
  }

  lemma NamedKindsCanonical(k: Kind)
    requires !k.OtherKind?
    ensures Canonical(k)
  {
  }

  /** An intent dictionary as a caller may build it, with fields missing. */
  type IntentDict = map<Field, Value>

  /** An intent with every field present, as `validate_intent_structure`
      returns it. */
  datatype Intent = Intent(kind: Kind, fromText: Value, toText: Value, scope: Value,
                           rawComment: Value, aiInterpretation: Value, styleDescription: Value)
  {
    function Get(k: Field): Value
    {
      match k
      case Type => KindValue(kind)
      case FromText => fromText
      case ToText => toText
      case Scope => scope
      case RawComment => rawComment
      case AiInterpretation => aiInterpretation
      case StyleDescription => styleDescription
    }
  }

  /** Python truthiness of a field value. */
  predicate Truthy(v: Value)
  {
    v.Str? && v.s != ""
  }

  /** How an f-string renders the value (`None` for a missing value). */
  function Render(v: Value): string
  {
    if v.Str? then v.s else "None"
  }

  // ---------------------------------------------------------------------
  // validate_intent_structure

  const RequiredFields: seq<Field> := [Type, FromText, ToText, Scope, RawComment]
  const OptionalFields: seq<Field> := [AiInterpretation, StyleDescription]

  /** The value `validate_intent_structure` gives a missing field. */
  function Default(k: Field): Value
  {
    if k in RequiredFields then Null else Str("")
  }

  /** Adds every key of `keys` that `m` lacks, with the value `v`. */
  function FillMissing(m: IntentDict, keys: seq<Field>, v: Value): (r: IntentDict)
    ensures forall k :: k in r <==> k in m || k in keys
    ensures forall k :: k in r ==> r[k] == if k in m then m[k] else v
    decreases keys
  {
    if keys == [] then m
    else FillMissing(if keys[0] in m then m else m[keys[0] := v], keys[1..], v)
  }

  /** A field of the dictionary, or its default when missing. */
  function Pick(m: IntentDict, k: Field): Value
  {
    if k in m then m[k] else Default(k)
  }

  /** `validate_intent_structure`: present fields are kept, missing
      required fields become `None` and missing optional ones the empty
      string. */
  function ValidateIntentStructure(intent: IntentDict): (r: Intent)
    ensures r.kind == KindOf(Pick(intent, Type)) && r.fromText == Pick(intent, FromText)
    ensures r.toText == Pick(intent, ToText) && r.scope == Pick(intent, Scope)
    ensures r.rawComment == Pick(intent, RawComment)
    ensures r.aiInterpretation == Pick(intent, AiInterpretation)
    ensures r.styleDescription == Pick(intent, StyleDescription)
  {
    var full := Filled(intent);
    FilledField(intent, Type); FilledField(intent, FromText); FilledField(intent, ToText);
    FilledField(intent, Scope); FilledField(intent, RawComment);
    FilledField(intent, AiInterpretation); FilledField(intent, StyleDescription);
    Intent(KindOf(full[Type]), full[FromText], full[ToText], full[Scope], full[RawComment],
           full[AiInterpretation], full[StyleDescription])
  }

  /** The dictionary once the missing required and optional fields are
      filled in. */
  function Filled(intent: IntentDict): IntentDict
  {
    FillMissing(FillMissing(intent, RequiredFields, Null), OptionalFields, Str(""))
  }

  /** Every field is present once filled in, with its own value or its
      default. */
  lemma FilledField(intent: IntentDict, k: Field)
    ensures k in Filled(intent) && Filled(intent)[k] == Pick(intent, k)
  {
    var m := FillMissing(intent, RequiredFields, Null);
    if k in RequiredFields {
      assert k in m && m[k] == Pick(intent, k);
    } else {
      assert k == AiInterpretation || k == StyleDescription;
      assert k in OptionalFields by {
        assert OptionalFields[0] == AiInterpretation && OptionalFields[1] == StyleDescription;
      }
      assert k in m <==> k in intent;
    }
  }

  /** The dictionary form of a complete intent. */
  function ToDict(r: Intent): IntentDict
  {
    map[Type := KindValue(r.kind), FromText := r.fromText, ToText := r.toText, Scope := r.scope,
        RawComment := r.rawComment, AiInterpretation := r.aiInterpretation,
        StyleDescription := r.styleDescription]
  }

  /** Validating a complete intent gives it back. */
  lemma ValidateComplete(r: Intent)
    requires Canonical(r.kind)
    ensures ValidateIntentStructure(ToDict(r)) == r
  {
    ValidatesTo(ToDict(r), r);
  }

  /** Validation keeps every field the dictionary has. */
  lemma ValidateKeeps(m: IntentDict, k: Field)
    requires k in m
    ensures ValidateIntentStructure(m).Get(k) == m[k]
  {
    if k == Type {
      assert KindValue(KindOf(m[Type])) == m[Type];
    }
  }

  /** The five-field intents the parsers build. */
  function MakeIntent(kind: Kind, from: Value, to: Value, scope: string, comment: string): Intent
  {
    Intent(kind, from, to, Str(scope), Str(comment), Str(""), Str(""))
  }

  /** The six-field intents of the style parser. */
  function MakeStyleIntent(from: string, to: string, comment: string, description: string): Intent
  {
    Intent(StyleGrammar, Str(from), Str(to), Str("local"), Str(comment), Str(""), Str(description))
  }

  /** The parsers' intents are what `validate_intent_structure` makes of
      the dictionaries the source builds. */
  lemma MakeIntentValidated(kind: Kind, from: Value, to: Value, scope: string, comment: string)
    requires !kind.OtherKind?
    ensures MakeIntent(kind, from, to, scope, comment)
         == ValidateIntentStructure(map[Type := KindValue(kind), FromText := from, ToText := to,
                                        Scope := Str(scope), RawComment := Str(comment)])
  {
    NamedKindsCanonical(kind);
    ValidatesTo(map[Type := KindValue(kind), FromText := from, ToText := to,
                    Scope := Str(scope), RawComment := Str(comment)], MakeIntent(kind, from, to, scope, comment));
  }

  lemma MakeStyleIntentValidated(from: string, to: string, comment: string, description: string)
    ensures MakeStyleIntent(from, to, comment, description)
         == ValidateIntentStructure(map[Type := Str("style_grammar"), FromText := Str(from),
                                        ToText := Str(to), Scope := Str("local"),
                                        RawComment := Str(comment), StyleDescription := Str(description)])
  {
    NamedKindsCanonical(StyleGrammar);
    ValidatesTo(map[Type := Str("style_grammar"), FromText := Str(from), ToText := Str(to),
                    Scope := Str("local"), RawComment := Str(comment), StyleDescription := Str(description)],
                MakeStyleIntent(from, to, comment, description));
  }

  lemma ValidatesTo(m: IntentDict, r: Intent)
    requires r.kind == KindOf(Pick(m, Type)) && r.fromText == Pick(m, FromText)
    requires r.toText == Pick(m, ToText) && r.scope == Pick(m, Scope)
    requires r.rawComment == Pick(m, RawComment)
    requires r.aiInterpretation == Pick(m, AiInterpretation)
    requires r.styleDescription == Pick(m, StyleDescription)
    ensures ValidateIntentStructure(m) == r
  {
  }

  // ---------------------------------------------------------------------
  // Phrases: regular expressions made of literals and `\s+`

  datatype Tok = Lit(w: string) | Sp

  type Phrase = seq<Tok>

  /** `ps` matches a prefix of `s`; `Sp` is one or more whitespace characters. */
  function MatchAt(s: string, ps: Phrase): bool
    decreases |s| + |ps|
  {
    if ps == [] then true
    else match ps[0]
      case Lit(w) => StartsWith(s, w) && MatchAt(s[|w|..], ps[1..])
      case Sp => s != [] && IsSpace(s[0]) && (MatchAt(s[1..], ps[1..]) || MatchAt(s[1..], ps))
  }

  /** `re.search`: `ps` matches somewhere in `s`. */
  function Search(s: string, ps: Phrase): bool
    decreases |s|
  {
    MatchAt(s, ps) || (s != [] && Search(s[1..], ps))
  }

  predicate SearchAny(s: string, alts: seq<Phrase>)
  {
    exists i :: 0 <= i < |alts| && Search(s, alts[i])
  }

  /** The text a phrase spells with single spaces. */
  function Spell(ps: Phrase): string
  {
    if ps == [] then "" else (match ps[0] case Lit(w) => w case Sp => " ") + Spell(ps[1..])
  }

  /** Every phrase matches its own spelling, wherever it occurs. */
  lemma {:induction false} SpellMatches(ps: Phrase, before: string, after: string)
    ensures Search(before + Spell(ps) + after, ps)
    decreases |before|
  {
    if before == [] {
      SpellMatchesAt(ps, after);
      assert before + Spell(ps) + after == Spell(ps) + after;
    } else {
      SpellMatches(ps, before[1..], after);
      assert (before + Spell(ps) + after)[1..] == before[1..] + Spell(ps) + after;
    }
  }

  lemma {:induction false} SpellMatchesAt(ps: Phrase, after: string)
    ensures MatchAt(Spell(ps) + after, ps)
    decreases ps
  {
    if ps != [] {
      var t := Spell(ps[1..]) + after;
      SpellMatchesAt(ps[1..], after);
      assert ps == [ps[0]] + ps[1..];
      match ps[0]
      case Lit(w) =>
        assert Spell(ps) + after == w + t;
        LitStep(w, t, ps[1..]);
      case Sp =>
        assert Spell(ps) + after == " " + t;
        SpStep(t, ps[1..]);
    }
  }

  lemma LitStep(w: string, t: string, rest: Phrase)
    requires MatchAt(t, rest)
    ensures MatchAt(w + t, [Lit(w)] + rest)
  {
    var s := w + t;
    assert s[..|w|] == w && s[|w|..] == t;
    assert ([Lit(w)] + rest)[1..] == rest;
  }

  lemma SpStep(t: string, rest: Phrase)
    requires MatchAt(t, rest)
    ensures MatchAt(" " + t, [Sp] + rest)
  {
    var s := " " + t;
    assert s[0] == ' ' && s[1..] == t;
    assert ([Sp] + rest)[1..] == rest;
  }

  /** A phrase that begins with a literal matches only where the literal
      occurs. */
  lemma {:induction false} SearchNeedsLiteral(s: string, w: string, ps: Phrase)
    requires Search(s, [Lit(w)] + ps)
    ensures Contains(s, w)
    decreases |s|
  {
    if MatchAt(s, [Lit(w)] + ps) {
      assert OccursAt(s, w, 0);
    } else {
      SearchNeedsLiteral(s[1..], w, ps);
      var k := Find(s[1..], w);
      OccursShift(s, w, k);
      ContainsAt(s, w, k + 1);
    }
  }

  // ---------------------------------------------------------------------
  // parse_style_comment

  datatype StyleRule = StyleRule(alternatives: seq<Phrase>, description: string)

  /** The style table, in order; optional groups and alternations are
      expanded into alternatives.  `simplify\s+` followed by optional groups
      matches exactly where `simplify` is followed by whitespace. */
  function StyleRules(): seq<StyleRule> {[
    StyleRule([[Lit("don't"), Sp, Lit("use"), Sp, Lit("contraction")],
               [Lit("dont"), Sp, Lit("use"), Sp, Lit("contraction")]], "Remove contractions from text"),
    StyleRule([[Lit("expand"), Sp, Lit("contraction")]], "Expand contractions to full forms"),
    StyleRule([[Lit("no"), Sp, Lit("contraction")]], "Remove contractions from text"),
    StyleRule([[Lit("make"), Sp, Lit("more"), Sp, Lit("formal")],
               [Lit("make"), Sp, Lit("this"), Sp, Lit("more"), Sp, Lit("formal")]], "Make text more formal"),
    StyleRule([[Lit("use"), Sp, Lit("formal"), Sp, Lit("language")]], "Use formal language"),
    StyleRule([[Lit("less"), Sp, Lit("casual")]], "Make text less casual"),
    StyleRule([[Lit("fix"), Sp, Lit("grammar")]], "Fix grammatical errors"),
    StyleRule([[Lit("correct"), Sp, Lit("grammar")]], "Correct grammatical errors"),
    StyleRule([[Lit("grammar"), Sp, Lit("error")], [Lit("grammar"), Sp, Lit("mistake")]], "Fix grammatical errors"),
    StyleRule([[Lit("improve"), Sp, Lit("writing")],
               [Lit("improve"), Sp, Lit("the"), Sp, Lit("writing")]], "Improve writing style"),
    StyleRule([[Lit("make"), Sp, Lit("clearer")],
               [Lit("make"), Sp, Lit("this"), Sp, Lit("clearer")]], "Make text clearer"),
    StyleRule([[Lit("simplify"), Sp]], "Simplify the language")
  ]}

  /** The index of the first style rule from `i` on that matches the
      lower-cased comment. */
  function FirstStyleRule(lc: string, i: nat): (r: Option<nat>)
    ensures r.Some? ==> i <= r.value < |StyleRules()| && SearchAny(lc, StyleRules()[r.value].alternatives)
    ensures forall j :: i <= j < |StyleRules()| && (r.None? || j < r.value) ==>
              !SearchAny(lc, StyleRules()[j].alternatives)
    decreases |StyleRules()| - i
  {
    if i >= |StyleRules()| then None
    else if SearchAny(lc, StyleRules()[i].alternatives) then Some(i)
    else FirstStyleRule(lc, i + 1)
  }

  /** `parse_style_comment` */
  function ParseStyleComment(comment: string, assoc: string): (r: Option<Intent>)
    ensures r.Some? <==> FirstStyleRule(Lower(comment), 0).Some?
    ensures r.Some? ==> r.value.kind == StyleGrammar
                        && r.value.scope == Str("local") && r.value.rawComment == Str(comment)
                        && r.value.styleDescription == Str(StyleRules()[FirstStyleRule(Lower(comment), 0).value].description)
  {
    match FirstStyleRule(Lower(comment), 0)
    case None => None
    case Some(i) =>
      var description := StyleRules()[i].description;
      if Contains(Lower(description), "contraction") && assoc != "" then
        var cs := Contractions.Contractions(assoc);
        if cs != [] then
          Some(MakeStyleIntent(Join(", ", cs), Join(", ", Contractions.ExpandAll(cs)), comment, description))
        else
          Some(MakeStyleIntent(assoc, "no_contractions_found", comment, description))
      else
        Some(MakeStyleIntent(if assoc != "" then assoc else "style_issue", "style_corrected", comment, description))
  }

  /** For a contraction rule on associated text, the intent lists the
      contractions found and their expansions, in the same order; without
      contractions it reports the associated text as already correct. */
  lemma ContractionStyleIntent(comment: string, assoc: string)
    requires FirstStyleRule(Lower(comment), 0).Some?
    requires Contains(Lower(StyleRules()[FirstStyleRule(Lower(comment), 0).value].description), "contraction")
    requires assoc != ""
    ensures var r := ParseStyleComment(comment, assoc).value;
            var cs := Contractions.Contractions(assoc);
            && (cs != [] ==> r.fromText == Str(Join(", ", cs))
                             && r.toText == Str(Join(", ", Contractions.ExpandAll(cs)))
                             && forall k :: 0 <= k < |cs| ==>
                                  Contractions.ExpandAll(cs)[k] == Contractions.ExpandContraction(cs[k]))
            && (cs == [] ==> r.fromText == Str(assoc) && r.toText == Str("no_contractions_found"))
  {
  }

  /** A character of a contained text occurs in the text. */
  lemma CharOfContained(s: string, w: string, j: nat)
    requires Contains(s, w) && j < |w|
    ensures w[j] in s
  {
    var k := Find(s, w);
    assert s[k..k + |w|][j] == s[k + j];
  }

  lemma ContainsMiddle(a: string, b: string, c: string)
    ensures Contains(a + b + c, b)
  {
    assert (a + b + c)[|a|..|a| + |b|] == b;
    ContainsAt(a + b + c, b, |a|);
  }

  /** A description lacking, in either case, one letter of "contraction"
      does not mention contractions. */
  lemma LacksLetter(description: string, j: nat)
    requires j < 11 && "contraction"[j] !in description && UpperChar("contraction"[j]) !in description
    ensures !Contains(Lower(description), "contraction")
  {
    LowerLacks(description, "contraction"[j]);
    if Contains(Lower(description), "contraction") {
      CharOfContained(Lower(description), "contraction", j);
    }
  }

  /** A description that spells "contraction" in lower case mentions it. */
  lemma MentionsContraction(before: string, after: string)
    ensures Contains(Lower(before + "contraction" + after), "contraction")
  {
    LowerAppend(before + "contraction", after);
    LowerAppend(before, "contraction");
    assert Lower("contraction") == "contraction";
    ContainsMiddle(Lower(before), "contraction", Lower(after));
  }

  lemma RemoveDescription()
    ensures StyleRules()[0].description == "Remove " + "contraction" + "s from text"
  {
  }

  lemma ExpandDescription()
    ensures StyleRules()[1].description == "Expand " + "contraction" + "s to full forms"
  {
  }

  lemma GrammarDescription()
    ensures StyleRules()[6].description == "Fix grammatical errors"
  {
  }

  lemma GrammarLetters()
    ensures 'n' !in "Fix grammatical errors" && 'N' !in "Fix grammatical errors"
  {
  }

  /** The first style rule removes contractions. */
  lemma RemoveContractionsRule()
    ensures Contains(Lower(StyleRules()[0].description), "contraction")
  {
    RemoveDescription();
    MentionsContraction("Remove ", "s from text");
  }

  /** The second style rule expands contractions. */
  lemma ExpandContractionsRule()
    ensures Contains(Lower(StyleRules()[1].description), "contraction")
  {
    ExpandDescription();
    MentionsContraction("Expand ", "s to full forms");
  }

  /** The third style rule shares the first one's description. */
  lemma NoContractionsRule()
    ensures StyleRules()[2].description == StyleRules()[0].description
  {
  }

  /** The grammar rules are not contraction rules. */
  lemma GrammarRuleNoContraction()
    ensures !Contains(Lower(StyleRules()[6].description), "contraction")
  {
    GrammarDescription();
    GrammarLetters();
    LacksLetter(StyleRules()[6].description, 2);
  }

  lemma GrammarErrorRule()
    ensures StyleRules()[8].description == StyleRules()[6].description
  {
  }

  // ---------------------------------------------------------------------
  // Capturing patterns

  /** The groups of an explicit replacement pattern; a second group may be
      optional in the pattern and so absent from a match. */
  datatype Groups = One(first: string) | Two(first: string, second: Option<string>)

  type GroupCapture = string -> Option<Groups>

  /** The source's capturing regular expressions, in table order
      (8 name patterns, 3 instruction patterns, and 6, 9, 3, 3, 2 explicit
      patterns per change type). */
  datatype Grammar = Grammar(
    namePatterns: seq<Capture>,
    shouldBeAtEnd: Capture,
    instructionPatterns: seq<Capture>,
    replaceGlobal: seq<GroupCapture>,
    replaceLocal: seq<GroupCapture>,
    delete: seq<GroupCapture>,
    add: seq<GroupCapture>,
    format: seq<GroupCapture>)

  // ---------------------------------------------------------------------
  // Anchored patterns, written out

  predicate IsQuote(c: char) { c == '"' || c == '\'' }

  /** `[?/→-]` */
  predicate IsArrowChar(c: char) { c == '?' || c == '/' || c == '\U{2192}' || c == '-' }

  /** Length of an optional leading quote. */
  function QuoteLen(s: string): nat
    ensures QuoteLen(s) <= |s|
  {
    if s != [] && IsQuote(s[0]) then 1 else 0
  }

  /** `$`: the end of the text, or just before a final newline. */
  predicate AtEnd(s: string) { s == [] || s == "\n" }

  /** `["']?$` */
  predicate QuoteAtEnd(s: string) { AtEnd(s) || (s != [] && IsQuote(s[0]) && AtEnd(s[1..])) }

  function NonQuoteRun(s: string): (w: string)
    ensures |w| <= |s| && w == s[..|w|]
    ensures forall i :: 0 <= i < |w| ==> !IsQuote(w[i])
    ensures |w| < |s| ==> IsQuote(s[|w|])
  {
    if s == [] || IsQuote(s[0]) then [] else [s[0]] + NonQuoteRun(s[1..])
  }

  function ArrowRun(s: string): (w: string)
    ensures |w| <= |s| && w == s[..|w|]
    ensures forall i :: 0 <= i < |w| ==> IsArrowChar(w[i])
  {
    if s == [] || !IsArrowChar(s[0]) then [] else [s[0]] + ArrowRun(s[1..])
  }

  /** `^["']?(\w+)["']?$` when `words`, else `^["']?([^"']+)["']?$`. */
  function Anchored(s: string, words: bool): (r: Option<string>)
    ensures r.Some? ==> r.value != [] && Contains(s, r.value)
  {
    var a := s[QuoteLen(s)..];
    var w := if words then WordRun(a) else NonQuoteRun(a);
    if w != [] && QuoteAtEnd(a[|w|..]) then
      assert s[QuoteLen(s)..QuoteLen(s) + |w|] == w;
      ContainsAt(s, w, QuoteLen(s));
      Some(w)
    else None
  }

  /** `^["']?(\w+)["']?\s*[?/→-]+\s*["']?(\w+)["']?$`.  Every quantifier
      in this pattern is followed by a character its class excludes, so the
      greedy scan below is the only way it matches. */
  function TwoTokens(s: string): (r: Option<(string, string)>)
    ensures r.Some? ==> AllWord(r.value.0) && AllWord(r.value.1)
  {
    var a := s[QuoteLen(s)..];
    var w1 := WordRun(a);
    var b := a[|w1|..];
    var c := LStrip(b[QuoteLen(b)..]);
    var arrows := ArrowRun(c);
    var d := LStrip(c[|arrows|..]);
    var e := d[QuoteLen(d)..];
    var w2 := WordRun(e);
    if w1 != [] && arrows != [] && w2 != [] && QuoteAtEnd(e[|w2|..]) then Some((w1, w2)) else None
  }

  /** The comments the two-word fallback is meant for are read back as
      their two words: `w1 → w2`, `w1? w2`, `"w1" / "w2"`. */
  lemma TwoTokensReads(w1: string, w2: string, arrows: string, q: string)
    requires AllWord(w1) && AllWord(w2) && arrows != [] && (forall i :: 0 <= i < |arrows| ==> IsArrowChar(arrows[i]))
    requires OptionalQuote(q)
    ensures TwoTokens(q + w1 + q + " " + arrows + " " + q + w2 + q) == Some((w1, w2))
  {
    TwoTokensNested(w1, w2, arrows, q);
    TwoTokensAssoc(w1, w2, arrows, q);
  }

  lemma TwoTokensAssoc(w1: string, w2: string, arrows: string, q: string)
    ensures q + w1 + q + " " + arrows + " " + q + w2 + q
         == q + (w1 + (q + (" " + (arrows + (" " + (q + (w2 + q)))))))
  {
  }

  lemma TwoTokensNested(w1: string, w2: string, arrows: string, q: string)
    requires AllWord(w1) && AllWord(w2) && arrows != [] && (forall i :: 0 <= i < |arrows| ==> IsArrowChar(arrows[i]))
    requires OptionalQuote(q)
    ensures TwoTokens(q + (w1 + (q + (" " + (arrows + (" " + (q + (w2 + q)))))))) == Some((w1, w2))
  {
    var t8 := w2 + q;
    var t7 := q + t8;
    var t6 := " " + t7;
    var t5 := arrows + t6;
    var t4 := " " + t5;
    var t3 := q + t4;
    TwoTokensBack(q, w2);
    TwoTokensFront(q, w1, arrows, t6);
    TwoTokensSteps(q + (w1 + t3), w1, t3, t4, t5, arrows, t6, t7, t8, w2, q);
  }

  /** The scan up to the second separator. */
  lemma TwoTokensFront(q: string, w1: string, arrows: string, t6: string)
    requires AllWord(w1) && arrows != [] && (forall i :: 0 <= i < |arrows| ==> IsArrowChar(arrows[i]))
    requires OptionalQuote(q)
    requires t6 != [] && t6[0] == ' '
    ensures var t5 := arrows + t6; var t4 := " " + t5; var t3 := q + t4;
            && (q + (w1 + t3))[QuoteLen(q + (w1 + t3))..] == w1 + t3 && WordRun(w1 + t3) == w1
            && t3[QuoteLen(t3)..] == t4 && LStrip(t4) == t5 && ArrowRun(t5) == arrows && t5[|arrows|..] == t6
  {
    var t3 := q + (" " + (arrows + t6));
    if q == [] {
      assert t3[0] == ' ';
    } else {
      assert t3[0] == q[0];
    }
    QuoteSkip(q, w1 + t3);
    WordRunOf(w1, t3);
    TwoTokensArrows(q, arrows, t6);
  }

  lemma TwoTokensArrows(q: string, arrows: string, t6: string)
    requires arrows != [] && (forall i :: 0 <= i < |arrows| ==> IsArrowChar(arrows[i]))
    requires OptionalQuote(q)
    requires t6 != [] && t6[0] == ' '
    ensures var t5 := arrows + t6; var t4 := " " + t5; var t3 := q + t4;
            && t3[QuoteLen(t3)..] == t4 && LStrip(t4) == t5 && ArrowRun(t5) == arrows && t5[|arrows|..] == t6
  {
    var t5 := arrows + t6;
    var t4 := " " + t5;
    QuoteSkip(q, t4);
    assert t5[0] == arrows[0];
    LStripOf(" ", t5);
    ArrowRunOf(arrows, t6);
  }

  /** The scan from the second separator on. */
  lemma TwoTokensBack(q: string, w2: string)
    requires AllWord(w2)
    requires OptionalQuote(q)
    ensures var t8 := w2 + q; var t7 := q + t8;
            && LStrip(" " + t7) == t7 && t7[QuoteLen(t7)..] == t8
            && WordRun(t8) == w2 && t8[|w2|..] == q && QuoteAtEnd(q)
  {
    TwoTokensLastWord(q, w2);
    TwoTokensLastQuote(q, w2);
  }

  lemma TwoTokensLastWord(q: string, w2: string)
    requires AllWord(w2)
    requires OptionalQuote(q)
    ensures WordRun(w2 + q) == w2 && (w2 + q)[|w2|..] == q && QuoteAtEnd(q)
  {
    QuoteNotWord(q);
    WordRunOf(w2, q);
  }

  lemma TwoTokensLastQuote(q: string, w2: string)
    requires AllWord(w2)
    requires OptionalQuote(q)
    ensures var t8 := w2 + q; var t7 := q + t8;
            && LStrip(" " + t7) == t7 && t7[QuoteLen(t7)..] == t8
  {
    var t8 := w2 + q;
    var t7 := q + t8;
    if q == [] {
      assert t7 == t8 && t8[0] == w2[0];
    } else {
      assert t7[0] == q[0];
    }
    LStripOf(" ", t7);
    QuoteSkip(q, t8);
  }

  lemma QuoteNotWord(q: string)
    requires OptionalQuote(q)
    ensures q == [] || !IsWordChar(q[0])
  {
  }

  /** `TwoTokens` as the sequence of scanning steps it performs. */
  lemma TwoTokensSteps(s: string, w1: string, t3: string, t4: string, t5: string, arrows: string,
                       t6: string, t7: string, t8: string, w2: string, q: string)
    requires s[QuoteLen(s)..] == w1 + t3 && WordRun(w1 + t3) == w1
    requires t3[QuoteLen(t3)..] == t4 && LStrip(t4) == t5 && ArrowRun(t5) == arrows
    requires t5[|arrows|..] == t6 && LStrip(t6) == t7 && t7[QuoteLen(t7)..] == t8
    requires WordRun(t8) == w2 && t8[|w2|..] == q
    requires w1 != [] && arrows != [] && w2 != [] && QuoteAtEnd(q)
    ensures TwoTokens(s) == Some((w1, w2))
  {
    assert (w1 + t3)[|w1|..] == t3;
  }

  /** Nothing, or one quote character. */
  predicate OptionalQuote(q: string) { |q| <= 1 && (q != [] ==> IsQuote(q[0])) }

  /** Skipping an optional quote. */
  lemma QuoteSkip(q: string, t: string)
    requires OptionalQuote(q)
    requires t == [] || !IsQuote(t[0])
    ensures (q + t)[QuoteLen(q + t)..] == t
  {
    if q == [] { assert q + t == t; }
  }

  lemma WordRunOf(w: string, rest: string)
    requires AllWord(w) && (rest == [] || !IsWordChar(rest[0]))
    ensures WordRun(w + rest) == w
  {
    var s := w + rest;
    forall i | 0 <= i < |w| ensures IsWordChar(s[i]) {
      assert s[i] == w[i];
    }
    if |w| < |s| {
      assert s[|w|] == rest[0];
    }
    WordRunAt(s, |w|);
    assert s[..|w|] == w;
  }

  lemma ArrowRunOf(w: string, rest: string)
    requires w != [] && (forall i :: 0 <= i < |w| ==> IsArrowChar(w[i])) && (rest == [] || !IsArrowChar(rest[0]))
    ensures ArrowRun(w + rest) == w
  {
    var s := w + rest;
    forall i | 0 <= i < |w| ensures IsArrowChar(s[i]) {
      assert s[i] == w[i];
    }
    if |w| < |s| {
      assert s[|w|] == rest[0];
    }
    ArrowRunAt(s, |w|);
    assert s[..|w|] == w;
  }

  /** `ArrowRun` stops at the first character that is not an arrow
      character. */
  lemma {:induction false} ArrowRunAt(s: string, k: nat)
    requires k <= |s| && (forall i :: 0 <= i < k ==> IsArrowChar(s[i])) && (k < |s| ==> !IsArrowChar(s[k]))
    ensures ArrowRun(s) == s[..k]
    decreases k
  {
    if k > 0 {
      var t := s[1..];
      forall i | 0 <= i < k - 1 ensures IsArrowChar(t[i]) {
        assert t[i] == s[i + 1];
      }
      if k - 1 < |t| {
        assert t[k - 1] == s[k];
      }
      ArrowRunAt(t, k - 1);
      assert s[..k] == [s[0]] + t[..k - 1];
    }
  }

  lemma LStripOf(spaces: string, rest: string)
    requires forall i :: 0 <= i < |spaces| ==> IsSpace(spaces[i])
    requires rest == [] || !IsSpace(rest[0])
    ensures LStrip(spaces + rest) == rest
  {
    var s := spaces + rest;
    forall i | 0 <= i < |spaces| ensures IsSpace(s[i]) {
      assert s[i] == spaces[i];
    }
    if |spaces| < |s| {
      assert s[|spaces|] == rest[0];
    }
    LStripAt(s, |spaces|);
    assert s[|spaces|..] == rest;
  }

  /** A lone word, quoted or not, is read back as that word. */
  lemma AnchoredWordReads(w: string, q1: string, q2: string)
    requires AllWord(w)
    requires OptionalQuote(q1)
    requires OptionalQuote(q2)
    ensures Anchored(q1 + w + q2, true) == Some(w)
  {
    var s := q1 + w + q2;
    assert s[QuoteLen(s)..] == w + q2;
    WordRunOf(w, q2);
    assert (w + q2)[|w|..] == q2;
  }

  // ---------------------------------------------------------------------
  // parse_context_aware_comment

  /** Commands that name their own scope; the context-aware parser leaves
      them to the explicit table. */
  const ScopeCommands: seq<Phrase> := [
    [Lit("change"), Sp, Lit("all"), Sp], [Lit("replace"), Sp, Lit("all"), Sp],
    [Lit("find"), Sp, Lit("and"), Sp, Lit("replace")],
    [Lit("everywhere")], [Lit("globally")], [Lit("throughout")]
  ]

  /** `parse_context_aware_comment`, with `assoc` already stripped. */
  function ParseContextAware(comment: string, assoc: string, g: Grammar): (r: Option<Intent>)
    ensures Contains(Lower(comment), Lower(assoc)) ==> r.None?
    ensures SearchAny(Lower(comment), ScopeCommands) ==> r.None?
    ensures r.Some? ==> r.value.fromText == Str(assoc) && r.value.styleDescription == Str("")
                        && r.value.rawComment == Str(comment) && Truthy(r.value.fromText) == (assoc != "")
                        && (r.value.kind == ReplaceGlobal || r.value.kind == ReplaceLocal)
                        && (r.value.scope == Str("global") <==> r.value.kind == ReplaceGlobal)
  {
    if Contains(Lower(comment), Lower(assoc)) then None
    else if SearchAny(Lower(comment), ScopeCommands) then None
    else
      var name := FirstCapture(g.namePatterns, comment, 0);
      if name.Some? then
        Some(MakeIntent(ReplaceGlobal, Str(assoc), Str(name.value), "global", comment))
      else if g.shouldBeAtEnd(comment).Some? then
        Some(MakeIntent(ReplaceLocal, Str(assoc), Str(g.shouldBeAtEnd(comment).value), "local", comment))
      else
        var instruction := FirstCapture(g.instructionPatterns, comment, 0);
        if instruction.Some? then
          Some(MakeIntent(ReplaceLocal, Str(assoc), Str(instruction.value), "local", comment))
        else
          var phrase := Anchored(Strip(comment), false);
          if phrase.Some? && |Split(Strip(comment))| <= 3 then
            Some(MakeIntent(ReplaceLocal, Str(assoc), Str(phrase.value), "local", comment))
          else None
  }

  // ---------------------------------------------------------------------
  // The explicit table and the fallbacks of parse_comment_intent

  /** The change types of the explicit table, in table order. */
  const ExplicitTypes: seq<Kind> := [ReplaceGlobal, ReplaceLocal, Delete, Add, Format]

  function Categories(g: Grammar): (cs: seq<seq<GroupCapture>>)
    ensures |cs| == |ExplicitTypes|
  {
    [g.replaceGlobal, g.replaceLocal, g.delete, g.add, g.format]
  }

  /** The first change type (from `k`) with a matching pattern, and the
      groups of its first matching pattern. */
  function FirstExplicit(g: Grammar, c: string, k: nat): (r: Option<(nat, Groups)>)
    ensures r.Some? ==> k <= r.value.0 < |ExplicitTypes| && FirstCapture(Categories(g)[r.value.0], c, 0) == Some(r.value.1)
    ensures forall j :: k <= j < |ExplicitTypes| && (r.None? || j < r.value.0) ==>
              FirstCapture(Categories(g)[j], c, 0).None?
    decreases |ExplicitTypes| - k
  {
    if k >= |ExplicitTypes| then None
    else
      var m := FirstCapture(Categories(g)[k], c, 0);
      if m.Some? then Some((k, m.value)) else FirstExplicit(g, c, k + 1)
  }

  function OrNull(s: string): Value
  {
    if s != "" then Str(s) else Null
  }

  function OrNullOpt(s: Option<string>): Value
  {
    if s.Some? then OrNull(s.value) else Null
  }

  /** The replacement the comment wording reverses: "should be X not Y",
      "use X instead of Y". */
  predicate Reversed(lc: string)
  {
    || (Contains(lc, "should be") && (Contains(lc, "not") || Contains(lc, "instead of")))
    || (Contains(lc, "use") && Contains(lc, "instead of"))
  }

  /** A global command about a character's name. */
  predicate NameChange(lc: string)
  {
    Contains(lc, "change") && (Contains(lc, "name") || Contains(lc, "character") || Contains(lc, "boy") || Contains(lc, "girl"))
  }

  /** The (from, to) values an explicit match of change type `k` yields. */
  function ExplicitValues(k: nat, groups: Groups, comment: string, assoc: string): (Value, Value)
  {
    var lc := Lower(comment);
    var assocOrNull := if assoc != "" then Str(Strip(assoc)) else Null;
    if k == 0 then
      if NameChange(lc) then
        match groups
        case One(g1) => (assocOrNull, Str(g1))
        case Two(g1, g2) =>
          (if g1 != "" then Str(g1) else assocOrNull, if OrNullOpt(g2).Str? then OrNullOpt(g2) else Str(g1))
      else
        (OrNull(groups.first), if groups.Two? then OrNullOpt(groups.second) else Null)
    else if k == 1 then
      match groups
      case One(g1) => if Contains(lc, "correct") then (Null, Str(g1)) else (OrNull(g1), Null)
      case Two(g1, g2) =>
        if Reversed(lc) then (OrNullOpt(g2), OrNull(g1)) else (OrNull(g1), OrNullOpt(g2))
    else
      (OrNull(groups.first), if groups.Two? then OrNullOpt(groups.second) else Null)
  }

  /** The explicit table, then the two-word and one-word fallbacks, then
      the generic intent. */
  function ExplicitOrFallback(comment: string, assoc: string, g: Grammar): (r: Intent)
    ensures r.rawComment == Str(comment) && r.styleDescription == Str("")
    ensures r.scope == Str("global") <==> r.kind == ReplaceGlobal
    ensures r.kind != StyleGrammar
  {
    match FirstExplicit(g, comment, 0)
    case Some((k, groups)) =>
      var kind := ExplicitTypes[k];
      var (from, to) := ExplicitValues(k, groups, comment, assoc);
      // the source tests whether "global" occurs in the type's name; see GlobalInName
      MakeIntent(kind, from, to, if kind == ReplaceGlobal then "global" else "local", comment)
    case None =>
      var stripped := Strip(comment);
      var pair := TwoTokens(stripped);
      if pair.Some? then
        MakeIntent(ReplaceLocal, Str(pair.value.0), Str(pair.value.1), "local", comment)
      else
        var word := Anchored(stripped, true);
        if word.Some? then
          MakeIntent(ReplaceLocal, Null, Str(word.value), "local", comment)
        else
          MakeIntent(Unknown, Null, Null, "manual_review", comment)
  }

  /** Of the explicit change types, only `replace_global` has "global"
      in its name. */
  lemma GlobalInName(k: nat)
    requires k < |ExplicitTypes|
    ensures Contains(KindValue(ExplicitTypes[k]).s, "global") <==> k == 0
  {
    var name := KindValue(ExplicitTypes[k]).s;
    if k == 0 {
      assert name == "replace_" + "global" + "";
      ContainsMiddle("replace_", "global", "");
    } else if Contains(name, "global") {
      CharOfContained(name, "global", 3);
    }
  }

  /** Whether the context-aware parser is consulted and what it yields. */
  function ContextIntent(comment: string, assoc: string, g: Grammar): Option<Intent>
  {
    if assoc != "" && Strip(assoc) != "" then ParseContextAware(comment, Strip(assoc), g) else None
  }

  /** `parse_comment_intent` */
  function ParseCommentIntent(comment: string, assoc: string, g: Grammar): (r: Intent)
    ensures r.rawComment == Str(comment) && r.styleDescription.Str?
    ensures r.scope == Str("global") <==> r.kind == ReplaceGlobal
    ensures r.kind == StyleGrammar <==> FirstStyleRule(Lower(comment), 0).Some?
  {
    var style := ParseStyleComment(comment, assoc);
    if style.Some? then style.value
    else
      var ctx := ContextIntent(comment, assoc, g);
      if ctx.Some? then ctx.value else ExplicitOrFallback(comment, assoc, g)
  }

  /** The context-aware patterns are not consulted when the associated text
      is blank, when the comment quotes it, or when the comment names its
      own scope: changing them changes nothing. */
  lemma ContextAwareSkipped(comment: string, assoc: string, g: Grammar, names: seq<Capture>, atEnd: Capture, instructions: seq<Capture>)
    requires || Strip(assoc) == ""
             || Contains(Lower(comment), Lower(Strip(assoc)))
             || SearchAny(Lower(comment), ScopeCommands)
    ensures ParseCommentIntent(comment, assoc, g)
         == ParseCommentIntent(comment, assoc, g.(namePatterns := names, shouldBeAtEnd := atEnd, instructionPatterns := instructions))
  {
    var g2 := g.(namePatterns := names, shouldBeAtEnd := atEnd, instructionPatterns := instructions);
    assert ContextIntent(comment, assoc, g).None? && ContextIntent(comment, assoc, g2).None?;
    assert Categories(g) == Categories(g2);
    ExplicitSame(comment, g, g2, 0);
  }

  lemma {:induction false} ExplicitSame(c: string, g: Grammar, g2: Grammar, k: nat)
    requires Categories(g) == Categories(g2)
    ensures FirstExplicit(g, c, k) == FirstExplicit(g2, c, k)
    decreases |ExplicitTypes| - k
  {
    if k < |ExplicitTypes| {
      ExplicitSame(c, g, g2, k + 1);
    }
  }

  /** A name instruction on associated text renames that text everywhere. */
  lemma NameInstructionIsGlobal(comment: string, assoc: string, g: Grammar)
    requires FirstStyleRule(Lower(comment), 0).None?
    requires Strip(assoc) != "" && !Contains(Lower(comment), Lower(Strip(assoc)))
    requires !SearchAny(Lower(comment), ScopeCommands)
    requires FirstCapture(g.namePatterns, comment, 0).Some?
    ensures var r := ParseCommentIntent(comment, assoc, g);
            && r.kind == ReplaceGlobal && r.scope == Str("global")
            && r.fromText == Str(Strip(assoc))
            && r.toText == Str(FirstCapture(g.namePatterns, comment, 0).value)
  {
  }

  /** A short comment on associated text that no pattern recognises is
      read as the replacement of that text, here only. */
  lemma ShortCommentReplacesAssociated(comment: string, assoc: string, g: Grammar)
    requires FirstStyleRule(Lower(comment), 0).None?
    requires Strip(assoc) != "" && !Contains(Lower(comment), Lower(Strip(assoc)))
    requires !SearchAny(Lower(comment), ScopeCommands)
    requires FirstCapture(g.namePatterns, comment, 0).None? && g.shouldBeAtEnd(comment).None?
    requires FirstCapture(g.instructionPatterns, comment, 0).None?
    requires Anchored(Strip(comment), false).Some? && |Split(Strip(comment))| <= 3
    ensures var r := ParseCommentIntent(comment, assoc, g);
            && r.kind == ReplaceLocal && r.scope == Str("local")
            && r.fromText == Str(Strip(assoc))
            && r.toText == Str(Anchored(Strip(comment), false).value)
  {
    assert assoc != "";
    assert ParseStyleComment(comment, assoc).None?;
    var ctx := ParseContextAware(comment, Strip(assoc), g);
    assert ctx == Some(MakeIntent(ReplaceLocal, Str(Strip(assoc)), Str(Anchored(Strip(comment), false).value), "local", comment));
  }

  /** The generic intent is produced exactly when nothing is recognised. */
  lemma UnknownIntent(comment: string, assoc: string, g: Grammar)
    ensures var r := ParseCommentIntent(comment, assoc, g);
            r.kind == Unknown <==>
              && FirstStyleRule(Lower(comment), 0).None?
              && ContextIntent(comment, assoc, g).None?
              && FirstExplicit(g, comment, 0).None?
              && TwoTokens(Strip(comment)).None?
              && Anchored(Strip(comment), true).None?
    ensures var r := ParseCommentIntent(comment, assoc, g);
            r.kind == Unknown ==>
              r.fromText == Null && r.toText == Null && r.scope == Str("manual_review")
  {
    if ParseStyleComment(comment, assoc).None? && ContextIntent(comment, assoc, g).None? {
      FallbackUnknown(comment, assoc, g);
    }
  }

  /** The explicit patterns and the fallbacks give the generic intent
      exactly when none of them applies. */
  lemma FallbackUnknown(comment: string, assoc: string, g: Grammar)
    ensures var r := ExplicitOrFallback(comment, assoc, g);
            r.kind == Unknown <==>
              && FirstExplicit(g, comment, 0).None?
              && TwoTokens(Strip(comment)).None?
              && Anchored(Strip(comment), true).None?
    ensures var r := ExplicitOrFallback(comment, assoc, g);
            r.kind == Unknown ==>
              r.fromText == Null && r.toText == Null && r.scope == Str("manual_review")
  {
    match FirstExplicit(g, comment, 0)
    case Some((k, groups)) =>
      assert ExplicitTypes[k] != Unknown;
    case None =>
  }

  /** A two-word comment with an arrow between the words reads as a local
      replacement of the first word by the second. */
  lemma TwoWordFallback(comment: string, assoc: string, g: Grammar)
    requires FirstStyleRule(Lower(comment), 0).None? && ContextIntent(comment, assoc, g).None?
    requires FirstExplicit(g, comment, 0).None?
    requires TwoTokens(Strip(comment)).Some?
    ensures var r := ParseCommentIntent(comment, assoc, g);
            var (w1, w2) := TwoTokens(Strip(comment)).value;
            && r.kind == ReplaceLocal && r.scope == Str("local")
            && r.fromText == Str(w1) && r.toText == Str(w2)
  {
  }

  /** A lone word is read as a replacement target whose source is unknown. */
  lemma SingleWordFallback(comment: string, assoc: string, g: Grammar)
    requires FirstStyleRule(Lower(comment), 0).None? && ContextIntent(comment, assoc, g).None?
    requires FirstExplicit(g, comment, 0).None?
    requires TwoTokens(Strip(comment)).None? && Anchored(Strip(comment), true).Some?
    ensures var r := ParseCommentIntent(comment, assoc, g);
            && r.kind == ReplaceLocal && r.scope == Str("local")
            && r.fromText == Null && r.toText == Str(Anchored(Strip(comment), true).value)
  {
  }

  /** When neither a style rule nor a context-aware pattern applies, the
      first matching explicit category decides the intent: its type, its
      values and its scope. */
  lemma ExplicitPath(comment: string, assoc: string, g: Grammar, k: nat, gs: Groups)
    requires FirstStyleRule(Lower(comment), 0).None?
    requires ContextIntent(comment, assoc, g).None?
    requires FirstExplicit(g, comment, 0) == Some((k, gs))
    ensures k < |ExplicitTypes|
    ensures var r := ParseCommentIntent(comment, assoc, g);
            && r.kind == ExplicitTypes[k]
            && (r.fromText, r.toText) == ExplicitValues(k, gs, comment, assoc)
            && r.scope == Str(if k == 0 then "global" else "local")
  {
    ExplicitDefers(comment, assoc, g);
    ExplicitChosen(comment, assoc, g, k, gs);
  }

  lemma ExplicitDefers(comment: string, assoc: string, g: Grammar)
    requires FirstStyleRule(Lower(comment), 0).None?
    requires ContextIntent(comment, assoc, g).None?
    ensures ParseCommentIntent(comment, assoc, g) == ExplicitOrFallback(comment, assoc, g)
  {
    assert ParseStyleComment(comment, assoc).None?;
  }

  lemma ExplicitChosen(comment: string, assoc: string, g: Grammar, k: nat, gs: Groups)
    requires FirstExplicit(g, comment, 0) == Some((k, gs))
    ensures k < |ExplicitTypes|
    ensures var r := ExplicitOrFallback(comment, assoc, g);
            && r.kind == ExplicitTypes[k]
            && (r.fromText, r.toText) == ExplicitValues(k, gs, comment, assoc)
            && r.scope == Str(if k == 0 then "global" else "local")
  {
  }

  /** Reversed wording swaps the two groups of a local replacement:
      "should be reel not real" replaces "real" by "reel". */
  lemma ReversedLocalReplacement(comment: string, assoc: string, g: Grammar, g1: string, g2: string)
    requires FirstStyleRule(Lower(comment), 0).None?
    requires ContextIntent(comment, assoc, g).None?
    requires FirstExplicit(g, comment, 0) == Some((1, Two(g1, Some(g2))))
    requires g1 != "" && g2 != ""
    ensures var r := ParseCommentIntent(comment, assoc, g);
            && r.kind == ReplaceLocal
            && (Reversed(Lower(comment)) ==> r.fromText == Str(g2) && r.toText == Str(g1))
            && (!Reversed(Lower(comment)) ==> r.fromText == Str(g1) && r.toText == Str(g2))
  {
    ExplicitPath(comment, assoc, g, 1, Two(g1, Some(g2)));
    ReversedValues(comment, assoc, g1, g2);
  }

  lemma ReversedValues(comment: string, assoc: string, g1: string, g2: string)
    requires g1 != "" && g2 != ""
    ensures ExplicitValues(1, Two(g1, Some(g2)), comment, assoc) ==
            if Reversed(Lower(comment)) then (Str(g2), Str(g1)) else (Str(g1), Str(g2))
  {
  }

  /** A local pattern with one group ("correct spelling: receive") gives
      the target when the comment says "correct", else the source. */
  lemma OneGroupLocalReplacement(comment: string, assoc: string, g: Grammar, g1: string)
    requires FirstStyleRule(Lower(comment), 0).None?
    requires ContextIntent(comment, assoc, g).None?
    requires FirstExplicit(g, comment, 0) == Some((1, One(g1)))
    requires g1 != ""
    ensures var r := ParseCommentIntent(comment, assoc, g);
            && r.kind == ReplaceLocal
            && (Contains(Lower(comment), "correct") ==> r.fromText == Null && r.toText == Str(g1))
            && (!Contains(Lower(comment), "correct") ==> r.fromText == Str(g1) && r.toText == Null)
  {
    ExplicitPath(comment, assoc, g, 1, One(g1));
  }

  /** A global name change with one group takes its source from the
      associated text; with two groups it falls back to it. */
  lemma NameChangeUsesAssociated(comment: string, assoc: string, g: Grammar, gs: Groups)
    requires FirstStyleRule(Lower(comment), 0).None?
    requires ContextIntent(comment, assoc, g).None?
    requires FirstExplicit(g, comment, 0) == Some((0, gs))
    requires NameChange(Lower(comment))
    ensures var r := ParseCommentIntent(comment, assoc, g);
            && r.kind == ReplaceGlobal && r.scope == Str("global")
            && (gs.One? ==> r.fromText == (if assoc != "" then Str(Strip(assoc)) else Null) && r.toText == Str(gs.first))
            && (gs.Two? && gs.first == "" ==> r.fromText == (if assoc != "" then Str(Strip(assoc)) else Null))
            && (gs.Two? && OrNullOpt(gs.second).Null? ==> r.toText == Str(gs.first))
  {
    ExplicitPath(comment, assoc, g, 0, gs);
  }
}
