/**
 * Contraction detection and expansion (`find_contractions`,
 * `expand_contraction`).
 *
 * Both detection patterns, `\b\w+'\w+\b` and the closed alternation of
 * standard contractions (matched case-insensitively, each alternative being
 * a word, an apostrophe and a word), match at a word start exactly when a
 * maximal word run is followed by an apostrophe and another maximal word
 * run; `re.findall` then resumes after the match.  `Joined` is that scan.
 */
module Contractions {
  import opened PyText

  /** A word, one apostrophe, a word. */
  ghost predicate ApostropheJoined(m: string)
  {
    exists i :: 0 < i < |m| - 1 && m[i] == '\'' && AllWord(m[..i]) && AllWord(m[i + 1..])
  }

  /** The contractions named in the second detection pattern, lower-cased
      (the pattern is matched case-insensitively). */
  const ClosedList: set<string> := {
    "can't", "won't", "shouldn't", "couldn't", "wouldn't", "isn't", "aren't", "wasn't",
    "weren't", "don't", "doesn't", "didn't", "haven't", "hasn't", "hadn't", "i'm",
    "you're", "he's", "she's", "it's", "we're", "they're", "i'll", "you'll", "he'll",
    "she'll", "it'll", "we'll", "they'll", "i'd", "you'd", "he'd", "she'd", "it'd",
    "we'd", "they'd", "i've", "you've", "we've", "they've"
  }

  /** `re.findall` of one detection pattern over `s`.  `prevWord` says
      whether the character before `s` is a word character (so no `\b`
      holds at the start of `s`); `closedOnly` selects the closed list. */
  function Joined(s: string, prevWord: bool, closedOnly: bool): seq<string>
    decreases |s|
  {
    if s == [] then []
    else if !IsWordChar(s[0]) || prevWord then Joined(s[1..], IsWordChar(s[0]), closedOnly)
    else
      var w1 := WordRun(s);
      var rest := s[|w1|..];
      if |rest| >= 2 && rest[0] == '\'' && IsWordChar(rest[1]) then
        var m := w1 + "'" + WordRun(rest[1..]);
        if !closedOnly || Lower(m) in ClosedList then [m] + Joined(s[|m|..], true, closedOnly)
        else Joined(s[1..], true, closedOnly)
      else Joined(s[1..], true, closedOnly)
  }

  /** Every match is a word, an apostrophe and a word, found in `s`. */
  lemma {:induction false} JoinedSound(s: string, prevWord: bool, closedOnly: bool)
    ensures forall k :: 0 <= k < |Joined(s, prevWord, closedOnly)| ==>
              ApostropheJoined(Joined(s, prevWord, closedOnly)[k]) && Contains(s, Joined(s, prevWord, closedOnly)[k])
    decreases |s|
  {
    if s == [] {
    } else if !IsWordChar(s[0]) || prevWord {
      JoinedSound(s[1..], IsWordChar(s[0]), closedOnly);
      SuffixMatches(s, Joined(s[1..], IsWordChar(s[0]), closedOnly));
    } else {
      var w1 := WordRun(s);
      var rest := s[|w1|..];
      if |rest| >= 2 && rest[0] == '\'' && IsWordChar(rest[1]) {
        var w2 := WordRun(rest[1..]);
        var m := w1 + "'" + w2;
        if !closedOnly || Lower(m) in ClosedList {
          var r := Joined(s[|m|..], true, closedOnly);
          assert Joined(s, prevWord, closedOnly) == [m] + r;
          JoinedSound(s[|m|..], true, closedOnly);
          Decompose(s);
          HeadMatch(m, s[|m|..], w1, w2, r);
        } else {
          JoinedSound(s[1..], true, closedOnly);
          SuffixMatches(s, Joined(s[1..], true, closedOnly));
        }
      } else {
        JoinedSound(s[1..], true, closedOnly);
        SuffixMatches(s, Joined(s[1..], true, closedOnly));
      }
    }
  }

  /** Every match of the closed pattern is in the closed list. */
  lemma {:induction false} JoinedClosed(s: string, prevWord: bool)
    ensures forall k :: 0 <= k < |Joined(s, prevWord, true)| ==> Lower(Joined(s, prevWord, true)[k]) in ClosedList
    decreases |s|
  {
    if s == [] {
    } else if !IsWordChar(s[0]) || prevWord {
      JoinedClosed(s[1..], IsWordChar(s[0]));
    } else {
      var w1 := WordRun(s);
      var rest := s[|w1|..];
      if |rest| >= 2 && rest[0] == '\'' && IsWordChar(rest[1]) {
        var m := w1 + "'" + WordRun(rest[1..]);
        if Lower(m) in ClosedList {
          JoinedClosed(s[|m|..], true);
        } else {
          JoinedClosed(s[1..], true);
        }
      } else {
        JoinedClosed(s[1..], true);
      }
    }
  }

  /** A text that starts with a word run, an apostrophe and a word
      character is that match followed by the rest. */
  lemma Decompose(s: string)
    requires s != [] && IsWordChar(s[0])
    requires var rest := s[|WordRun(s)|..]; |rest| >= 2 && rest[0] == '\'' && IsWordChar(rest[1])
    ensures var w1 := WordRun(s); var w2 := WordRun(s[|w1|..][1..]); var m := w1 + "'" + w2;
            && AllWord(w1) && AllWord(w2) && |m| <= |s| && s == m + s[|m|..]
  {
    var w1 := WordRun(s);
    var rest := s[|w1|..];
    var w2 := WordRun(rest[1..]);
    PrefixJoin(s, w1, "'");
    assert rest[1..] == s[|w1 + "'"|..];
    PrefixJoin(s, w1 + "'", w2);
    PrefixSplit(s, w1 + "'" + w2);
  }

  /** Two adjacent prefixes of `s` make one. */
  lemma PrefixJoin(s: string, a: string, b: string)
    requires |a| <= |s| && s[..|a|] == a
    requires |b| <= |s| - |a| && s[|a|..][..|b|] == b
    ensures |a + b| <= |s| && s[..|a + b|] == a + b
  {
    forall i | 0 <= i < |a + b| ensures s[i] == (a + b)[i] {
      if i >= |a| {
        assert s[i] == s[|a|..][..|b|][i - |a|];
      }
    }
  }

  /** A prefix of `s` followed by the rest of `s` is `s`. */
  lemma PrefixSplit(s: string, a: string)
    requires |a| <= |s| && s[..|a|] == a
    ensures s == a + s[|a|..]
  {
  }

  /** A match at the start of `m + t`, followed by the matches of `t`. */
  lemma HeadMatch(m: string, t: string, w1: string, w2: string, r: seq<string>)
    requires AllWord(w1) && AllWord(w2) && m == w1 + "'" + w2
    requires forall k :: 0 <= k < |r| ==> Contains(t, r[k])
    ensures ApostropheJoined(m) && Contains(m + t, m)
    ensures forall k :: 0 <= k < |r| ==> Contains(m + t, r[k])
  {
    assert m[..|w1|] == w1 && m[|w1| + 1..] == w2 && m[|w1|] == '\'';
    assert (m + t)[0..|m|] == m && (m + t)[|m|..] == t;
    ContainsAt(m + t, m, 0);
    forall k | 0 <= k < |r| ensures Contains(m + t, r[k]) {
      ContainsInSuffix(m + t, |m|, r[k]);
    }
  }

  lemma ContainsInSuffix(s: string, k: nat, m: string)
    requires k <= |s| && Contains(s[k..], m)
    ensures Contains(s, m)
  {
    var i := Find(s[k..], m);
    assert s[k..][i..i + |m|] == s[k + i..k + i + |m|];
    ContainsAt(s, m, k + i);
  }

  lemma SuffixMatches(s: string, r: seq<string>)
    requires s != [] && forall k :: 0 <= k < |r| ==> Contains(s[1..], r[k])
    ensures forall k :: 0 <= k < |r| ==> Contains(s, r[k])
  {
    forall k | 0 <= k < |r| ensures Contains(s, r[k]) {
      ContainsInSuffix(s, 1, r[k]);
    }
  }

  /** Every match of both patterns, in pattern order. */
  function ContractionMatches(text: string): seq<string>
  {
    Joined(text, false, false) + Joined(text, false, true)
  }

  /** Removes repeated elements, keeping first occurrences. */
  function Dedupe(xs: seq<string>): (r: seq<string>)
    ensures forall i, j :: 0 <= i < j < |r| ==> r[i] != r[j]
    ensures forall x :: x in r <==> x in xs
  {
    if xs == [] then []
    else
      var d := Dedupe(xs[..|xs| - 1]);
      assert xs == xs[..|xs| - 1] + [xs[|xs| - 1]];
      if xs[|xs| - 1] in d then d else d + [xs[|xs| - 1]]
  }

  /** The contractions of `text`, each once.  Python returns
      `list(set(matches))`, whose order is unspecified; the model fixes the
      order of first occurrence. */
  function Contractions(text: string): seq<string>
  {
    Dedupe(ContractionMatches(text))
  }

  /** `find_contractions`: runs both patterns, extending one list, then
      removes duplicates. */
  method FindContractions(text: string) returns (found: seq<string>)
    ensures found == Contractions(text)
  {
    var matches: seq<string> := [];
    for p := 0 to 2
      invariant matches == (if p == 0 then [] else if p == 1 then Joined(text, false, false)
                            else ContractionMatches(text))
    {
      matches := matches + Joined(text, false, p == 1);
    }
    found := [];
    for i := 0 to |matches|
      invariant found == Dedupe(matches[..i])
    {
      DedupeStep(matches, i);
      if matches[i] !in found {
        found := found + [matches[i]];
      }
    }
    assert matches[..|matches|] == matches;
  }

  /** Deduplicating one more element keeps it exactly when it is new. */
  lemma DedupeStep(xs: seq<string>, i: nat)
    requires i < |xs|
    ensures Dedupe(xs[..i + 1]) == if xs[i] in Dedupe(xs[..i]) then Dedupe(xs[..i]) else Dedupe(xs[..i]) + [xs[i]]
  {
    assert xs[..i + 1][..i] == xs[..i];
  }

  lemma MatchesSound(text: string)
    ensures forall m :: m in ContractionMatches(text) ==> ApostropheJoined(m) && Contains(text, m)
  {
    var a, b := Joined(text, false, false), Joined(text, false, true);
    JoinedSound(text, false, false);
    JoinedSound(text, false, true);
    forall m | m in a + b ensures ApostropheJoined(m) && Contains(text, m) {
      if m in a {
        var k :| 0 <= k < |a| && a[k] == m;
      } else {
        var k :| 0 <= k < |b| && b[k] == m;
      }
    }
  }

  /** Every reported contraction is an apostrophe-joined pair of words of
      the text, reported once; and every match of either pattern is reported. */
  lemma ContractionsSound(text: string)
    ensures forall i, j :: 0 <= i < j < |Contractions(text)| ==> Contractions(text)[i] != Contractions(text)[j]
    ensures forall m :: m in Contractions(text) ==> ApostropheJoined(m) && Contains(text, m)
    ensures forall m :: m in Joined(text, false, false) ==> m in Contractions(text)
    ensures forall m :: m in Joined(text, false, true) ==> m in Contractions(text)
  {
    MatchesSound(text);
  }

  lemma ApostropheIn(text: string, m: string)
    requires ApostropheJoined(m) && Contains(text, m)
    ensures exists i :: 0 <= i < |text| && text[i] == '\''
  {
    var i :| 0 < i < |m| - 1 && m[i] == '\'' && AllWord(m[..i]) && AllWord(m[i + 1..]);
    var p := Find(text, m);
    assert text[p..p + |m|][i] == text[p + i];
  }

  /** A text without an apostrophe has no contractions. */
  lemma NoApostropheNoContractions(text: string)
    requires forall i :: 0 <= i < |text| ==> text[i] != '\''
    ensures Contractions(text) == []
  {
    ContractionsSound(text);
    if Contractions(text) != [] {
      ApostropheIn(text, Contractions(text)[0]);
    }
  }

  /** The expansion table, with the source's keys; lookups use the
      lower-cased token, so the four keys spelled with a capital I are
      unreachable. */
  const Expansions: map<string, string> := map[
    "can't" := "cannot", "won't" := "will not", "shouldn't" := "should not",
    "couldn't" := "could not", "wouldn't" := "would not", "isn't" := "is not",
    "aren't" := "are not", "wasn't" := "was not", "weren't" := "were not",
    "don't" := "do not", "doesn't" := "does not", "didn't" := "did not",
    "haven't" := "have not", "hasn't" := "has not", "hadn't" := "had not",
    "I'm" := "I am", "you're" := "you are", "he's" := "he is", "she's" := "she is",
    "it's" := "it is", "we're" := "we are", "they're" := "they are",
    "I'll" := "I will", "you'll" := "you will", "he'll" := "he will",
    "she'll" := "she will", "it'll" := "it will", "we'll" := "we will",
    "they'll" := "they will", "I'd" := "I would", "you'd" := "you would",
    "he'd" := "he would", "she'd" := "she would", "it'd" := "it would",
    "we'd" := "we would", "they'd" := "they would", "I've" := "I have",
    "you've" := "you have", "we've" := "we have", "they've" := "they have",
    "storm's" := "storm has"
  ]

  /** `expand_contraction` */
  function ExpandContraction(c: string): string
  {
    var lc := Lower(c);
    if lc in Expansions then
      (if c != [] && IsUpper(c[0]) then Capitalize(Expansions[lc]) else Expansions[lc])
    else if EndsWith(lc, "'s") then c[..|c| - 2] + " has"
    else c
  }

  /** The expansions of a list of contractions, index by index. */
  function ExpandAll(cs: seq<string>): (es: seq<string>)
    ensures |es| == |cs|
  {
    seq(|cs|, i requires 0 <= i < |cs| => ExpandContraction(cs[i]))
  }

  /** A table key written in lower case expands to its entry, and the same
      key with an upper-case first letter expands to the capitalized entry. */
  lemma ExpandTableEntry(k: string)
    requires k in Expansions && Lower(k) == k && k != [] && 'a' <= k[0] <= 'z'
    ensures ExpandContraction(k) == Expansions[k]
    ensures ExpandContraction([UpperChar(k[0])] + k[1..]) == Capitalize(Expansions[k])
  {
    LowerCapitalized(k);
  }

  /** Capitalizing a lower-case word and lower-casing it again gives the
      word back. */
  lemma LowerCapitalized(k: string)
    requires Lower(k) == k && k != [] && 'a' <= k[0] <= 'z'
    ensures Lower([UpperChar(k[0])] + k[1..]) == k
  {
    var u := [UpperChar(k[0])] + k[1..];
    forall i | 0 <= i < |k| ensures Lower(u)[i] == k[i] {
      if i > 0 {
        assert u[i] == k[i];
        assert Lower(k)[i] == LowerChar(k[i]);
      }
    }
  }

  /** An unknown token ending in 's expands to "<base> has"; any other
      unknown token is returned unchanged. */
  lemma ExpandUnknown(c: string)
    requires Lower(c) !in Expansions
    ensures EndsWith(Lower(c), "'s") ==> ExpandContraction(c) == c[..|c| - 2] + " has"
    ensures !EndsWith(Lower(c), "'s") ==> ExpandContraction(c) == c
  {
  }

  /** Tokens that lower-case to "i'm", "i'll", "i'd" or "i've" are never
      expanded, although the table spells them with a capital I. */
  lemma CapitalIKeysNeverMatch(c: string)
    requires Lower(c) in {"i'm", "i'll", "i'd", "i've"}
    ensures ExpandContraction(c) == c
  {
    var lc := Lower(c);
    if lc == "i'm" {
      ImNotKey();
    } else if lc == "i'll" {
      IllNotKey();
    } else if lc == "i'd" {
      IdNotKey();
    } else {
      IveNotKey();
    }
    assert |lc| >= 2 && lc[|lc| - 2..] != "'s";
  }

  lemma ImNotKey() ensures "i'm" !in Expansions { }
  lemma IllNotKey() ensures "i'll" !in Expansions { }
  lemma IdNotKey() ensures "i'd" !in Expansions { }
  lemma IveNotKey() ensures "i've" !in Expansions { }

  /** The expansion the analyzer's own status check expects. */
  lemma StormHas()
    ensures ExpandContraction("Storm's") == "Storm has"
  {
    assert Lower("Storm's") == "storm's";
    assert Lower("torm has") == "torm has";
  }
}
