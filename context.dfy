/**
 * The context locator (`extract_comment_context`, `trim_to_sentences`,
 * `find_corresponding_context`).
 *
 * A comment is placed in the original text (at its associated text when that
 * occurs there, else at its stored position); the original context is the
 * stripped ±100-character window around it, trimmed to sentence or word
 * boundaries.  The revised context is found by four strategies tried in
 * order, the first that yields a non-empty window winning: an anchor made of
 * the end of the 50 characters before the comment, sequences of three or two
 * words of the original context, single significant words, and finally the
 * proportional position in the revised text.
 */
module Context {
  import opened PyText

  // ---------------------------------------------------------------------
  // trim_to_sentences

  /** The sentence endings, tried in this order. */
  function SentenceEnding(k: nat): string
    requires k < 3
  {
    if k == 0 then ". " else if k == 1 then "! " else "? "
  }

  /** The first ending from `k` on whose last occurrence lies past the middle
      of `t` (`rfind(ending) > len(t) * 0.5`, in integers), giving the cut
      just after that ending's punctuation. */
  function SentenceCut(t: string, k: nat): (c: Option<nat>)
    ensures c.Some? ==> c.value < |t|
    decreases 3 - k
  {
    if k >= 3 then None
    else
      var idx := RFind(t, SentenceEnding(k));
      if 2 * idx > |t| then Some(idx + 1) else SentenceCut(t, k + 1)
  }

  /** Where `trim_to_sentences` cuts: a sentence cut, else (for texts over
      50 characters) the last space that leaves at least ten characters
      behind it, if it is not at the very start. */
  function TrimCut(t: string): (c: Option<nat>)
    ensures c.Some? ==> c.value < |t|
  {
    match SentenceCut(t, 0)
    case Some(c) => Some(c)
    case None =>
      if |t| > 50 then
        var space := RFind(t[..|t| - 10], " ");
        if space > 0 then Some(space) else None
      else None
  }

  /** `trim_to_sentences`: the text cut and stripped, or unchanged. */
  function TrimToSentences(t: string): string
  {
    match TrimCut(t)
    case Some(c) => Strip(t[..c])
    case None => t
  }

  /** A strip of a prefix is a substring and no longer than the text. */
  lemma StripPrefix(t: string, k: nat)
    requires k <= |t|
    ensures IsSubstring(Strip(t[..k]), t) && |Strip(t[..k])| <= |t|
  {
    StripIsSubstring(t[..k]);
    assert t[..k] == t[0..k];
    SubstringOfSlice(Strip(t[..k]), t, 0, k);
  }

  /** Trimming keeps the text, or cuts it short and strips what is left:
      never longer, and always a piece of the text. */
  lemma TrimCutsPrefix(t: string)
    ensures var r := TrimToSentences(t);
            && (r == t || exists c :: 0 <= c < |t| && r == Strip(t[..c]))
            && |r| <= |t| && IsSubstring(r, t)
  {
    match TrimCut(t)
    case Some(c) =>
      StripPrefix(t, c);
    case None =>
      SubstringRefl(t);
  }

  /** A text that is at most 50 characters long and has no sentence ending
      past its middle is kept as it is. */
  lemma ShortTextKept(t: string)
    requires |t| <= 50 && SentenceCut(t, 0).None?
    ensures TrimToSentences(t) == t
  {
  }

  // ---------------------------------------------------------------------
  // find_corresponding_context

  /** A window `rev[lo:hi]` of the revised text. */
  datatype Span = Span(lo: nat, hi: nat)

  /** The window's text is not blank once stripped. */
  predicate NonBlank(rev: string, sp: Span)
  {
    Strip(Slice(rev, sp.lo, sp.hi)) != ""
  }

  /** What a strategy returns for the window it found: the window stripped,
      then trimmed. */
  function Trimmed(rev: string, sp: Span): string
  {
    TrimToSentences(Strip(Slice(rev, sp.lo, sp.hi)))
  }

  /** The anchor lengths of strategy 1, longest first. */
  const AnchorLengths: seq<nat> := [30, 20, 15, 10]

  /** One try of strategy 1: the stripped last `AnchorLengths[k]`
      characters of the context before the comment, searched in the revised
      text; the window starts right after the anchor. */
  function AnchorAt(before: string, rev: string, window: nat, k: nat): (r: Option<Span>)
    requires k < |AnchorLengths|
    ensures r.Some? ==> NonBlank(rev, r.value) && r.value.hi == r.value.lo + window
  {
    var n := AnchorLengths[k];
    if |before| < n then None
    else
      var search := Strip(before[|before| - n..]);
      var m := Find(rev, search);
      if m == -1 then None
      else
        var sp := Span(m + |search|, m + |search| + window);
        if NonBlank(rev, sp) then Some(sp) else None
  }

  /** Strategy 1 from anchor length `k` on. */
  function AnchorStrategy(before: string, rev: string, window: nat, k: nat): (r: Option<Span>)
    ensures r.Some? ==> NonBlank(rev, r.value) && r.value.hi == r.value.lo + window
    decreases |AnchorLengths| - k
  {
    if k >= |AnchorLengths| then None
    else if AnchorAt(before, rev, window, k).Some? then AnchorAt(before, rev, window, k)
    else AnchorStrategy(before, rev, window, k + 1)
  }

  /** One try of strategy 2: the `n` words from word `i` on, joined by single
      spaces; the window runs from 50 characters before the match. */
  function SequenceAt(words: seq<string>, rev: string, window: nat, i: nat, n: nat): (r: Option<Span>)
    ensures r.Some? ==> NonBlank(rev, r.value) && r.value.lo <= r.value.hi <= r.value.lo + window + 50
  {
    if i + n > |words| then None
    else
      var m := Find(rev, Join(" ", words[i..i + n]));
      if m == -1 then None
      else
        var sp := Span(Max(0, m - 50), m + window);
        if NonBlank(rev, sp) then Some(sp) else None
  }

  /** Strategy 2 from start word `i` and sequence length `3 - j` on: three,
      then two consecutive words of the original context. */
  function SequenceStrategy(words: seq<string>, rev: string, window: nat, i: nat, j: nat): (r: Option<Span>)
    ensures r.Some? ==> NonBlank(rev, r.value) && r.value.lo <= r.value.hi <= r.value.lo + window + 50
    decreases |words| - i, 2 - j
  {
    if i + 1 >= |words| then None
    else if j >= 2 then SequenceStrategy(words, rev, window, i + 1, 0)
    else if SequenceAt(words, rev, window, i, 3 - j).Some? then SequenceAt(words, rev, window, i, 3 - j)
    else SequenceStrategy(words, rev, window, i, j + 1)
  }

  /** A word of more than three characters that is not a listed filler word. */
  predicate Significant(w: string)
  {
    |w| > 3 && Lower(w) !in {"the", "and", "was", "were", "that", "this", "with", "from"}
  }

  /** The significant words, in order. */
  function SignificantWords(ws: seq<string>): (r: seq<string>)
    ensures forall k :: 0 <= k < |r| ==> Significant(r[k]) && r[k] in ws
    ensures forall w :: w in ws && Significant(w) ==> w in r
  {
    if ws == [] then []
    else (if Significant(ws[0]) then [ws[0]] else []) + SignificantWords(ws[1..])
  }

  /** Filtering distributes over concatenation, so the significant words
      keep their order and their repetitions. */
  lemma {:induction false} SignificantAppend(a: seq<string>, b: seq<string>)
    ensures SignificantWords(a + b) == SignificantWords(a) + SignificantWords(b)
    decreases |a|
  {
    if a != [] {
      assert (a + b)[1..] == a[1..] + b;
      SignificantAppend(a[1..], b);
    } else {
      assert a + b == b;
    }
  }

  /** One word is kept exactly when it is significant. */
  lemma SignificantOne(w: string)
    ensures SignificantWords([w]) == (if Significant(w) then [w] else [])
  {
    assert [w][1..] == [];
  }

  /** One try of strategy 3: a significant word searched in the revised
      text; the window runs from 75 characters before the match. */
  function WordAt(w: string, rev: string, window: nat): (r: Option<Span>)
    ensures r.Some? ==> NonBlank(rev, r.value) && r.value.lo <= r.value.hi <= r.value.lo + window + 75
  {
    var m := Find(rev, w);
    if m == -1 then None
    else
      var sp := Span(Max(0, m - 75), m + window);
      if NonBlank(rev, sp) then Some(sp) else None
  }

  /** Strategy 3 from significant word `i` on. */
  function WordStrategy(sig: seq<string>, rev: string, window: nat, i: nat): (r: Option<Span>)
    ensures r.Some? ==> NonBlank(rev, r.value) && r.value.lo <= r.value.hi <= r.value.lo + window + 75
    decreases |sig| - i
  {
    if i >= |sig| then None
    else if WordAt(sig[i], rev, window).Some? then WordAt(sig[i], rev, window)
    else WordStrategy(sig, rev, window, i + 1)
  }

  /** `int(len(rev) * relative_position)` with `relative_position =
      len(before) / max(3 * (len(before) + len(original)), 1)`, in integers. */
  function ApproxPosition(before: string, original: string, rev: string): nat
  {
    var n := |rev| * |before|;
    var d := Max(3 * (|before| + |original|), 1);
    DivNat(n, d);
    n / d
  }

  lemma DivNat(n: int, d: int)
    requires n >= 0 && d > 0
    ensures n / d >= 0
  {
  }

  /** Strategy 4: the window of `window` characters centred on the
      proportional position, trimmed without being stripped first. */
  function PositionStrategy(before: string, original: string, rev: string, window: nat): string
  {
    var w := PositionWindow(before, original, rev, window);
    Centred(rev, w.lo, w.hi)
  }

  /** The window `window / 2` characters either side of the proportional
      position. */
  function PositionWindow(before: string, original: string, rev: string, window: nat): Span
  {
    var p := ApproxPosition(before, original, rev);
    var half := window / 2;
    Span(if p >= half then p - half else 0, p + half)
  }

  /** The slice `rev[lo:hi]`, trimmed. */
  function Centred(rev: string, lo: nat, hi: nat): string
  {
    TrimToSentences(Slice(rev, lo, hi))
  }

  /** The window of the first of strategies 1 to 3 that finds one. */
  function StrategyWindow(before: string, original: string, rev: string, window: nat): Option<Span>
  {
    var s1 := if |before| > 10 then AnchorStrategy(before, rev, window, 0) else None;
    if s1.Some? then s1
    else
      var words := Split(original);
      var s2 := if |words| >= 3 then SequenceStrategy(words, rev, window, 0, 0) else None;
      if s2.Some? then s2
      else WordStrategy(SignificantWords(words), rev, window, 0)
  }

  /** What `find_corresponding_context` returns. */
  function CorrespondingContext(before: string, original: string, rev: string, window: nat): string
  {
    match StrategyWindow(before, original, rev, window)
    case Some(sp) => Trimmed(rev, sp)
    case None => PositionStrategy(before, original, rev, window)
  }

  /** `find_corresponding_context`: the four strategies as the source's
      loops with early returns; the loop of each of the first three is a
      method of its own below. */
  method FindCorrespondingContext(before: string, original: string, rev: string, window: nat)
    returns (r: string)
    ensures r == CorrespondingContext(before, original, rev, window)
  {
    if |before| > 10 {
      var s1 := FindByAnchor(before, rev, window);
      if s1.Some? {
        return Trimmed(rev, s1.value);
      }
    }
    var words := Split(original);
    if |words| >= 3 {
      var s2 := FindBySequence(words, rev, window);
      if s2.Some? {
        return Trimmed(rev, s2.value);
      }
    }
    var s3 := FindByWord(SignificantWords(words), rev, window);
    if s3.Some? {
      return Trimmed(rev, s3.value);
    }
    assert StrategyWindow(before, original, rev, window).None?;
    r := PositionStrategy(before, original, rev, window);
  }

  /** Strategy 1's loop over the anchor lengths. */
  method FindByAnchor(before: string, rev: string, window: nat) returns (r: Option<Span>)
    ensures r == AnchorStrategy(before, rev, window, 0)
  {
    for k := 0 to |AnchorLengths|
      invariant AnchorStrategy(before, rev, window, 0) == AnchorStrategy(before, rev, window, k)
    {
      var found := AnchorAt(before, rev, window, k);
      if found.Some? {
        return found;
      }
    }
    return None;
  }

  lemma SequenceStep(words: seq<string>, rev: string, window: nat, i: nat, j: nat)
    requires i + 1 < |words| && j < 2
    ensures var t := SequenceAt(words, rev, window, i, 3 - j);
            SequenceStrategy(words, rev, window, i, j)
            == if t.Some? then t else SequenceStrategy(words, rev, window, i, j + 1)
  {
  }

  /** Strategy 2's nested loops over start words and sequence lengths. */
  method FindBySequence(words: seq<string>, rev: string, window: nat) returns (r: Option<Span>)
    requires |words| >= 3
    ensures r == SequenceStrategy(words, rev, window, 0, 0)
  {
    for i := 0 to |words| - 1
      invariant SequenceStrategy(words, rev, window, 0, 0) == SequenceStrategy(words, rev, window, i, 0)
    {
      for j := 0 to 2
        invariant SequenceStrategy(words, rev, window, 0, 0) == SequenceStrategy(words, rev, window, i, j)
      {
        var found := SequenceAt(words, rev, window, i, 3 - j);
        SequenceStep(words, rev, window, i, j);
        if found.Some? {
          return found;
        }
      }
    }
    return None;
  }

  /** Strategy 3's loop over the significant words. */
  method FindByWord(sig: seq<string>, rev: string, window: nat) returns (r: Option<Span>)
    ensures r == WordStrategy(sig, rev, window, 0)
  {
    for i := 0 to |sig|
      invariant WordStrategy(sig, rev, window, 0) == WordStrategy(sig, rev, window, i)
    {
      var found := WordAt(sig[i], rev, window);
      if found.Some? {
        return found;
      }
    }
    return None;
  }

  // ---------------------------------------------------------------------
  // extract_comment_context

  datatype CommentContext = CommentContext(original: string, revised: string, position: nat)

  const ContextWindow: nat := 100

  /** Where the comment is placed: the first occurrence of its stripped
      associated text, else the stored position. */
  function CommentPosition(assoc: string, stored: nat, orig: string): nat
  {
    var a := Strip(assoc);
    if a != "" && Find(orig, a) != -1 then Find(orig, a) else stored
  }

  /** `extract_comment_context` */
  function ExtractCommentContext(assoc: string, stored: nat, orig: string, rev: string): CommentContext
  {
    var p := CommentPosition(assoc, stored, orig);
    var original := TrimToSentences(Strip(Slice(orig, Max(0, p - ContextWindow), p + ContextWindow)));
    var before := Strip(Slice(orig, Max(0, p - 50), p));
    CommentContext(original, CorrespondingContext(before, original, rev, ContextWindow), p)
  }

  // ---------------------------------------------------------------------
  // Properties

  /** The position is the first occurrence of the associated text when it
      occurs, and the stored position otherwise. */
  lemma PositionOfAssociated(assoc: string, stored: nat, orig: string)
    ensures var a := Strip(assoc);
            var p := CommentPosition(assoc, stored, orig);
            && (a != "" && Contains(orig, a) ==>
                  OccursAt(orig, a, p) && forall i: nat :: i < p ==> !OccursAt(orig, a, i))
            && (a == "" || !Contains(orig, a) ==> p == stored)
  {
  }

  lemma SliceLength(s: string, a: nat, b: nat)
    requires a <= b
    ensures |Slice(s, a, b)| <= b - a && IsSubstring(Slice(s, a, b), s)
  {
    var hi := if b < |s| then b else |s|;
    var lo := if a < hi then a else hi;
    assert Slice(s, a, b) == s[lo..hi];
  }

  lemma StripSubstring(r: string, s: string)
    requires IsSubstring(r, s)
    ensures IsSubstring(Strip(r), s) && |Strip(r)| <= |r|
  {
    var i, j :| 0 <= i <= j <= |s| && r == s[i..j];
    StripIsSubstring(r);
    SubstringOfSlice(Strip(r), s, i, j);
  }

  lemma TrimSubstring(r: string, s: string)
    requires IsSubstring(r, s)
    ensures IsSubstring(TrimToSentences(r), s) && |TrimToSentences(r)| <= |r|
  {
    TrimCutsPrefix(r);
    var i, j :| 0 <= i <= j <= |s| && r == s[i..j];
    SubstringOfSlice(TrimToSentences(r), s, i, j);
  }

  /** The trimmed text of a window is a piece of the revised text no longer
      than the window. */
  lemma TrimmedWithin(rev: string, sp: Span)
    requires sp.lo <= sp.hi
    ensures IsSubstring(Trimmed(rev, sp), rev) && |Trimmed(rev, sp)| <= sp.hi - sp.lo
  {
    SliceLength(rev, sp.lo, sp.hi);
    StripSubstring(Slice(rev, sp.lo, sp.hi), rev);
    TrimSubstring(Strip(Slice(rev, sp.lo, sp.hi)), rev);
  }

  /** The proportional position lies in the first third of the revised text. */
  lemma ApproxInFirstThird(before: string, original: string, rev: string)
    ensures 3 * ApproxPosition(before, original, rev) <= |rev|
  {
    var d := Max(3 * (|before| + |original|), 1);
    var p := ApproxPosition(before, original, rev);
    if |before| > 0 {
      assert 3 * |before| <= d;
      assert p * d <= |rev| * |before|;
      assert 3 * p * |before| <= p * d;
    }
  }

  /** The window of the first three strategies is at most 75 characters
      wider than `window`, and its text is not blank. */
  lemma StrategyWindowWidth(before: string, original: string, rev: string, window: nat)
    ensures var w := StrategyWindow(before, original, rev, window);
            w.Some? ==> NonBlank(rev, w.value) && w.value.lo <= w.value.hi <= w.value.lo + window + 75
  {
  }

  /** Strategy 4 gives a piece of the revised text no longer than the
      window. */
  lemma PositionWithin(before: string, original: string, rev: string, window: nat)
    ensures var r := PositionStrategy(before, original, rev, window);
            IsSubstring(r, rev) && |r| <= window
  {
    var w := PositionWindow(before, original, rev, window);
    PositionWindowWidth(before, original, rev, window);
    CentredWithin(rev, w.lo, w.hi);
  }

  lemma PositionWindowWidth(before: string, original: string, rev: string, window: nat)
    ensures var w := PositionWindow(before, original, rev, window);
            w.lo <= w.hi <= w.lo + window
  {
  }

  /** The trimmed slice `rev[lo:hi]` is a piece of `rev` no longer than
      `hi - lo`. */
  lemma CentredWithin(rev: string, lo: nat, hi: nat)
    requires lo <= hi
    ensures IsSubstring(Centred(rev, lo, hi), rev) && |Centred(rev, lo, hi)| <= hi - lo
  {
    SliceLength(rev, lo, hi);
    TrimSubstring(Slice(rev, lo, hi), rev);
  }

  /** Whichever strategy answers, the revised context is a piece of the
      revised text, at most 75 characters longer than the window. */
  lemma RevisedContextWithin(before: string, original: string, rev: string, window: nat)
    ensures var r := CorrespondingContext(before, original, rev, window);
            IsSubstring(r, rev) && |r| <= window + 75
  {
    var w := StrategyWindow(before, original, rev, window);
    StrategyWindowWidth(before, original, rev, window);
    if w.Some? {
      TrimmedWithin(rev, w.value);
    } else {
      PositionWithin(before, original, rev, window);
    }
  }

  /** The original context is a piece of the ±100-character window around the
      comment position, so at most 200 characters long; the revised context
      is a piece of the revised text. */
  lemma ContextWithin(assoc: string, stored: nat, orig: string, rev: string)
    ensures var ctx := ExtractCommentContext(assoc, stored, orig, rev);
            var p := ctx.position;
            && IsSubstring(ctx.original, Slice(orig, Max(0, p - ContextWindow), p + ContextWindow))
            && IsSubstring(ctx.original, orig)
            && |ctx.original| <= 2 * ContextWindow
            && IsSubstring(ctx.revised, rev)
  {
    var p := CommentPosition(assoc, stored, orig);
    var w := Slice(orig, Max(0, p - ContextWindow), p + ContextWindow);
    SubstringRefl(w);
    StripSubstring(w, w);
    TrimSubstring(Strip(w), w);
    SliceLength(orig, Max(0, p - ContextWindow), p + ContextWindow);
    StripSubstring(w, orig);
    TrimSubstring(Strip(w), orig);
    var original := TrimToSentences(Strip(w));
    var before := Strip(Slice(orig, Max(0, p - 50), p));
    RevisedContextWithin(before, original, rev, ContextWindow);
  }
}
