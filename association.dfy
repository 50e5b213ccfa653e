/**
 * The inline-marker fallback for associated text (`find_associated_text_pattern`).
 *
 * When a document carries a comment as an inline `[COMMENT…]` marker rather
 * than as a Word comment range, the text the comment refers to is guessed
 * from at most 100 characters before the marker by an ordered cascade:
 * a "change X to Y" word that occurs in that window, a word run directly
 * before the marker, quoted text, the last sentence (or its last five words
 * when it has more than ten), the last three words, and finally the
 * placeholder "unknown text".
 *
 * The capturing regular expressions are oracles: each takes the text it is
 * searched in and gives its first group, or `None` when it does not match.
 */
module Association {
  import opened PyText

  /** The inline marker match: where it starts in the full text, the whole
      matched marker, and its comment text (the first group when the marker
      pattern has one). */
  datatype MarkerMatch = MarkerMatch(start: nat, whole: string, text: string)

  /** The patterns of the cascade.  `changeWord` is `change\s+(\w+)\s+to\s+(\w+)`
      searched case-insensitively in the comment text, giving its first group;
      `underlined` are the two "words directly before [COMMENT" patterns and
      `quoted` the two quotation patterns, searched in the window followed by
      the marker. */
  datatype Matchers = Matchers(changeWord: Capture, underlined: seq<Capture>, quoted: seq<Capture>)

  const WindowSize: nat := 100

  /** `full_text[max(0, start - 100):start]` */
  function Window(full: string, start: nat): (w: string)
    requires start <= |full|
    ensures |w| <= WindowSize && |w| <= start && w == full[start - |w|..start]
    ensures start >= WindowSize ==> |w| == WindowSize
    ensures start < WindowSize ==> w == full[..start]
  {
    full[Max(0, start - WindowSize)..start]
  }

  /** The first pattern from `i` on whose group is longer than two
      characters; a pattern that matches with a shorter group is passed over. */
  function FirstLong(ps: seq<Capture>, c: string, i: nat): (r: Option<string>)
    ensures r.Some? ==> |r.value| > 2
    ensures r.Some? ==> exists j :: i <= j < |ps| && ps[j](c) == r &&
                          forall k :: i <= k < j ==> ps[k](c).None? || |ps[k](c).value| <= 2
    ensures r.None? ==> forall j :: i <= j < |ps| ==> ps[j](c).None? || |ps[j](c).value| <= 2
    decreases |ps| - i
  {
    if i >= |ps| then None
    else if ps[i](c).Some? && |ps[i](c).value| > 2 then ps[i](c)
    else FirstLong(ps, c, i + 1)
  }

  predicate IsTerminator(c: char) { c == '.' || c == '!' || c == '?' }

  /** The last piece of `re.split(r'[.!?]', s)`: the text after the last
      sentence terminator, or all of `s` when it has none. */
  function LastPiece(s: string): (r: string)
    ensures |r| <= |s| && r == s[|s| - |r|..]
    ensures forall i :: 0 <= i < |r| ==> !IsTerminator(r[i])
    ensures |r| < |s| ==> IsTerminator(s[|s| - |r| - 1])
    decreases |s|
  {
    if s == [] || IsTerminator(s[|s| - 1]) then []
    else LastPiece(s[..|s| - 1]) + [s[|s| - 1]]
  }

  /** The change word, when the comment mentions both "change" and "to" and
      the change pattern captures a word that occurs (case-insensitively) in
      the window. */
  function ChangeTarget(m: Matchers, comment: string, before: string): Option<string>
  {
    var lc := Lower(comment);
    if Contains(lc, "change") && Contains(lc, "to") then
      match m.changeWord(comment)
      case Some(w) => if Contains(Lower(before), Lower(w)) then Some(w) else None
      case None => None
    else None
  }

  /** The last sentence of the window, stripped. */
  function LastSentence(before: string): string
  {
    Strip(LastPiece(before))
  }

  /** `ws[-n:]`: the last `n` elements, or all of them when there are fewer. */
  function LastN(ws: seq<string>, n: nat): (r: seq<string>)
    ensures |r| == Min(n, |ws|) && r == ws[|ws| - |r|..]
  {
    ws[|ws| - Min(n, |ws|)..]
  }

  /** `' '.join(ws[-n:])` */
  function TailWords(ws: seq<string>, n: nat): string
  {
    Join(" ", LastN(ws, n))
  }

  /** The last two steps of the cascade, which look only at the window. */
  function FromWindow(before: string): (r: string)
  {
    var last := LastSentence(before);
    var words := Split(last);
    if |words| > 10 then TailWords(words, 5)
    else if |words| > 0 then last
    else
      var all := Split(Strip(before));
      if all != [] then TailWords(all, 3) else "unknown text"
  }

  /** `find_associated_text_pattern`: the cascade over the window before the
      marker, so nothing else of the full text is looked at. */
  function FindAssociatedTextPattern(full: string, marker: MarkerMatch, m: Matchers): string
    requires marker.start <= |full|
  {
    Cascade(Window(full, marker.start), marker.whole, marker.text, m)
  }

  function Cascade(before: string, whole: string, comment: string, m: Matchers): string
  {
    match ChangeTarget(m, comment, before)
    case Some(w) => w
    case None =>
      var probe := before + whole;
      match FirstLong(m.underlined, probe, 0)
      case Some(g) => Strip(g)
      case None =>
        match FirstCapture(m.quoted, probe, 0)
        case Some(g) => Strip(g)
        case None => FromWindow(before)
  }

  // ---------------------------------------------------------------------
  // Properties

  /** A change word found in the window wins over every later step. */
  lemma ChangeWordFirst(full: string, marker: MarkerMatch, m: Matchers, w: string)
    requires marker.start <= |full|
    requires Contains(Lower(marker.text), "change") && Contains(Lower(marker.text), "to")
    requires m.changeWord(marker.text) == Some(w)
    requires Contains(Lower(Window(full, marker.start)), Lower(w))
    ensures FindAssociatedTextPattern(full, marker, m) == w
  {
  }

  /** Without a change word that occurs in the window, the first underlined
      pattern whose capture is longer than two characters gives the result,
      stripped; every earlier underlined pattern fails or captures at most
      two characters. */
  lemma UnderlinedNext(full: string, marker: MarkerMatch, m: Matchers)
    requires marker.start <= |full|
    requires ChangeTarget(m, marker.text, Window(full, marker.start)).None?
    requires FirstLong(m.underlined, Window(full, marker.start) + marker.whole, 0).Some?
    ensures var probe := Window(full, marker.start) + marker.whole;
            var u := m.underlined;
            exists j :: 0 <= j < |u| && u[j](probe).Some? && |u[j](probe).value| > 2 &&
              FindAssociatedTextPattern(full, marker, m) == Strip(u[j](probe).value) &&
              forall k :: 0 <= k < j ==> u[k](probe).None? || |u[k](probe).value| <= 2
  {
  }

  /** Without a change word or a long underlined capture, the first quoted
      pattern that matches gives the result, stripped; every earlier quoted
      pattern fails. */
  lemma QuotedNext(full: string, marker: MarkerMatch, m: Matchers)
    requires marker.start <= |full|
    requires ChangeTarget(m, marker.text, Window(full, marker.start)).None?
    requires FirstLong(m.underlined, Window(full, marker.start) + marker.whole, 0).None?
    requires FirstCapture(m.quoted, Window(full, marker.start) + marker.whole, 0).Some?
    ensures var probe := Window(full, marker.start) + marker.whole;
            var q := m.quoted;
            exists j :: 0 <= j < |q| && q[j](probe).Some? &&
              FindAssociatedTextPattern(full, marker, m) == Strip(q[j](probe).value) &&
              forall k :: 0 <= k < j ==> q[k](probe).None?
  {
  }

  /** When no pattern applies, the result depends on the window alone. */
  lemma WindowFallback(full: string, marker: MarkerMatch, m: Matchers)
    requires marker.start <= |full|
    requires ChangeTarget(m, marker.text, Window(full, marker.start)).None?
    requires FirstLong(m.underlined, Window(full, marker.start) + marker.whole, 0).None?
    requires FirstCapture(m.quoted, Window(full, marker.start) + marker.whole, 0).None?
    ensures FindAssociatedTextPattern(full, marker, m) == FromWindow(Window(full, marker.start))
  {
  }

  /** The last `n` words, joined by single spaces, split back into those
      words. */
  lemma TailWordsSplit(ws: seq<string>, n: nat)
    requires forall k :: 0 <= k < |ws| ==> IsWord(ws[k])
    ensures Split(TailWords(ws, n)) == LastN(ws, n)
  {
    var t := LastN(ws, n);
    var i := |ws| - |t|;
    forall k | 0 <= k < |t| ensures IsWord(t[k]) {
      assert t[k] == ws[i + k];
    }
    SplitJoin(t);
  }

  /** No pattern of the cascade applies to the marker. */
  predicate NoPattern(full: string, marker: MarkerMatch, m: Matchers)
    requires marker.start <= |full|
  {
    var w := Window(full, marker.start);
    && ChangeTarget(m, marker.text, w).None?
    && FirstLong(m.underlined, w + marker.whole, 0).None?
    && FirstCapture(m.quoted, w + marker.whole, 0).None?
  }

  /** The cascade's result when no pattern applies is `FromWindow` of the
      window. */
  lemma NoPatternFallback(full: string, marker: MarkerMatch, m: Matchers, w: string)
    requires marker.start <= |full| && NoPattern(full, marker, m)
    requires w == Window(full, marker.start)
    ensures FindAssociatedTextPattern(full, marker, m) == FromWindow(w)
  {
    WindowFallback(full, marker, m);
  }

  /** When no pattern applies and the window's last sentence has more than
      ten words, the result consists of exactly its last five words. */
  lemma LongSentence(full: string, marker: MarkerMatch, m: Matchers)
    requires marker.start <= |full| && NoPattern(full, marker, m)
    requires |Split(LastSentence(Window(full, marker.start)))| > 10
    ensures var ws := Split(LastSentence(Window(full, marker.start)));
            Split(FindAssociatedTextPattern(full, marker, m)) == LastN(ws, 5)
  {
    var w := Window(full, marker.start);
    NoPatternFallback(full, marker, m, w);
    LongWindow(w);
  }

  lemma LongWindow(w: string)
    requires |Split(LastSentence(w))| > 10
    ensures var ws := Split(LastSentence(w));
            Split(FromWindow(w)) == LastN(ws, 5)
  {
    var ws := Split(LastSentence(w));
    assert FromWindow(w) == TailWords(ws, 5);
    TailWordsSplit(ws, 5);
  }

  /** When no pattern applies and the window's last sentence has one to ten
      words, the result is that sentence, stripped, which is a substring of
      the window. */
  lemma ShortSentence(full: string, marker: MarkerMatch, m: Matchers)
    requires marker.start <= |full| && NoPattern(full, marker, m)
    requires 0 < |Split(LastSentence(Window(full, marker.start)))| <= 10
    ensures var w := Window(full, marker.start);
            var r := FindAssociatedTextPattern(full, marker, m);
            && r == LastSentence(w)
            && Contains(w, r)
  {
    var w := Window(full, marker.start);
    NoPatternFallback(full, marker, m, w);
    ShortWindow(w);
  }

  lemma ShortWindow(w: string)
    requires 0 < |Split(LastSentence(w))| <= 10
    ensures var r := FromWindow(w);
            && r == LastSentence(w)
            && Contains(w, r)
  {
    SentenceIn(w);
  }

  /** The window's last sentence is a substring of the window. */
  lemma SentenceIn(w: string)
    ensures Contains(w, LastSentence(w))
  {
    SuffixStripIn(w, LastPiece(w));
  }

  /** A stripped suffix is a substring. */
  lemma SuffixStripIn(w: string, p: string)
    requires |p| <= |w| && p == w[|w| - |p|..]
    ensures Contains(w, Strip(p))
  {
    var k := StripFrom(p);
    var t := Strip(p);
    var i := |w| - |p| + k;
    forall j | 0 <= j < |t| ensures w[i + j] == t[j] {
      assert t[j] == p[k + j];
    }
    assert w[i..i + |t|] == t;
    ContainsAt(w, t, i);
  }

  /** When no pattern applies and the last sentence has no words, the result
      consists of exactly the last (up to) three words of the window. */
  lemma LastWords(full: string, marker: MarkerMatch, m: Matchers)
    requires marker.start <= |full| && NoPattern(full, marker, m)
    requires Split(LastSentence(Window(full, marker.start))) == []
    requires Split(Strip(Window(full, marker.start))) != []
    ensures var ws := Split(Strip(Window(full, marker.start)));
            Split(FindAssociatedTextPattern(full, marker, m)) == LastN(ws, 3)
  {
    var w := Window(full, marker.start);
    NoPatternFallback(full, marker, m, w);
    WordsWindow(w);
  }

  lemma WordsWindow(w: string)
    requires Split(LastSentence(w)) == [] && Split(Strip(w)) != []
    ensures var ws := Split(Strip(w));
            Split(FromWindow(w)) == LastN(ws, 3)
  {
    var ws := Split(Strip(w));
    assert FromWindow(w) == TailWords(ws, 3);
    TailWordsSplit(ws, 3);
  }

  /** When no pattern applies and the window has no words, the result is the
      placeholder. */
  lemma NoWordsUnknown(full: string, marker: MarkerMatch, m: Matchers)
    requires marker.start <= |full| && NoPattern(full, marker, m)
    requires Split(Strip(Window(full, marker.start))) == []
    requires Split(LastSentence(Window(full, marker.start))) == []
    ensures FindAssociatedTextPattern(full, marker, m) == "unknown text"
  {
    var w := Window(full, marker.start);
    NoPatternFallback(full, marker, m, w);
  }
}
