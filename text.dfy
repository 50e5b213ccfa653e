/**
 * Python `str` semantics used by the rule engine: whitespace and word
 * classes, ASCII case mapping, strip/split/join, find/rfind/count and
 * slicing with Python's clamping.  Only the behaviour the analyzer relies on
 * is modelled; case mapping is restricted to ASCII.
 */
module PyText {

  datatype Option<T> = None | Some(value: T)

  /** A capturing pattern with one group: the group's text, or `None`
      when the pattern does not match. */
  type Capture = string -> Option<string>

  /** What the first pattern of `ps` (from `i`) that matches `c` captures:
      every earlier pattern fails. */
  function FirstCapture<T>(ps: seq<string -> Option<T>>, c: string, i: nat): (r: Option<T>)
    ensures r.Some? ==> exists j :: i <= j < |ps| && ps[j](c) == r && forall k :: i <= k < j ==> ps[k](c).None?
    ensures r.None? ==> forall j :: i <= j < |ps| ==> ps[j](c).None?
    decreases |ps| - i
  {
    if i >= |ps| then None else if ps[i](c).Some? then ps[i](c) else FirstCapture(ps, c, i + 1)
  }

  /** The characters for which Python's `str.isspace()` holds; `strip`,
      `split` and the regex class `\s` all use this set. */
  predicate IsSpace(c: char)
  {
    c == ' ' || '\t' <= c <= '\r' || '\U{1c}' <= c <= '\U{1f}' ||
    c == '\U{85}' || c == '\U{a0}' || c == '\U{1680}' ||
    '\U{2000}' <= c <= '\U{200a}' || c == '\U{2028}' || c == '\U{2029}' ||
    c == '\U{202f}' || c == '\U{205f}' || c == '\U{3000}'
  }

  /** The regex class `\w`, restricted to ASCII. */
  predicate IsWordChar(c: char)
  {
    'a' <= c <= 'z' || 'A' <= c <= 'Z' || '0' <= c <= '9' || c == '_'
  }

  predicate IsUpper(c: char)
  {
    'A' <= c <= 'Z'
  }

  function LowerChar(c: char): char
  {
    if 'A' <= c <= 'Z' then (c as int + 32) as char else c
  }

  function UpperChar(c: char): char
  {
    if 'a' <= c <= 'z' then (c as int - 32) as char else c
  }

  /** `s.lower()` */
  function Lower(s: string): string
  {
    seq(|s|, i requires 0 <= i < |s| => LowerChar(s[i]))
  }

  lemma LowerAppend(a: string, b: string)
    ensures Lower(a + b) == Lower(a) + Lower(b)
  {
  }

  /** A lower-case letter absent from `s` in both cases is absent from
      `Lower(s)`. */
  lemma LowerLacks(s: string, c: char)
    requires 'a' <= c <= 'z' && c !in s && UpperChar(c) !in s
    ensures c !in Lower(s)
  {
  }

  /** `s.capitalize()`: first character upper-cased, the rest lower-cased. */
  function Capitalize(s: string): string
  {
    if s == [] then [] else [UpperChar(s[0])] + Lower(s[1..])
  }

  predicate StartsWith(s: string, prefix: string)
  {
    |prefix| <= |s| && s[..|prefix|] == prefix
  }

  predicate EndsWith(s: string, suffix: string)
  {
    |suffix| <= |s| && s[|s| - |suffix|..] == suffix
  }

  /** `s.lstrip()` */
  function LStrip(s: string): (r: string)
    ensures |r| <= |s| && r == s[|s| - |r|..]
    ensures r != [] ==> !IsSpace(r[0])
    ensures forall i :: 0 <= i < |s| - |r| ==> IsSpace(s[i])
  {
    if s != [] && IsSpace(s[0]) then LStrip(s[1..]) else s
  }

  /** `s.rstrip()` */
  function RStrip(s: string): (r: string)
    ensures |r| <= |s| && r == s[..|r|]
    ensures r != [] ==> !IsSpace(r[|r| - 1])
    ensures forall i :: |r| <= i < |s| ==> IsSpace(s[i])
  {
    if s != [] && IsSpace(s[|s| - 1]) then RStrip(s[..|s| - 1]) else s
  }

  /** `s.strip()` */
  function Strip(s: string): (r: string)
    ensures |r| <= |s|
    ensures r != [] ==> !IsSpace(r[0]) && !IsSpace(r[|r| - 1])
  {
    RStrip(LStrip(s))
  }

  /** Where `Strip(s)` starts inside `s`. */
  function StripFrom(s: string): (k: nat)
    ensures k + |Strip(s)| <= |s| && s[k..k + |Strip(s)|] == Strip(s)
  {
    var t := LStrip(s);
    DropTake(s, |s| - |t|, |RStrip(t)|);
    |s| - |t|
  }

  lemma DropTake(s: string, k: nat, n: nat)
    requires k + n <= |s|
    ensures s[k..][..n] == s[k..k + n]
  {
  }

  /** `r` occurs in `s` at some position. */
  ghost predicate IsSubstring(r: string, s: string)
  {
    exists i, j :: 0 <= i <= j <= |s| && r == s[i..j]
  }

  lemma SubstringOfSlice(r: string, s: string, i: nat, j: nat)
    requires i <= j <= |s| && IsSubstring(r, s[i..j])
    ensures IsSubstring(r, s)
  {
    var a, b :| 0 <= a <= b <= j - i && r == s[i..j][a..b];
    SliceOfSlice(s, i, j, a, b);
    assert r == s[i + a..i + b];
  }

  lemma SliceOfSlice(s: string, i: nat, j: nat, a: nat, b: nat)
    requires i <= j <= |s| && a <= b <= j - i
    ensures s[i..j][a..b] == s[i + a..i + b]
  {
    var r := s[i..j][a..b];
    assert |r| == |s[i + a..i + b]|;
    forall k | 0 <= k < |r| ensures r[k] == s[i + a..i + b][k] {
      assert r[k] == s[i..j][a + k];
    }
  }

  lemma StripIsSubstring(s: string)
    ensures IsSubstring(Strip(s), s)
  {
    var k := StripFrom(s);
    assert Strip(s) == s[k..k + |Strip(s)|];
  }

  lemma SubstringRefl(s: string)
    ensures IsSubstring(s, s)
  {
    assert s == s[0..|s|];
  }

  /** The longest prefix of `s` without whitespace. */
  function TakeNonSpace(s: string): (w: string)
    ensures |w| <= |s| && w == s[..|w|]
    ensures forall i :: 0 <= i < |w| ==> !IsSpace(w[i])
    ensures |w| < |s| ==> IsSpace(s[|w|])
  {
    if s == [] || IsSpace(s[0]) then [] else [s[0]] + TakeNonSpace(s[1..])
  }

  /** The longest prefix of `s` made of word characters. */
  function WordRun(s: string): (w: string)
    ensures |w| <= |s| && w == s[..|w|]
    ensures forall i :: 0 <= i < |w| ==> IsWordChar(w[i])
    ensures |w| < |s| ==> !IsWordChar(s[|w|])
  {
    if s == [] || !IsWordChar(s[0]) then [] else [s[0]] + WordRun(s[1..])
  }

  predicate AllWord(w: string)
  {
    w != [] && forall i :: 0 <= i < |w| ==> IsWordChar(w[i])
  }

  predicate IsWord(w: string)
  {
    w != [] && forall i :: 0 <= i < |w| ==> !IsSpace(w[i])
  }

  /** `s.split()`: the maximal runs of non-whitespace characters. */
  function Split(s: string): (ws: seq<string>)
    ensures forall k :: 0 <= k < |ws| ==> IsWord(ws[k])
    decreases |s|
  {
    var t := LStrip(s);
    if t == [] then []
    else
      var w := TakeNonSpace(t);
      var rest := Split(t[|w|..]);
      WordsCons(w, rest);
      [w] + rest
  }

  lemma WordsCons(w: string, ws: seq<string>)
    requires IsWord(w) && forall k :: 0 <= k < |ws| ==> IsWord(ws[k])
    ensures forall k :: 0 <= k < |[w] + ws| ==> IsWord(([w] + ws)[k])
  {
  }

  /** `sep.join(ws)` */
  function Join(sep: string, ws: seq<string>): string
  {
    if ws == [] then ""
    else if |ws| == 1 then ws[0]
    else ws[0] + sep + Join(sep, ws[1..])
  }

  lemma TakeNonSpaceOf(w: string, rest: string)
    requires IsWord(w) && (rest == [] || IsSpace(rest[0]))
    ensures TakeNonSpace(w + rest) == w
  {
    var s := w + rest;
    forall i | 0 <= i < |w| ensures !IsSpace(s[i]) {
      assert s[i] == w[i];
    }
    if |w| < |s| {
      assert s[|w|] == rest[0];
    }
    TakeNonSpaceAt(s, |w|);
    assert s[..|w|] == w;
  }

  /** `TakeNonSpace` stops at the first whitespace character. */
  lemma {:induction false} TakeNonSpaceAt(s: string, k: nat)
    requires k <= |s| && (forall i :: 0 <= i < k ==> !IsSpace(s[i])) && (k < |s| ==> IsSpace(s[k]))
    ensures TakeNonSpace(s) == s[..k]
    decreases k
  {
    if k > 0 {
      var t := s[1..];
      forall i | 0 <= i < k - 1 ensures !IsSpace(t[i]) {
        assert t[i] == s[i + 1];
      }
      if k - 1 < |t| {
        assert t[k - 1] == s[k];
      }
      TakeNonSpaceAt(t, k - 1);
      assert s[..k] == [s[0]] + t[..k - 1];
    }
  }

  /** `LStrip` stops at the first character that is not whitespace. */
  lemma {:induction false} LStripAt(s: string, k: nat)
    requires k <= |s| && (forall i :: 0 <= i < k ==> IsSpace(s[i])) && (k < |s| ==> !IsSpace(s[k]))
    ensures LStrip(s) == s[k..]
    decreases k
  {
    if k > 0 {
      var t := s[1..];
      forall i | 0 <= i < k - 1 ensures IsSpace(t[i]) {
        assert t[i] == s[i + 1];
      }
      if k - 1 < |t| {
        assert t[k - 1] == s[k];
      }
      LStripAt(t, k - 1);
      assert t[k - 1..] == s[k..];
    }
  }

  /** `WordRun` stops at the first character that is not a word character. */
  lemma {:induction false} WordRunAt(s: string, k: nat)
    requires k <= |s| && (forall i :: 0 <= i < k ==> IsWordChar(s[i])) && (k < |s| ==> !IsWordChar(s[k]))
    ensures WordRun(s) == s[..k]
    decreases k
  {
    if k > 0 {
      var t := s[1..];
      forall i | 0 <= i < k - 1 ensures IsWordChar(t[i]) {
        assert t[i] == s[i + 1];
      }
      if k - 1 < |t| {
        assert t[k - 1] == s[k];
      }
      WordRunAt(t, k - 1);
      assert s[..k] == [s[0]] + t[..k - 1];
    }
  }

  /** A word followed by nothing or by whitespace is split off whole. */
  lemma SplitWord(w: string, rest: string)
    requires IsWord(w) && (rest == [] || IsSpace(rest[0]))
    ensures Split(w + rest) == [w] + Split(rest)
  {
    assert (w + rest)[0] == w[0];
    TakeNonSpaceOf(w, rest);
    assert (w + rest)[|w|..] == rest;
  }

  lemma SplitSpace(j: string)
    ensures Split(" " + j) == Split(j)
  {
    assert (" " + j)[1..] == j;
  }

  /** Joining words with single spaces and splitting again gives the words. */
  lemma {:induction false} SplitJoin(ws: seq<string>)
    requires forall k :: 0 <= k < |ws| ==> IsWord(ws[k])
    ensures Split(Join(" ", ws)) == ws
    decreases |ws|
  {
    if |ws| == 1 {
      SplitWord(ws[0], "");
      assert ws[0] + "" == ws[0];
    } else if |ws| > 1 {
      var j := Join(" ", ws[1..]);
      assert Join(" ", ws) == ws[0] + (" " + j);
      calc {
        Split(Join(" ", ws));
        Split(ws[0] + (" " + j));
        { SplitWord(ws[0], " " + j); }
        [ws[0]] + Split(" " + j);
        { SplitSpace(j); }
        [ws[0]] + Split(j);
        { SplitJoin(ws[1..]); }
        [ws[0]] + ws[1..];
      }
      assert ws == [ws[0]] + ws[1..];
    }
  }

  /** `sub` occurs in `s` starting at index `i`. */
  predicate OccursAt(s: string, sub: string, i: nat)
  {
    i + |sub| <= |s| && s[i..i + |sub|] == sub
  }

  lemma OccursShift(s: string, sub: string, i: nat)
    requires s != []
    ensures OccursAt(s, sub, i + 1) <==> OccursAt(s[1..], sub, i)
  {
    if i + 1 + |sub| <= |s| {
      assert s[i + 1..i + 1 + |sub|] == s[1..][i..i + |sub|];
    }
  }

  /** The first index from `i` on at which `sub` occurs, or -1. */
  function FindFrom(s: string, sub: string, i: nat): (r: int)
    ensures r == -1 || (i <= r && OccursAt(s, sub, r))
    ensures r >= 0 ==> forall k: nat :: i <= k < r ==> !OccursAt(s, sub, k)
    ensures r == -1 ==> forall k: nat :: i <= k ==> !OccursAt(s, sub, k)
    decreases |s| - i
  {
    if i + |sub| > |s| then -1
    else if OccursAt(s, sub, i) then i
    else FindFrom(s, sub, i + 1)
  }

  /** `s.find(sub)`: the first index at which `sub` occurs, or -1. */
  function Find(s: string, sub: string): (r: int)
    ensures r == -1 || (r >= 0 && OccursAt(s, sub, r))
    ensures r >= 0 ==> forall i: nat :: i < r ==> !OccursAt(s, sub, i)
    ensures r == -1 ==> forall i: nat :: !OccursAt(s, sub, i)
  {
    FindFrom(s, sub, 0)
  }

  /** `sub in s` */
  predicate Contains(s: string, sub: string)
  {
    Find(s, sub) >= 0
  }

  lemma ContainsAt(s: string, sub: string, i: nat)
    requires OccursAt(s, sub, i)
    ensures Contains(s, sub)
  {
  }

  /** The last index at most `i` at which `sub` occurs, or -1. */
  function FindBelow(s: string, sub: string, i: nat): (r: int)
    ensures r == -1 || (0 <= r <= i && OccursAt(s, sub, r))
    ensures r >= 0 ==> forall k: nat :: r < k <= i ==> !OccursAt(s, sub, k)
    ensures r == -1 ==> forall k: nat :: k <= i ==> !OccursAt(s, sub, k)
    decreases i
  {
    if OccursAt(s, sub, i) then i
    else if i == 0 then -1
    else FindBelow(s, sub, i - 1)
  }

  /** `s.rfind(sub)`: the last index at which `sub` occurs, or -1. */
  function RFind(s: string, sub: string): (r: int)
    ensures r == -1 || (r >= 0 && OccursAt(s, sub, r))
    ensures r >= 0 ==> forall i: nat :: r < i ==> !OccursAt(s, sub, i)
    ensures r == -1 ==> forall i: nat :: !OccursAt(s, sub, i)
  {
    if |sub| > |s| then -1
    else
      assert forall k: nat :: k > |s| - |sub| ==> !OccursAt(s, sub, k);
      FindBelow(s, sub, |s| - |sub|)
  }

  /** Non-overlapping occurrences of a non-empty `sub` from `i` on,
      scanning left to right. */
  function CountFrom(s: string, sub: string, i: nat): (n: nat)
    requires sub != []
    ensures n == 0 <==> forall k: nat :: i <= k ==> !OccursAt(s, sub, k)
    ensures n == 0 || i + n * |sub| <= |s|
    decreases |s| - i
  {
    if i + |sub| > |s| then 0
    else if OccursAt(s, sub, i) then 1 + CountFrom(s, sub, i + |sub|)
    else CountFrom(s, sub, i + 1)
  }

  /** `s.count(sub)`: non-overlapping occurrences, scanning left to right;
      Python counts the empty string `len(s) + 1` times. */
  function Count(s: string, sub: string): (n: nat)
    ensures sub != [] ==> (n == 0 <==> !Contains(s, sub))
    ensures sub != [] ==> n * |sub| <= |s|
  {
    if sub == [] then |s| + 1 else CountFrom(s, sub, 0)
  }

  /** Occurrences are counted without overlap: "aa" occurs twice in "aaaa"
      and once in "aaa". */
  lemma CountNonOverlapping(s: string, t: string, sub: string)
    requires s == "aaaa" && t == "aaa" && sub == "aa"
    ensures Count(s, sub) == 2 && Count(t, sub) == 1
  {
    assert OccursAt(s, sub, 0) && OccursAt(s, sub, 2);
    assert OccursAt(t, sub, 0) && !OccursAt(t, sub, 2);
    assert CountFrom(s, sub, 4) == 0;
    assert CountFrom(t, sub, 2) == 0;
  }

  /** Python's `s[a:b]` for non-negative bounds: both ends clamp to the
      length, and an empty range gives the empty string. */
  function Slice(s: string, a: nat, b: nat): (r: string)
    ensures |r| <= |s|
    ensures var hi := if b < |s| then b else |s|;
            var lo := if a < hi then a else hi;
            r == s[lo..hi]
  {
    var hi := if b < |s| then b else |s|;
    if a >= hi then "" else s[a..hi]
  }

  function Max(a: int, b: int): int { if a >= b then a else b }
  function Min(a: int, b: int): int { if a <= b then a else b }

  function DigitChar(d: nat): char
    requires d < 10
  {
    "0123456789"[d]
  }

  function NatToString(n: nat): string
    decreases n
  {
    if n < 10 then [DigitChar(n)] else NatToString(n / 10) + [DigitChar(n % 10)]
  }

  /** `str(n)` for an integer. */
  function IntToString(n: int): string
  {
    if n < 0 then "-" + NatToString(-n) else NatToString(n)
  }
}
