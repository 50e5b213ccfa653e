/**
 * Comment-range extraction: a pre-order walk over a document's markup tree
 * that records, for each comment id, how many non-empty text tokens precede
 * its range-start and range-end markers, followed by the pairing of ids that
 * carry both markers and the slicing of their token span.
 *
 * The XML parser is not modelled; an element is an abstract node with a tag,
 * an optional `id` attribute, optional element text and its children.
 */
module CommentRanges {
  import opened PyText

  datatype Node = Node(tag: string, id: Option<string>, text: Option<string>, children: seq<Node>)

  /** One entry of the walker's `text_content` list. */
  datatype Token = Token(text: string, position: nat)

  /** What visiting one element (before its children) contributes. */
  datatype Event = RangeStart(id: string) | RangeEnd(id: string) | Text(text: string) | Skip

  /** The three accumulators the walk fills: `comment_starts`,
      `comment_ends` and `text_content`. */
  datatype WalkState = WalkState(starts: map<string, nat>, ends: map<string, nat>, tokens: seq<Token>)

  const Initial := WalkState(map[], map[], [])

  /** The element's own contribution.  The branches are tried in the source's
      order, so a `commentRangeStart` element (whose tag also ends in `t`)
      never counts as text; every other tag ending in `t` does.  An empty or
      missing id, and an empty or missing text, contribute nothing. */
  function Classify(n: Node): Event
  {
    if EndsWith(n.tag, "commentRangeStart") then
      (if n.id.Some? && n.id.value != "" then RangeStart(n.id.value) else Skip)
    else if EndsWith(n.tag, "commentRangeEnd") then
      (if n.id.Some? && n.id.value != "" then RangeEnd(n.id.value) else Skip)
    else if EndsWith(n.tag, "t") then
      (if n.text.Some? && n.text.value != "" then Text(n.text.value) else Skip)
    else Skip
  }

  /** Applying one contribution: a marker records the current token count
      under its id (overwriting an earlier marker with the same id); a text
      is appended with its index as position. */
  function Step(st: WalkState, e: Event): WalkState
  {
    match e
    case RangeStart(id) => st.(starts := st.starts[id := |st.tokens|])
    case RangeEnd(id) => st.(ends := st.ends[id := |st.tokens|])
    case Text(t) => st.(tokens := st.tokens + [Token(t, |st.tokens|)])
    case Skip => st
  }

  /** The recursive walk: the element itself, then its children in order. */
  function Visit(n: Node, st: WalkState): WalkState
    decreases n, |n.children| + 1
  {
    VisitChildren(n, 0, Step(st, Classify(n)))
  }

  function VisitChildren(n: Node, i: nat, st: WalkState): WalkState
    requires i <= |n.children|
    decreases n, |n.children| - i
  {
    if i == |n.children| then st else VisitChildren(n, i + 1, Visit(n.children[i], st))
  }

  /** The pre-order sequence of contributions of a tree. */
  function Events(n: Node): seq<Event>
    decreases n, |n.children| + 1
  {
    [Classify(n)] + ChildEvents(n, 0)
  }

  function ChildEvents(n: Node, i: nat): seq<Event>
    requires i <= |n.children|
    decreases n, |n.children| - i
  {
    if i == |n.children| then [] else Events(n.children[i]) + ChildEvents(n, i + 1)
  }

  /** Applying a sequence of contributions in order. */
  function Run(evs: seq<Event>, st: WalkState): WalkState
  {
    if evs == [] then st else Step(Run(evs[..|evs| - 1], st), evs[|evs| - 1])
  }

  /** The non-empty texts among the contributions, in order. */
  function Texts(evs: seq<Event>): seq<string>
  {
    if evs == [] then []
    else Texts(evs[..|evs| - 1]) + (if evs[|evs| - 1].Text? then [evs[|evs| - 1].text] else [])
  }

  /** The index of the last occurrence of `e` in `evs`, or -1. */
  function LastIndexOf(evs: seq<Event>, e: Event): (k: int)
    ensures -1 <= k < |evs|
    ensures k >= 0 ==> evs[k] == e && forall j :: k < j < |evs| ==> evs[j] != e
    ensures k == -1 ==> forall j :: 0 <= j < |evs| ==> evs[j] != e
  {
    if evs == [] then -1
    else if evs[|evs| - 1] == e then |evs| - 1
    else LastIndexOf(evs[..|evs| - 1], e)
  }

  function Marks(st: WalkState, isStart: bool): map<string, nat>
  {
    if isStart then st.starts else st.ends
  }

  function Marker(isStart: bool, id: string): Event
  {
    if isStart then RangeStart(id) else RangeEnd(id)
  }

  lemma {:induction false} RunAppend(a: seq<Event>, b: seq<Event>, st: WalkState)
    ensures Run(a + b, st) == Run(b, Run(a, st))
    decreases |b|
  {
    if b == [] {
      assert a + b == a;
    } else {
      assert (a + b)[..|a + b| - 1] == a + b[..|b| - 1];
      RunAppend(a, b[..|b| - 1], st);
    }
  }

  lemma {:induction false} TextsAppend(a: seq<Event>, b: seq<Event>)
    ensures Texts(a + b) == Texts(a) + Texts(b)
    decreases |b|
  {
    if b == [] {
      assert a + b == a;
    } else {
      assert (a + b)[..|a + b| - 1] == a + b[..|b| - 1];
      TextsAppend(a, b[..|b| - 1]);
    }
  }

  lemma {:induction false} VisitIsRun(n: Node, st: WalkState)
    ensures Visit(n, st) == Run(Events(n), st)
    decreases n, |n.children| + 1
  {
    VisitChildrenIsRun(n, 0, Step(st, Classify(n)));
    RunAppend([Classify(n)], ChildEvents(n, 0), st);
    assert Run([Classify(n)], st) == Step(st, Classify(n)) by {
      assert [Classify(n)][..0] == [];
    }
  }

  lemma {:induction false} VisitChildrenIsRun(n: Node, i: nat, st: WalkState)
    requires i <= |n.children|
    ensures VisitChildren(n, i, st) == Run(ChildEvents(n, i), st)
    decreases n, |n.children| - i
  {
    if i < |n.children| {
      VisitIsRun(n.children[i], st);
      VisitChildrenIsRun(n, i + 1, Visit(n.children[i], st));
      RunAppend(Events(n.children[i]), ChildEvents(n, i + 1), st);
    }
  }

  /** Starting from empty accumulators, token `i` is the `i`-th non-empty
      text and carries position `i`; every recorded index is at most the
      final token count. */
  lemma {:induction false} RunTokens(evs: seq<Event>)
    ensures var st := Run(evs, Initial);
      && |st.tokens| == |Texts(evs)|
      && (forall i :: 0 <= i < |st.tokens| ==> st.tokens[i] == Token(Texts(evs)[i], i))
      && (forall id :: id in st.starts ==> st.starts[id] <= |st.tokens|)
      && (forall id :: id in st.ends ==> st.ends[id] <= |st.tokens|)
  {
    if evs != [] {
      RunTokens(evs[..|evs| - 1]);
    }
  }

  /** The index recorded under `id` is the number of non-empty texts that
      precede the LAST marker of that kind with that id; an id is recorded
      exactly when such a marker occurs. */
  lemma {:induction false} MarkerIndex(evs: seq<Event>, isStart: bool, id: string)
    ensures var k := LastIndexOf(evs, Marker(isStart, id));
      && (id in Marks(Run(evs, Initial), isStart) <==> k >= 0)
      && (k >= 0 ==> Marks(Run(evs, Initial), isStart)[id] == |Texts(evs[..k])|)
  {
    if evs != [] {
      var pre := evs[..|evs| - 1];
      MarkerIndex(pre, isStart, id);
      var k := LastIndexOf(evs, Marker(isStart, id));
      if k == |evs| - 1 {
        RunTokens(pre);
        assert evs[..k] == pre;
      } else if k >= 0 {
        assert pre[..k] == evs[..k];
      }
    }
  }

  /** `extract_text_range`: "" for an empty or out-of-range span, otherwise
      the stripped concatenation of the texts of tokens[start..min(end, len)). */
  function ExtractTextRange(tokens: seq<Token>, start: nat, end: nat): (r: string)
    ensures start >= end || start >= |tokens| ==> r == ""
    ensures IsSubstring(r, Concat(TextsOf(tokens)))
  {
    if start >= end || start >= |tokens| then
      assert "" == Concat(TextsOf(tokens))[0..0];
      ""
    else
      var hi := Min(end, |tokens|);
      var mid := Concat(TextsOf(tokens[start..hi]));
      SpanIsSubstring(tokens, start, hi);
      StripIsSubstring(mid);
      SubstringTrans(Strip(mid), mid, Concat(TextsOf(tokens)));
      Strip(mid)
  }

  function TextsOf(ts: seq<Token>): seq<string>
  {
    seq(|ts|, i requires 0 <= i < |ts| => ts[i].text)
  }

  function Concat(ss: seq<string>): string
  {
    if ss == [] then "" else Concat(ss[..|ss| - 1]) + ss[|ss| - 1]
  }

  lemma {:induction false} ConcatAppend(a: seq<string>, b: seq<string>)
    ensures Concat(a + b) == Concat(a) + Concat(b)
    decreases |b|
  {
    if b == [] {
      assert a + b == a;
    } else {
      assert (a + b)[..|a + b| - 1] == a + b[..|b| - 1];
      ConcatAppend(a, b[..|b| - 1]);
    }
  }

  lemma SpanIsSubstring(tokens: seq<Token>, lo: nat, hi: nat)
    requires lo <= hi <= |tokens|
    ensures IsSubstring(Concat(TextsOf(tokens[lo..hi])), Concat(TextsOf(tokens)))
  {
    var all := TextsOf(tokens);
    assert all == all[..lo] + TextsOf(tokens[lo..hi]) + all[hi..];
    ConcatAppend(all[..lo] + TextsOf(tokens[lo..hi]), all[hi..]);
    ConcatAppend(all[..lo], TextsOf(tokens[lo..hi]));
    var a := Concat(all[..lo]);
    var m := Concat(TextsOf(tokens[lo..hi]));
    assert Concat(all)[|a|..|a| + |m|] == m;
  }

  lemma SubstringTrans(r: string, m: string, s: string)
    requires IsSubstring(r, m) && IsSubstring(m, s)
    ensures IsSubstring(r, s)
  {
    var i, j :| 0 <= i <= j <= |s| && m == s[i..j];
    SubstringOfSlice(r, s, i, j);
  }

  /** The walker: `starts`, `ends` and `tokens` are the three accumulators
      the recursive walk writes into. */
  class Walker {
    var starts: map<string, nat>
    var ends: map<string, nat>
    var tokens: seq<Token>

    function State(): WalkState
      reads this
    {
      WalkState(starts, ends, tokens)
    }

    constructor ()
      ensures State() == Initial
    {
      starts, ends, tokens := map[], map[], [];
    }

    /** `walk_document_for_comments` */
    method Walk(n: Node)
      modifies this
      ensures State() == Visit(n, old(State()))
      decreases n
    {
      if EndsWith(n.tag, "commentRangeStart") {
        if n.id.Some? && n.id.value != "" {
          starts := starts[n.id.value := |tokens|];
        }
      } else if EndsWith(n.tag, "commentRangeEnd") {
        if n.id.Some? && n.id.value != "" {
          ends := ends[n.id.value := |tokens|];
        }
      } else if EndsWith(n.tag, "t") {
        var text := if n.text.Some? then n.text.value else "";
        if text != "" {
          tokens := tokens + [Token(text, |tokens|)];
        }
      }
      assert State() == Step(old(State()), Classify(n));
      var i := 0;
      while i < |n.children|
        invariant 0 <= i <= |n.children|
        invariant VisitChildren(n, i, State()) == Visit(n, old(State()))
      {
        Walk(n.children[i]);
        i := i + 1;
      }
    }
  }

  /** The pairing loop of `extract_comment_ranges`: a range for exactly the
      ids that have both a start and an end marker. */
  method PairRanges(starts: map<string, nat>, ends: map<string, nat>, tokens: seq<Token>)
    returns (ranges: map<string, string>)
    ensures ranges.Keys == starts.Keys * ends.Keys
    ensures forall id :: id in ranges ==> ranges[id] == ExtractTextRange(tokens, starts[id], ends[id])
  {
    ranges := map[];
    var pending := starts.Keys;
    while pending != {}
      invariant pending <= starts.Keys
      invariant ranges.Keys == (starts.Keys - pending) * ends.Keys
      invariant forall id :: id in ranges ==> ranges[id] == ExtractTextRange(tokens, starts[id], ends[id])
      decreases pending
    {
      var id :| id in pending;
      if id in ends {
        ranges := ranges[id := ExtractTextRange(tokens, starts[id], ends[id])];
      }
      pending := pending - {id};
    }
  }

  /** `extract_comment_ranges` on an already parsed document tree. */
  method ExtractCommentRanges(root: Node) returns (ranges: map<string, string>)
    ensures var st := Visit(root, Initial);
      && ranges.Keys == st.starts.Keys * st.ends.Keys
      && forall id :: id in ranges ==> ranges[id] == ExtractTextRange(st.tokens, st.starts[id], st.ends[id])
  {
    var walker := new Walker();
    walker.Walk(root);
    ranges := PairRanges(walker.starts, walker.ends, walker.tokens);
  }

  /** What the walk of a document records: token `i` is the `i`-th
      non-empty text in document order and carries position `i`; an id is
      recorded exactly when a marker of that kind carries it, under the
      number of non-empty texts before its last such marker, which is at
      most the number of tokens. */
  lemma WalkRecords(root: Node, isStart: bool, id: string)
    ensures var st := Visit(root, Initial);
      var evs := Events(root);
      var k := LastIndexOf(evs, Marker(isStart, id));
      && |st.tokens| == |Texts(evs)|
      && (forall i :: 0 <= i < |st.tokens| ==> st.tokens[i] == Token(Texts(evs)[i], i))
      && (id in Marks(st, isStart) <==> k >= 0)
      && (k >= 0 ==> Marks(st, isStart)[id] == |Texts(evs[..k])| <= |st.tokens|)
  {
    VisitIsRun(root, Initial);
    RunTokens(Events(root));
    MarkerIndex(Events(root), isStart, id);
  }

  /** The associated text of a comment is the stripped concatenation of the
      non-empty texts that lie, in document order, between its last start
      marker and its last end marker, and "" when the end marker comes first. */
  lemma RangeBetweenMarkers(root: Node, id: string)
    requires var st := Visit(root, Initial); id in st.starts && id in st.ends
    ensures var st := Visit(root, Initial);
      var evs := Events(root);
      var j1 := LastIndexOf(evs, RangeStart(id));
      var j2 := LastIndexOf(evs, RangeEnd(id));
      && 0 <= j1 && 0 <= j2
      && ExtractTextRange(st.tokens, st.starts[id], st.ends[id])
         == if j1 < j2 then Strip(Concat(Texts(evs[j1..j2]))) else ""
  {
    VisitIsRun(root, Initial);
    RangeOfRun(Events(root), id);
  }

  lemma RangeOfRun(evs: seq<Event>, id: string)
    requires var st := Run(evs, Initial); id in st.starts && id in st.ends
    ensures var st := Run(evs, Initial);
      var j1 := LastIndexOf(evs, RangeStart(id));
      var j2 := LastIndexOf(evs, RangeEnd(id));
      && 0 <= j1 && 0 <= j2
      && ExtractTextRange(st.tokens, st.starts[id], st.ends[id])
         == if j1 < j2 then Strip(Concat(Texts(evs[j1..j2]))) else ""
  {
    var st := Run(evs, Initial);
    RunTokens(evs);
    MarkerIndex(evs, true, id);
    MarkerIndex(evs, false, id);
    var j1 := LastIndexOf(evs, RangeStart(id));
    var j2 := LastIndexOf(evs, RangeEnd(id));
    assert TextsOf(st.tokens) == Texts(evs);
    if j1 < j2 {
      SpanTexts(evs, j1, j2);
      SpanOfTokens(st.tokens, Texts(evs), |Texts(evs[..j1])|, |Texts(evs[..j2])|, Texts(evs[j1..j2]));
    } else {
      assert evs[..j1] == evs[..j2] + evs[j2..j1];
      TextsAppend(evs[..j2], evs[j2..j1]);
    }
  }

  /** The texts before `j2` are those before `j1` followed by those in between. */
  lemma SpanTexts(evs: seq<Event>, j1: nat, j2: nat)
    requires j1 <= j2 <= |evs|
    ensures Texts(evs[..j2]) == Texts(evs[..j1]) + Texts(evs[j1..j2])
    ensures Texts(evs) == Texts(evs[..j2]) + Texts(evs[j2..])
  {
    assert evs[..j2] == evs[..j1] + evs[j1..j2];
    TextsAppend(evs[..j1], evs[j1..j2]);
    assert evs == evs[..j2] + evs[j2..];
    TextsAppend(evs[..j2], evs[j2..]);
  }

  lemma SpanOfTokens(tokens: seq<Token>, texts: seq<string>, s: nat, e: nat, mid: seq<string>)
    requires TextsOf(tokens) == texts
    requires s <= e <= |texts| && texts[s..e] == mid
    ensures ExtractTextRange(tokens, s, e) == Strip(Concat(mid))
  {
    if s < e {
      assert TextsOf(tokens[s..e]) == texts[s..e];
    } else {
      assert mid == [];
    }
  }

  /** Empty ids are never recorded: the walk ignores markers without a
      truthy id. */
  lemma EmptyIdIgnored(root: Node)
    ensures "" !in Visit(root, Initial).starts && "" !in Visit(root, Initial).ends
  {
    VisitIsRun(root, Initial);
    NoEmptyMarker(root);
    MarkerIndex(Events(root), true, "");
    MarkerIndex(Events(root), false, "");
  }

  lemma {:induction false} NoEmptyMarker(n: Node)
    ensures forall k :: 0 <= k < |Events(n)| ==> Events(n)[k] != RangeStart("") && Events(n)[k] != RangeEnd("")
    decreases n, |n.children| + 1
  {
    NoEmptyMarkerChildren(n, 0);
  }

  lemma {:induction false} NoEmptyMarkerChildren(n: Node, i: nat)
    requires i <= |n.children|
    ensures forall k :: 0 <= k < |ChildEvents(n, i)| ==>
      ChildEvents(n, i)[k] != RangeStart("") && ChildEvents(n, i)[k] != RangeEnd("")
    decreases n, |n.children| - i
  {
    if i < |n.children| {
      NoEmptyMarker(n.children[i]);
      NoEmptyMarkerChildren(n, i + 1);
    }
  }
}
