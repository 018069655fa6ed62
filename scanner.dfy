/** The bracket scan run on one text value: the global regex
    `/\[\[([\s\S]*?)\]\]|\[([^\]\[]+?)\]/g` stepped with an explicit cursor,
    and the loop that cuts the value into text and formula nodes. */
module BracketScanner {
  import opened Mdast
  import opened Classifier
  import opened Normalizer

  datatype Option<T> = None | Some(value: T)

  lemma AppendAssoc<T>(a: seq<T>, b: seq<T>, c: seq<T>)
    ensures a + (b + c) == (a + b) + c
  {
  }

  lemma SliceJoin<T>(s: seq<T>, i: nat, j: nat, k: nat)
    requires i <= j <= k <= |s|
    ensures s[i..j] + s[j..k] == s[i..k]
  {
  }

  /** One match of the regex: its offset, the text between the brackets
      (`match[1]` or `match[2]`), and whether `[[...]]` matched. */
  datatype Match = Match(start: nat, inner: string, double: bool)
  {
    /** `match[0]`: the matched text, brackets included. */
    function Whole(): (w: string)
      ensures |w| == |inner| + (if double then 4 else 2)
    {
      if double then ['[', '['] + inner + [']', ']'] else ['['] + inner + [']']
    }

    /** The offset just past the match, where the cursor resumes. */
    function End(): nat {
      start + |inner| + (if double then 4 else 2)
    }

    /** `Boolean(match[1])`: an empty `[[]]` does not count as display. */
    predicate IsDisplay() {
      double && inner != []
    }
  }

  predicate IsBracket(c: char) {
    c == '[' || c == ']'
  }

  /** `]]` occurs at offset q. */
  predicate ClosesAt(text: string, q: int) {
    0 <= q && q + 2 <= |text| && text[q] == ']' && text[q + 1] == ']'
  }

  /** text[p..e] reads `[[X]]` for some X, possibly empty, possibly spanning lines. */
  predicate DoubleAt(text: string, p: nat, e: nat) {
    p + 4 <= e <= |text| && text[p] == '[' && text[p + 1] == '[' && ClosesAt(text, e - 2)
  }

  /** text[p..e] reads `[X]` with X non-empty and free of brackets. */
  predicate SingleAt(text: string, p: nat, e: nat) {
    p + 3 <= e <= |text| && text[p] == '[' && text[e - 1] == ']' &&
    forall q :: p < q < e - 1 ==> !IsBracket(text[q])
  }

  /** The first `]]` at or after k: where the lazy `[\s\S]*?` stops. */
  function FindClose(text: string, k: nat): (r: Option<nat>)
    decreases |text| - k
    ensures r.Some? ==> k <= r.value && ClosesAt(text, r.value)
  {
    if k + 2 > |text| then None
    else if text[k] == ']' && text[k + 1] == ']' then Some(k)
    else FindClose(text, k + 1)
  }

  /** The first bracket at or after k: where `[^\]\[]+?` has to stop. */
  function FindBracket(text: string, k: nat): (r: Option<nat>)
    decreases |text| - k
    ensures r.Some? ==> k <= r.value < |text| && IsBracket(text[r.value])
  {
    if k >= |text| then None
    else if IsBracket(text[k]) then Some(k)
    else FindBracket(text, k + 1)
  }

  /** FindClose finds the first `]]` from k on, and None means there is none. */
  lemma {:induction false} FindCloseIsFirst(text: string, k: nat)
    decreases |text| - k
    ensures forall q :: k <= q && (FindClose(text, k).None? || q < FindClose(text, k).value) ==> !ClosesAt(text, q)
  {
    if k + 2 <= |text| && !(text[k] == ']' && text[k + 1] == ']') {
      FindCloseIsFirst(text, k + 1);
    }
  }

  /** FindBracket finds the first bracket from k on, and None means there is none. */
  lemma {:induction false} FindBracketIsFirst(text: string, k: nat)
    decreases |text| - k
    ensures forall q :: k <= q < |text| && (FindBracket(text, k).None? || q < FindBracket(text, k).value) ==>
      !IsBracket(text[q])
  {
    if k < |text| && !IsBracket(text[k]) {
      FindBracketIsFirst(text, k + 1);
    }
  }

  /** The regex anchored at offset p. The `[[...]]` alternative is tried
      first and stops at the nearest `]]`; only when it fails is `[...]`
      tried. A match spans at least 3 characters (`[x]`), 4 for `[[]]`, so
      the cursor always moves forward. */
  function MatchAt(text: string, p: nat): (r: Option<Match>)
    ensures r.Some? ==> r.value.start == p && r.value.End() <= |text|
    ensures r.Some? ==> p + (if r.value.double then 4 else 3) <= r.value.End()
  {
    var close := FindClose(text, p + 2);
    if p + 1 < |text| && text[p] == '[' && text[p + 1] == '[' && close.Some? then
      Some(Match(p, text[p + 2..close.value], true))
    else if p < |text| && text[p] == '[' then
      var bracket := FindBracket(text, p + 1);
      if bracket.Some? && bracket.value > p + 1 && text[bracket.value] == ']' then
        Some(Match(p, text[p + 1..bracket.value], false))
      else
        None
    else
      None
  }

  /** `lastIndex` after a match is `match.index + match[0].length`, and a
      match counts as display exactly when it is a `[[...]]` whose
      `match[0]` is longer than the four brackets. */
  lemma MatchLengths(m: Match)
    ensures m.End() == m.start + |m.Whole()|
    ensures m.IsDisplay() <==> m.double && |m.Whole()| > 4
  {
  }

  /** What a match reports as `match[0]` is the text it spans. */
  lemma MatchSpansWhole(text: string, p: nat)
    requires MatchAt(text, p).Some?
    ensures text[p..MatchAt(text, p).value.End()] == MatchAt(text, p).value.Whole()
  {
    var m := MatchAt(text, p).value;
    var w := m.Whole();
    var n := if m.double then 2 else 1;
    assert |w| == |m.inner| + 2 * n;
    forall i | 0 <= i < |w|
      ensures w[i] == text[p + i]
    {
      if n <= i < n + |m.inner| {
        assert w[i] == m.inner[i - n];
      }
    }
  }

  /** Some `[[X]]` starts at p. */
  ghost predicate HasDouble(text: string, p: nat) {
    exists e :: DoubleAt(text, p, e)
  }

  /** Some `[X]` starts at p. */
  ghost predicate HasSingle(text: string, p: nat) {
    exists e :: SingleAt(text, p, e)
  }

  /** Two opening brackets and a later `]]` make a `[[X]]`. */
  lemma CloseMakesDouble(text: string, p: nat)
    ensures p + 1 < |text| && text[p] == '[' && text[p + 1] == '[' && FindClose(text, p + 2).Some? ==>
      HasDouble(text, p)
  {
    var close := FindClose(text, p + 2);
    if p + 1 < |text| && text[p] == '[' && text[p + 1] == '[' && close.Some? {
      assert DoubleAt(text, p, close.value + 2);
    }
  }

  /** MatchAt is the regex's answer at p: it matches exactly when some
      `[[X]]` or some `[X]` starts at p; a `[[...]]` match is the shortest
      one, and a `[...]` match is reported only when no `[[X]]` starts at p. */
  lemma MatchAtIsRegexMatch(text: string, p: nat)
    ensures MatchAt(text, p).Some? <==> HasDouble(text, p) || HasSingle(text, p)
    ensures MatchAt(text, p).Some? ==> (MatchAt(text, p).value.double <==> HasDouble(text, p))
    ensures MatchAt(text, p).Some? && MatchAt(text, p).value.double ==>
      DoubleAt(text, p, MatchAt(text, p).value.End()) &&
      forall e :: DoubleAt(text, p, e) ==> MatchAt(text, p).value.End() <= e
    ensures MatchAt(text, p).Some? && !MatchAt(text, p).value.double ==>
      SingleAt(text, p, MatchAt(text, p).value.End())
  {
    var r := MatchAt(text, p);
    var close := FindClose(text, p + 2);
    FindCloseIsFirst(text, p + 2);
    FindBracketIsFirst(text, p + 1);
    if HasDouble(text, p) {
      var e :| DoubleAt(text, p, e);
      assert close.Some?;
      assert DoubleAt(text, p, close.value + 2);
      forall e': nat | DoubleAt(text, p, e')
        ensures close.value + 2 <= e'
      {
        assert ClosesAt(text, e' - 2);
      }
    } else {
      CloseMakesDouble(text, p);
      var bracket := FindBracket(text, p + 1);
      if HasSingle(text, p) {
        var e :| SingleAt(text, p, e);
        assert bracket == Some(e - 1);
      }
      if r.Some? {
        assert SingleAt(text, p, bracket.value + 1);
      }
    }
  }

  /** `regex.exec(text)` with `regex.lastIndex == from`: the leftmost match
      starting at or after from, or none. */
  function Exec(text: string, from: nat): (r: Option<Match>)
    decreases |text| - from
    ensures r.Some? ==> from <= r.value.start && r.value.start + 3 <= r.value.End() <= |text|
  {
    if from >= |text| then None
    else if MatchAt(text, from).Some? then MatchAt(text, from)
    else Exec(text, from + 1)
  }

  /** Exec reports the match at the first offset from `from` on where the
      regex matches, and finds nothing only when it matches nowhere there. */
  lemma {:induction false} ExecIsLeftmost(text: string, from: nat)
    decreases |text| - from
    ensures Exec(text, from).Some? ==> MatchAt(text, Exec(text, from).value.start) == Exec(text, from)
    ensures forall p :: from <= p && (Exec(text, from).None? || p < Exec(text, from).value.start) ==>
      MatchAt(text, p).None?
  {
    if from < |text| && MatchAt(text, from).None? {
      ExecIsLeftmost(text, from + 1);
    }
  }

  /** A piece of a text value as the scan cuts it: text between matches, or a match. */
  datatype Segment = Gap(text: string) | Bracket(m: Match)

  /** The characters of the text value a segment covers. */
  function Raw(s: Segment): string {
    match s
    case Gap(t) => t
    case Bracket(m) => m.Whole()
  }

  /** The characters the segments cover, joined in order. */
  function RawText(segs: seq<Segment>): string {
    if segs == [] then [] else Raw(segs[0]) + RawText(segs[1..])
  }

  /** The segments the scan finds from cursor `from` on: before each match
      the text skipped since the cursor, when there is any, then the match.
      The text after the last match is not a segment (see ScanEnd). */
  function Segments(text: string, from: nat): (r: seq<Segment>)
    requires from <= |text|
    decreases |text| - from
    ensures forall k :: 0 <= k < |r| && r[k].Gap? ==> r[k].text != []
  {
    match Exec(text, from)
    case None => []
    case Some(m) =>
      GapBefore(text, from, m.start) + [Bracket(m)] + Segments(text, m.End())
  }

  /** Where the cursor stands when `exec` finds nothing more. */
  function ScanEnd(text: string, from: nat): (r: nat)
    requires from <= |text|
    decreases |text| - from
    ensures from <= r <= |text|
    ensures Exec(text, r).None?
  {
    match Exec(text, from)
    case None => from
    case Some(m) => ScanEnd(text, m.End())
  }

  lemma {:induction false} RawTextAppend(a: seq<Segment>, b: seq<Segment>)
    ensures RawText(a + b) == RawText(a) + RawText(b)
  {
    if a == [] {
      assert a + b == b;
    } else {
      assert (a + b)[1..] == a[1..] + b;
      RawTextAppend(a[1..], b);
    }
  }

  /** Joining the pieces of one loop turn: the gap, the raw match and what
      the rest of the scan covers give back the text from the cursor on. */
  lemma JoinTurn(text: string, from: nat, start: nat, end: nat, after: nat, r: string)
    requires from <= start <= end <= after <= |text|
    requires r + text[after..] == text[end..]
    ensures (text[from..start] + text[start..end] + r) + text[after..] == text[from..]
  {
    AppendAssoc(text[from..start] + text[start..end], r, text[after..]);
    SliceJoin(text, from, start, end);
    SliceJoin(text, from, end, |text|);
  }

  /** Nothing is lost or invented: the segments, joined in order, followed
      by the text after the last match, give back the text from the cursor on. */
  lemma {:induction false} SegmentsCoverText(text: string, from: nat)
    requires from <= |text|
    decreases |text| - from
    ensures RawText(Segments(text, from)) + text[ScanEnd(text, from)..] == text[from..]
  {
    match Exec(text, from)
    case None =>
    case Some(m) =>
      SegmentsStep(text, from, m);
      ExecIsLeftmost(text, from);
      var gap := GapBefore(text, from, m.start);
      var rest := Segments(text, m.End());
      SegmentsCoverText(text, m.End());
      MatchSpansWhole(text, m.start);
      RawTextAppend(gap + [Bracket(m)], rest);
      RawTextAppend(gap, [Bracket(m)]);
      assert RawText(gap) == text[from..m.start];
      assert RawText([Bracket(m)]) == text[m.start..m.End()];
      JoinTurn(text, from, m.start, m.End(), ScanEnd(text, from), RawText(rest));
  }

  /** Every segment of the list is a gap. */
  predicate AllGaps(segs: seq<Segment>) {
    forall k :: 0 <= k < |segs| ==> segs[k].Gap?
  }

  /** Every bracket segment of the list is the regex's match at its offset. */
  predicate BracketsAreMatches(text: string, segs: seq<Segment>) {
    forall k :: 0 <= k < |segs| && segs[k].Bracket? ==> MatchAt(text, segs[k].m.start) == Some(segs[k].m)
  }

  /** No bracket segment of the list starts before offset p. */
  predicate BracketsStartAfter(segs: seq<Segment>, p: nat) {
    forall k :: 0 <= k < |segs| && segs[k].Bracket? ==> p <= segs[k].m.start
  }

  /** The bracket segments of the list come left to right without overlap. */
  predicate BracketsOrdered(segs: seq<Segment>) {
    forall k, l :: 0 <= k < l < |segs| && segs[k].Bracket? && segs[l].Bracket? ==>
      segs[k].m.End() <= segs[l].m.start
  }

  /** Where the pieces of one loop turn sit in the joined list. */
  lemma TurnIndex(gap: seq<Segment>, m: Match, rest: seq<Segment>, k: int)
    requires 0 <= k < |gap + [Bracket(m)] + rest|
    ensures k < |gap| ==> (gap + [Bracket(m)] + rest)[k] == gap[k]
    ensures k == |gap| ==> (gap + [Bracket(m)] + rest)[k] == Bracket(m)
    ensures k > |gap| ==> (gap + [Bracket(m)] + rest)[k] == rest[k - |gap| - 1]
  {
  }

  lemma TurnMatches(text: string, gap: seq<Segment>, m: Match, rest: seq<Segment>)
    requires AllGaps(gap) && MatchAt(text, m.start) == Some(m) && BracketsAreMatches(text, rest)
    ensures BracketsAreMatches(text, gap + [Bracket(m)] + rest)
  {
    forall k | 0 <= k < |gap + [Bracket(m)] + rest|
      ensures (gap + [Bracket(m)] + rest)[k].Bracket? ==>
        MatchAt(text, (gap + [Bracket(m)] + rest)[k].m.start) == Some((gap + [Bracket(m)] + rest)[k].m)
    {
      TurnIndex(gap, m, rest, k);
    }
  }

  lemma TurnStartsAfter(from: nat, gap: seq<Segment>, m: Match, rest: seq<Segment>)
    requires AllGaps(gap) && from <= m.start && BracketsStartAfter(rest, m.End())
    ensures BracketsStartAfter(gap + [Bracket(m)] + rest, from)
  {
    forall k | 0 <= k < |gap + [Bracket(m)] + rest|
      ensures (gap + [Bracket(m)] + rest)[k].Bracket? ==> from <= (gap + [Bracket(m)] + rest)[k].m.start
    {
      TurnIndex(gap, m, rest, k);
    }
  }

  lemma TurnOrdered(gap: seq<Segment>, m: Match, rest: seq<Segment>)
    requires AllGaps(gap) && BracketsOrdered(rest) && BracketsStartAfter(rest, m.End())
    ensures BracketsOrdered(gap + [Bracket(m)] + rest)
  {
    var s := gap + [Bracket(m)] + rest;
    forall k, l | 0 <= k < l < |s| && s[k].Bracket? && s[l].Bracket?
      ensures s[k].m.End() <= s[l].m.start
    {
      TurnIndex(gap, m, rest, k);
      TurnIndex(gap, m, rest, l);
    }
  }

  /** Every bracket segment is a genuine match of the regex at its offset. */
  lemma {:induction false} SegmentsAreMatches(text: string, from: nat)
    requires from <= |text|
    decreases |text| - from
    ensures BracketsAreMatches(text, Segments(text, from))
  {
    match Exec(text, from)
    case None =>
    case Some(m) =>
      SegmentsStep(text, from, m);
      ExecIsLeftmost(text, from);
      SegmentsAreMatches(text, m.End());
      TurnMatches(text, GapBefore(text, from, m.start), m, Segments(text, m.End()));
  }

  /** No segment's match starts before the cursor the scan started from. */
  lemma {:induction false} SegmentsStartAfter(text: string, from: nat)
    requires from <= |text|
    decreases |text| - from
    ensures BracketsStartAfter(Segments(text, from), from)
  {
    match Exec(text, from)
    case None =>
    case Some(m) =>
      SegmentsStep(text, from, m);
      SegmentsStartAfter(text, m.End());
      TurnStartsAfter(from, GapBefore(text, from, m.start), m, Segments(text, m.End()));
  }

  /** The matches are found left to right without overlap: each bracket
      segment ends at or before the next one starts. */
  lemma {:induction false} SegmentsAreOrdered(text: string, from: nat)
    requires from <= |text|
    decreases |text| - from
    ensures BracketsOrdered(Segments(text, from))
  {
    match Exec(text, from)
    case None =>
    case Some(m) =>
      SegmentsStep(text, from, m);
      SegmentsAreOrdered(text, m.End());
      SegmentsStartAfter(text, m.End());
      TurnOrdered(GapBefore(text, from, m.start), m, Segments(text, m.End()));
  }

  /** The node pushed for a segment: a gap stays text; a match becomes a
      formula (display for `[[...]]`, inline for `[...]`) when its inner
      text is math-like, and is kept as text, brackets included, otherwise. */
  function RenderSegment(s: Segment): (n: Node)
    ensures n.Text? || n.IsMath()
    ensures n.Text? ==> n.value == Raw(s)
    ensures n.IsMath() <==> s.Bracket? && IsMathLike(s.m.inner)
    ensures n.IsMath() ==> n.value == NormalizeDecimalComma(s.m.inner) && (n.Math? <==> s.m.double)
  {
    match s
    case Gap(t) => Text(t)
    case Bracket(m) =>
      if IsMathLike(m.inner) then
        var normalized := NormalizeDecimalComma(m.inner);
        if m.IsDisplay() then Math(normalized) else InlineMath(normalized)
      else
        Text(m.Whole())
  }

  /** The nodes pushed for the segments, in order. */
  function RenderAll(segs: seq<Segment>): seq<Node> {
    if segs == [] then [] else [RenderSegment(segs[0])] + RenderAll(segs[1..])
  }

  lemma {:induction false} RenderAllAppend(a: seq<Segment>, b: seq<Segment>)
    ensures RenderAll(a + b) == RenderAll(a) + RenderAll(b)
  {
    if a == [] {
      assert a + b == b;
    } else {
      assert (a + b)[1..] == a[1..] + b;
      RenderAllAppend(a[1..], b);
    }
  }

  /** Rendering is segment by segment: one node per segment, in order. */
  lemma {:induction false} RenderAllAt(segs: seq<Segment>)
    ensures |RenderAll(segs)| == |segs|
    ensures forall k :: 0 <= k < |segs| ==> RenderAll(segs)[k] == RenderSegment(segs[k])
  {
    if segs != [] {
      RenderAllAt(segs[1..]);
      assert forall k :: 1 <= k < |segs| ==> segs[k] == segs[1..][k - 1];
    }
  }

  /** Rendering makes only text and math nodes: nothing it emits has
      children, and none of it is code, inline code or html. */
  lemma {:induction false} RenderAllIsFlat(segs: seq<Segment>)
    ensures forall k :: 0 <= k < |RenderAll(segs)| ==> RenderAll(segs)[k].Text? || RenderAll(segs)[k].IsMath()
  {
    if segs != [] {
      RenderAllIsFlat(segs[1..]);
      assert forall k :: 1 <= k < |RenderAll(segs)| ==> RenderAll(segs)[k] == RenderAll(segs[1..])[k - 1];
    }
  }

  /** `anyReplace`: the rendered nodes hold a formula exactly when some
      bracket segment has a math-like inner text. */
  lemma {:induction false} HasMathIffConverts(segs: seq<Segment>)
    ensures HasMath(RenderAll(segs)) <==>
      exists k :: 0 <= k < |segs| && segs[k].Bracket? && IsMathLike(segs[k].m.inner)
  {
    if segs != [] {
      HasMathIffConverts(segs[1..]);
      var nodes := RenderAll(segs);
      assert nodes[0] == RenderSegment(segs[0]);
      assert forall k :: 1 <= k < |nodes| ==> nodes[k] == RenderAll(segs[1..])[k - 1];
      assert forall k :: 1 <= k < |segs| ==> segs[k] == segs[1..][k - 1];
      if HasMath(nodes) {
        var k :| 0 <= k < |nodes| && nodes[k].IsMath();
        if k > 0 {
          assert RenderAll(segs[1..])[k - 1].IsMath();
          var k' :| 0 <= k' < |segs[1..]| && segs[1..][k'].Bracket? && IsMathLike(segs[1..][k'].m.inner);
          assert segs[k' + 1] == segs[1..][k'];
        }
      }
      if exists k :: 0 <= k < |segs| && segs[k].Bracket? && IsMathLike(segs[k].m.inner) {
        var k :| 0 <= k < |segs| && segs[k].Bracket? && IsMathLike(segs[k].m.inner);
        if k > 0 {
          assert segs[1..][k - 1] == segs[k];
          var k' :| 0 <= k' < |RenderAll(segs[1..])| && RenderAll(segs[1..])[k'].IsMath();
          assert nodes[k' + 1].IsMath();
        } else {
          assert nodes[0].IsMath();
        }
      }
    }
  }

  /** The gap segment pushed before a match that starts at `start`, when
      the cursor stands before it. */
  function GapBefore(text: string, from: nat, start: nat): seq<Segment>
    requires from <= start <= |text|
  {
    if from < start then [Gap(text[from..start])] else []
  }

  /** One step of the cursor: the segments from `from` are the gap before
      the next match, the match, and the segments from just past it. */
  lemma SegmentsStep(text: string, from: nat, m: Match)
    requires from <= |text| && Exec(text, from) == Some(m)
    ensures from <= m.start && m.End() <= |text|
    ensures Segments(text, from) == GapBefore(text, from, m.start) + [Bracket(m)] + Segments(text, m.End())
    ensures ScanEnd(text, from) == ScanEnd(text, m.End())
  {
  }

  /** One iteration of the scan loop: the nodes from cursor `from` on are
      the gap text (when there is any), the node for the next match, and the
      nodes from the cursor past that match. */
  lemma ScanStep(text: string, from: nat, m: Match)
    requires from <= |text| && Exec(text, from) == Some(m)
    ensures m.End() <= |text|
    ensures RenderAll(Segments(text, from)) ==
      (if from < m.start then [Text(text[from..m.start])] else []) + [RenderSegment(Bracket(m))] +
      RenderAll(Segments(text, m.End()))
    ensures ScanEnd(text, from) == ScanEnd(text, m.End())
  {
    SegmentsStep(text, from, m);
    var gap := GapBefore(text, from, m.start);
    var rest := Segments(text, m.End());
    RenderAllAppend(gap + [Bracket(m)], rest);
    RenderAllAppend(gap, [Bracket(m)]);
  }

  /** The scan loop over one text value: `newNodes` as built by the loop,
      whether any match was converted, and the final cursor. */
  method ScanText(text: string) returns (newNodes: seq<Node>, anyReplace: bool, lastIndex: nat)
    ensures newNodes == RenderAll(Segments(text, 0))
    ensures anyReplace <==> HasMath(newNodes)
    ensures lastIndex == ScanEnd(text, 0)
  {
    newNodes, anyReplace, lastIndex := [], false, 0;
    var found := Exec(text, lastIndex);
    while found.Some?
      invariant lastIndex <= |text|
      invariant found == Exec(text, lastIndex)
      invariant RenderAll(Segments(text, 0)) == newNodes + RenderAll(Segments(text, lastIndex))
      invariant anyReplace <==> HasMath(newNodes)
      invariant ScanEnd(text, 0) == ScanEnd(text, lastIndex)
      decreases |text| - lastIndex
    {
      var m := found.value;
      ScanStep(text, lastIndex, m);
      ghost var before := newNodes;
      ghost var gapNodes := if lastIndex < m.start then [Text(text[lastIndex..m.start])] else [];
      ghost var rest := RenderAll(Segments(text, m.End()));
      if m.start > lastIndex {
        HasMathPush(newNodes, Text(text[lastIndex..m.start]));
        newNodes := newNodes + [Text(text[lastIndex..m.start])];
      }
      assert newNodes == before + gapNodes;
      var node;
      if IsMathLike(m.inner) {
        var normalized := NormalizeDecimalComma(m.inner);
        if m.IsDisplay() {
          node := Math(normalized);
        } else {
          node := InlineMath(normalized);
        }
        anyReplace := true;
      } else {
        node := Text(m.Whole());
      }
      HasMathPush(newNodes, node);
      newNodes := newNodes + [node];
      assert node == RenderSegment(Bracket(m));
      AppendAssoc(before, gapNodes + [node], rest);
      AppendAssoc(before, gapNodes, [node]);
      lastIndex := m.End();
      found := Exec(text, lastIndex);
    }
  }
}
