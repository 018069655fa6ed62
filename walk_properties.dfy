/** What the walk promises about a whole tree: the replacement of a text
    child tiles its text, code, inline code and html are carried over
    untouched, and the tree is left as it is exactly when no bracket match
    anywhere in it is math-like. */
module WalkProperties {
  import opened Mdast
  import opened Classifier
  import opened BracketScanner
  import opened Walker

  /** Some bracket match the scan finds in the text has a math-like inner
      text, so the scan sets `anyReplace`. */
  ghost predicate Converts(text: string) {
    var segs := Segments(text, 0);
    exists k :: 0 <= k < |segs| && segs[k].Bracket? && IsMathLike(segs[k].m.inner)
  }

  /** A text child is replaced by the scanned nodes and the remainder when
      some match converts, and is kept as the single original node when
      none does. */
  lemma TextReplacementCases(text: string)
    ensures Converts(text) ==>
      TextReplacement(text) == RenderAll(Segments(text, 0)) + Remainder(text, ScanEnd(text, 0))
    ensures !Converts(text) ==> TextReplacement(text) == [Text(text)]
  {
    HasMathIffConverts(Segments(text, 0));
  }

  /** The pieces a text child is cut into when it is replaced: the scanned
      segments and the non-empty remainder; the whole text when it is not. */
  function Tiling(text: string): seq<Segment> {
    var segs := Segments(text, 0);
    if HasMath(RenderAll(segs)) then
      var end := ScanEnd(text, 0);
      segs + (if end < |text| then [Gap(text[end..])] else [])
    else
      [Gap(text)]
  }

  /** Content preservation: the replacement of a text child is the
      rendering of a tiling of its text, so putting each formula's raw match
      back in place of the formula gives the original text. */
  lemma TextReplacementTiles(text: string)
    ensures RawText(Tiling(text)) == text
    ensures RenderAll(Tiling(text)) == TextReplacement(text)
  {
    var segs := Segments(text, 0);
    if HasMath(RenderAll(segs)) {
      var end := ScanEnd(text, 0);
      var tail := if end < |text| then [Gap(text[end..])] else [];
      RawTextAppend(segs, tail);
      RenderAllAppend(segs, tail);
      SegmentsCoverText(text, 0);
      assert RawText(tail) == text[end..];
      assert RenderAll(tail) == Remainder(text, end);
    } else {
      assert RawText([Gap(text)]) == text;
    }
  }

  /** The inner text of a match is a piece of the text, so it holds a
      backslash, caret, underscore or brace only if the text does. */
  lemma MatchInnerWithoutSignal(text: string, p: nat)
    requires MatchAt(text, p).Some?
    requires forall q :: 0 <= q < |text| ==> !IsSignal(text[q])
    ensures !IsMathLike(MatchAt(text, p).value.inner)
  {
    var m := MatchAt(text, p).value;
    var off := if m.double then 2 else 1;
    assert m.inner == text[p + off..p + off + |m.inner|];
    IsMathLikeIff(m.inner);
  }

  /** A text with no backslash, caret, underscore or brace anywhere is
      never converted, whatever brackets it holds. */
  lemma NoSignalNeverConverts(text: string)
    requires forall q :: 0 <= q < |text| ==> !IsSignal(text[q])
    ensures !Converts(text)
    ensures TextReplacement(text) == [Text(text)]
  {
    SegmentsAreMatches(text, 0);
    assert forall k :: 0 <= k < |Segments(text, 0)| && Segments(text, 0)[k].Bracket? ==>
      MatchAt(text, Segments(text, 0)[k].m.start) == Some(Segments(text, 0)[k].m);
    forall k | 0 <= k < |Segments(text, 0)| && Segments(text, 0)[k].Bracket?
      ensures !IsMathLike(Segments(text, 0)[k].m.inner)
    {
      MatchInnerWithoutSignal(text, Segments(text, 0)[k].m.start);
    }
    TextReplacementCases(text);
  }

  /** No text child anywhere below the node holds a backslash, caret,
      underscore or brace. */
  ghost predicate SignalFree(n: Node)
    decreases n, 0
  {
    n.Parent? ==> SignalFreeAll(n.children)
  }

  ghost predicate SignalFreeAll(cs: seq<Node>)
    decreases cs
  {
    forall k :: 0 <= k < |cs| ==> SignalFreeChild(cs[k])
  }

  ghost predicate SignalFreeChild(c: Node)
    decreases c, 1
  {
    if c.Text? then forall q :: 0 <= q < |c.value| ==> !IsSignal(c.value[q])
    else c.Parent? ==> SignalFree(c)
  }

  /** A tree whose text children hold no signal character has no text
      child that converts. */
  lemma {:induction false} SignalFreeIsQuiet(n: Node)
    requires SignalFree(n)
    ensures Quiet(n)
    decreases n, 0
  {
    if n.Parent? {
      SignalFreeAllIsQuiet(n.children);
    }
  }

  lemma {:induction false} SignalFreeAllIsQuiet(cs: seq<Node>)
    requires SignalFreeAll(cs)
    ensures QuietAll(cs)
    decreases cs
  {
    forall k | 0 <= k < |cs|
      ensures QuietChild(cs[k])
    {
      var c := cs[k];
      assert SignalFreeChild(c);
      if c.Text? && !c.IsOpaque() {
        NoSignalNeverConverts(c.value);
      } else if c.Parent? {
        SignalFreeIsQuiet(c);
      }
    }
  }

  /** No signal character, no change: a tree whose text children hold no
      backslash, caret, underscore or brace comes out of the walk as it
      went in, whatever brackets it holds. */
  lemma NoSignalTreeUnchanged(n: Node)
    requires SignalFree(n)
    ensures Transform(n) == n
  {
    SignalFreeIsQuiet(n);
    QuietTransformIsIdentity(n);
  }

  /** The code, inline code and html nodes of a tree, in document order;
      the walk does not look inside them. */
  function OpaqueNodes(n: Node): seq<Node>
    decreases n, 0
  {
    if n.IsOpaque() then [n]
    else if n.Parent? then OpaqueNodesAll(n.children)
    else []
  }

  function OpaqueNodesAll(cs: seq<Node>): seq<Node>
    decreases cs
  {
    if cs == [] then [] else OpaqueNodes(cs[0]) + OpaqueNodesAll(cs[1..])
  }

  /** The number of math and inline math nodes in a tree. */
  function MathCount(n: Node): nat
    decreases n, 0
  {
    if n.IsMath() then 1
    else if n.Parent? then MathCountAll(n.children)
    else 0
  }

  function MathCountAll(cs: seq<Node>): nat
    decreases cs
  {
    if cs == [] then 0 else MathCount(cs[0]) + MathCountAll(cs[1..])
  }

  lemma {:induction false} OpaqueNodesAllAppend(a: seq<Node>, b: seq<Node>)
    ensures OpaqueNodesAll(a + b) == OpaqueNodesAll(a) + OpaqueNodesAll(b)
  {
    if a == [] {
      assert a + b == b;
    } else {
      assert (a + b)[1..] == a[1..] + b;
      OpaqueNodesAllAppend(a[1..], b);
      AppendAssoc(OpaqueNodes(a[0]), OpaqueNodesAll(a[1..]), OpaqueNodesAll(b));
    }
  }

  lemma {:induction false} MathCountAllAppend(a: seq<Node>, b: seq<Node>)
    ensures MathCountAll(a + b) == MathCountAll(a) + MathCountAll(b)
  {
    if a == [] {
      assert a + b == b;
    } else {
      assert (a + b)[1..] == a[1..] + b;
      MathCountAllAppend(a[1..], b);
    }
  }

  /** A list of text and math nodes holds no opaque node, and holds a
      formula exactly when its formula count is positive. */
  lemma {:induction false} FlatNodes(nodes: seq<Node>)
    requires forall k :: 0 <= k < |nodes| ==> nodes[k].Text? || nodes[k].IsMath()
    ensures OpaqueNodesAll(nodes) == []
    ensures HasMath(nodes) <==> MathCountAll(nodes) > 0
  {
    if nodes != [] {
      assert forall k :: 0 <= k < |nodes[1..]| ==> nodes[1..][k] == nodes[k + 1];
      FlatNodes(nodes[1..]);
      if HasMath(nodes) && !nodes[0].IsMath() {
        var k :| 0 <= k < |nodes| && nodes[k].IsMath();
        assert nodes[1..][k - 1].IsMath();
      }
      if !nodes[0].IsMath() && HasMath(nodes[1..]) {
        var k :| 0 <= k < |nodes[1..]| && nodes[1..][k].IsMath();
        assert nodes[k + 1].IsMath();
      }
      if nodes[0].IsMath() {
        assert HasMath(nodes) by { assert nodes[0].IsMath(); }
      }
    }
  }

  /** What a text child turns into holds no opaque node, and holds a
      formula exactly when the child converts. */
  lemma TextReplacementIsFlat(text: string)
    ensures OpaqueNodesAll(TextReplacement(text)) == []
    ensures Converts(text) <==> MathCountAll(TextReplacement(text)) > 0
  {
    var nodes := RenderAll(Segments(text, 0));
    var r := TextReplacement(text);
    RenderAllIsFlat(Segments(text, 0));
    HasMathIffConverts(Segments(text, 0));
    if HasMath(nodes) {
      var rest := Remainder(text, ScanEnd(text, 0));
      assert r == nodes + rest;
      assert forall k :: 0 <= k < |r| ==> r[k].Text? || r[k].IsMath() by {
        forall k | 0 <= k < |r|
          ensures r[k].Text? || r[k].IsMath()
        {
          if k >= |nodes| {
            assert r[k] == rest[k - |nodes|];
          }
        }
      }
      FlatNodes(nodes);
      FlatNodes(r);
      var k :| 0 <= k < |nodes| && nodes[k].IsMath();
      assert r[k].IsMath();
    } else {
      assert MathCountAll(r) == 0 by {
        assert r == [Text(text)];
      }
    }
  }

  /** Code, inline code and html nodes are carried over by the walk in
      their order and unchanged, whatever their text. */
  lemma {:induction false} TransformKeepsOpaque(n: Node)
    ensures OpaqueNodes(Transform(n)) == OpaqueNodes(n)
    decreases n, 0
  {
    if n.Parent? {
      TransformChildrenKeepOpaque(n.children);
    }
  }

  lemma {:induction false} TransformChildrenKeepOpaque(cs: seq<Node>)
    ensures OpaqueNodesAll(TransformChildren(cs)) == OpaqueNodesAll(cs)
    decreases cs
  {
    if cs != [] {
      var c := cs[0];
      TransformChildrenKeepOpaque(cs[1..]);
      OpaqueNodesAllAppend(TransformChild(c), TransformChildren(cs[1..]));
      if c.IsOpaque() {
        assert OpaqueNodesAll([c]) == OpaqueNodes(c);
      } else if c.Text? {
        TextReplacementIsFlat(c.value);
      } else {
        TransformKeepsOpaque(c);
        assert OpaqueNodesAll([Transform(c)]) == OpaqueNodes(Transform(c));
      }
    }
  }

  /** No text child anywhere below the node converts. The root itself is
      never scanned, only the children of a parent are. */
  ghost predicate Quiet(n: Node)
    decreases n, 0
  {
    n.Parent? ==> QuietAll(n.children)
  }

  ghost predicate QuietAll(cs: seq<Node>)
    decreases cs
  {
    forall k :: 0 <= k < |cs| ==> QuietChild(cs[k])
  }

  ghost predicate QuietChild(c: Node)
    decreases c, 1
  {
    if c.IsOpaque() then true
    else if c.Text? then !Converts(c.value)
    else Quiet(c)
  }

  /** The number of formula nodes never drops under the walk, and it rises
      by at least one when some text child converts. */
  lemma {:induction false} TransformAddsFormulas(n: Node)
    ensures MathCount(Transform(n)) >= MathCount(n)
    ensures !Quiet(n) ==> MathCount(Transform(n)) > MathCount(n)
    decreases n, 0
  {
    if n.Parent? {
      TransformChildrenAddFormulas(n.children);
    }
  }

  lemma {:induction false} TransformChildrenAddFormulas(cs: seq<Node>)
    ensures MathCountAll(TransformChildren(cs)) >= MathCountAll(cs)
    ensures !QuietAll(cs) ==> MathCountAll(TransformChildren(cs)) > MathCountAll(cs)
    decreases cs
  {
    if cs != [] {
      var c := cs[0];
      TransformChildrenAddFormulas(cs[1..]);
      MathCountAllAppend(TransformChild(c), TransformChildren(cs[1..]));
      if c.IsOpaque() {
        assert MathCountAll([c]) == MathCount(c);
      } else if c.Text? {
        TextReplacementIsFlat(c.value);
      } else {
        TransformAddsFormulas(c);
        assert MathCountAll([Transform(c)]) == MathCount(Transform(c));
      }
      if !QuietAll(cs) && QuietChild(c) {
        var k :| 0 <= k < |cs| && !QuietChild(cs[k]);
        assert cs[1..][k - 1] == cs[k];
      }
    }
  }

  /** A tree none of whose text children converts comes out of the walk
      as it went in. */
  lemma {:induction false} QuietTransformIsIdentity(n: Node)
    requires Quiet(n)
    ensures Transform(n) == n
    decreases n, 0
  {
    if n.Parent? {
      QuietChildrenUnchanged(n.children);
    }
  }

  lemma {:induction false} QuietChildrenUnchanged(cs: seq<Node>)
    requires QuietAll(cs)
    ensures TransformChildren(cs) == cs
    decreases cs
  {
    if cs != [] {
      var c := cs[0];
      assert QuietChild(c);
      assert forall k :: 0 <= k < |cs[1..]| ==> cs[1..][k] == cs[k + 1];
      QuietChildrenUnchanged(cs[1..]);
      if c.Text? && !c.IsOpaque() {
        TextReplacementCases(c.value);
      } else if !c.IsOpaque() {
        QuietTransformIsIdentity(c);
      }
      assert cs == [c] + cs[1..];
    }
  }

  /** The tree is left unchanged exactly when no text child anywhere in
      it converts. */
  lemma TransformUnchangedIffQuiet(n: Node)
    ensures Transform(n) == n <==> Quiet(n)
  {
    if Quiet(n) {
      QuietTransformIsIdentity(n);
    } else {
      TransformAddsFormulas(n);
    }
  }

  /** The nodes a text child turns into are text and formula nodes only. */
  lemma TextReplacementIsLeaves(text: string)
    ensures forall c :: c in TextReplacement(text) ==> c.Text? || c.IsMath()
  {
    RenderAllIsFlat(Segments(text, 0));
  }

  /** The walk keeps a tree well kinded: it never creates a `Parent`, and
      it keeps the kind of every `Parent` it walks. */
  lemma {:induction false} TransformKeepsWellKinded(n: Node)
    requires WellKinded(n)
    ensures WellKinded(Transform(n))
    ensures n.Parent? ==> Transform(n).Parent? && Transform(n).kind == n.kind
    decreases n, 0
  {
    if n.Parent? {
      TransformChildrenKeepWellKinded(n.children);
    }
  }

  lemma {:induction false} TransformChildrenKeepWellKinded(cs: seq<Node>)
    requires forall c :: c in cs ==> WellKinded(c)
    ensures forall c :: c in TransformChildren(cs) ==> WellKinded(c)
    decreases cs
  {
    if cs != [] {
      var c := cs[0];
      assert c in cs;
      assert forall d :: d in cs[1..] ==> d in cs;
      TransformChildrenKeepWellKinded(cs[1..]);
      if c.Text? && !c.IsOpaque() {
        TextReplacementIsLeaves(c.value);
      } else if c.Parent? {
        TransformKeepsWellKinded(c);
      }
      assert forall d :: d in TransformChild(c) ==> WellKinded(d);
      assert TransformChildren(cs) == TransformChild(c) + TransformChildren(cs[1..]);
    }
  }

  /** The walk keeps a node's shape: a parent stays a parent of the same
      kind, and any other node is returned as it is. */
  lemma TransformShape(n: Node)
    ensures Transform(n).Parent? <==> n.Parent?
    ensures n.Parent? ==> Transform(n).kind == n.kind
    ensures !n.Parent? ==> Transform(n) == n
  {
  }

  /** A child never vanishes from its parent's list, and only a text child
      can turn into more than one node. */
  lemma TransformChildShape(c: Node)
    ensures TransformChild(c) != []
    ensures !c.Text? ==> |TransformChild(c)| == 1
    ensures c.IsOpaque() ==> TransformChild(c) == [c]
  {
  }

  /** The rewritten child list is never shorter than the original, and is
      empty only when the original is. */
  lemma {:induction false} TransformChildrenLonger(cs: seq<Node>)
    ensures |TransformChildren(cs)| >= |cs|
    ensures TransformChildren(cs) == [] <==> cs == []
    decreases cs
  {
    if cs != [] {
      TransformChildShape(cs[0]);
      TransformChildrenLonger(cs[1..]);
    }
  }
}
