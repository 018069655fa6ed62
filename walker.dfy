/** The tree walk of the plugin: every text child is replaced in its
    parent's child list by the nodes the bracket scan cuts it into, provided
    at least one match became a formula; code, inline code and raw html are
    skipped; every other child is walked recursively. */
module Walker {
  import opened Mdast
  import opened BracketScanner

  /** The text after the last match, pushed only when it is not empty. */
  function Remainder(text: string, end: nat): (r: seq<Node>)
    requires end <= |text|
    ensures r == [] <==> end == |text|
    ensures forall k :: 0 <= k < |r| ==> r[k].Text? && r[k].value == text[end..] && r[k].value != []
  {
    if end < |text| then [Text(text[end..])] else []
  }

  /** What a text child with this value turns into: the scanned nodes and
      the remainder when some match became a formula, else the child itself. */
  function TextReplacement(text: string): (r: seq<Node>)
    ensures r != []
  {
    var nodes := RenderAll(Segments(text, 0));
    if HasMath(nodes) then nodes + Remainder(text, ScanEnd(text, 0)) else [Text(text)]
  }

  /** `children.splice(i, 1, ...newNodes)`: the child at i is replaced by
      newNodes, the siblings before it stay in place, and those after it
      follow the inserted nodes, starting at i + |newNodes|. */
  function Splice(children: seq<Node>, i: nat, newNodes: seq<Node>): (r: seq<Node>)
    requires i < |children|
    ensures |r| == |children| - 1 + |newNodes|
    ensures r[..i] == children[..i]
    ensures r[i..i + |newNodes|] == newNodes
    ensures r[i + |newNodes|..] == children[i + 1..]
  {
    children[..i] + newNodes + children[i + 1..]
  }

  /** `walk(tree)`: the node with every child list rewritten. */
  function Transform(n: Node): Node
    decreases n, 0
  {
    match n
    case Parent(kind, children) => Parent(kind, TransformChildren(children))
    case _ => n
  }

  /** What one child becomes in its parent's list. */
  function TransformChild(c: Node): seq<Node>
    decreases c, 1
  {
    if c.IsOpaque() then [c]
    else if c.Text? then TextReplacement(c.value)
    else [Transform(c)]
  }

  function TransformChildren(cs: seq<Node>): seq<Node>
    decreases cs
  {
    if cs == [] then [] else TransformChild(cs[0]) + TransformChildren(cs[1..])
  }

  lemma {:induction false} TransformChildrenAppend(a: seq<Node>, b: seq<Node>)
    ensures TransformChildren(a + b) == TransformChildren(a) + TransformChildren(b)
  {
    if a == [] {
      assert a + b == b;
    } else {
      assert (a + b)[1..] == a[1..] + b;
      TransformChildrenAppend(a[1..], b);
    }
  }

  /** Extending the processed prefix of a child list by one child. */
  lemma TransformChildrenPrefix(cs: seq<Node>, j: nat)
    requires j < |cs|
    ensures TransformChildren(cs[..j + 1]) == TransformChildren(cs[..j]) + TransformChild(cs[j])
  {
    assert cs[..j + 1] == cs[..j] + [cs[j]];
    TransformChildrenAppend(cs[..j], [cs[j]]);
  }

  /** The index arithmetic after an in-place splice: when the child list is
      the rewritten first j original children followed by the original
      children from j on, replacing the child at offset |done| by what it
      becomes gives the same picture for j + 1, and the next offset is
      |done| + |newNodes|, so the loop resumes at the next original sibling
      and never visits an inserted node. */
  lemma SpliceResumesAtNextSibling(cs: seq<Node>, j: nat, newNodes: seq<Node>)
    requires j < |cs|
    requires newNodes == TransformChild(cs[j])
    ensures var done := TransformChildren(cs[..j]);
      Splice(done + cs[j..], |done|, newNodes) == TransformChildren(cs[..j + 1]) + cs[j + 1..]
      && |TransformChildren(cs[..j + 1])| == |done| + |newNodes|
  {
    var done := TransformChildren(cs[..j]);
    TransformChildrenPrefix(cs, j);
    assert (done + cs[j..])[|done| + 1..] == cs[j + 1..];
    assert (done + cs[j..])[..|done|] == done;
    AppendAssoc(done, newNodes, cs[j + 1..]);
  }

  /** Putting a child back in its own place changes nothing. */
  lemma SpliceSame(children: seq<Node>, i: nat)
    requires i < |children|
    ensures Splice(children, i, [children[i]]) == children
  {
    assert children == children[..i] + [children[i]] + children[i + 1..];
  }

  /** Replacing one child by one node is an update at its index. */
  lemma SpliceOne(children: seq<Node>, i: nat, n: Node)
    requires i < |children|
    ensures Splice(children, i, [n]) == children[i := n]
  {
  }

  /** The scan of one text child (`newNodes`, `anyReplace`) followed by
      the push of the remainder, which happens only when some match
      converted. */
  method SplitText(text: string) returns (newNodes: seq<Node>, anyReplace: bool)
    ensures anyReplace <==> HasMath(TextReplacement(text))
    ensures anyReplace ==> newNodes == TextReplacement(text) && |newNodes| > 0
    ensures !anyReplace ==> TextReplacement(text) == [Text(text)]
  {
    var lastIndex;
    newNodes, anyReplace, lastIndex := ScanText(text);
    if anyReplace {
      if lastIndex < |text| {
        HasMathPush(newNodes, Text(text[lastIndex..]));
        newNodes := newNodes + [Text(text[lastIndex..])];
      }
    } else {
      assert !HasMath([Text(text)]) by { assert !Text(text).IsMath(); }
    }
  }

  /** `walk(tree)`: the child list of a parent is rewritten in place, one
      original child per loop turn. */
  method Walk(node: Node) returns (r: Node)
    ensures r == Transform(node)
    decreases node, 1
  {
    if !node.Parent? {
      return node;
    }
    var children := node.children;
    var i := 0;
    ghost var j := 0;
    ghost var cs := node.children;
    while i < |children|
      invariant j <= |cs| && i == |TransformChildren(cs[..j])|
      invariant children == TransformChildren(cs[..j]) + cs[j..]
      decreases |cs| - j
    {
      children, i := VisitChild(cs, j, children, i);
      i := i + 1;
      j := j + 1;
    }
    assert cs[..j] == cs;
    r := node.(children := children);
  }

  /** One turn of the walk's loop, on the child at offset i: code, inline
      code and html are skipped, a text child is spliced out for its
      replacement when one of its matches became a formula (and i moves to
      the last inserted node), any other child is walked in place. The
      children before i are the rewritten first j original children and the
      rest are the original children from j on; afterwards the same holds
      for j + 1 at offset i + 1. */
  method VisitChild(ghost cs: seq<Node>, ghost j: nat, children: seq<Node>, i: nat)
      returns (children': seq<Node>, i': nat)
    requires j < |cs| && i == |TransformChildren(cs[..j])|
    requires children == TransformChildren(cs[..j]) + cs[j..]
    ensures i' + 1 == |TransformChildren(cs[..j + 1])|
    ensures children' == TransformChildren(cs[..j + 1]) + cs[j + 1..]
    decreases cs, 0
  {
    var child := children[i];
    assert child == cs[j];
    children', i' := children, i;
    if child.IsOpaque() {
      SpliceResumesAtNextSibling(cs, j, [child]);
      SpliceSame(children, i);
    } else if child.Text? {
      var newNodes, anyReplace := SplitText(child.value);
      SpliceResumesAtNextSibling(cs, j, if anyReplace then newNodes else [child]);
      if anyReplace {
        children' := Splice(children, i, newNodes);
        i' := i + |newNodes| - 1;
      } else {
        SpliceSame(children, i);
      }
    } else {
      var walked := Walk(child);
      SpliceResumesAtNextSibling(cs, j, [walked]);
      SpliceOne(children, i, walked);
      children' := children[i := walked];
    }
  }
}
