/** The part of a markdown syntax tree (mdast) that the bracket-math pass reads and writes. */
module Mdast {

  /** A node of the tree. `Parent` stands for every kind that owns an ordered
      child list (root, paragraph, emphasis, list item, ...); a kind with no
      children at all (a break, an image) is a `Parent` with an empty list,
      which the pass treats the same way. `InlineMath` and `Math` are the
      kinds the pass produces (`inlineMath` and `math` in mdast). The
      `kind` of a `Parent` is never one of the kinds below with a
      constructor of its own; `WellKinded` states this. */
  datatype Node =
    | Text(value: string)
    | Code(value: string)
    | InlineCode(value: string)
    | Html(value: string)
    | InlineMath(value: string)
    | Math(value: string)
    | Parent(kind: string, children: seq<Node>)
  {
    /** Kinds the pass neither enters nor changes: `code`, `inlineCode`, `html`. */
    predicate IsOpaque() {
      Code? || InlineCode? || Html?
    }

    /** The kinds that carry a formula. */
    predicate IsMath() {
      InlineMath? || Math?
    }
  }

  /** The mdast type names that have constructors of their own. */
  const OwnKinds: set<string> := {"text", "code", "inlineCode", "html", "inlineMath", "math"}

  /** A tree the parser can produce: no `Parent` claims one of the kinds
      that have constructors of their own, at any depth. */
  predicate WellKinded(n: Node)
    decreases n
  {
    n.Parent? ==> n.kind !in OwnKinds && forall c :: c in n.children ==> WellKinded(c)
  }

  /** Some node of the list carries a formula. */
  predicate HasMath(nodes: seq<Node>) {
    exists k :: 0 <= k < |nodes| && nodes[k].IsMath()
  }

  lemma HasMathPush(nodes: seq<Node>, n: Node)
    ensures HasMath(nodes + [n]) <==> HasMath(nodes) || n.IsMath()
  {
    if HasMath(nodes) {
      var k :| 0 <= k < |nodes| && nodes[k].IsMath();
      assert (nodes + [n])[k] == nodes[k];
    }
    if n.IsMath() {
      assert (nodes + [n])[|nodes|] == n;
    }
  }
}
