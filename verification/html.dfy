/**
 The parsed page as the parser sees it: a tree whose children are text nodes
 and elements, in document order. Only what the parser queries is kept: an
 element's tag name, its `id` attribute ("" when absent) and its children.
 */
module Html {
  import opened Strings

  datatype Node =
    | Text(text: string)
    | Element(tag: string, id: string, children: seq<Node>)

  /** The element test the parser writes as `tag.lower() == name`. */
  predicate IsNamed(n: Node, name: string) {
    n.Element? && Lower(n.tag) == name
  }

  /** The text of every text node at or below `n`, concatenated in document
      order. */
  function TextContent(n: Node): string
    decreases n
  {
    match n
    case Text(s) => s
    case Element(_, _, cs) => TextContentAll(cs)
  }

  function TextContentAll(cs: seq<Node>): string
    decreases cs
  {
    if |cs| == 0 then "" else TextContent(cs[0]) + TextContentAll(cs[1..])
  }

  /** The node followed by all of its descendants, in document (pre-)order:
      the node-set `descendant-or-self::node()`. */
  function PreOrder(n: Node): seq<Node> {
    [n] + Descendants(n)
  }

  /** The node-set `descendant::node()`, in document order. */
  function Descendants(n: Node): seq<Node>
    decreases n
  {
    match n
    case Text(_) => []
    case Element(_, _, cs) => PreOrderAll(cs)
  }

  /** Each node of `cs` followed by its descendants, one after the other. */
  function PreOrderAll(cs: seq<Node>): seq<Node>
    decreases cs
  {
    if |cs| == 0 then [] else [cs[0]] + Descendants(cs[0]) + PreOrderAll(cs[1..])
  }

  /** The document order of a child list is that of its parts, one after the other. */
  lemma {:induction false} PreOrderAllAppend(a: seq<Node>, b: seq<Node>)
    ensures PreOrderAll(a + b) == PreOrderAll(a) + PreOrderAll(b)
  {
    if |a| == 0 {
      assert a + b == b;
    } else {
      assert (a + b)[1..] == a[1..] + b;
      PreOrderAllAppend(a[1..], b);
    }
  }
}
