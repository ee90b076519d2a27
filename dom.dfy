/**
  The parsed page as far as the extraction core sees it. CSS selector
  matching is not modelled: a selector's result is given to the core as the
  sequence of nodes it selected, in document order.
 */
module Dom {
  import opened Results

  /** A DOM node: text, comment (both carry `data`), or an element with attributes and children. */
  datatype Node =
    | Text(data: string)
    | Comment(data: string)
    | Elem(name: string, attrs: map<string, string>, children: seq<Node>)

  /** A Cheerio selection: the selected nodes, in document order. */
  type Selection = seq<Node>

  /** `.text()` of one node: the data of its descendant text nodes, in document order. */
  function TextContent(n: Node): string
    decreases n
  {
    match n
    case Text(d) => d
    case Comment(_) => ""
    case Elem(_, _, cs) => TextOfAll(cs)
  }

  /** `.text()` of a selection: the text of its nodes, concatenated. */
  function TextOfAll(ns: seq<Node>): string
    decreases ns
  {
    if ns == [] then "" else TextContent(ns[0]) + TextOfAll(ns[1..])
  }

  /** `.first().text()`: the text of the first selected node, "" for an empty selection. */
  function FirstText(sel: Selection): string {
    if sel == [] then "" else TextContent(sel[0])
  }

  predicate IsElement(n: Node) { n.Elem? }

  /** The node is an element with tag `name` (`.is(name)` for a tag selector). */
  predicate IsElementNamed(n: Node, name: string) {
    n.Elem? && n.name == name
  }

  /** The value of attribute `key`, if the node is an element that has it. */
  function Attribute(n: Node, key: string): Option<string> {
    if n.Elem? && key in n.attrs then Some(n.attrs[key]) else None
  }

  /** `.contents()` of a node: an element's child nodes; a text or comment node has none. */
  function ChildNodes(n: Node): seq<Node> {
    if n.Elem? then n.children else []
  }

  /** `.firstChild`, `null` for a node without children. */
  function FirstChild(n: Node): Option<Node> {
    if n.Elem? && |n.children| > 0 then Some(n.children[0]) else None
  }

  /** `.children(name)`: the element children with tag `name`, in order. */
  function ChildrenNamed(ns: seq<Node>, name: string): (r: seq<Node>)
    ensures forall k :: 0 <= k < |r| ==> IsElementNamed(r[k], name)
    ensures |r| <= |ns|
  {
    if ns == [] then []
    else (if IsElementNamed(ns[0], name) then [ns[0]] else []) + ChildrenNamed(ns[1..], name)
  }
}
