/** A parsed XML document as a value: text nodes and elements with their raw
    (prefixed) name, attributes and ordered children.  Ox reports the raw
    name ("gd:email"); Nokogiri's `name` is the local part ("email"). */
module Xml {
  import opened Util

  datatype XNode =
    | Text(text: string)
    | Element(name: string, attrs: map<string, string>, nodes: seq<XNode>)

  predicate IsNamed(n: XNode, name: string) {
    n.Element? && n.name == name
  }

  /** `e[key]`: the attribute value, nil when absent. */
  function Attr(n: XNode, key: string): Option<string> {
    if n.Element? && key in n.attrs then Some(n.attrs[key]) else None
  }

  /** The element children of `nodes` with the given name, in order. */
  function Named(nodes: seq<XNode>, name: string): (r: seq<XNode>)
    ensures forall x :: x in r <==> x in nodes && IsNamed(x, name)
  {
    Filter(nodes, x => IsNamed(x, name))
  }

  /** The first element child with the given name. */
  function FirstNamed(nodes: seq<XNode>, name: string): (r: Option<XNode>)
    ensures r.Some? <==> exists x :: x in nodes && IsNamed(x, name)
    ensures r.Some? ==> r.value in nodes && IsNamed(r.value, name)
  {
    if nodes == [] then None
    else if IsNamed(nodes[0], name) then Some(nodes[0])
    else FirstNamed(nodes[1..], name)
  }

  /** The children of an element; a text node has none. */
  function Children(n: XNode): seq<XNode> {
    if n.Element? then n.nodes else []
  }

  /** Ox's `Element#text`: the first text node among the children. */
  function FirstText(nodes: seq<XNode>): Option<string> {
    if nodes == [] then None
    else if nodes[0].Text? then Some(nodes[0].text)
    else FirstText(nodes[1..])
  }

  function TextOf(n: XNode): Option<string> {
    if n.Element? then FirstText(n.nodes) else None
  }

  /** Nokogiri's `inner_text`: all descendant text, concatenated. */
  function InnerText(n: XNode): string
    decreases n, 1
  {
    match n
    case Text(t) => t
    case Element(_, _, kids) => InnerTextAll(kids, n)
  }

  function InnerTextAll(kids: seq<XNode>, ghost parent: XNode): string
    requires forall k :: k in kids ==> k < parent
    decreases parent, 0, |kids|
  {
    if kids == [] then ""
    else
      assert kids[0] in kids;
      assert forall k :: k in kids[1..] ==> k in kids;
      InnerText(kids[0]) + InnerTextAll(kids[1..], parent)
  }

  /** The concatenated text of a list of children does not depend on the
      element that holds them. */
  lemma {:induction false} InnerTextAllOfAnyParent(kids: seq<XNode>, p: XNode, q: XNode)
    requires forall k :: k in kids ==> k < p
    requires forall k :: k in kids ==> k < q
    ensures InnerTextAll(kids, p) == InnerTextAll(kids, q)
    decreases |kids|
  {
    if kids != [] {
      assert forall k :: k in kids[1..] ==> k in kids;
      InnerTextAllOfAnyParent(kids[1..], p, q);
    }
  }

  /** Two elements with the same children have the same inner text. */
  lemma InnerTextOfChildren(n: XNode, m: XNode)
    requires n.Element? && m.Element? && n.nodes == m.nodes
    ensures InnerText(n) == InnerText(m)
  {
    InnerTextAllOfAnyParent(n.nodes, n, m);
  }

  /** The part of a raw name after its namespace prefix (Nokogiri's `name`). */
  function LocalName(raw: string): (r: string)
    ensures ':' in raw ==> |r| < |raw|
    ensures ':' !in raw ==> r == raw
  {
    match IndexOf(raw, ':')
    case None => raw
    case Some(k) => raw[k + 1..]
  }

  /** A leaf element holding one text node. */
  function Leaf(name: string, attrs: map<string, string>, text: string): XNode {
    Element(name, attrs, [Text(text)])
  }

  predicate HasText(nodes: seq<XNode>) {
    exists x :: x in nodes && x.Text?
  }
}
