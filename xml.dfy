/** The parsed XML tree the feed core reads (a pugixml document), and the two
    required-field lookups `REQUIRENODE` and `REQUIREATTRIB` of src/rss.cpp. */
module Xml {
  import opened Failures
  import opened Numbers

  datatype Attribute = Attribute(name: string, value: string)

  /** A pugixml node handle: `Null` is the empty handle that lookups return when
      nothing matches; `text` is what `node.text().as_string()` yields. A document
      is the node whose children are the top-level elements. */
  datatype Node =
    | Null
    | Element(name: string, text: StdString, attributes: seq<Attribute>, children: seq<Node>)

  predicate Named(n: Node, name: string) { n.Element? && n.name == name }

  /** Index of the first node of `ns` named `name`, or `|ns|` when none is. */
  function FirstNamed(ns: seq<Node>, name: string): (i: nat)
    ensures i <= |ns|
    ensures i < |ns| ==> Named(ns[i], name)
    ensures forall j :: 0 <= j < i ==> !Named(ns[j], name)
  {
    if ns == [] then 0
    else if Named(ns[0], name) then 0
    else 1 + FirstNamed(ns[1..], name)
  }

  /** `node.child(name)`: the first child element with that name, or `Null`. */
  function Child(n: Node, name: string): (c: Node)
    ensures c != Null ==> Named(c, name) && n.Element? && c in n.children
    ensures c == Null <==> n.Null? || forall k :: 0 <= k < |n.children| ==> !Named(n.children[k], name)
    ensures n.Element? ==> forall i :: 0 <= i < |n.children| && Named(n.children[i], name)
                                      && (forall j :: 0 <= j < i ==> !Named(n.children[j], name))
                                      ==> c == n.children[i]
  {
    if n.Null? then Null
    else
      var i := FirstNamed(n.children, name);
      if i < |n.children| then n.children[i] else Null
  }

  /** `node.text().as_string()`: the text, or "" for the null node. */
  function Text(n: Node): (s: StdString)
    ensures n.Null? ==> s == []
  {
    if n.Null? then [] else n.text
  }

  /** `node.children(name)`: every child element with that name, in document order. */
  function ChildrenNamed(ns: seq<Node>, name: string): (r: seq<Node>)
    ensures |r| <= |ns|
    ensures forall k :: 0 <= k < |r| ==> Named(r[k], name) && r[k] in ns
    ensures forall k :: 0 <= k < |ns| && Named(ns[k], name) ==> ns[k] in r
    ensures (forall k :: 0 <= k < |ns| ==> Named(ns[k], name)) ==> r == ns
  {
    if ns == [] then []
    else
      var rest := ChildrenNamed(ns[1..], name);
      assert forall k :: 1 <= k < |ns| ==> ns[k] == ns[1..][k - 1];
      if Named(ns[0], name) then [ns[0]] + rest else rest
  }

  /** One node alone: kept when it has the name, dropped otherwise. */
  lemma ChildrenNamedSingle(x: Node, name: string)
    ensures ChildrenNamed([x], name) == if Named(x, name) then [x] else []
  {
    assert [x][1..] == [];
  }

  /** The selection works node by node, in document order: it distributes
      over concatenation. */
  lemma {:induction false} ChildrenNamedAppend(a: seq<Node>, b: seq<Node>, name: string)
    ensures ChildrenNamed(a + b, name) == ChildrenNamed(a, name) + ChildrenNamed(b, name)
  {
    if a == [] {
      assert a + b == b;
    } else {
      assert (a + b)[0] == a[0] && (a + b)[1..] == a[1..] + b;
      ChildrenNamedAppend(a[1..], b, name);
      if Named(a[0], name) {
        assert [a[0]] + (ChildrenNamed(a[1..], name) + ChildrenNamed(b, name))
            == [a[0]] + ChildrenNamed(a[1..], name) + ChildrenNamed(b, name);
      }
    }
  }

  /** `node.children(name)` on a handle that may be null. */
  function ChildElements(n: Node, name: string): (r: seq<Node>)
    ensures n.Null? ==> r == []
    ensures forall k :: 0 <= k < |r| ==> Named(r[k], name) && n.Element? && r[k] in n.children
    ensures n.Element? ==> forall k :: 0 <= k < |n.children| && Named(n.children[k], name) ==> n.children[k] in r
  {
    if n.Null? then [] else ChildrenNamed(n.children, name)
  }

  /** The value of the first attribute named `name`, if any. */
  function FirstAttribute(attrs: seq<Attribute>, name: string): (r: Option<string>)
    ensures r.Some? <==> exists k :: 0 <= k < |attrs| && attrs[k].name == name
    ensures forall k :: 0 <= k < |attrs| && attrs[k].name == name
                        && (forall j :: 0 <= j < k ==> attrs[j].name != name)
                        ==> r == Some(attrs[k].value)
  {
    if attrs == [] then None
    else if attrs[0].name == name then Some(attrs[0].value)
    else
      var r := FirstAttribute(attrs[1..], name);
      assert forall k :: 1 <= k < |attrs| ==> attrs[k] == attrs[1..][k - 1];
      r
  }

  /** `node.attribute(name)`: the value of the first attribute with that name;
      `None` stands for the empty attribute handle (also for the null node). */
  function AttributeOf(n: Node, name: string): Option<string>
  {
    if n.Null? then None else FirstAttribute(n.attributes, name)
  }

  /** `REQUIRENODE(node, name)`: the first child named `name`, or an error naming it. */
  function RequireNode(n: Node, name: string): (r: Result<Node>)
    ensures r.Ok? <==> Child(n, name) != Null
    ensures r.Ok? ==> r.value == Child(n, name)
    ensures r.Ok? ==> Named(r.value, name) && r.value in n.children
    ensures r.Err? ==> r.error == MissingElement(name)
  {
    var c := Child(n, name);
    if c.Null? then Err(MissingElement(name)) else Ok(c)
  }

  /** `REQUIREATTRIB(node, name)`: the attribute's value, or an error naming it. */
  function RequireAttribute(n: Node, name: string): (r: Result<string>)
    ensures r.Ok? <==> n.Element? && exists k :: 0 <= k < |n.attributes| && n.attributes[k].name == name
    ensures r.Err? ==> r.error == MissingAttribute(name)
    ensures n.Element? ==> forall k :: 0 <= k < |n.attributes| && n.attributes[k].name == name
                                      && (forall j :: 0 <= j < k ==> n.attributes[j].name != name)
                                      ==> r == Ok(n.attributes[k].value)
  {
    match AttributeOf(n, name)
    case None => Err(MissingAttribute(name))
    case Some(v) => Ok(v)
  }
}
