/** The in-memory XML tree that every LinqToXml operation reads or builds (System.Xml.Linq's
    XElement, XText and XComment), and the navigation the operations use on it. */
module Xml {
  import opened Results

  /** A node of the tree. Names are expanded names: a name in a namespace is written
      "{uri}local", as XName prints it; a name in no namespace is just its local part. */
  datatype Node =
    | Element(name: string, attrs: seq<(string, string)>, children: seq<Node>)
    | Text(text: string)
    | Comment(text: string)

  /** The expanded name of `local` in namespace `ns` (XNamespace + string). */
  function QName(ns: string, local: string): (r: string)
    ensures ns == "" ==> r == local
    ensures ns != "" ==> |r| == |ns| + |local| + 2 && r[0] == '{' && r[|r| - |local|..] == local
  {
    if ns == "" then local else "{" + ns + "}" + local
  }

  /** XElement.Value / XText.Value as seen through an element: the text of every text node
      below, in document order. Comments contribute nothing. */
  function Value(n: Node): string
    decreases n, 1
  {
    match n
    case Element(_, _, cs) => ValueOfNodes(cs)
    case Text(s) => s
    case Comment(_) => ""
  }

  function ValueOfNodes(cs: seq<Node>): string
    decreases cs, 0
  {
    if cs == [] then "" else Value(cs[0]) + ValueOfNodes(cs[1..])
  }

  /** The concatenation of a list of strings, first to last. */
  function ConcatAll(ss: seq<string>): string {
    if ss == [] then "" else ss[0] + ConcatAll(ss[1..])
  }

  /** Every text node below `n`, in document order: the reference reading of "flattened text". */
  function DescendantTexts(n: Node): seq<string>
    decreases n, 1
  {
    match n
    case Element(_, _, cs) => DescendantTextsOfNodes(cs)
    case Text(s) => [s]
    case Comment(_) => []
  }

  function DescendantTextsOfNodes(cs: seq<Node>): seq<string>
    decreases cs, 0
  {
    if cs == [] then [] else DescendantTexts(cs[0]) + DescendantTextsOfNodes(cs[1..])
  }

  lemma {:induction false} ConcatAllAppend(a: seq<string>, b: seq<string>)
    ensures ConcatAll(a + b) == ConcatAll(a) + ConcatAll(b)
  {
    if a == [] {
      assert a + b == b;
    } else {
      assert (a + b)[1..] == a[1..] + b;
      ConcatAllAppend(a[1..], b);
    }
  }

  /** The flattened text of a node is the concatenation of its text nodes in document order. */
  lemma {:induction false} ValueIsTextConcat(n: Node)
    ensures Value(n) == ConcatAll(DescendantTexts(n))
    decreases n, 1
  {
    match n
    case Element(_, _, cs) => NodesValueIsTextConcat(cs);
    case Text(s) => assert ConcatAll([s]) == s + ConcatAll([]);
    case Comment(_) =>
  }

  lemma {:induction false} NodesValueIsTextConcat(cs: seq<Node>)
    ensures ValueOfNodes(cs) == ConcatAll(DescendantTextsOfNodes(cs))
    decreases cs, 0
  {
    if cs != [] {
      ValueIsTextConcat(cs[0]);
      NodesValueIsTextConcat(cs[1..]);
      ConcatAllAppend(DescendantTexts(cs[0]), DescendantTextsOfNodes(cs[1..]));
    }
  }

  /** Flattening distributes over splitting a child list anywhere. */
  lemma {:induction false} ValueOfNodesAppend(a: seq<Node>, b: seq<Node>)
    ensures ValueOfNodes(a + b) == ValueOfNodes(a) + ValueOfNodes(b)
  {
    if a == [] {
      assert a + b == b;
    } else {
      assert (a + b)[1..] == a[1..] + b;
      ValueOfNodesAppend(a[1..], b);
    }
  }

  /** XContainer.Elements(): the element children, in document order. */
  function Elements(cs: seq<Node>): (r: seq<Node>)
    ensures |r| <= |cs|
    ensures forall n :: n in r <==> n in cs && n.Element?
  {
    if cs == [] then []
    else if cs[0].Element? then [cs[0]] + Elements(cs[1..])
    else Elements(cs[1..])
  }

  /** Elements() keeps document order. */
  lemma {:induction false} ElementsAppend(a: seq<Node>, b: seq<Node>)
    ensures Elements(a + b) == Elements(a) + Elements(b)
  {
    if a == [] {
      assert a + b == b;
    } else {
      assert (a + b)[1..] == a[1..] + b;
      ElementsAppend(a[1..], b);
    }
  }

  /** XContainer.Elements(name): the element children called `name`, in document order. */
  function ElementsNamed(cs: seq<Node>, name: string): (r: seq<Node>)
    ensures |r| <= |cs|
    ensures forall n :: n in r <==> n in cs && n.Element? && n.name == name
  {
    if cs == [] then []
    else if cs[0].Element? && cs[0].name == name then [cs[0]] + ElementsNamed(cs[1..], name)
    else ElementsNamed(cs[1..], name)
  }

  /** The extension Elements(name) on a sequence of elements: the children called `name` of
      each, concatenated in document order. */
  function ElementsNamedOfAll(ns: seq<Node>, name: string): seq<Node> {
    if ns == [] then []
    else (if ns[0].Element? then ElementsNamed(ns[0].children, name) else [])
         + ElementsNamedOfAll(ns[1..], name)
  }

  /** The extension Elements() on a sequence of elements. */
  function ElementsOfAll(ns: seq<Node>): seq<Node> {
    if ns == [] then []
    else (if ns[0].Element? then Elements(ns[0].children) else []) + ElementsOfAll(ns[1..])
  }

  /** XContainer.Element(name): the first element child called `name`, or null (None). */
  function Child(n: Node, name: string): (r: Option<Node>)
    ensures r.Some? ==> r.value.Element? && r.value.name == name
  {
    if n.Element? then FirstNamed(n.children, name) else None
  }

  function FirstNamed(cs: seq<Node>, name: string): (r: Option<Node>)
    ensures r.Some? ==> r.value.Element? && r.value.name == name
  {
    if cs == [] then None
    else if cs[0].Element? && cs[0].name == name then Some(cs[0])
    else FirstNamed(cs[1..], name)
  }

  /** Element(name) is the first of Elements(name), and null exactly when there is none. */
  lemma {:induction false} FirstNamedIsFirst(cs: seq<Node>, name: string)
    ensures FirstNamed(cs, name).Some? <==> ElementsNamed(cs, name) != []
    ensures FirstNamed(cs, name).Some? ==> FirstNamed(cs, name).value == ElementsNamed(cs, name)[0]
  {
    if cs != [] {
      FirstNamedIsFirst(cs[1..], name);
    }
  }

  /** The first element child called `name` is the one at position i when none before it is. */
  lemma {:induction false} FirstNamedAt(cs: seq<Node>, i: nat, name: string)
    requires i < |cs| && cs[i].Element? && cs[i].name == name
    requires forall j :: 0 <= j < i ==> !(cs[j].Element? && cs[j].name == name)
    ensures FirstNamed(cs, name) == Some(cs[i])
  {
    if i > 0 {
      FirstNamedAt(cs[1..], i - 1, name);
    }
  }

  /** XElement.Attribute(name).Value, or null (None) when the element has no such attribute. */
  function Attr(n: Node, name: string): (r: Option<string>)
    ensures r.Some? <==> n.Element? && exists i :: 0 <= i < |n.attrs| && n.attrs[i].0 == name
  {
    if n.Element? then AttrIn(n.attrs, name) else None
  }

  function AttrIn(attrs: seq<(string, string)>, name: string): (r: Option<string>)
    ensures r.Some? <==> exists i :: 0 <= i < |attrs| && attrs[i].0 == name
    ensures r.Some? ==> exists i :: 0 <= i < |attrs| && attrs[i] == (name, r.value)
  {
    if attrs == [] then None
    else if attrs[0].0 == name then Some(attrs[0].1)
    else
      var r := AttrIn(attrs[1..], name);
      assert forall i :: 0 <= i < |attrs| - 1 ==> attrs[1..][i] == attrs[i + 1];
      r
  }

  /** `new XElement(name, s)` for a string s: an empty string adds no child node. */
  function TextElement(name: string, s: string): (r: Node)
    ensures r.Element? && r.name == name && r.attrs == []
    ensures Value(r) == s
  {
    var r := Element(name, [], if s == "" then [] else [Text(s)]);
    assert s != "" ==> ValueOfNodes([Text(s)]) == s + ValueOfNodes([]);
    r
  }

  /** An XElement whose children and attributes are replaced in place (XContainer.Add,
      XElement.ReplaceAll, XContainer.ReplaceNodes). */
  class MutableElement {
    var name: string
    var attrs: seq<(string, string)>
    var nodes: seq<Node>

    /** The tree this object currently stands for. */
    function Tree(): (t: Node)
      reads this
      ensures t.Element?
    {
      Element(name, attrs, nodes)
    }

    /** An element built from an existing tree (the result of XElement.Parse). */
    constructor FromTree(t: Node)
      requires t.Element?
      ensures Tree() == t
    {
      name, attrs, nodes := t.name, t.attrs, t.children;
    }

    /** `new XElement(name)`: no attributes, no children. */
    constructor Named(name: string)
      ensures Tree() == Element(name, [], [])
    {
      this.name, attrs, nodes := name, [], [];
    }

    /** XContainer.Add(node): append one child. */
    method Add(n: Node)
      modifies this
      ensures Tree() == Element(old(name), old(attrs), old(nodes) + [n])
    {
      nodes := nodes + [n];
    }

    /** XElement.ReplaceAll(content): drop every child node AND every attribute, then add `content`. */
    method ReplaceAll(content: seq<Node>)
      modifies this
      ensures Tree() == Element(old(name), [], content)
    {
      attrs := [];
      nodes := content;
    }

    /** XContainer.ReplaceNodes(content): drop every child node, keep the attributes, then add `content`. */
    method ReplaceNodes(content: seq<Node>)
      modifies this
      ensures Tree() == Element(old(name), old(attrs), content)
    {
      nodes := content;
    }
  }
}
