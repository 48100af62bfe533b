/** LinqToXml.SortCustomers: the root's child elements reordered by Country, then by City. */
module CustomerSort {
  import opened Results
  import opened Xml

  /** A customer with its two sort keys: the serialised Country and City elements. */
  datatype Keyed = Keyed(country: string, city: string, node: Node)

  /** The contract of IComparer<string>.Compare that the sort relies on: x sorts before y
      exactly when y sorts after x. */
  ghost predicate Antisymmetric(cmp: (string, string) -> int) {
    forall x, y :: cmp(x, y) < 0 <==> cmp(y, x) > 0
  }

  /** OrderBy(country).ThenBy(city): a comes no later than b. */
  predicate KeyLeq(a: Keyed, b: Keyed, cmp: (string, string) -> int) {
    var c := cmp(a.country, b.country);
    c < 0 || (c == 0 && cmp(a.city, b.city) <= 0)
  }

  /** Either of two customers may come first. */
  lemma KeyLeqTotal(a: Keyed, b: Keyed, cmp: (string, string) -> int)
    requires Antisymmetric(cmp)
    ensures KeyLeq(a, b, cmp) || KeyLeq(b, a, cmp)
  {
  }

  /** The sort keys of one customer: u.Element("FullAddress").Element("Country").ToString() and
      the same for City, where `serialize` is XElement.ToString; a missing element on the way is
      dereferenced as null. */
  function KeyOf(u: Node, serialize: Node -> string): (r: Result<Keyed>)
    ensures r.Ok? ==> r.value.node == u
    ensures r.Ok? <==> Child(u, "FullAddress").Some? &&
                       Child(Child(u, "FullAddress").value, "Country").Some? &&
                       Child(Child(u, "FullAddress").value, "City").Some?
  {
    match Child(u, "FullAddress")
    case None => Err(MissingElement)
    case Some(address) =>
      match (Child(address, "Country"), Child(address, "City"))
      case (Some(country), Some(city)) => Ok(Keyed(serialize(country), serialize(city), u))
      case _ => Err(MissingElement)
  }

  /** OrderBy computes the keys of every element before it orders any. */
  function KeysOf(us: seq<Node>, serialize: Node -> string): (r: Result<seq<Keyed>>)
    ensures r.Ok? <==> forall i :: 0 <= i < |us| ==> KeyOf(us[i], serialize).Ok?
    ensures r.Ok? ==> |r.value| == |us|
    ensures r.Ok? ==> forall i :: 0 <= i < |us| ==> r.value[i] == KeyOf(us[i], serialize).value
  {
    if us == [] then Ok([])
    else
      var k :- KeyOf(us[0], serialize);
      var rest :- KeysOf(us[1..], serialize);
      Ok([k] + rest)
  }

  /** Insert x into sorted ks after every element that does not come after it (so equal keys
      keep their input order). */
  function Insert(ks: seq<Keyed>, x: Keyed, cmp: (string, string) -> int): (r: seq<Keyed>)
    ensures |r| == |ks| + 1
  {
    if ks == [] || KeyLeq(ks[|ks| - 1], x, cmp) then ks + [x]
    else Insert(ks[..|ks| - 1], x, cmp) + [ks[|ks| - 1]]
  }

  /** The stable sort that OrderBy/ThenBy performs, as insertion of each element in input order. */
  function Sort(ks: seq<Keyed>, cmp: (string, string) -> int): (r: seq<Keyed>)
    ensures |r| == |ks|
  {
    if ks == [] then [] else Insert(Sort(ks[..|ks| - 1], cmp), ks[|ks| - 1], cmp)
  }

  function NodesOf(ks: seq<Keyed>): (r: seq<Node>)
    ensures |r| == |ks|
    ensures forall i :: 0 <= i < |ks| ==> r[i] == ks[i].node
  {
    if ks == [] then [] else [ks[0].node] + NodesOf(ks[1..])
  }

  /** The document after ReplaceNodes: the root keeps its name and attributes; its child
      elements come back sorted, its other child nodes are gone. */
  function SortedDocument(root: Node, serialize: Node -> string, cmp: (string, string) -> int): (r: Result<Node>)
    requires root.Element?
    ensures r.Ok? ==> r.value.Element? && r.value.name == root.name && r.value.attrs == root.attrs
    ensures r.Ok? ==> |r.value.children| == |Elements(root.children)|
  {
    var keyed :- KeysOf(Elements(root.children), serialize);
    Ok(Element(root.name, root.attrs, NodesOf(Sort(keyed, cmp))))
  }

  /** Model of SortCustomers (LinqToXml.cs:136-143) on the parsed document: the sorted content
      is computed before ReplaceNodes removes the old children, so a failing key leaves the
      document as it was. */
  method SortCustomers(doc: MutableElement, serialize: Node -> string, cmp: (string, string) -> int)
    returns (r: Result<Node>)
    modifies doc
    ensures r == SortedDocument(old(doc.Tree()), serialize, cmp)
    ensures r.Ok? ==> doc.Tree() == r.value
    ensures r.Err? ==> doc.Tree() == old(doc.Tree())
  {
    var keyed := KeysOf(Elements(doc.nodes), serialize);
    if keyed.Err? {
      return Err(keyed.error);
    }
    doc.ReplaceNodes(NodesOf(Sort(keyed.value, cmp)));
    return Ok(doc.Tree());
  }

  // ----- the order is right -----

  /** Every customer comes no later than the one after it. */
  predicate Ordered(ks: seq<Keyed>, cmp: (string, string) -> int) {
    forall i :: 0 <= i < |ks| - 1 ==> KeyLeq(ks[i], ks[i + 1], cmp)
  }

  lemma {:induction false} InsertOrdered(ks: seq<Keyed>, x: Keyed, cmp: (string, string) -> int)
    requires Antisymmetric(cmp) && Ordered(ks, cmp)
    ensures Ordered(Insert(ks, x, cmp), cmp)
    ensures |ks| > 0 ==> var r := Insert(ks, x, cmp); r[|r| - 1] == ks[|ks| - 1] || r[|r| - 1] == x
  {
    if ks == [] || KeyLeq(ks[|ks| - 1], x, cmp) {
    } else {
      var init, last := ks[..|ks| - 1], ks[|ks| - 1];
      InsertOrdered(init, x, cmp);
      var r0 := Insert(init, x, cmp);
      KeyLeqTotal(last, x, cmp);
      if init != [] {
        assert KeyLeq(init[|init| - 1], last, cmp);
      }
      assert KeyLeq(r0[|r0| - 1], last, cmp);
    }
  }

  lemma {:induction false} SortOrdered(ks: seq<Keyed>, cmp: (string, string) -> int)
    requires Antisymmetric(cmp)
    ensures Ordered(Sort(ks, cmp), cmp)
  {
    if ks != [] {
      SortOrdered(ks[..|ks| - 1], cmp);
      InsertOrdered(Sort(ks[..|ks| - 1], cmp), ks[|ks| - 1], cmp);
    }
  }

  // ----- nothing is lost or added -----

  lemma {:induction false} InsertPermutes(ks: seq<Keyed>, x: Keyed, cmp: (string, string) -> int)
    ensures multiset(NodesOf(Insert(ks, x, cmp))) == multiset(NodesOf(ks)) + multiset{x.node}
  {
    if ks == [] || KeyLeq(ks[|ks| - 1], x, cmp) {
      NodesOfSnoc(ks, x);
    } else {
      var r := Insert(ks, x, cmp);
      InsertPermutes(ks[..|ks| - 1], x, cmp);
      assert r[..|r| - 1] == Insert(ks[..|ks| - 1], x, cmp);
      NodesOfLast(r);
      NodesOfLast(ks);
    }
  }

  lemma {:induction false} SortPermutes(ks: seq<Keyed>, cmp: (string, string) -> int)
    ensures multiset(NodesOf(Sort(ks, cmp))) == multiset(NodesOf(ks))
  {
    if ks != [] {
      var init, last := ks[..|ks| - 1], ks[|ks| - 1];
      SortPermutes(init, cmp);
      InsertPermutes(Sort(init, cmp), last, cmp);
      NodesOfLast(ks);
    }
  }

  lemma NodesOfLast(ks: seq<Keyed>)
    requires ks != []
    ensures multiset(NodesOf(ks)) == multiset(NodesOf(ks[..|ks| - 1])) + multiset{ks[|ks| - 1].node}
  {
    assert ks == ks[..|ks| - 1] + [ks[|ks| - 1]];
    NodesOfSnoc(ks[..|ks| - 1], ks[|ks| - 1]);
  }

  lemma NodesOfSnoc(ks: seq<Keyed>, x: Keyed)
    ensures multiset(NodesOf(ks + [x])) == multiset(NodesOf(ks)) + multiset{x.node}
  {
    NodesOfAppend(ks, [x]);
    assert NodesOf([x]) == [x.node];
  }

  lemma {:induction false} NodesOfAppend(a: seq<Keyed>, b: seq<Keyed>)
    ensures NodesOf(a + b) == NodesOf(a) + NodesOf(b)
  {
    if a == [] {
      assert a + b == b;
    } else {
      assert (a + b)[1..] == a[1..] + b;
      NodesOfAppend(a[1..], b);
    }
  }

  // ----- equal keys keep their order -----

  /** The customers whose keys are exactly (country, city), in order. */
  function WithKeys(ks: seq<Keyed>, country: string, city: string): seq<Keyed> {
    if ks == [] then []
    else
      var last := ks[|ks| - 1];
      WithKeys(ks[..|ks| - 1], country, city) +
        (if last.country == country && last.city == city then [last] else [])
  }

  lemma {:induction false} WithKeysSnoc(ks: seq<Keyed>, x: Keyed, country: string, city: string)
    ensures WithKeys(ks + [x], country, city) ==
            WithKeys(ks, country, city) + (if x.country == country && x.city == city then [x] else [])
  {
    assert (ks + [x])[..|ks|] == ks;
  }

  lemma {:induction false} InsertStable(ks: seq<Keyed>, x: Keyed, cmp: (string, string) -> int,
                                         country: string, city: string)
    requires Antisymmetric(cmp)
    ensures WithKeys(Insert(ks, x, cmp), country, city) ==
            WithKeys(ks, country, city) + (if x.country == country && x.city == city then [x] else [])
  {
    if ks == [] || KeyLeq(ks[|ks| - 1], x, cmp) {
      WithKeysSnoc(ks, x, country, city);
    } else {
      var init, last := ks[..|ks| - 1], ks[|ks| - 1];
      InsertStable(init, x, cmp, country, city);
      WithKeysSnoc(Insert(init, x, cmp), last, country, city);
      assert !(last.country == country && last.city == city && x.country == country && x.city == city);
    }
  }

  /** Customers with identical keys come out in the order they had in the document. */
  lemma {:induction false} SortStable(ks: seq<Keyed>, cmp: (string, string) -> int, country: string, city: string)
    requires Antisymmetric(cmp)
    ensures WithKeys(Sort(ks, cmp), country, city) == WithKeys(ks, country, city)
  {
    if ks != [] {
      var init, last := ks[..|ks| - 1], ks[|ks| - 1];
      SortStable(init, cmp, country, city);
      InsertStable(Sort(init, cmp), last, cmp, country, city);
    }
  }

  /** SortCustomers fails exactly when some customer lacks FullAddress, Country or City. */
  lemma SortCustomersFails(root: Node, serialize: Node -> string, cmp: (string, string) -> int)
    requires root.Element?
    ensures SortedDocument(root, serialize, cmp).Err? <==>
              exists u :: u in Elements(root.children) && KeyOf(u, serialize).Err?
  {
    var us := Elements(root.children);
    if SortedDocument(root, serialize, cmp).Err? {
      var i :| 0 <= i < |us| && KeyOf(us[i], serialize).Err?;
      assert us[i] in us;
    }
  }

  /** What SortCustomers promises otherwise: the new children are the old child elements,
      each exactly as often as before, ordered by Country then City, customers with the same
      keys in document order. */
  lemma SortCustomersCorrect(root: Node, serialize: Node -> string, cmp: (string, string) -> int)
    requires root.Element? && Antisymmetric(cmp)
    requires SortedDocument(root, serialize, cmp).Ok?
    ensures
      var keyed := KeysOf(Elements(root.children), serialize).value;
      var sorted := Sort(keyed, cmp);
      && SortedDocument(root, serialize, cmp).value.children == NodesOf(sorted)
      && multiset(NodesOf(sorted)) == multiset(Elements(root.children))
      && Ordered(sorted, cmp)
      && forall country, city :: WithKeys(sorted, country, city) == WithKeys(keyed, country, city)
  {
    var us := Elements(root.children);
    var keyed := KeysOf(us, serialize).value;
    var sorted := Sort(keyed, cmp);
    SortOrdered(keyed, cmp);
    SortPermutes(keyed, cmp);
    assert NodesOf(keyed) == us;
    forall country, city ensures WithKeys(sorted, country, city) == WithKeys(keyed, country, city) {
      SortStable(keyed, cmp, country, city);
    }
  }
}
