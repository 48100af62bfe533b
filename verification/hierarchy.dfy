/** LinqToXml.CreateHierarchy: regroup flat Data elements under one Group per Category. */
module Hierarchy {
  import opened Results
  import opened Xml
  import opened Grouping

  predicate HasCategory(x: Node) {
    Child(x, "Category").Some?
  }

  predicate AllCategorised(xs: seq<Node>) {
    forall i :: 0 <= i < |xs| ==> HasCategory(xs[i])
  }

  /** The grouping key: the text value of the Category child. */
  function Category(x: Node): string
    requires HasCategory(x)
  {
    Value(Child(x, "Category").value)
  }

  /** The element nodes present among two lookups; `new XElement(name, a, b)` skips null content. */
  function Present(o: Option<Node>): seq<Node> {
    if o.Some? then [o.value] else []
  }

  /** The Data element written for an input Data: copies of its Quantity and Price children, in that order. */
  function DataOut(x: Node): Node {
    Element("Data", [], Present(Child(x, "Quantity")) + Present(Child(x, "Price")))
  }

  function DataOuts(xs: seq<Node>): (r: seq<Node>)
    ensures |r| == |xs|
    ensures forall i :: 0 <= i < |xs| ==> r[i] == DataOut(xs[i])
  {
    if xs == [] then [] else [DataOut(xs[0])] + DataOuts(xs[1..])
  }

  function GroupNode(g: Group<Node>): Node {
    Element("Group", [("ID", g.key)], DataOuts(g.items))
  }

  function GroupNodes(gs: seq<Group<Node>>): (r: seq<Node>)
    ensures |r| == |gs|
    ensures forall i :: 0 <= i < |gs| ==> r[i] == GroupNode(gs[i])
  {
    if gs == [] then [] else [GroupNode(gs[0])] + GroupNodes(gs[1..])
  }

  /** The (Category, Data) pairs that GroupBy's key selector produces; a Data without a
      Category makes the key selector throw. */
  function Categorised(xs: seq<Node>): (r: Result<seq<(string, Node)>>)
    ensures r.Ok? <==> AllCategorised(xs)
    ensures r.Ok? ==> |r.value| == |xs|
  {
    if xs == [] then Ok([])
    else
      var init :- Categorised(xs[..|xs| - 1]);
      var x := xs[|xs| - 1];
      if HasCategory(x) then Ok(init + [(Category(x), x)]) else Err(MissingElement)
  }

  /** Model of CreateHierarchy (LinqToXml.cs:21-27) on an already parsed document. */
  function CreateHierarchy(root: Node): (r: Result<Node>)
    requires root.Element?
    ensures r.Ok? <==> AllCategorised(ElementsNamed(root.children, "Data"))
  {
    var keyed :- Categorised(ElementsNamed(root.children, "Data"));
    Ok(Element("Root", [], GroupNodes(GroupBy(keyed))))
  }

  // ----- reference definitions -----

  /** The categories of the Data elements, in document order. */
  function Categories(xs: seq<Node>): (ks: seq<string>)
    requires AllCategorised(xs)
    ensures |ks| == |xs|
    ensures forall i :: 0 <= i < |xs| ==> ks[i] == Category(xs[i])
  {
    if xs == [] then [] else Categories(xs[..|xs| - 1]) + [Category(xs[|xs| - 1])]
  }

  /** The Data elements of category `k`, in document order. */
  function WithCategory(xs: seq<Node>, k: string): (r: seq<Node>)
    requires AllCategorised(xs)
    ensures forall x :: x in r <==> x in xs && Category(x) == k
  {
    if xs == [] then []
    else
      var x := xs[|xs| - 1];
      assert forall y :: y in xs <==> y in xs[..|xs| - 1] || y == x;
      WithCategory(xs[..|xs| - 1], k) + (if Category(x) == k then [x] else [])
  }

  lemma {:induction false} CategorisedMeaning(xs: seq<Node>, k: string)
    requires AllCategorised(xs)
    ensures Keys(Categorised(xs).value) == Categories(xs)
    ensures ItemsWithKey(Categorised(xs).value, k) == WithCategory(xs, k)
  {
    if xs != [] {
      var init := xs[..|xs| - 1];
      CategorisedMeaning(init, k);
      var ps := Categorised(init).value;
      var x := xs[|xs| - 1];
      assert Categorised(xs).value == ps + [(Category(x), x)];
      assert (ps + [(Category(x), x)])[..|ps|] == ps;
    }
  }

  /** CreateHierarchy writes one Group per distinct category, in the order of first occurrence,
      each holding, in document order, the Data elements of that category reduced to their
      Quantity and Price children. */
  lemma CreateHierarchyGroups(root: Node)
    requires root.Element?
    requires AllCategorised(ElementsNamed(root.children, "Data"))
    ensures
      var datas := ElementsNamed(root.children, "Data");
      var ids := Distinct(Categories(datas));
      var out := CreateHierarchy(root).value;
      && out.name == "Root" && out.attrs == []
      && |out.children| == |ids|
      && forall i :: 0 <= i < |ids| ==>
           out.children[i] == Element("Group", [("ID", ids[i])], DataOuts(WithCategory(datas, ids[i])))
  {
    var datas := ElementsNamed(root.children, "Data");
    var keyed := Categorised(datas).value;
    CategorisedMeaning(datas, "");
    GroupByCorrect(keyed);
    var ids := Distinct(Keys(keyed));
    GroupsForShape(ids, keyed);
    forall i | 0 <= i < |ids|
      ensures ItemsWithKey(keyed, ids[i]) == WithCategory(datas, ids[i])
    {
      CategorisedMeaning(datas, ids[i]);
    }
  }

  /** The ID attribute of a Group element ("" for anything else). */
  function GroupId(g: Node): string {
    if g.Element? && |g.attrs| == 1 && g.attrs[0].0 == "ID" then g.attrs[0].1 else ""
  }

  function GroupIds(gs: seq<Node>): (r: seq<string>)
    ensures |r| == |gs|
    ensures forall i :: 0 <= i < |gs| ==> r[i] == GroupId(gs[i])
  {
    if gs == [] then [] else [GroupId(gs[0])] + GroupIds(gs[1..])
  }

  /** The IDs of the Groups CreateHierarchy writes are pairwise distinct, are exactly the
      categories that occur, and follow the order in which each category first occurs. */
  lemma {:induction false} CreateHierarchyIds(root: Node)
    requires root.Element?
    requires AllCategorised(ElementsNamed(root.children, "Data"))
    ensures
      var cats := Categories(ElementsNamed(root.children, "Data"));
      var ids := GroupIds(CreateHierarchy(root).value.children);
      && ids == Distinct(cats)
      && Unique(ids)
      && (forall c :: c in ids <==> c in cats)
      && forall i, j :: 0 <= i < j < |ids| ==> FirstIndex(cats, ids[i]) < FirstIndex(cats, ids[j])
  {
    var cats := Categories(ElementsNamed(root.children, "Data"));
    var groups := CreateHierarchy(root).value.children;
    CreateHierarchyGroups(root);
    DistinctSpec(cats);
    assert GroupIds(groups) == Distinct(cats);
  }

  /** Every input Data lands, as its Quantity and Price, in the Group whose ID is its category. */
  lemma CreateHierarchyPlacesEveryData(root: Node, x: Node)
    requires root.Element?
    requires AllCategorised(ElementsNamed(root.children, "Data"))
    requires x in ElementsNamed(root.children, "Data")
    ensures
      var groups := CreateHierarchy(root).value.children;
      exists i :: 0 <= i < |groups| && groups[i].Element? &&
        groups[i].attrs == [("ID", Category(x))] && DataOut(x) in groups[i].children
  {
    var datas := ElementsNamed(root.children, "Data");
    var cats := Categories(datas);
    var ids := Distinct(cats);
    var groups := CreateHierarchy(root).value.children;
    CreateHierarchyGroups(root);
    var j :| 0 <= j < |datas| && datas[j] == x;
    assert cats[j] == Category(x);
    assert Category(x) in Distinct(cats) by { DistinctSpec(cats); }
    var i :| 0 <= i < |ids| && ids[i] == Category(x);
    var members := WithCategory(datas, ids[i]);
    assert groups[i] == Element("Group", [("ID", ids[i])], DataOuts(members));
    var m :| 0 <= m < |members| && members[m] == x;
    assert DataOuts(members)[m] == DataOut(x);
    assert DataOut(x) in groups[i].children;
  }
}
