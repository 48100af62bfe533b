/** LinqToXml.GetOrdersValue: the total value of the ordered products, priced from the
    document's product list. */
module OrdersValue {
  import opened Results
  import opened Xml
  import opened Grouping
  import opened Numbers

  /** doc.Elements("Orders").Elements("Order").Elements("product"): every ordered product, in
      document order. */
  function OrderedProducts(root: Node): seq<Node>
    requires root.Element?
  {
    ElementsNamedOfAll(ElementsNamedOfAll(ElementsNamed(root.children, "Orders"), "Order"), "product")
  }

  /** doc.Elements("products").Elements(): the price list. */
  function Catalog(root: Node): seq<Node>
    requires root.Element?
  {
    ElementsOfAll(ElementsNamed(root.children, "products"))
  }

  /** The GroupBy key selector t => t.Value, paired with each product. */
  function ById(ps: seq<Node>): (r: seq<(string, Node)>)
    ensures |r| == |ps|
    ensures forall i :: 0 <= i < |ps| ==> r[i] == (Value(ps[i]), ps[i])
  {
    if ps == [] then [] else ById(ps[..|ps| - 1]) + [(Value(ps[|ps| - 1]), ps[|ps| - 1])]
  }

  /** Entry i is the one First picks for `id`: its Id is `id`, and every entry before it has an
      Id, a different one. */
  predicate FirstWithId(catalog: seq<Node>, i: int, id: string) {
    && 0 <= i < |catalog|
    && Attr(catalog[i], "Id") == Some(id)
    && forall j :: 0 <= j < i ==> Attr(catalog[j], "Id").Some? && Attr(catalog[j], "Id") != Some(id)
  }

  /** Convert.ToInt32(products.First(t => t.Attribute("Id").Value == id).Attribute("Value").Value):
      the scan stops at the first entry whose Id is `id`; an entry without an Id met on the way,
      or a match without a Value, is dereferenced as null; no match makes First throw. */
  function PriceOf(catalog: seq<Node>, id: string, read: string -> Option<int>): (r: Result<int>)
    ensures r.Ok? ==> InInt32(r.value)
    ensures r == Err(NotFound) ==> forall i :: 0 <= i < |catalog| ==> Attr(catalog[i], "Id") != Some(id)
  {
    if catalog == [] then Err(NotFound)
    else
      match Attr(catalog[0], "Id")
      case None => Err(MissingElement)
      case Some(pid) =>
        if pid != id then PriceOf(catalog[1..], id, read)
        else
          match Attr(catalog[0], "Value")
          case None => Err(MissingElement)
          case Some(v) => ToInt32(v, read)
  }

  /** A price is the Value of the entry First picks, converted; with no entry carrying the Id
      the lookup fails. */
  lemma {:induction false} PriceOfSpec(catalog: seq<Node>, id: string, read: string -> Option<int>)
    ensures (forall i :: 0 <= i < |catalog| ==> Attr(catalog[i], "Id") != Some(id)) ==>
              PriceOf(catalog, id, read).Err?
    ensures PriceOf(catalog, id, read).Ok? ==>
              exists i :: FirstWithId(catalog, i, id) && Attr(catalog[i], "Value").Some? &&
                          PriceOf(catalog, id, read) == ToInt32(Attr(catalog[i], "Value").value, read)
  {
    if catalog != [] && Attr(catalog[0], "Id").Some? {
      var rest := catalog[1..];
      PriceOfSpec(rest, id, read);
      if Attr(catalog[0], "Id") != Some(id) {
        assert PriceOf(catalog, id, read) == PriceOf(rest, id, read);
        if (forall i :: 0 <= i < |catalog| ==> Attr(catalog[i], "Id") != Some(id)) {
          assert forall i :: 0 <= i < |rest| ==> Attr(rest[i], "Id") != Some(id) by {
            forall i | 0 <= i < |rest| ensures Attr(rest[i], "Id") != Some(id) {
              assert rest[i] == catalog[i + 1];
            }
          }
        }
        if PriceOf(catalog, id, read).Ok? {
          var i :| FirstWithId(rest, i, id) && Attr(rest[i], "Value").Some? &&
                   PriceOf(rest, id, read) == ToInt32(Attr(rest[i], "Value").value, read);
          assert rest[i] == catalog[i + 1];
          forall j | 0 <= j < i + 1
            ensures Attr(catalog[j], "Id").Some? && Attr(catalog[j], "Id") != Some(id)
          {
            if j > 0 {
              assert catalog[j] == rest[j - 1];
            }
          }
          assert FirstWithId(catalog, i + 1, id);
        }
      } else if PriceOf(catalog, id, read).Ok? {
        assert FirstWithId(catalog, 0, id);
      }
    }
  }

  /** Enumerable.Sum over the groups: each term is price * Count in unchecked int32
      arithmetic, each running total is checked and throws OverflowException outside int32. */
  function SumFrom(acc: int, gs: seq<Group<Node>>, catalog: seq<Node>, read: string -> Option<int>): (r: Result<int>)
    requires InInt32(acc)
    ensures r.Ok? ==> InInt32(r.value)
    decreases |gs|
  {
    if gs == [] then Ok(acc)
    else
      var price :- PriceOf(catalog, gs[0].key, read);
      var s := acc + Wrap32(price * |gs[0].items|);
      if !InInt32(s) then Err(Overflow) else SumFrom(s, gs[1..], catalog, read)
  }

  /** Model of GetOrdersValue (LinqToXml.cs:163-172) on the parsed document. */
  function GetOrdersValue(root: Node, read: string -> Option<int>): (r: Result<int>)
    requires root.Element?
    ensures r.Ok? ==> InInt32(r.value)
  {
    SumFrom(0, GroupBy(ById(OrderedProducts(root))), Catalog(root), read)
  }

  // ----- the reference: every ordered product at its price -----

  /** The product has a price in the list and the price is not negative. */
  predicate Priced(catalog: seq<Node>, id: string, read: string -> Option<int>) {
    PriceOf(catalog, id, read).Ok? && PriceOf(catalog, id, read).value >= 0
  }

  function Price(catalog: seq<Node>, id: string, read: string -> Option<int>): int {
    if PriceOf(catalog, id, read).Ok? then PriceOf(catalog, id, read).value else 0
  }

  /** The price of every ordered product, one occurrence at a time. */
  function ProductsValue(ids: seq<string>, catalog: seq<Node>, read: string -> Option<int>): int {
    if ids == [] then 0
    else ProductsValue(ids[..|ids| - 1], catalog, read) + Price(catalog, ids[|ids| - 1], read)
  }

  /** The price of each group times its size, with unbounded integers. */
  function GroupsValue(gs: seq<Group<Node>>, catalog: seq<Node>, read: string -> Option<int>): int {
    if gs == [] then 0
    else Price(catalog, gs[0].key, read) * |gs[0].items| + GroupsValue(gs[1..], catalog, read)
  }

  lemma {:induction false} AddToGroupsValue(gs: seq<Group<Node>>, k: string, v: Node, catalog: seq<Node>,
                                            read: string -> Option<int>)
    ensures GroupsValue(AddToGroups(gs, k, v), catalog, read) == GroupsValue(gs, catalog, read) + Price(catalog, k, read)
  {
    if gs == [] {
      assert AddToGroups(gs, k, v) == [Group(k, [v])];
      assert [Group(k, [v])][1..] == [];
    } else if gs[0].key == k {
      var p := Price(catalog, k, read);
      assert AddToGroups(gs, k, v)[1..] == gs[1..];
      assert p * (|gs[0].items| + 1) == p * |gs[0].items| + p;
    } else {
      AddToGroupsValue(gs[1..], k, v, catalog, read);
      assert AddToGroups(gs, k, v)[1..] == AddToGroups(gs[1..], k, v);
    }
  }

  /** Counting per group and multiplying gives the per-occurrence total. */
  lemma {:induction false} GroupByValue(ps: seq<(string, Node)>, catalog: seq<Node>, read: string -> Option<int>)
    ensures GroupsValue(GroupBy(ps), catalog, read) == ProductsValue(Keys(ps), catalog, read)
  {
    if ps != [] {
      var init, last := ps[..|ps| - 1], ps[|ps| - 1];
      GroupByValue(init, catalog, read);
      AddToGroupsValue(GroupBy(init), last.0, last.1, catalog, read);
      assert Keys(ps)[..|ps| - 1] == Keys(init);
    }
  }

  lemma {:induction false} GroupsValueNonNegative(gs: seq<Group<Node>>, catalog: seq<Node>, read: string -> Option<int>)
    requires forall i :: 0 <= i < |gs| ==> Priced(catalog, gs[i].key, read)
    ensures GroupsValue(gs, catalog, read) >= 0
  {
    if gs != [] {
      GroupsValueNonNegative(gs[1..], catalog, read);
      assert Price(catalog, gs[0].key, read) * |gs[0].items| >= 0;
    }
  }

  lemma {:induction false} SumFromExact(acc: int, gs: seq<Group<Node>>, catalog: seq<Node>, read: string -> Option<int>)
    requires InInt32(acc) && acc >= 0
    requires forall i :: 0 <= i < |gs| ==> Priced(catalog, gs[i].key, read)
    requires acc + GroupsValue(gs, catalog, read) <= Int32Max
    ensures SumFrom(acc, gs, catalog, read) == Ok(acc + GroupsValue(gs, catalog, read))
    decreases |gs|
  {
    if gs != [] {
      var price := PriceOf(catalog, gs[0].key, read).value;
      var term := price * |gs[0].items|;
      assert term >= 0;
      GroupsValueNonNegative(gs[1..], catalog, read);
      assert Wrap32(term) == term;
      SumFromExact(acc + term, gs[1..], catalog, read);
    }
  }

  /** Every ordered product's id is the key of one of the groups. */
  lemma GroupKeysCoverProducts(ps: seq<(string, Node)>)
    ensures forall k :: k in Keys(ps) <==> k in GroupKeys(GroupBy(ps))
  {
    GroupByCorrect(ps);
    GroupsForShape(Distinct(Keys(ps)), ps);
    DistinctSpec(Keys(ps));
    assert GroupKeys(GroupBy(ps)) == Distinct(Keys(ps));
  }

  /** When every ordered product is priced, so is every group. */
  lemma GroupsPriced(prods: seq<Node>, catalog: seq<Node>, read: string -> Option<int>)
    requires forall p :: p in prods ==> Priced(catalog, Value(p), read)
    ensures forall i :: 0 <= i < |GroupBy(ById(prods))| ==> Priced(catalog, GroupBy(ById(prods))[i].key, read)
  {
    var ps := ById(prods);
    var gs := GroupBy(ps);
    GroupKeysCoverProducts(ps);
    forall i | 0 <= i < |gs| ensures Priced(catalog, gs[i].key, read) {
      var k := gs[i].key;
      assert GroupKeys(gs)[i] == k;
      assert k in Keys(ps);
      var j :| 0 <= j < |ps| && Keys(ps)[j] == k;
      assert prods[j] in prods;
    }
  }

  lemma TotalExact(prods: seq<Node>, catalog: seq<Node>, read: string -> Option<int>)
    requires forall p :: p in prods ==> Priced(catalog, Value(p), read)
    requires ProductsValue(Keys(ById(prods)), catalog, read) <= Int32Max
    ensures SumFrom(0, GroupBy(ById(prods)), catalog, read) == Ok(ProductsValue(Keys(ById(prods)), catalog, read))
  {
    GroupByValue(ById(prods), catalog, read);
    GroupsPriced(prods, catalog, read);
    SumFromExact(0, GroupBy(ById(prods)), catalog, read);
  }

  /** When every ordered product has a non-negative price and the whole order fits in an int32,
      the result is the sum over ordered products of their prices. */
  lemma GetOrdersValueExact(root: Node, read: string -> Option<int>)
    requires root.Element?
    requires forall p :: p in OrderedProducts(root) ==> Priced(Catalog(root), Value(p), read)
    requires ProductsValue(Keys(ById(OrderedProducts(root))), Catalog(root), read) <= Int32Max
    ensures GetOrdersValue(root, read) ==
            Ok(ProductsValue(Keys(ById(OrderedProducts(root))), Catalog(root), read))
  {
    TotalExact(OrderedProducts(root), Catalog(root), read);
  }

  lemma {:induction false} SumFromNeedsPrices(acc: int, gs: seq<Group<Node>>, catalog: seq<Node>, read: string -> Option<int>)
    requires InInt32(acc)
    requires SumFrom(acc, gs, catalog, read).Ok?
    ensures forall i :: 0 <= i < |gs| ==> PriceOf(catalog, gs[i].key, read).Ok?
    decreases |gs|
  {
    if gs != [] {
      var s := acc + Wrap32(PriceOf(catalog, gs[0].key, read).value * |gs[0].items|);
      SumFromNeedsPrices(s, gs[1..], catalog, read);
      assert forall i :: 1 <= i < |gs| ==> gs[i] == gs[1..][i - 1];
    }
  }

  /** A total is only ever returned when every ordered product has a price in the list. */
  lemma GetOrdersValueNeedsPrices(root: Node, read: string -> Option<int>)
    requires root.Element?
    requires GetOrdersValue(root, read).Ok?
    ensures forall p :: p in OrderedProducts(root) ==> PriceOf(Catalog(root), Value(p), read).Ok?
    ensures forall p :: p in OrderedProducts(root) ==> exists i :: FirstWithId(Catalog(root), i, Value(p))
  {
    var ps := ById(OrderedProducts(root));
    var gs := GroupBy(ps);
    SumFromNeedsPrices(0, gs, Catalog(root), read);
    GroupKeysCoverProducts(ps);
    forall p | p in OrderedProducts(root) ensures PriceOf(Catalog(root), Value(p), read).Ok? {
      var j :| 0 <= j < |OrderedProducts(root)| && OrderedProducts(root)[j] == p;
      assert Keys(ps)[j] == Value(p);
      assert Keys(ps)[j] in Keys(ps);
      var i :| 0 <= i < |gs| && GroupKeys(gs)[i] == Value(p);
    }
    forall p | p in OrderedProducts(root) ensures exists i :: FirstWithId(Catalog(root), i, Value(p)) {
      PriceOfSpec(Catalog(root), Value(p), read);
    }
  }

  lemma {:induction false} SumFromOverflows(acc: int, gs: seq<Group<Node>>, catalog: seq<Node>, read: string -> Option<int>)
    requires InInt32(acc) && acc >= 0
    requires forall i :: 0 <= i < |gs| ==> Priced(catalog, gs[i].key, read)
    requires forall i :: 0 <= i < |gs| ==> Price(catalog, gs[i].key, read) * |gs[i].items| <= Int32Max
    requires acc + GroupsValue(gs, catalog, read) > Int32Max
    ensures SumFrom(acc, gs, catalog, read) == Err(Overflow)
    decreases |gs|
  {
    var price := PriceOf(catalog, gs[0].key, read).value;
    var term := price * |gs[0].items|;
    assert term >= 0;
    assert Wrap32(term) == term;
    if acc + term <= Int32Max {
      assert forall i :: 1 <= i < |gs| ==> gs[i] == gs[1..][i - 1];
      SumFromOverflows(acc + term, gs[1..], catalog, read);
    }
  }

  lemma TotalOverflows(prods: seq<Node>, catalog: seq<Node>, read: string -> Option<int>)
    requires forall p :: p in prods ==> Priced(catalog, Value(p), read)
    requires var gs := GroupBy(ById(prods));
      forall i :: 0 <= i < |gs| ==> Price(catalog, gs[i].key, read) * |gs[i].items| <= Int32Max
    requires ProductsValue(Keys(ById(prods)), catalog, read) > Int32Max
    ensures SumFrom(0, GroupBy(ById(prods)), catalog, read) == Err(Overflow)
  {
    GroupByValue(ById(prods), catalog, read);
    GroupsPriced(prods, catalog, read);
    SumFromOverflows(0, GroupBy(ById(prods)), catalog, read);
  }

  /** With every product priced and no single group's value beyond int32, an order worth more
      than Int32.MaxValue is reported as an overflow, never as a wrong total. */
  lemma GetOrdersValueOverflows(root: Node, read: string -> Option<int>)
    requires root.Element?
    requires forall p :: p in OrderedProducts(root) ==> Priced(Catalog(root), Value(p), read)
    requires var gs := GroupBy(ById(OrderedProducts(root)));
      forall i :: 0 <= i < |gs| ==> Price(Catalog(root), gs[i].key, read) * |gs[i].items| <= Int32Max
    requires ProductsValue(Keys(ById(OrderedProducts(root))), Catalog(root), read) > Int32Max
    ensures GetOrdersValue(root, read) == Err(Overflow)
  {
    TotalOverflows(OrderedProducts(root), Catalog(root), read);
  }
}
