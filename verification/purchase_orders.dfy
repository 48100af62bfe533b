/** LinqToXml.GetPurchaseOrders: the numbers of the purchase orders shipped to NY, comma-joined. */
module PurchaseOrders {
  import opened Results
  import opened Xml
  import opened Strings

  /** The Where clause for one order: its Address/State text is exactly "NY". A missing
      Address or State element is dereferenced as null and throws. */
  function ShipsToNy(order: Node, ns: string): (r: Result<bool>)
    ensures r.Ok? <==> Child(order, QName(ns, "Address")).Some? &&
                       Child(Child(order, QName(ns, "Address")).value, QName(ns, "State")).Some?
  {
    match Child(order, QName(ns, "Address"))
    case None => Err(MissingElement)
    case Some(address) =>
      match Child(address, QName(ns, "State"))
      case None => Err(MissingElement)
      case Some(state) => Ok(Value(state) == "NY")
  }

  /** Where followed by Select for one order: the order's number if it passes the filter,
      None if it does not; reading the number of a passing order without one throws. */
  function Selected(order: Node, ns: string): (r: Result<Option<string>>)
    ensures r.Ok? && r.value.Some? ==> ShipsToNy(order, ns) == Ok(true)
    ensures r.Ok? && r.value.None? ==> ShipsToNy(order, ns) == Ok(false)
  {
    var ny :- ShipsToNy(order, ns);
    if !ny then Ok(None)
    else
      match Attr(order, QName(ns, "PurchaseOrderNumber"))
      case None => Err(MissingElement)
      case Some(number) => Ok(Some(number))
  }

  /** An order yields its number exactly when its State is "NY", and is skipped exactly when
      its State is something else. */
  lemma SelectedMeaning(order: Node, ns: string)
    ensures var r := Selected(order, ns);
      && (r.Ok? && r.value.Some? <==> ShipsToNy(order, ns) == Ok(true) &&
                                      Attr(order, QName(ns, "PurchaseOrderNumber")).Some?)
      && (r.Ok? && r.value.Some? ==> r.value.value == Attr(order, QName(ns, "PurchaseOrderNumber")).value)
      && (r.Ok? && r.value.None? <==> ShipsToNy(order, ns) == Ok(false))
  {
    var number := Attr(order, QName(ns, "PurchaseOrderNumber"));
    match ShipsToNy(order, ns)
    case Err(e) =>
      assert Selected(order, ns) == Err(e);
    case Ok(ny) =>
      if !ny {
        assert Selected(order, ns) == Ok(None);
      } else if number.None? {
        assert Selected(order, ns) == Err(MissingElement);
      } else {
        assert Selected(order, ns) == Ok(Some(number.value));
      }
  }

  /** The sequence the query yields when its first n orders have been enumerated, in document
      order; the first order whose test throws ends the enumeration with that error. */
  function NyNumbers(orders: seq<Node>, n: nat, ns: string): (r: Result<seq<string>>)
    requires n <= |orders|
    ensures r.Ok? ==> |r.value| <= n
  {
    if n == 0 then Ok([])
    else
      match NyNumbers(orders, n - 1, ns)
      case Err(e) => Err(e)
      case Ok(init) =>
        match Selected(orders[n - 1], ns)
        case Err(e) => Err(e)
        case Ok(None) => Ok(init)
        case Ok(Some(v)) => Ok(init + [v])
  }

  /** The accumulator update of the loop body. */
  function Accumulate(acc: string, v: string): string {
    if acc != "" then acc + "," + v else v
  }

  /** The accumulator after the loop has consumed `vs`. */
  function Accumulated(vs: seq<string>): (r: string)
    ensures vs != [] ==> |vs[|vs| - 1]| <= |r| && r[|r| - |vs[|vs| - 1]|..] == vs[|vs| - 1]
  {
    if vs == [] then "" else Accumulate(Accumulated(vs[..|vs| - 1]), vs[|vs| - 1])
  }

  /** What GetPurchaseOrders returns or throws. `aw` is the namespace the document binds to the
      prefix "aw", None when it binds none. */
  function PurchaseOrdersOf(root: Node, aw: Option<string>): Result<string>
    requires root.Element?
  {
    if aw.None? then Err(MissingNamespace)
    else
      var orders := ElementsNamed(root.children, QName(aw.value, "PurchaseOrder"));
      var numbers :- NyNumbers(orders, |orders|, aw.value);
      Ok(Accumulated(numbers))
  }

  /** Once an order has thrown, the enumeration stays failed with that error. */
  lemma {:induction false} NyNumbersErrPrefix(orders: seq<Node>, k: nat, n: nat, ns: string)
    requires k <= n <= |orders| && NyNumbers(orders, k, ns).Err?
    ensures NyNumbers(orders, n, ns) == NyNumbers(orders, k, ns)
    decreases n
  {
    if k < n {
      NyNumbersErrPrefix(orders, k, n - 1, ns);
      match NyNumbers(orders, n - 1, ns)
      case Err(e) =>
        assert NyNumbers(orders, n, ns) == Err(e);
    }
  }

  /** Appending one number extends the accumulator by one update. */
  lemma AccumulatedSnoc(vs: seq<string>, v: string)
    ensures Accumulated(vs + [v]) == Accumulate(Accumulated(vs), v)
  {
    assert (vs + [v])[..|vs|] == vs;
  }

  /** Model of GetPurchaseOrders (LinqToXml.cs:38-53): the foreach loop over the query. */
  method GetPurchaseOrders(root: Node, aw: Option<string>) returns (r: Result<string>)
    requires root.Element?
    ensures r == PurchaseOrdersOf(root, aw)
  {
    if aw.None? {
      return Err(MissingNamespace);
    }
    var ns := aw.value;
    var orders := ElementsNamed(root.children, QName(ns, "PurchaseOrder"));
    var outPut := "";
    ghost var taken: seq<string> := [];
    var i := 0;
    while i < |orders|
      invariant 0 <= i <= |orders|
      invariant NyNumbers(orders, i, ns) == Ok(taken)
      invariant outPut == Accumulated(taken)
    {
      var step := Selected(orders[i], ns);
      if step.Err? {
        assert NyNumbers(orders, i + 1, ns) == Err(step.error);
        NyNumbersErrPrefix(orders, i + 1, |orders|, ns);
        return Err(step.error);
      }
      if step.value.Some? {
        var v := step.value.value;
        AccumulatedSnoc(taken, v);
        outPut := Accumulate(outPut, v);
        taken := taken + [v];
      }
      i := i + 1;
    }
    assert NyNumbers(orders, |orders|, ns) == Ok(taken);
    return Ok(outPut);
  }

  // ----- what the result means -----

  lemma {:induction false} JoinNonEmpty(vs: seq<string>, sep: char)
    requires vs != [] && forall i :: 0 <= i < |vs| ==> vs[i] != ""
    ensures Join(vs, sep) != ""
  {
    if |vs| > 1 {
      JoinNonEmpty(vs[..|vs| - 1], sep);
    }
  }

  /** With non-empty order numbers the accumulator is the comma-join: single commas between
      numbers, none before the first or after the last. */
  lemma {:induction false} AccumulatedIsJoin(vs: seq<string>)
    requires forall i :: 0 <= i < |vs| ==> vs[i] != ""
    ensures Accumulated(vs) == Join(vs, ',')
  {
    if vs != [] {
      var init := vs[..|vs| - 1];
      AccumulatedIsJoin(init);
      if init != [] {
        JoinNonEmpty(init, ',');
      }
    }
  }

  /** No order ships to NY: the result is the empty string. */
  lemma NoNyOrdersGiveEmpty(root: Node, ns: string)
    requires root.Element?
    requires var orders := ElementsNamed(root.children, QName(ns, "PurchaseOrder"));
      NyNumbers(orders, |orders|, ns) == Ok([])
    ensures PurchaseOrdersOf(root, Some(ns)) == Ok("")
  {
  }

  /** Splitting the result at commas gives back, in document order, the numbers of the orders
      shipped to NY, provided the numbers are non-empty and hold no comma. */
  lemma PurchaseOrdersRoundTrip(root: Node, ns: string, numbers: seq<string>)
    requires root.Element?
    requires var orders := ElementsNamed(root.children, QName(ns, "PurchaseOrder"));
      NyNumbers(orders, |orders|, ns) == Ok(numbers)
    requires numbers != []
    requires forall i :: 0 <= i < |numbers| ==> numbers[i] != "" && NoSeparator(numbers[i], {','})
    ensures PurchaseOrdersOf(root, Some(ns)).Ok?
    ensures Split(PurchaseOrdersOf(root, Some(ns)).value, {','}) == numbers
  {
    AccumulatedIsJoin(numbers);
    SplitJoin(numbers, ',', {','});
  }

  /** The accumulator test is on the text so far, so an empty number swallows its comma. */
  lemma EmptyNumberLosesComma()
    ensures Accumulated(["", "99301"]) == "99301"
    ensures Join(["", "99301"], ',') == ",99301"
  {
    assert ["", "99301"][..1] == [""];
    assert [""][..0] == [];
  }
}
