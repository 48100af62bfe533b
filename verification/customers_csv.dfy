/** LinqToXml.ReadCustomersFromCsv and CreateCustomerNode: cut a comma/newline token stream
    into records of ten fields and write one Customer element per record. */
module CustomersCsv {
  import opened Results
  import opened Xml
  import opened Strings

  /** The characters String.Split is given: comma and line feed. */
  const CsvSeparators: set<char> := {',', '\n'}

  /** Model of CreateCustomerNode (LinqToXml.cs:75-91): the one Customer element of a
      ten-field record (the source wraps it in a one-element array). */
  function CreateCustomerNode(fields: seq<string>): (r: Node)
    requires |fields| == 10
    ensures r.Element? && r.name == "Customer" && r.attrs == [("CustomerID", fields[0])]
    ensures |r.children| == 5 && r.children[4] == FullAddress(fields)
  {
    Element("Customer", [("CustomerID", fields[0])], [
      TextElement("CompanyName", fields[1]),
      TextElement("ContactName", fields[2]),
      TextElement("ContactTitle", fields[3]),
      TextElement("Phone", fields[4]),
      FullAddress(fields)])
  }

  /** The FullAddress child of a Customer: fields 5 to 9. */
  function FullAddress(fields: seq<string>): Node
    requires |fields| == 10
  {
    Element("FullAddress", [], [
      TextElement("Address", fields[5]),
      TextElement("City", fields[6]),
      TextElement("Region", fields[7]),
      TextElement("PostalCode", fields[8]),
      TextElement("Country", fields[9])])
  }

  /** The text value of the first child called `name`. */
  function ChildText(n: Node, name: string): Option<string> {
    match Child(n, name)
    case None => None
    case Some(c) => Some(Value(c))
  }

  /** The ten fields read back out of a Customer element, in record order. */
  function CustomerFields(c: Node): Option<seq<string>> {
    var address := Child(c, "FullAddress");
    var parts := [
      Attr(c, "CustomerID"),
      ChildText(c, "CompanyName"), ChildText(c, "ContactName"),
      ChildText(c, "ContactTitle"), ChildText(c, "Phone"),
      if address.None? then None else ChildText(address.value, "Address"),
      if address.None? then None else ChildText(address.value, "City"),
      if address.None? then None else ChildText(address.value, "Region"),
      if address.None? then None else ChildText(address.value, "PostalCode"),
      if address.None? then None else ChildText(address.value, "Country")];
    if forall i :: 0 <= i < 10 ==> parts[i].Some? then Some(seq(10, i requires 0 <= i < 10 => parts[i].value))
    else None
  }

  lemma CustomerChildren(fields: seq<string>)
    requires |fields| == 10
    ensures var c := CreateCustomerNode(fields);
      && Attr(c, "CustomerID") == Some(fields[0])
      && ChildText(c, "CompanyName") == Some(fields[1])
      && ChildText(c, "ContactName") == Some(fields[2])
      && ChildText(c, "ContactTitle") == Some(fields[3])
      && ChildText(c, "Phone") == Some(fields[4])
      && Child(c, "FullAddress") == Some(FullAddress(fields))
  {
    var cs := CreateCustomerNode(fields).children;
    FirstNamedAt(cs, 0, "CompanyName");
    FirstNamedAt(cs, 1, "ContactName");
    FirstNamedAt(cs, 2, "ContactTitle");
    FirstNamedAt(cs, 3, "Phone");
    FirstNamedAt(cs, 4, "FullAddress");
  }

  lemma AddressChildren(fields: seq<string>)
    requires |fields| == 10
    ensures var a := FullAddress(fields);
      && ChildText(a, "Address") == Some(fields[5])
      && ChildText(a, "City") == Some(fields[6])
      && ChildText(a, "Region") == Some(fields[7])
      && ChildText(a, "PostalCode") == Some(fields[8])
      && ChildText(a, "Country") == Some(fields[9])
  {
    var parts := FullAddress(fields).children;
    FirstNamedAt(parts, 0, "Address");
    FirstNamedAt(parts, 1, "City");
    FirstNamedAt(parts, 2, "Region");
    FirstNamedAt(parts, 3, "PostalCode");
    FirstNamedAt(parts, 4, "Country");
  }

  /** Reading the fields back from a Customer element gives the record it was built from. */
  lemma CustomerRoundTrip(fields: seq<string>)
    requires |fields| == 10
    ensures CustomerFields(CreateCustomerNode(fields)) == Some(fields)
  {
    var c := CreateCustomerNode(fields);
    var address := FullAddress(fields);
    CustomerChildren(fields);
    AddressChildren(fields);
    var got := [
      Attr(c, "CustomerID"),
      ChildText(c, "CompanyName"), ChildText(c, "ContactName"),
      ChildText(c, "ContactTitle"), ChildText(c, "Phone"),
      ChildText(address, "Address"), ChildText(address, "City"), ChildText(address, "Region"),
      ChildText(address, "PostalCode"), ChildText(address, "Country")];
    assert forall i :: 0 <= i < 10 ==> got[i] == Some(fields[i]);
    assert seq(10, i requires 0 <= i < 10 => got[i].value) == fields;
  }

  /** One Customer per ten tokens, in token order. */
  function CustomerNodes(tokens: seq<string>): seq<Node> {
    if |tokens| < 10 then []
    else CustomerNodes(tokens[..|tokens| - 10]) + [CreateCustomerNode(tokens[|tokens| - 10..])]
  }

  /** What ReadCustomersFromCsv builds from the split tokens, or the error of the last,
      short chunk. */
  function CustomersFromTokens(tokens: seq<string>): (r: Result<Node>)
    ensures r.Ok? <==> |tokens| % 10 == 0
    ensures r.Ok? ==> r.value.Element? && r.value.name == "Root" && r.value.attrs == []
  {
    if |tokens| % 10 != 0 then Err(MalformedInput)
    else Ok(Element("Root", [], CustomerNodes(tokens)))
  }

  /** List.CopyTo(index, array, arrayIndex, count) into `dest`: copy `count` items, or throw
      (false) when the list or `dest` is too short. */
  method CopyTo(src: seq<string>, index: nat, dest: array<string>, arrayIndex: nat, count: nat)
    returns (ok: bool)
    modifies dest
    ensures ok <==> index + count <= |src| && arrayIndex + count <= dest.Length
    ensures ok ==> dest[arrayIndex..arrayIndex + count] == src[index..index + count]
    ensures ok ==> dest[..arrayIndex] == old(dest[..arrayIndex])
    ensures ok ==> dest[arrayIndex + count..] == old(dest[arrayIndex + count..])
    ensures !ok ==> dest[..] == old(dest[..])
  {
    if !(index + count <= |src| && arrayIndex + count <= dest.Length) {
      return false;
    }
    var k := 0;
    while k < count
      invariant 0 <= k <= count
      invariant forall j :: arrayIndex <= j < arrayIndex + k ==> dest[j] == src[index + (j - arrayIndex)]
      invariant forall j :: 0 <= j < dest.Length && !(arrayIndex <= j < arrayIndex + k) ==>
                             dest[j] == old(dest[j])
    {
      dest[arrayIndex + k] := src[index + k];
      k := k + 1;
    }
    return true;
  }

  lemma {:induction false} CustomerNodesStep(tokens: seq<string>, i: nat)
    requires i + 10 <= |tokens|
    ensures CustomerNodes(tokens[..i + 10]) == CustomerNodes(tokens[..i]) + [CreateCustomerNode(tokens[i..i + 10])]
  {
    var p := tokens[..i + 10];
    assert p[..|p| - 10] == tokens[..i];
    assert p[|p| - 10..] == tokens[i..i + 10];
  }

  /** Whether the token count is a multiple of ten, told by the chunk loop's last index. */
  lemma TokenCountByChunks(n: nat, len: nat)
    ensures len == 10 * n ==> len % 10 == 0
    ensures 10 * n < len < 10 * n + 10 ==> len % 10 != 0
  {
  }

  /** Model of ReadCustomersFromCsv (LinqToXml.cs:60-74). */
  method ReadCustomersFromCsv(customers: string) returns (r: Result<Node>)
    ensures r == CustomersFromTokens(Split(customers, CsvSeparators))
  {
    var lst := Split(customers, CsvSeparators);
    var doc := new MutableElement.Named("Root");
    var i := 0;
    ghost var n := 0;
    assert lst[..0] == [];
    while i < |lst|
      invariant 0 <= i <= |lst| && i == 10 * n
      invariant doc.Tree() == Element("Root", [], CustomerNodes(lst[..i]))
    {
      var chunk := new string[10](_ => "");
      var ok := CopyTo(lst, i, chunk, 0, 10);
      if !ok {
        TokenCountByChunks(n, |lst|);
        return Err(MalformedInput);
      }
      CustomerNodesStep(lst, i);
      assert chunk[..] == lst[i..i + 10] by {
        assert chunk[..] == chunk[0..10];
      }
      doc.Add(CreateCustomerNode(chunk[..]));
      i, n := i + 10, n + 1;
    }
    assert lst[..i] == lst;
    TokenCountByChunks(n, |lst|);
    return Ok(doc.Tree());
  }

  // ----- what the result means -----

  /** Tokens 10k .. 10k+9: the k-th record. */
  function Record(tokens: seq<string>, k: nat): seq<string>
    requires 10 * k + 10 <= |tokens|
  {
    tokens[10 * k..10 * k + 10]
  }

  /** Cutting off the last record leaves the earlier ones in place. */
  lemma RecordOfPrefix(tokens: seq<string>, n: nat, k: nat)
    requires |tokens| == 10 * n && k < n
    ensures k < n - 1 ==> 10 * k + 10 <= 10 * (n - 1) && Record(tokens[..10 * (n - 1)], k) == Record(tokens, k)
    ensures k == n - 1 ==> Record(tokens, k) == tokens[10 * (n - 1)..]
  {
  }

  /** Customer k is built from tokens 10k .. 10k+9. */
  lemma {:induction false} CustomerNodesAt(tokens: seq<string>, n: nat)
    requires |tokens| == 10 * n
    ensures |CustomerNodes(tokens)| == n
    ensures forall k: nat :: k < n ==> CustomerNodes(tokens)[k] == CreateCustomerNode(Record(tokens, k))
  {
    if n > 0 {
      var m := 10 * (n - 1);
      var init := tokens[..m];
      CustomerNodesAt(init, n - 1);
      var prev := CustomerNodes(init);
      assert CustomerNodes(tokens) == prev + [CreateCustomerNode(tokens[m..])];
      forall k: nat | k < n
        ensures CustomerNodes(tokens)[k] == CreateCustomerNode(Record(tokens, k))
      {
        RecordOfPrefix(tokens, n, k);
      }
    }
  }

  /** With 10·N tokens the root holds exactly N customers, customer k carrying tokens
      10k .. 10k+9 in field order; any other token count is an error. */
  lemma ReadCustomersFields(tokens: seq<string>)
    ensures CustomersFromTokens(tokens).Ok? <==> |tokens| % 10 == 0
    ensures CustomersFromTokens(tokens).Ok? ==>
      var root := CustomersFromTokens(tokens).value;
      && root.name == "Root"
      && |root.children| == |tokens| / 10
      && forall k :: 0 <= k < |tokens| / 10 ==>
           CustomerFields(root.children[k]) == Some(tokens[10 * k..10 * k + 10])
  {
    if |tokens| % 10 == 0 {
      CustomerNodesAt(tokens, |tokens| / 10);
      forall k | 0 <= k < |tokens| / 10
        ensures CustomerFields(CustomerNodes(tokens)[k]) == Some(tokens[10 * k..10 * k + 10])
      {
        CustomerRoundTrip(Record(tokens, k));
      }
    }
  }

  // ----- the CSV text round trip -----

  predicate WellFormedRecord(row: seq<string>) {
    |row| == 10 && forall j :: 0 <= j < 10 ==> NoSeparator(row[j], CsvSeparators)
  }

  /** The records as lines of comma-separated fields. */
  function Lines(records: seq<seq<string>>): (r: seq<string>)
    ensures |r| == |records|
    ensures forall i :: 0 <= i < |records| ==> r[i] == Join(records[i], ',')
  {
    if records == [] then [] else Lines(records[..|records| - 1]) + [Join(records[|records| - 1], ',')]
  }

  /** CSV text: one line per record, fields separated by commas. */
  function CsvText(records: seq<seq<string>>): string {
    Join(Lines(records), '\n')
  }

  /** All fields of all records, in order. */
  function Flatten(records: seq<seq<string>>): seq<string> {
    if records == [] then [] else Flatten(records[..|records| - 1]) + records[|records| - 1]
  }

  lemma {:induction false} SplitCsvText(records: seq<seq<string>>)
    requires records != []
    requires forall i :: 0 <= i < |records| ==> WellFormedRecord(records[i])
    ensures Split(CsvText(records), CsvSeparators) == Flatten(records)
  {
    var last := records[|records| - 1];
    SplitJoin(last, ',', CsvSeparators);
    if |records| > 1 {
      var init := records[..|records| - 1];
      SplitCsvText(init);
      assert Lines(records)[..|records| - 1] == Lines(init);
      SplitAtSeparator(CsvText(init), '\n', Join(last, ','), CsvSeparators);
    } else {
      assert records[..0] == [];
    }
  }

  lemma {:induction false} FlattenAt(records: seq<seq<string>>)
    requires forall i :: 0 <= i < |records| ==> |records[i]| == 10
    ensures |Flatten(records)| == 10 * |records|
    ensures forall k :: 0 <= k < |records| ==> Flatten(records)[10 * k..10 * k + 10] == records[k]
  {
    if records != [] {
      var init := records[..|records| - 1];
      FlattenAt(init);
      forall k | 0 <= k < |records|
        ensures Flatten(records)[10 * k..10 * k + 10] == records[k]
      {
        if k < |init| {
          assert Flatten(records)[10 * k..10 * k + 10] == Flatten(init)[10 * k..10 * k + 10];
        }
      }
    }
  }

  /** Round trip: writing records as CSV lines and reading them back gives one Customer per
      record, in order, whose fields are that record. */
  lemma CsvRoundTrip(records: seq<seq<string>>)
    requires records != []
    requires forall i :: 0 <= i < |records| ==> WellFormedRecord(records[i])
    ensures var r := CustomersFromTokens(Split(CsvText(records), CsvSeparators));
      && r.Ok?
      && |r.value.children| == |records|
      && forall k :: 0 <= k < |records| ==> CustomerFields(r.value.children[k]) == Some(records[k])
  {
    SplitCsvText(records);
    FlattenAt(records);
    ReadCustomersFields(Flatten(records));
  }
}
