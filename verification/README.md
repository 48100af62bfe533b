# LinqToXml, modelled in Dafny

This project models the static class `LinqToXml` (05-LinqToXml/LinqToXml/LinqToXml.cs). It holds
eight XML transforms written as LINQ to XML queries:

- grouping `Data` elements by `Category` (`CreateHierarchy`);
- collecting the numbers of the purchase orders shipped to NY (`GetPurchaseOrders`);
- building `Customer` elements from a CSV token stream (`ReadCustomersFromCsv`, `CreateCustomerNode`);
- concatenating element values (`GetConcatenationString`, `GetFlattenString`);
- wrapping every customer's child elements in a `contact` element (`ReplaceAllCustomersWithContacts`);
- selecting the ids of channels marked for deletion (`FindChannelsIds`);
- sorting customers by country and city (`SortCustomers`);
- totalling the value of the ordered products (`GetOrdersValue`).

Each transform starts from an already parsed tree and returns a tree (or a sequence or number).
Parsing and printing XML text are not modelled.

- **Trees.** An XML tree is the datatype `Xml.Node`. It is an element (an expanded name, its
  attributes and its child nodes), a text node or a comment. `Xml.Value` is `XElement.Value`: the
  text nodes below an element, in document order; comments are ignored.
- **Exceptions.** .NET exceptions become `Results.Error` values. For example, a missing child
  element, which the source dereferences as null, is `Err(MissingElement)`.
- **In-place updates.** The two transforms that change the parsed document in place work on the
  class `Xml.MutableElement`. `ReplaceAll` drops the attributes and `ReplaceNodes` keeps them, as in
  LINQ to XML. The chunk loop of `ReadCustomersFromCsv` appends to one with `Add`.
- **Loops.** The two loops of the source are methods with loop invariants: the accumulator loop of
  `GetPurchaseOrders` and the chunk loop of `ReadCustomersFromCsv`. Each is proved equal to a
  specification function. The lemmas beside that function state what the source promises.
- **Library services as parameters.**
  - `read: string -> Option<int>` reads a decimal number; `Numbers.ToInt32` turns it into
    `Convert.ToInt32`, which fails outside the int32 range.
  - `serialize: Node -> string` stands for `XElement.ToString()`.
  - `cmp` is the string comparer of `OrderBy`/`ThenBy`.
  - `aw: Option<string>` is the namespace the document binds to the prefix `aw`.
- **Integer arithmetic.** `GetOrdersValue` multiplies price by count in unchecked int32 arithmetic
  (`Numbers.Wrap32`). The running total of `Enumerable.Sum` is checked and fails with `Overflow`.

## Model

| member | source | states |
|---|---|---|
| Xml.ValueIsTextConcat | 05-LinqToXml/LinqToXml/LinqToXml.cs:155 | `Xml.Value`, the model of `XElement.Value`: the value of an element is the concatenation of all text nodes below it, in document order |
| Xml.ElementsAppend | 05-LinqToXml/LinqToXml/LinqToXml.cs:124 | `Elements()` distributes over concatenation of child lists, so it keeps document order |
| Xml.FirstNamedIsFirst | 05-LinqToXml/LinqToXml/LinqToXml.cs:24 | `Element(name)` is the first of `Elements(name)`, and absent exactly when there is none |
| Xml.MutableElement.Add | 05-LinqToXml/LinqToXml/LinqToXml.cs:70 | `Add` appends one node and keeps the name and attributes |
| Xml.MutableElement.ReplaceAll | 05-LinqToXml/LinqToXml/LinqToXml.cs:112 | `ReplaceAll` replaces every child node and removes the attributes |
| Xml.MutableElement.ReplaceNodes | 05-LinqToXml/LinqToXml/LinqToXml.cs:139 | `ReplaceNodes` replaces every child node and keeps the attributes |
| Grouping.GroupByCorrect | 05-LinqToXml/LinqToXml/LinqToXml.cs:24 | `Grouping.GroupBy`, the incremental `GroupBy`, equals one group per distinct key, in first-occurrence order, each holding that key's items in input order |
| Grouping.DistinctSpec | 05-LinqToXml/LinqToXml/LinqToXml.cs:24 | the distinct keys are pairwise different, are exactly the keys of the input, and are ordered by first occurrence |
| Hierarchy.CreateHierarchy | 05-LinqToXml/LinqToXml/LinqToXml.cs:21-27 | the result exists exactly when every `Data` element has a `Category` child; otherwise the key selector throws |
| Hierarchy.CreateHierarchyGroups | 05-LinqToXml/LinqToXml/LinqToXml.cs:24-26 | the root `Root` holds one `Group` per distinct category, with `ID` the category, holding the `Data` elements of that category in document order, each reduced to its `Quantity` and `Price` children |
| Hierarchy.CreateHierarchyIds | 05-LinqToXml/LinqToXml/LinqToXml.cs:24-25 | the `ID` attributes of the output groups are the distinct categories: pairwise distinct, exactly the categories present, in first-occurrence order |
| Hierarchy.CreateHierarchyPlacesEveryData | 05-LinqToXml/LinqToXml/LinqToXml.cs:24-26 | every input `Data` element appears, as its `Quantity`/`Price` copy, in the group whose `ID` is its category |
| PurchaseOrders.ShipsToNy | 05-LinqToXml/LinqToXml/LinqToXml.cs:43 | the filter has a verdict exactly when the order has an `Address` child with a `State` child; otherwise it throws |
| PurchaseOrders.Selected | 05-LinqToXml/LinqToXml/LinqToXml.cs:43-44 | `Where` then `Select` for one order: a number is yielded only for an order whose state is `"NY"`, and an order is skipped only when its state is something else |
| PurchaseOrders.SelectedMeaning | 05-LinqToXml/LinqToXml/LinqToXml.cs:43-44 | an order yields its `PurchaseOrderNumber` exactly when its state is `"NY"` and it has the attribute; it is skipped exactly when its state is something else |
| PurchaseOrders.NyNumbers | 05-LinqToXml/LinqToXml/LinqToXml.cs:43-47 | the enumeration of the first n orders yields at most n numbers, or the first error |
| PurchaseOrders.NyNumbersErrPrefix | 05-LinqToXml/LinqToXml/LinqToXml.cs:47 | once an order throws, the enumeration ends with that error |
| PurchaseOrders.GetPurchaseOrders | 05-LinqToXml/LinqToXml/LinqToXml.cs:38-53 | the loop returns the accumulator over the NY numbers in document order, or the first error; a missing `aw` namespace is an error |
| PurchaseOrders.Accumulated | 05-LinqToXml/LinqToXml/LinqToXml.cs:46-50 | the accumulator after the loop ends with the last number taken |
| PurchaseOrders.AccumulatedIsJoin | 05-LinqToXml/LinqToXml/LinqToXml.cs:46-50 | with non-empty numbers the accumulator is the comma-join: single commas, none leading or trailing |
| PurchaseOrders.PurchaseOrdersRoundTrip | 05-LinqToXml/LinqToXml/LinqToXml.cs:38-53 | splitting the result at commas gives back the NY order numbers in document order, when they are non-empty and comma-free |
| PurchaseOrders.NoNyOrdersGiveEmpty | 05-LinqToXml/LinqToXml/LinqToXml.cs:46-52 | no order shipped to NY gives the empty string |
| PurchaseOrders.EmptyNumberLosesComma | 05-LinqToXml/LinqToXml/LinqToXml.cs:49 | the test on the accumulator lets an empty first number swallow the following comma |
| Strings.Split | 05-LinqToXml/LinqToXml/LinqToXml.cs:62 | `String.Split` gives at least one piece, and no piece holds a separator |
| Strings.SplitJoin | 05-LinqToXml/LinqToXml/LinqToXml.cs:62 | splitting a join of separator-free pieces at the separator gives the pieces back |
| CustomersCsv.CreateCustomerNode | 05-LinqToXml/LinqToXml/LinqToXml.cs:75-91 | the record becomes a `Customer` element with `CustomerID` field 0 and five children, the last the `FullAddress` of fields 5-9 |
| CustomersCsv.CustomerChildren | 05-LinqToXml/LinqToXml/LinqToXml.cs:79-84 | a `Customer` carries field 0 as `CustomerID` and fields 1-4 as `CompanyName`, `ContactName`, `ContactTitle`, `Phone` |
| CustomersCsv.AddressChildren | 05-LinqToXml/LinqToXml/LinqToXml.cs:84-89 | `FullAddress` carries fields 5-9 as `Address`, `City`, `Region`, `PostalCode`, `Country` |
| CustomersCsv.CustomerRoundTrip | 05-LinqToXml/LinqToXml/LinqToXml.cs:75-91 | reading the ten fields back out of the `Customer` built from a record gives the record |
| CustomersCsv.CopyTo | 05-LinqToXml/LinqToXml/LinqToXml.cs:69 | `List.CopyTo` succeeds exactly when source and array are long enough, copies the range and leaves the rest of the array alone |
| CustomersCsv.CustomersFromTokens | 05-LinqToXml/LinqToXml/LinqToXml.cs:60-74 | the tokens give a `Root` element without attributes exactly when their count is a multiple of 10; otherwise `CopyTo` fails |
| CustomersCsv.ReadCustomersFromCsv | 05-LinqToXml/LinqToXml/LinqToXml.cs:60-74 | the chunk loop builds `Root` with one `Customer` per ten tokens, or fails when the last chunk is short |
| CustomersCsv.CustomerNodesAt | 05-LinqToXml/LinqToXml/LinqToXml.cs:66-71 | with 10·N tokens there are N customers, customer k built from tokens 10k to 10k+9 |
| CustomersCsv.ReadCustomersFields | 05-LinqToXml/LinqToXml/LinqToXml.cs:60-91 | the result exists exactly when the token count is a multiple of 10; then `Root` has N children, the k-th carrying tokens 10k to 10k+9 in field order |
| CustomersCsv.SplitCsvText | 05-LinqToXml/LinqToXml/LinqToXml.cs:62 | splitting CSV text of well-formed records at commas and newlines gives all fields in order |
| CustomersCsv.CsvRoundTrip | 05-LinqToXml/LinqToXml/LinqToXml.cs:60-91 | CSV text of N well-formed records gives N customers, each carrying its record |
| Concatenation.ValuesOf | 05-LinqToXml/LinqToXml/LinqToXml.cs:100 | the `Select` maps each element to its value, pointwise |
| Concatenation.AggregateConcat | 05-LinqToXml/LinqToXml/LinqToXml.cs:100 | `Aggregate` without a seed fails exactly on an empty sequence, with the empty-input error |
| Concatenation.AggregateIsConcat | 05-LinqToXml/LinqToXml/LinqToXml.cs:100 | the seedless left fold of `+` over a non-empty list is its concatenation |
| Concatenation.GetConcatenationString | 05-LinqToXml/LinqToXml/LinqToXml.cs:97-101 | fails exactly when the root has no element child; otherwise it is the concatenation, in order, of the values of the root's element children |
| Concatenation.GetFlattenString | 05-LinqToXml/LinqToXml/LinqToXml.cs:153-156 | the concatenation of every text node below the element, in document order |
| Concatenation.ValueWithoutTextChildren | 05-LinqToXml/LinqToXml/LinqToXml.cs:100 | without direct text children, the value of a node list is the concatenation of its element children's values |
| Concatenation.ConcatenationIsFlatten | 05-LinqToXml/LinqToXml/LinqToXml.cs:97-101 | with an element child and no direct text child, the concatenation string equals the flatten string of the root |
| Concatenation.FlattenSplits | 05-LinqToXml/LinqToXml/LinqToXml.cs:153-156 | flattening distributes over concatenation of the children |
| Concatenation.SentenceExample | 05-LinqToXml/LinqToXml/LinqToXml.cs:97-101 | a sentence of `Hello`, `,`, `world` gives `Hello,world` |
| Contacts.Contact | 05-LinqToXml/LinqToXml/LinqToXml.cs:112 | a `contact` element without attributes whose children are the element children of the customer, in order |
| Contacts.ContactsDocument | 05-LinqToXml/LinqToXml/LinqToXml.cs:112 | the root keeps its name, loses its attributes and has as many children as it had element children |
| Contacts.ReplaceAllCustomersWithContacts | 05-LinqToXml/LinqToXml/LinqToXml.cs:108-114 | after the call the document is the contacts document of the one before |
| Contacts.ContactsReplaceCustomers | 05-LinqToXml/LinqToXml/LinqToXml.cs:112 | every child is a `contact` without attributes holding the element children of the matching customer, in order |
| Contacts.ElementsIdempotent | 05-LinqToXml/LinqToXml/LinqToXml.cs:112 | `Elements()` of `Elements()` is `Elements()` |
| Contacts.ContactsIdempotent | 05-LinqToXml/LinqToXml/LinqToXml.cs:108-114 | applying the transform twice gives the same tree as applying it once |
| Channels.Marked | 05-LinqToXml/LinqToXml/LinqToXml.cs:124-126 | a channel passes the filter exactly when it has two or more `subscriber` children and a direct `DELETE` comment |
| Channels.MarkedAppend | 05-LinqToXml/LinqToXml/LinqToXml.cs:124-126 | the filter distributes over concatenation, so it keeps document order |
| Channels.ChannelIds | 05-LinqToXml/LinqToXml/LinqToXml.cs:127 | the `Select` enumerated to the end gives one id per marked channel, or the first error |
| Channels.ChannelIdsSpec | 05-LinqToXml/LinqToXml/LinqToXml.cs:127 | the `Select` succeeds exactly when every marked channel's id converts, and then gives one id per channel in order |
| Channels.FindChannelsIds | 05-LinqToXml/LinqToXml/LinqToXml.cs:121-129 | the output is no longer than the root's element-child count |
| Channels.FindChannelsIdsComplete | 05-LinqToXml/LinqToXml/LinqToXml.cs:121-129 | the id of every marked channel is emitted |
| Channels.FindChannelsIdsSound | 05-LinqToXml/LinqToXml/LinqToXml.cs:121-129 | every emitted id is the id of a marked channel |
| Channels.FindChannelsIdsInOrder | 05-LinqToXml/LinqToXml/LinqToXml.cs:121-129 | the i-th id is the id of the i-th marked channel in document order |
| Channels.FindChannelsIdsFails | 05-LinqToXml/LinqToXml/LinqToXml.cs:121-129 | the query fails exactly when some marked channel has no `id` or one that does not convert |
| Numbers.ToInt32 | 05-LinqToXml/LinqToXml/LinqToXml.cs:127 | `Convert.ToInt32` gives the number read exactly when it is in the int32 range; unreadable text is a format error, else an overflow |
| Numbers.Wrap32 | 05-LinqToXml/LinqToXml/LinqToXml.cs:169-170 | unchecked int32 multiplication: a value in range, congruent modulo 2^32, and unchanged when already in range |
| Numbers.ProductWrapsAround | 05-LinqToXml/LinqToXml/LinqToXml.cs:169-170 | 2^30 · 2 wraps to int32 minimum |
| CustomerSort.KeyOf | 05-LinqToXml/LinqToXml/LinqToXml.cs:140-141 | the sort key exists exactly when the customer has `FullAddress` with `Country` and `City` |
| CustomerSort.KeysOf | 05-LinqToXml/LinqToXml/LinqToXml.cs:139-141 | keys are computed for every customer; the list fails exactly when one customer's key does |
| CustomerSort.KeyLeqTotal | 05-LinqToXml/LinqToXml/LinqToXml.cs:140-141 | with an antisymmetric comparer, of any two customers one may come first |
| CustomerSort.SortedDocument | 05-LinqToXml/LinqToXml/LinqToXml.cs:139-141 | the sorted root keeps its name and attributes and holds as many children as it had element children |
| CustomerSort.SortCustomers | 05-LinqToXml/LinqToXml/LinqToXml.cs:136-143 | on success the document becomes the sorted document; on failure it is left as it was |
| CustomerSort.Sort | 05-LinqToXml/LinqToXml/LinqToXml.cs:140-141 | `OrderBy`/`ThenBy` keeps the number of customers; order, permutation and stability are the three lemmas below |
| CustomerSort.SortOrdered | 05-LinqToXml/LinqToXml/LinqToXml.cs:140-141 | neighbours are ordered by country, then city |
| CustomerSort.SortPermutes | 05-LinqToXml/LinqToXml/LinqToXml.cs:139-141 | the sorted customers are a permutation of the input |
| CustomerSort.SortStable | 05-LinqToXml/LinqToXml/LinqToXml.cs:139-141 | customers with the same country and city keys keep their relative order |
| CustomerSort.SortCustomersFails | 05-LinqToXml/LinqToXml/LinqToXml.cs:139-141 | sorting fails exactly when some customer lacks a key |
| CustomerSort.SortCustomersCorrect | 05-LinqToXml/LinqToXml/LinqToXml.cs:136-143 | the new children are a permutation of the old element children, ordered by (country, city), and stable |
| OrdersValue.ById | 05-LinqToXml/LinqToXml/LinqToXml.cs:166 | each ordered product is keyed by its value, pointwise |
| OrdersValue.PriceOf | 05-LinqToXml/LinqToXml/LinqToXml.cs:169 | a price is an int32; not found means no catalog entry has that `Id` |
| OrdersValue.PriceOfSpec | 05-LinqToXml/LinqToXml/LinqToXml.cs:169 | a price is the converted `Value` of the first entry whose `Id` matches, every earlier entry having an `Id`; with no entry carrying the `Id` the lookup fails |
| OrdersValue.SumFrom | 05-LinqToXml/LinqToXml/LinqToXml.cs:168-170 | a checked running total stays in the int32 range |
| OrdersValue.GetOrdersValue | 05-LinqToXml/LinqToXml/LinqToXml.cs:163-172 | a total that is returned is an int32 |
| OrdersValue.AddToGroupsValue | 05-LinqToXml/LinqToXml/LinqToXml.cs:166-167 | adding one product to the groups adds its price to the grouped value |
| OrdersValue.GroupByValue | 05-LinqToXml/LinqToXml/LinqToXml.cs:166-170 | the sum over groups of price × count equals the sum of prices over every product occurrence |
| OrdersValue.SumFromExact | 05-LinqToXml/LinqToXml/LinqToXml.cs:168-170 | with priced groups and no overflow, the checked sum is the exact sum of price × count |
| OrdersValue.GetOrdersValueExact | 05-LinqToXml/LinqToXml/LinqToXml.cs:163-172 | when every ordered product has a non-negative price and the total fits, the result is the sum of the prices over every product occurrence |
| OrdersValue.GetOrdersValueNeedsPrices | 05-LinqToXml/LinqToXml/LinqToXml.cs:169 | a successful total means every ordered product id has a price, read from the first matching entry of the price list |
| OrdersValue.GetOrdersValueOverflows | 05-LinqToXml/LinqToXml/LinqToXml.cs:168-170 | when each group's product fits but the total exceeds int32 maximum, the result is an overflow |

## Left out

- Parsing and serialisation: `XElement.Parse` and `ToString()` are library code. Every transform starts from a `Node` tree and returns a tree rather than its text.
- `GetNamespaceOfPrefix("aw")` is a library lookup. Its answer is the parameter `aw`, and expanded names are the strings `{namespace}local`.
- `Convert.ToInt32` reads decimal text through the parameter `read`. The model keeps its range check and its two failure kinds.
- The sort keys `Element(...).ToString()` are the parameter `serialize`. The default string comparer of `OrderBy`/`ThenBy` is the parameter `cmp`, assumed antisymmetric in the ordering lemmas.
- Laziness: the sequence returned by `FindChannelsIds` is modelled as enumerated once, in full. Re-enumeration and deferred exceptions are not modelled.
- Node kinds other than elements, text and comments are not modelled: processing instructions, CDATA, document types and namespace declarations as attributes.
- Whitespace handling by the parser is not modelled.
- Exception types are collapsed into the `Error` values; messages and stack traces are not kept.
- Node identity, parents and the cloning of attached nodes by the `XElement` constructor are not modelled. Trees are values, so copies are implicit.
- `CreateCustomerNode` returns a one-element array, which `doc.Add` flattens. The model returns the single `Customer` element.
- UnitTests and Program.cs are not part of this model; they hold no logic of the transforms.
- `OrderBy` is modelled as a stable insertion sort rather than .NET's stable quicksort. For a comparer that is a total preorder both give the same order; the number and order of comparer calls are not modelled.
- CustomerSort.SortStable: stability is stated for customers whose country and city keys are identical strings, not for keys that the comparer merely deems equal.
- CustomerSort.SortCustomersCorrect: sortedness is stated for neighbours; transitivity of the comparer is not assumed, so it is not stated for every pair. Stability has the same restriction as SortStable.
- OrdersValue.GetOrdersValueExact: requires every price to be non-negative and the exact total to fit in an int32. A negative price or a wrapped product is covered only by the `SumFrom` definition.
- OrdersValue.GetOrdersValueOverflows: requires each group's price × count to fit in an int32; a total that overflows only after a product wraps is covered only by the `SumFrom` definition.
- PurchaseOrders.PurchaseOrdersRoundTrip: holds only for non-empty, comma-free order numbers. An empty number is handled as the source does (EmptyNumberLosesComma), so the join is not exact then.
