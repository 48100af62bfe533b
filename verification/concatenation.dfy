/** LinqToXml.GetConcatenationString and LinqToXml.GetFlattenString: the text of a document,
    read child by child or all at once. */
module Concatenation {
  import opened Results
  import opened Xml

  /** Select(t => t.Value): the flattened text of each node. */
  function ValuesOf(es: seq<Node>): (r: seq<string>)
    ensures |r| == |es|
    ensures forall i :: 0 <= i < |es| ==> r[i] == Value(es[i])
  {
    if es == [] then [] else [Value(es[0])] + ValuesOf(es[1..])
  }

  /** Aggregate((result, b) => result + b) without a seed: the first value, then each next one
      appended on the right; an empty sequence throws. */
  function AggregateConcat(vs: seq<string>): (r: Result<string>)
    ensures r.Err? <==> vs == []
    ensures r.Err? ==> r.error == EmptyInput
  {
    if vs == [] then Err(EmptyInput)
    else if |vs| == 1 then Ok(vs[0])
    else
      var acc :- AggregateConcat(vs[..|vs| - 1]);
      Ok(acc + vs[|vs| - 1])
  }

  /** The left fold of the aggregation is the plain concatenation of all values. */
  lemma {:induction false} AggregateIsConcat(vs: seq<string>)
    requires vs != []
    ensures AggregateConcat(vs) == Ok(ConcatAll(vs))
  {
    if |vs| == 1 {
      assert vs[1..] == [];
      assert ConcatAll(vs) == vs[0] + "";
      assert vs[0] + "" == vs[0];
    } else {
      var init, last := vs[..|vs| - 1], vs[|vs| - 1];
      AggregateIsConcat(init);
      assert AggregateConcat(vs) == Ok(ConcatAll(init) + last);
      ConcatAllAppend(init, [last]);
      assert init + [last] == vs;
      assert [last][1..] == [];
      assert ConcatAll([last]) == last;
    }
  }

  /** Model of GetConcatenationString (LinqToXml.cs:97-101) on an already parsed document: the
      values of the root's element children joined in document order, or an error when the
      root has no element child. */
  function GetConcatenationString(root: Node): (r: Result<string>)
    requires root.Element?
    ensures r.Err? <==> Elements(root.children) == []
    ensures r.Ok? ==> r.value == ConcatAll(ValuesOf(Elements(root.children)))
  {
    var vs := ValuesOf(Elements(root.children));
    if vs != [] then AggregateIsConcat(vs); AggregateConcat(vs)
    else AggregateConcat(vs)
  }

  /** Model of GetFlattenString (LinqToXml.cs:153-156): every text node below the element,
      concatenated in document order. */
  function GetFlattenString(x: Node): (r: string)
    requires x.Element?
    ensures r == ConcatAll(DescendantTexts(x))
  {
    ValueIsTextConcat(x);
    Value(x)
  }

  predicate NoTextChild(cs: seq<Node>) {
    forall i :: 0 <= i < |cs| ==> !cs[i].Text?
  }

  lemma {:induction false} ValueWithoutTextChildren(cs: seq<Node>)
    requires NoTextChild(cs)
    ensures ValueOfNodes(cs) == ConcatAll(ValuesOf(Elements(cs)))
  {
    if cs != [] {
      ValueWithoutTextChildren(cs[1..]);
      if cs[0].Element? {
        assert ValuesOf(Elements(cs)) == [Value(cs[0])] + ValuesOf(Elements(cs[1..]));
      }
    }
  }

  /** When the root has element children and no text child of its own, concatenating the
      children's values gives the root's flattened text. */
  lemma ConcatenationIsFlatten(root: Node)
    requires root.Element? && Elements(root.children) != []
    requires NoTextChild(root.children)
    ensures GetConcatenationString(root) == Ok(GetFlattenString(root))
  {
    ValueWithoutTextChildren(root.children);
  }

  /** Flattening an element whose children are split in two gives the flattening of each part,
      one after the other. */
  lemma FlattenSplits(name: string, attrs: seq<(string, string)>, a: seq<Node>, b: seq<Node>)
    ensures GetFlattenString(Element(name, attrs, a + b)) ==
            GetFlattenString(Element(name, attrs, a)) + GetFlattenString(Element(name, attrs, b))
  {
    ValueOfNodesAppend(a, b);
  }

  /** The sentence of the documentation comment: Sentence(Word "Hello", Punctuation ",",
      Word "world") reads "Hello,world". */
  lemma SentenceExample()
    ensures var sentence := Element("Sentence", [], [
              Element("Word", [], [Text("Hello")]),
              Element("Punctuation", [], [Text(",")]),
              Element("Word", [], [Text("world")])]);
            GetConcatenationString(Element("Root", [], [sentence])) == Ok("Hello,world")
  {
    var hello := Element("Word", [], [Text("Hello")]);
    var comma := Element("Punctuation", [], [Text(",")]);
    var world := Element("Word", [], [Text("world")]);
    var sentence := Element("Sentence", [], [hello, comma, world]);
    ValueOfNodesAppend([hello], [comma, world]);
    ValueOfNodesAppend([comma], [world]);
    assert [hello] + [comma, world] == [hello, comma, world];
    assert [comma] + [world] == [comma, world];
    assert Value(hello) == "Hello" && Value(comma) == "," && Value(world) == "world";
    assert Value(sentence) == "Hello,world";
    assert ConcatAll([Value(sentence)]) == Value(sentence) + ConcatAll([]);
  }
}
