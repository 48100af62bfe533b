/** LinqToXml.ReplaceAllCustomersWithContacts: every child element of the root becomes a
    "contact" element holding the same child elements. */
module Contacts {
  import opened Xml

  /** `new XElement("contact", t.Elements())` for one customer t: its element children, copied,
      with its attributes and its text and comment children left behind. */
  function Contact(c: Node): (r: Node)
    ensures r.Element? && r.name == "contact" && r.attrs == []
    ensures c.Element? ==> r.children == Elements(c.children)
    ensures c.Element? ==> forall n :: n in r.children <==> n in c.children && n.Element?
  {
    Element("contact", [], if c.Element? then Elements(c.children) else [])
  }

  function ContactsOf(cs: seq<Node>): (r: seq<Node>)
    ensures |r| == |cs|
    ensures forall i :: 0 <= i < |cs| ==> r[i] == Contact(cs[i])
  {
    if cs == [] then [] else [Contact(cs[0])] + ContactsOf(cs[1..])
  }

  /** The document after ReplaceAll: the root keeps its name, loses its attributes and every
      child node, and receives one contact per former child element. */
  function ContactsDocument(root: Node): (r: Node)
    requires root.Element?
    ensures r.Element? && r.name == root.name && r.attrs == []
    ensures |r.children| == |Elements(root.children)|
  {
    Element(root.name, [], ContactsOf(Elements(root.children)))
  }

  /** Model of ReplaceAllCustomersWithContacts (LinqToXml.cs:108-114) on the parsed document:
      the content is computed from the current children before ReplaceAll removes them. */
  method ReplaceAllCustomersWithContacts(doc: MutableElement)
    modifies doc
    ensures doc.Tree() == ContactsDocument(old(doc.Tree()))
  {
    var content := ContactsOf(Elements(doc.nodes));
    doc.ReplaceAll(content);
  }

  // ----- what the result means -----

  predicate AllElements(cs: seq<Node>) {
    forall i :: 0 <= i < |cs| ==> cs[i].Element?
  }

  /** Elements() keeps a list of elements as it is. */
  lemma {:induction false} ElementsOfElements(cs: seq<Node>)
    requires AllElements(cs)
    ensures Elements(cs) == cs
  {
    if cs != [] {
      ElementsOfElements(cs[1..]);
    }
  }

  /** Elements() of Elements() is Elements(). */
  lemma {:induction false} ElementsIdempotent(cs: seq<Node>)
    ensures Elements(Elements(cs)) == Elements(cs)
  {
    if cs != [] {
      ElementsIdempotent(cs[1..]);
    }
  }

  /** The i-th child of the result is a contact holding exactly the element children of the
      i-th customer, in their order; the root keeps only contacts. */
  lemma ContactsReplaceCustomers(root: Node)
    requires root.Element?
    ensures var r := ContactsDocument(root);
      && AllElements(r.children)
      && forall i :: 0 <= i < |r.children| ==>
           r.children[i].name == "contact" && r.children[i].attrs == [] &&
           r.children[i].children == Elements(Elements(root.children)[i].children)
  {
  }

  /** Replacing a second time changes nothing more: contacts already hold only elements. */
  lemma {:induction false} ContactsIdempotent(root: Node)
    requires root.Element?
    ensures ContactsDocument(ContactsDocument(root)) == ContactsDocument(root)
  {
    var once := ContactsDocument(root);
    ElementsOfElements(once.children);
    var twice := ContactsDocument(once);
    assert |twice.children| == |once.children|;
    forall i | 0 <= i < |once.children|
      ensures twice.children[i] == once.children[i]
    {
      var customer := Elements(root.children)[i];
      assert customer.Element?;
      ElementsIdempotent(customer.children);
    }
  }
}
