/** LinqToXml.FindChannelsIds: the ids of the channels that have more than one subscriber and
    carry a "DELETE" comment. */
module Channels {
  import opened Results
  import opened Xml
  import opened Numbers

  /** A direct child comment whose text is exactly "DELETE". */
  predicate HasDeleteComment(cs: seq<Node>) {
    exists i :: 0 <= i < |cs| && cs[i].Comment? && cs[i].text == "DELETE"
  }

  /** The Where clause: Elements("subscriber").Count() > 1 and a DELETE comment among Nodes(). */
  predicate MarkedForDeletion(c: Node) {
    c.Element? && |ElementsNamed(c.children, "subscriber")| > 1 && HasDeleteComment(c.children)
  }

  /** The channels that pass the filter, in document order. */
  function Marked(cs: seq<Node>): (r: seq<Node>)
    ensures |r| <= |cs|
    ensures forall c :: c in r <==> c in cs && MarkedForDeletion(c)
  {
    if cs == [] then []
    else (if MarkedForDeletion(cs[0]) then [cs[0]] else []) + Marked(cs[1..])
  }

  /** Convert.ToInt32(t.Attribute("id").Value): a channel without an id is dereferenced as null. */
  function ChannelId(c: Node, read: string -> Option<int>): Result<int> {
    match Attr(c, "id")
    case None => Err(MissingElement)
    case Some(s) => ToInt32(s, read)
  }

  /** The Select, enumerated to the end; the first failing conversion ends it with its error. */
  function ChannelIds(cs: seq<Node>, read: string -> Option<int>): (r: Result<seq<int>>)
    ensures r.Ok? ==> |r.value| == |cs|
  {
    if cs == [] then Ok([])
    else
      var id :- ChannelId(cs[0], read);
      var rest :- ChannelIds(cs[1..], read);
      Ok([id] + rest)
  }

  /** The ids come out one per channel, in order, and the conversion fails exactly when one
      channel's id cannot be read. */
  lemma {:induction false} ChannelIdsSpec(cs: seq<Node>, read: string -> Option<int>)
    ensures ChannelIds(cs, read).Ok? <==> forall i :: 0 <= i < |cs| ==> ChannelId(cs[i], read).Ok?
    ensures ChannelIds(cs, read).Ok? ==>
              forall i :: 0 <= i < |cs| ==> ChannelIds(cs, read).value[i] == ChannelId(cs[i], read).value
  {
    if cs != [] {
      ChannelIdsSpec(cs[1..], read);
      assert forall i :: 1 <= i < |cs| ==> cs[i] == cs[1..][i - 1];
    }
  }

  /** Model of FindChannelsIds (LinqToXml.cs:121-129) on the parsed document, its result
      enumerated in full. */
  function FindChannelsIds(root: Node, read: string -> Option<int>): (r: Result<seq<int>>)
    requires root.Element?
    ensures r.Ok? ==> |r.value| <= |Elements(root.children)|
  {
    ChannelIds(Marked(Elements(root.children)), read)
  }

  // ----- what the result means -----

  /** The filter distributes over concatenation, so it keeps document order. */
  lemma {:induction false} MarkedAppend(a: seq<Node>, b: seq<Node>)
    ensures Marked(a + b) == Marked(a) + Marked(b)
  {
    if a == [] {
      assert a + b == b;
    } else {
      assert (a + b)[1..] == a[1..] + b;
      MarkedAppend(a[1..], b);
    }
  }

  /** Every channel with two or more subscribers and a DELETE comment has its id reported. */
  lemma FindChannelsIdsComplete(root: Node, read: string -> Option<int>, c: Node)
    requires root.Element?
    requires FindChannelsIds(root, read).Ok?
    requires c in root.children && MarkedForDeletion(c)
    ensures ChannelId(c, read).Ok? && ChannelId(c, read).value in FindChannelsIds(root, read).value
  {
    var ids := FindChannelsIds(root, read).value;
    var marked := Marked(Elements(root.children));
    ChannelIdsSpec(marked, read);
    assert c in marked;
    var i :| 0 <= i < |marked| && marked[i] == c;
    assert ids[i] == ChannelId(c, read).value;
  }

  /** Every reported id is the id of such a channel. */
  lemma FindChannelsIdsSound(root: Node, read: string -> Option<int>, id: int)
    requires root.Element?
    requires FindChannelsIds(root, read).Ok?
    requires id in FindChannelsIds(root, read).value
    ensures exists c :: c in root.children && MarkedForDeletion(c) && ChannelId(c, read) == Ok(id)
  {
    var ids := FindChannelsIds(root, read).value;
    var marked := Marked(Elements(root.children));
    ChannelIdsSpec(marked, read);
    var i :| 0 <= i < |ids| && ids[i] == id;
    assert marked[i] in marked;
  }

  /** The whole query fails exactly when some marked channel has no id or an id that is not an
      int32 number. */
  lemma FindChannelsIdsFails(root: Node, read: string -> Option<int>)
    requires root.Element?
    ensures FindChannelsIds(root, read).Err? <==>
      exists c :: c in root.children && MarkedForDeletion(c) && ChannelId(c, read).Err?
  {
    var marked := Marked(Elements(root.children));
    ChannelIdsSpec(marked, read);
    if FindChannelsIds(root, read).Err? {
      var i :| 0 <= i < |marked| && ChannelId(marked[i], read).Err?;
      assert marked[i] in marked;
    }
  }

  /** The ids come out in the order of the marked channels: the i-th id is the id of the i-th
      marked channel, and marking keeps document order (MarkedAppend, ElementsAppend). */
  lemma FindChannelsIdsInOrder(root: Node, read: string -> Option<int>)
    requires root.Element?
    requires FindChannelsIds(root, read).Ok?
    ensures var marked := Marked(Elements(root.children));
      var ids := FindChannelsIds(root, read).value;
      |ids| == |marked| && forall i :: 0 <= i < |ids| ==> ChannelId(marked[i], read) == Ok(ids[i])
  {
    ChannelIdsSpec(Marked(Elements(root.children)), read);
  }
}
