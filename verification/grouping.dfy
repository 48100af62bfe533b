/** Enumerable.GroupBy over string keys: one group per distinct key, groups in the order in
    which their key first occurs, each group holding its items in input order. */
module Grouping {

  datatype Group<V> = Group(key: string, items: seq<V>)

  /** The keys of a keyed sequence, in order. */
  function Keys<V>(ps: seq<(string, V)>): (ks: seq<string>)
    ensures |ks| == |ps|
    ensures forall i :: 0 <= i < |ps| ==> ks[i] == ps[i].0
  {
    if ps == [] then [] else Keys(ps[..|ps| - 1]) + [ps[|ps| - 1].0]
  }

  /** The keys of a list of groups, in order. */
  function GroupKeys<V>(gs: seq<Group<V>>): (ks: seq<string>)
    ensures |ks| == |gs|
    ensures forall i :: 0 <= i < |gs| ==> ks[i] == gs[i].key
  {
    if gs == [] then [] else [gs[0].key] + GroupKeys(gs[1..])
  }

  /** One step of the grouping: put `v` at the end of the group for `k`, opening a new group
      at the end when there is none yet. */
  function AddToGroups<V>(gs: seq<Group<V>>, k: string, v: V): (r: seq<Group<V>>)
  {
    if gs == [] then [Group(k, [v])]
    else if gs[0].key == k then [Group(k, gs[0].items + [v])] + gs[1..]
    else [gs[0]] + AddToGroups(gs[1..], k, v)
  }

  /** The grouping as Enumerable.GroupBy builds it: one element at a time, in input order. */
  function GroupBy<V>(ps: seq<(string, V)>): (r: seq<Group<V>>)
  {
    if ps == [] then []
    else AddToGroups(GroupBy(ps[..|ps| - 1]), ps[|ps| - 1].0, ps[|ps| - 1].1)
  }

  // ----- the reference definition -----

  predicate Unique(ks: seq<string>) {
    forall i, j :: 0 <= i < j < |ks| ==> ks[i] != ks[j]
  }

  function Extend(d: seq<string>, k: string): seq<string> {
    if k in d then d else d + [k]
  }

  /** The distinct keys, each at the place of its first occurrence. */
  function Distinct(ks: seq<string>): seq<string> {
    if ks == [] then [] else Extend(Distinct(ks[..|ks| - 1]), ks[|ks| - 1])
  }

  /** The items whose key is `k`, in input order. */
  function ItemsWithKey<V>(ps: seq<(string, V)>, k: string): seq<V> {
    if ps == [] then []
    else ItemsWithKey(ps[..|ps| - 1], k) + (if ps[|ps| - 1].0 == k then [ps[|ps| - 1].1] else [])
  }

  /** One group per key of `ks`, holding that key's items. */
  function GroupsFor<V>(ks: seq<string>, ps: seq<(string, V)>): seq<Group<V>> {
    if ks == [] then [] else [Group(ks[0], ItemsWithKey(ps, ks[0]))] + GroupsFor(ks[1..], ps)
  }

  /** The position of the first occurrence of `x`. */
  function FirstIndex(ks: seq<string>, x: string): (i: nat)
    requires x in ks
    ensures i < |ks| && ks[i] == x && x !in ks[..i]
  {
    if ks[0] == x then 0 else 1 + FirstIndex(ks[1..], x)
  }

  // ----- properties of Distinct -----

  lemma {:induction false} FirstIndexSnoc(ks: seq<string>, k: string, x: string)
    requires x in ks + [k]
    ensures x in ks ==> FirstIndex(ks + [k], x) == FirstIndex(ks, x)
    ensures x !in ks ==> FirstIndex(ks + [k], x) == |ks|
  {
    if ks != [] && ks[0] != x {
      assert (ks + [k])[1..] == ks[1..] + [k];
      FirstIndexSnoc(ks[1..], k, x);
    }
  }

  /** Distinct keeps exactly the keys of the input, each once, ordered by first occurrence. */
  lemma {:induction false} DistinctSpec(ks: seq<string>)
    ensures Unique(Distinct(ks))
    ensures forall x :: x in Distinct(ks) <==> x in ks
    ensures forall i, j :: 0 <= i < j < |Distinct(ks)| ==>
              FirstIndex(ks, Distinct(ks)[i]) < FirstIndex(ks, Distinct(ks)[j])
  {
    if ks != [] {
      var init, k := ks[..|ks| - 1], ks[|ks| - 1];
      assert ks == init + [k];
      DistinctSpec(init);
      var d := Distinct(init);
      forall x | x in d ensures FirstIndex(ks, x) == FirstIndex(init, x) < |init| {
        FirstIndexSnoc(init, k, x);
      }
      if k !in d {
        FirstIndexSnoc(init, k, k);
      }
    }
  }

  /** Every key that occurs is among the distinct keys. */
  // ----- GroupBy meets the reference definition -----

  lemma {:induction false} ItemsWithKeySnoc<V>(ps: seq<(string, V)>, k: string, v: V, x: string)
    ensures ItemsWithKey(ps + [(k, v)], x) == ItemsWithKey(ps, x) + (if k == x then [v] else [])
  {
    assert (ps + [(k, v)])[..|ps|] == ps;
  }

  lemma {:induction false} ItemsWithKeyAbsent<V>(ps: seq<(string, V)>, k: string)
    requires k !in Keys(ps)
    ensures ItemsWithKey(ps, k) == []
  {
    if ps != [] {
      assert Keys(ps[..|ps| - 1]) == Keys(ps)[..|ps| - 1];
      ItemsWithKeyAbsent(ps[..|ps| - 1], k);
    }
  }

  /** Adding an item with a key not listed leaves the listed groups alone. */
  lemma {:induction false} GroupsForOtherKey<V>(ks: seq<string>, ps: seq<(string, V)>, k: string, v: V)
    requires k !in ks
    ensures GroupsFor(ks, ps + [(k, v)]) == GroupsFor(ks, ps)
  {
    if ks != [] {
      ItemsWithKeySnoc(ps, k, v, ks[0]);
      assert ItemsWithKey(ps + [(k, v)], ks[0]) == ItemsWithKey(ps, ks[0]);
      GroupsForOtherKey(ks[1..], ps, k, v);
    }
  }

  lemma {:induction false} GroupsForSnoc<V>(ks: seq<string>, k: string, ps: seq<(string, V)>)
    ensures GroupsFor(ks + [k], ps) == GroupsFor(ks, ps) + [Group(k, ItemsWithKey(ps, k))]
  {
    if ks != [] {
      assert (ks + [k])[1..] == ks[1..] + [k];
      GroupsForSnoc(ks[1..], k, ps);
    }
  }

  lemma {:induction false} AddToGroupsSpec<V>(ks: seq<string>, ps: seq<(string, V)>, k: string, v: V)
    requires Unique(ks)
    requires k !in ks ==> ItemsWithKey(ps, k) == []
    ensures AddToGroups(GroupsFor(ks, ps), k, v) == GroupsFor(Extend(ks, k), ps + [(k, v)])
  {
    ItemsWithKeySnoc(ps, k, v, k);
    if ks == [] {
      assert Extend(ks, k) == [k] && [k][1..] == [];
      assert ItemsWithKey(ps + [(k, v)], k) == [v];
      assert GroupsFor([k], ps + [(k, v)]) == [Group(k, [v])] + GroupsFor([], ps + [(k, v)]);
    } else if ks[0] == k {
      assert k !in ks[1..];
      GroupsForOtherKey(ks[1..], ps, k, v);
    } else {
      ItemsWithKeySnoc(ps, k, v, ks[0]);
      assert Unique(ks[1..]);
      AddToGroupsSpec(ks[1..], ps, k, v);
      assert ItemsWithKey(ps + [(k, v)], ks[0]) == ItemsWithKey(ps, ks[0]);
      if k in ks {
        assert k in ks[1..];
        assert Extend(ks, k) == ks;
      } else {
        assert Extend(ks, k)[1..] == ks[1..] + [k];
      }
    }
  }

  /** The incremental grouping equals the reference one: a group for each distinct key, in
      first-occurrence order, each holding exactly the items with that key in input order. */
  lemma {:induction false} GroupByCorrect<V>(ps: seq<(string, V)>)
    ensures GroupBy(ps) == GroupsFor(Distinct(Keys(ps)), ps)
  {
    if ps != [] {
      var init, k, v := ps[..|ps| - 1], ps[|ps| - 1].0, ps[|ps| - 1].1;
      assert ps == init + [(k, v)];
      GroupByCorrect(init);
      assert Keys(ps) == Keys(init) + [k];
      DistinctSpec(Keys(init));
      if k !in Distinct(Keys(init)) {
        ItemsWithKeyAbsent(init, k);
      }
      AddToGroupsSpec(Distinct(Keys(init)), init, k, v);
    }
  }

  /** The groups of GroupsFor carry the listed keys in order. */
  lemma {:induction false} GroupsForShape<V>(ks: seq<string>, ps: seq<(string, V)>)
    ensures |GroupsFor(ks, ps)| == |ks|
    ensures forall i :: 0 <= i < |ks| ==> GroupsFor(ks, ps)[i] == Group(ks[i], ItemsWithKey(ps, ks[i]))
  {
    if ks != [] {
      GroupsForShape(ks[1..], ps);
    }
  }
}
