/** Iterating over an unordered map: each key once, in an order the program does not choose. */
module Iteration {
  import opened Bytes

  predicate Distinct(order: seq<u32>) {
    forall i, j :: 0 <= i < j < |order| ==> order[i] != order[j]
  }

  predicate Enumerates(order: seq<u32>, keys: set<u32>) {
    Distinct(order) && (forall k :: k in order ==> k in keys) && forall k :: k in keys ==> k in order
  }

  method Enumerate(keys: set<u32>) returns (order: seq<u32>)
    ensures Enumerates(order, keys)
  {
    order := [];
    var rest := keys;
    while rest != {}
      invariant rest <= keys && Distinct(order)
      invariant forall k :: k in order ==> k in keys && k !in rest
      invariant forall k :: k in keys && k !in rest ==> k in order
      decreases rest
    {
      var k :| k in rest;
      order := order + [k];
      rest := rest - {k};
    }
  }

  lemma OnlyKeys<V>(order: seq<u32>, table: map<u32, V>)
    requires Enumerates(order, table.Keys)
    ensures forall k :: k in order ==> k in table
  {
  }

  lemma {:induction false} EnumerationLength(order: seq<u32>, keys: set<u32>)
    requires Enumerates(order, keys)
    ensures |order| == |keys|
    decreases |order|
  {
    if order == [] {
      assert keys == {};
    } else {
      assert order == [order[0]] + order[1..];
      assert order[0] !in order[1..];
      EnumerationLength(order[1..], keys - {order[0]});
    }
  }

  /** The part of a table that a list of keys selects. */
  function Restricted<V>(table: map<u32, V>, order: seq<u32>): map<u32, V>
    requires forall k :: k in order ==> k in table
  {
    map k | k in order :: table[k]
  }

  lemma RestrictedOneMore<V>(t: map<u32, V>, table: map<u32, V>, order: seq<u32>)
    requires order != [] && forall k :: k in order ==> k in table
    ensures var n := |order| - 1;
      t + Restricted(table, order) == (t + Restricted(table, order[..n]))[order[n] := table[order[n]]]
  {
    assert order == order[..|order| - 1] + [order[|order| - 1]];
  }

  lemma RestrictedToNone<V>(t: map<u32, V>, table: map<u32, V>)
    ensures t + Restricted(table, []) == t
  {
  }
}
