/**
 The buyer list: an ordered list of bids, each an id, a price and the
 bundle of item ids it requests. As for item lists, the linked nodes of
 the original are modelled as a sequence.
 */
module Buyers {

  /** One bid. `items` is treated as a value: bundles are never changed after construction. */
  datatype Buyer = Buyer(id: int, value: int, items: seq<int>)

  /** Adds a new last node; returns the list and its new size. */
  method Append(bs: seq<Buyer>, id: int, value: int, items: seq<int>) returns (r: seq<Buyer>, size: nat)
    ensures size == |r| == |bs| + 1
    ensures r[..|bs|] == bs
    ensures r[|bs|].id == id && r[|bs|].value == value && r[|bs|].items == items
  {
    r := bs + [Buyer(id, value, items)];
    size := |r|;
    assert r[..|bs|] == bs;
  }

  predicate HasId(bs: seq<Buyer>, id: int) {
    exists i :: 0 <= i < |bs| && bs[i].id == id
  }

  /** No two nodes share an id. */
  predicate UniqueIds(bs: seq<Buyer>) {
    forall i, j :: 0 <= i < j < |bs| ==> bs[i].id != bs[j].id
  }

  /** The ids of a list, as a set. */
  function IdSet(bs: seq<Buyer>): set<int> {
    set i | 0 <= i < |bs| :: bs[i].id
  }

  /** The position of the first node with the given id. */
  function FirstWithId(bs: seq<Buyer>, id: int): (i: nat)
    requires HasId(bs, id)
    ensures i < |bs| && bs[i].id == id
    ensures forall j :: 0 <= j < i ==> bs[j].id != id
  {
    if bs[0].id == id then 0
    else
      assert HasId(bs[1..], id) by {
        var k :| 0 <= k < |bs| && bs[k].id == id;
        assert bs[1..][k - 1].id == id;
      }
      1 + FirstWithId(bs[1..], id)
  }

  /**
   Deletes the first node with the given id, keeping the others in order;
   the list is unchanged when no node has that id.
   */
  function Remove(bs: seq<Buyer>, id: int): (r: seq<Buyer>)
    ensures !HasId(bs, id) ==> r == bs
    ensures HasId(bs, id) ==> |r| == |bs| - 1
    ensures HasId(bs, id) ==> forall j :: 0 <= j < FirstWithId(bs, id) ==> r[j] == bs[j]
    ensures HasId(bs, id) ==> forall j :: FirstWithId(bs, id) <= j < |r| ==> r[j] == bs[j + 1]
  {
    if |bs| == 0 then bs
    else if bs[0].id == id then bs[1..]
    else
      assert HasId(bs, id) <==> HasId(bs[1..], id) by {
        if k :| 0 <= k < |bs| && bs[k].id == id {
          assert bs[1..][k - 1].id == id;
        }
      }
      assert HasId(bs[1..], id) ==> FirstWithId(bs, id) == FirstWithId(bs[1..], id) + 1;
      assert !HasId(bs[1..], id) ==> bs == [bs[0]] + bs[1..];
      [bs[0]] + Remove(bs[1..], id)
  }

  /** The sum of the prices, as a reference definition. */
  function SumValues(bs: seq<Buyer>): int
  {
    if |bs| == 0 then 0 else SumValues(bs[..|bs| - 1]) + bs[|bs| - 1].value
  }

  /** The running-sum loop over the list. */
  method TotalValue(bs: seq<Buyer>) returns (sum: int)
    ensures sum == SumValues(bs)
    ensures |bs| == 0 ==> sum == 0
  {
    sum := 0;
    var i := 0;
    while i < |bs|
      invariant 0 <= i <= |bs|
      invariant sum == SumValues(bs[..i])
    {
      assert bs[..i + 1][..i] == bs[..i];
      sum := sum + bs[i].value;
      i := i + 1;
    }
    assert bs[..|bs|] == bs;
  }

  lemma {:induction false} SumValuesConcat(a: seq<Buyer>, b: seq<Buyer>)
    ensures SumValues(a + b) == SumValues(a) + SumValues(b)
    decreases |b|
  {
    if |b| > 0 {
      assert (a + b)[..|a + b| - 1] == a + b[..|b| - 1];
      SumValuesConcat(a, b[..|b| - 1]);
    } else {
      assert a + b == a;
    }
  }

  /** Removing a present id cuts the list around its first node. */
  lemma RemoveSplits(bs: seq<Buyer>, id: int)
    requires HasId(bs, id)
    ensures Remove(bs, id) == bs[..FirstWithId(bs, id)] + bs[FirstWithId(bs, id) + 1..]
  {
  }

  lemma SplitAt(bs: seq<Buyer>, i: nat)
    requires i < |bs|
    ensures bs == bs[..i] + [bs[i]] + bs[i + 1..]
  {
    assert bs[..i] + [bs[i]] == bs[..i + 1];
  }

  /** Cutting one node out of a list takes its price out of the total. */
  lemma SumDropAt(bs: seq<Buyer>, i: nat)
    requires i < |bs|
    ensures SumValues(bs[..i] + bs[i + 1..]) == SumValues(bs) - bs[i].value
  {
    var pre, mid, post := bs[..i], [bs[i]], bs[i + 1..];
    SplitAt(bs, i);
    SumValuesConcat(pre + mid, post);
    SumValuesConcat(pre, mid);
    SumValuesConcat(pre, post);
    assert SumValues(mid) == bs[i].value by {
      assert mid[..0] == [];
    }
  }

  /** Cutting one node out of a list takes one copy of it out of the list's multiset. */
  lemma MultisetDropAt(bs: seq<Buyer>, i: nat)
    requires i < |bs|
    ensures multiset(bs[..i] + bs[i + 1..]) == multiset(bs) - multiset{bs[i]}
  {
    SplitAt(bs, i);
    assert multiset(bs) == multiset(bs[..i]) + multiset{bs[i]} + multiset(bs[i + 1..]);
  }

  /** Removing a present id takes exactly that node's price out of the total. */
  lemma RemoveValue(bs: seq<Buyer>, id: int)
    requires HasId(bs, id)
    ensures SumValues(Remove(bs, id)) == SumValues(bs) - bs[FirstWithId(bs, id)].value
  {
    RemoveSplits(bs, id);
    SumDropAt(bs, FirstWithId(bs, id));
  }

  /** Removing a present id takes exactly its first node out of the list's multiset of bids. */
  lemma RemoveMultiset(bs: seq<Buyer>, id: int)
    requires HasId(bs, id)
    ensures multiset(Remove(bs, id)) == multiset(bs) - multiset{bs[FirstWithId(bs, id)]}
  {
    RemoveSplits(bs, id);
    MultisetDropAt(bs, FirstWithId(bs, id));
  }

  /** Two lists holding the same bids, in any order, have the same total price. */
  lemma {:induction false} SumValuesPerm(a: seq<Buyer>, b: seq<Buyer>)
    requires multiset(a) == multiset(b)
    ensures SumValues(a) == SumValues(b)
    decreases |a|
  {
    if |a| > 0 {
      var n := |a| - 1;
      assert a[n] in multiset(b);
      var i :| 0 <= i < |b| && b[i] == a[n];
      assert a[..n] + a[n + 1..] == a[..n];
      MultisetDropAt(a, n);
      MultisetDropAt(b, i);
      SumDropAt(a, n);
      SumDropAt(b, i);
      SumValuesPerm(a[..n], b[..i] + b[i + 1..]);
    }
  }

  /**
   When two lists together hold exactly the bids of a third, their total
   prices add up to its total.
   */
  lemma PartitionValue(w: seq<Buyer>, l: seq<Buyer>, bs: seq<Buyer>)
    requires multiset(w) + multiset(l) == multiset(bs)
    ensures SumValues(w) + SumValues(l) == SumValues(bs)
  {
    SumValuesPerm(w + l, bs);
    SumValuesConcat(w, l);
  }

  /** The nodes whose id is not in `ids`, in their original order. */
  function DropIds(bs: seq<Buyer>, ids: set<int>): seq<Buyer>
  {
    if |bs| == 0 then []
    else (if bs[0].id in ids then [] else [bs[0]]) + DropIds(bs[1..], ids)
  }

  /** Dropping ids keeps a sub-list of the original, so ids stay unique. */
  lemma {:induction false} DropIdsSub(bs: seq<Buyer>, ids: set<int>)
    ensures forall b :: b in DropIds(bs, ids) <==> b in bs && b.id !in ids
    ensures UniqueIds(bs) ==> UniqueIds(DropIds(bs, ids))
  {
    if |bs| > 0 {
      DropIdsSub(bs[1..], ids);
      assert bs == [bs[0]] + bs[1..];
      var head := if bs[0].id in ids then [] else [bs[0]];
      var d := DropIds(bs[1..], ids);
      assert DropIds(bs, ids) == head + d;
      if UniqueIds(bs) {
        assert UniqueIds(bs[1..]);
        forall b | b in d ensures b.id != bs[0].id {
          var k :| 0 <= k < |bs[1..]| && bs[1..][k] == b;
          assert bs[k + 1] == b;
        }
      }
    }
  }

  lemma {:induction false} DropIdsNone(bs: seq<Buyer>, ids: set<int>)
    requires forall i :: 0 <= i < |bs| ==> bs[i].id !in ids
    ensures DropIds(bs, ids) == bs
  {
    if |bs| > 0 {
      DropIdsNone(bs[1..], ids);
    }
  }

  lemma {:induction false} DropIdsTwice(bs: seq<Buyer>, A: set<int>, B: set<int>)
    ensures DropIds(DropIds(bs, A), B) == DropIds(bs, A + B)
  {
    if |bs| > 0 {
      DropIdsTwice(bs[1..], A, B);
      var d := DropIds(bs[1..], A);
      if bs[0].id in A {
        assert DropIds(bs, A) == d;
      } else {
        var bd := [bs[0]] + d;
        assert DropIds(bs, A) == bd;
        assert bd[0] == bs[0] && bd[1..] == d;
        assert DropIds(bd, B) == (if bs[0].id in B then [] else [bs[0]]) + DropIds(d, B);
      }
    }
  }

  /** With unique ids, removing by id drops exactly the nodes with that id. */
  lemma {:induction false} RemoveUnique(bs: seq<Buyer>, id: int)
    requires UniqueIds(bs)
    ensures Remove(bs, id) == DropIds(bs, {id})
  {
    if |bs| > 0 {
      assert UniqueIds(bs[1..]);
      if bs[0].id == id {
        DropIdsNone(bs[1..], {id});
      } else {
        RemoveUnique(bs[1..], id);
      }
    }
  }

  /**
   Builds the list from already-parsed (price, bundle) pairs, numbering the
   bids 0, 1, 2, ... in input order.
   */
  method FromPairs(pairs: seq<(int, seq<int>)>) returns (bs: seq<Buyer>)
    ensures |bs| == |pairs|
    ensures forall i :: 0 <= i < |bs| ==> bs[i] == Buyer(i, pairs[i].0, pairs[i].1)
    ensures UniqueIds(bs)
  {
    bs := [];
    var id := 0;
    while id < |pairs|
      invariant 0 <= id <= |pairs|
      invariant |bs| == id
      invariant forall i :: 0 <= i < id ==> bs[i] == Buyer(i, pairs[i].0, pairs[i].1)
    {
      var size;
      bs, size := Append(bs, id, pairs[id].0, pairs[id].1);
      id := id + 1;
    }
  }
}
