/**
 The item list of the allocator: an ordered list of integer item ids.
 The linked nodes of the original are modelled as a sequence; every
 relinking case of a node removal collapses to "delete one position".
 */
module Items {

  /** True when no item id occurs twice. */
  predicate Distinct(s: seq<int>) {
    forall i, j :: 0 <= i < j < |s| ==> s[i] != s[j]
  }

  /** The ids held by a list, as a set. */
  function Elems(s: seq<int>): set<int> {
    set x | x in s
  }

  /** The ids 0, 1, ..., m-1 in increasing order (empty when m <= 0). */
  function Range(m: int): (r: seq<int>)
    ensures |r| == if m > 0 then m else 0
    ensures forall i :: 0 <= i < |r| ==> r[i] == i
  {
    seq(if m > 0 then m else 0, i => i)
  }

  /** The elements of `s` that are not in `S`, in their original order. */
  function Without(s: seq<int>, S: set<int>): seq<int>
  {
    if |s| == 0 then []
    else (if s[0] in S then [] else [s[0]]) + Without(s[1..], S)
  }

  /**
   `a` is `b` with some elements deleted: the survivors keep their relative
   order. Either the head of `b` is deleted, or it is kept as the head of `a`.
   */
  predicate IsSubseq(a: seq<int>, b: seq<int>)
    decreases |b|
  {
    if |b| == 0 then |a| == 0
    else IsSubseq(a, b[1..]) || (|a| > 0 && a[0] == b[0] && IsSubseq(a[1..], b[1..]))
  }

  lemma {:induction false} SubseqRefl(s: seq<int>)
    ensures IsSubseq(s, s)
  {
    if |s| > 0 {
      SubseqRefl(s[1..]);
    }
  }

  lemma {:induction false} SubseqTrans(a: seq<int>, b: seq<int>, c: seq<int>)
    requires IsSubseq(a, b) && IsSubseq(b, c)
    ensures IsSubseq(a, c)
    decreases |c|
  {
    if |c| > 0 {
      if IsSubseq(b, c[1..]) {
        SubseqTrans(a, b, c[1..]);
      } else if IsSubseq(a, b[1..]) {
        SubseqTrans(a, b[1..], c[1..]);
      } else {
        SubseqTrans(a[1..], b[1..], c[1..]);
      }
    }
  }

  /** Membership scan over the list. */
  function ContainsItem(s: seq<int>, x: int): (b: bool)
    ensures b <==> x in s
  {
    if |s| == 0 then false
    else if s[0] == x then true
    else ContainsItem(s[1..], x)
  }

  /** The scan of `sub` in the superset test: every element of `sub` is found in `s`. */
  function AllFound(s: seq<int>, sub: seq<int>): (b: bool)
    ensures b <==> forall i :: 0 <= i < |sub| ==> sub[i] in s
  {
    if |sub| == 0 then true
    else if ContainsItem(s, sub[0]) then AllFound(s, sub[1..])
    else false
  }

  /**
   The superset test: false at once when `s` is shorter than `sub`,
   otherwise true exactly when every element of `sub` occurs in `s`.
   */
  function Contains(s: seq<int>, sub: seq<int>): (b: bool)
    ensures b <==> |s| >= |sub| && forall i :: 0 <= i < |sub| ==> sub[i] in s
  {
    if |s| < |sub| then false else AllFound(s, sub)
  }

  /** Adds `x` as the new last node; returns the list and its new size. */
  method Append(s: seq<int>, x: int) returns (r: seq<int>, size: nat)
    ensures size == |r| == |s| + 1
    ensures r[..|s|] == s && r[|s|] == x
    ensures Elems(r) == Elems(s) + {x}
  {
    r := s + [x];
    size := |r|;
    assert r[..|s|] == s;
  }

  /** The position of the first occurrence of `x`. */
  function FirstIndex(s: seq<int>, x: int): (i: nat)
    requires x in s
    ensures i < |s| && s[i] == x
    ensures forall j :: 0 <= j < i ==> s[j] != x
  {
    if s[0] == x then 0 else FirstIndex(s[1..], x) + 1
  }

  /**
   Deletes the first node holding `x`, keeping the others in order;
   the list is unchanged when `x` is absent.
   */
  function RemoveElement(s: seq<int>, x: int): (r: seq<int>)
    ensures x !in s ==> r == s
    ensures x in s ==> |r| == |s| - 1
    ensures x in s ==> forall j :: 0 <= j < FirstIndex(s, x) ==> r[j] == s[j]
    ensures x in s ==> forall j :: FirstIndex(s, x) <= j < |r| ==> r[j] == s[j + 1]
  {
    if |s| == 0 then s
    else if s[0] == x then s[1..]
    else
      assert x in s[1..] ==> FirstIndex(s, x) == FirstIndex(s[1..], x) + 1;
      assert x !in s[1..] ==> s == [s[0]] + s[1..];
      [s[0]] + RemoveElement(s[1..], x)
  }

  /** A single removal keeps the other nodes in their order. */
  lemma {:induction false} RemoveElementSubseq(s: seq<int>, x: int)
    ensures IsSubseq(RemoveElement(s, x), s)
  {
    if |s| > 0 {
      SubseqRefl(s[1..]);
      if s[0] != x {
        var r := RemoveElement(s, x);
        RemoveElementSubseq(s[1..], x);
        assert r[0] == s[0] && r[1..] == RemoveElement(s[1..], x);
      }
    }
  }

  lemma MultisetConsMinus(y: int, a: multiset<int>, x: int)
    requires y != x
    ensures multiset{y} + (a - multiset{x}) == (multiset{y} + a) - multiset{x}
  {
    forall z ensures (multiset{y} + (a - multiset{x}))[z] == ((multiset{y} + a) - multiset{x})[z] {
    }
  }

  /** A single removal takes exactly one copy of `x` out of the list, if there is one. */
  lemma {:induction false} RemoveElementMultiset(s: seq<int>, x: int)
    ensures multiset(RemoveElement(s, x)) == multiset(s) - multiset{x}
  {
    if |s| > 0 {
      var y, rest := s[0], s[1..];
      assert s == [y] + rest;
      assert multiset(s) == multiset{y} + multiset(rest);
      if y != x {
        RemoveElementMultiset(rest, x);
        assert RemoveElement(s, x) == [y] + RemoveElement(rest, x);
        assert multiset(RemoveElement(s, x)) == multiset{y} + multiset(RemoveElement(rest, x));
        MultisetConsMinus(y, multiset(rest), x);
      }
    }
  }

  lemma MultisetDiffDiff(a: multiset<int>, b: multiset<int>, c: multiset<int>)
    ensures (a - b) - c == a - (b + c)
  {
    forall y ensures ((a - b) - c)[y] == (a - (b + c))[y] {
    }
  }

  /** The removal loop: each element of `sub`, in order, deletes its first occurrence. */
  function RemoveEach(s: seq<int>, sub: seq<int>): (r: seq<int>)
    ensures IsSubseq(r, s)
    decreases |sub|
  {
    if |sub| == 0 then
      SubseqRefl(s);
      s
    else
      var t := RemoveElement(s, sub[0]);
      RemoveElementSubseq(s, sub[0]);
      var r := RemoveEach(t, sub[1..]);
      SubseqTrans(r, t, s);
      r
  }

  /** The guarded bulk removal: a no-op unless `s` contains `sub`. */
  function Remove(s: seq<int>, sub: seq<int>): (r: seq<int>)
    ensures !Contains(s, sub) ==> r == s
    ensures Contains(s, sub) ==> multiset(r) == multiset(s) - multiset(sub)
    ensures IsSubseq(r, s)
  {
    if Contains(s, sub) then
      RemoveEachMultiset(s, sub);
      RemoveEach(s, sub)
    else
      SubseqRefl(s);
      s
  }

  lemma MultisetHead(s: seq<int>)
    requires |s| > 0
    ensures multiset(s) == multiset{s[0]} + multiset(s[1..])
  {
    assert s == [s[0]] + s[1..];
  }

  lemma {:induction false} RemoveEachMultiset(s: seq<int>, sub: seq<int>)
    ensures multiset(RemoveEach(s, sub)) == multiset(s) - multiset(sub)
    decreases |sub|
  {
    if |sub| > 0 {
      var x, rest := sub[0], sub[1..];
      var t := RemoveElement(s, x);
      RemoveElementMultiset(s, x);
      RemoveEachMultiset(t, rest);
      MultisetHead(sub);
      MultisetDiffDiff(multiset(s), multiset{x}, multiset(rest));
    }
  }

  /**
   When `sub` is duplicate-free and contained in `s`, the guarded removal
   deletes exactly |sub| nodes.
   */
  lemma {:induction false} RemoveSize(s: seq<int>, sub: seq<int>)
    requires Distinct(sub) && Contains(s, sub)
    ensures |Remove(s, sub)| == |s| - |sub|
  {
    RemoveEachSize(s, sub);
  }

  lemma {:induction false} RemoveEachSize(s: seq<int>, sub: seq<int>)
    requires Distinct(sub)
    requires forall i :: 0 <= i < |sub| ==> sub[i] in s
    ensures |RemoveEach(s, sub)| == |s| - |sub|
    decreases |sub|
  {
    if |sub| > 0 {
      var t := RemoveElement(s, sub[0]);
      assert |t| == |s| - 1;
      forall i | 0 <= i < |sub[1..]|
        ensures sub[1..][i] in t
      {
        var y := sub[1..][i];
        assert y == sub[i + 1] && y != sub[0];
        RemoveElementMultiset(s, sub[0]);
        assert multiset(t)[y] == multiset(s)[y];
      }
      RemoveEachSize(t, sub[1..]);
    }
  }

  lemma {:induction false} WithoutElems(s: seq<int>, S: set<int>)
    ensures Elems(Without(s, S)) == Elems(s) - S
    ensures Distinct(s) ==> Distinct(Without(s, S))
  {
    if |s| > 0 {
      WithoutElems(s[1..], S);
      assert s == [s[0]] + s[1..];
      var head := if s[0] in S then [] else [s[0]];
      var w := Without(s[1..], S);
      assert Without(s, S) == head + w;
      assert Elems(s) == {s[0]} + Elems(s[1..]);
      assert Elems(head + w) == Elems(head) + Elems(w);
      if Distinct(s) {
        assert Distinct(s[1..]);
        assert s[0] !in Elems(w);
      }
    }
  }

  lemma {:induction false} WithoutNone(s: seq<int>, S: set<int>)
    requires forall i :: 0 <= i < |s| ==> s[i] !in S
    ensures Without(s, S) == s
  {
    if |s| > 0 {
      WithoutNone(s[1..], S);
    }
  }

  lemma {:induction false} WithoutWithout(s: seq<int>, A: set<int>, B: set<int>)
    ensures Without(Without(s, A), B) == Without(s, A + B)
  {
    if |s| > 0 {
      WithoutWithout(s[1..], A, B);
      var w := Without(s[1..], A);
      if s[0] in A {
        assert Without(s, A) == w;
      } else {
        var sw := [s[0]] + w;
        assert Without(s, A) == sw;
        assert sw[0] == s[0] && sw[1..] == w;
        assert Without(sw, B) == (if s[0] in B then [] else [s[0]]) + Without(w, B);
      }
    }
  }

  /** On a duplicate-free list, deleting the first occurrence of `x` deletes every occurrence. */
  lemma {:induction false} RemoveElementDistinct(s: seq<int>, x: int)
    requires Distinct(s)
    ensures RemoveElement(s, x) == Without(s, {x})
  {
    if |s| > 0 {
      if s[0] == x {
        WithoutNone(s[1..], {x});
      } else {
        RemoveElementDistinct(s[1..], x);
      }
    }
  }

  lemma {:induction false} RemoveEachDistinct(s: seq<int>, sub: seq<int>)
    requires Distinct(s)
    ensures RemoveEach(s, sub) == Without(s, Elems(sub))
    decreases |sub|
  {
    if |sub| == 0 {
      assert Elems(sub) == {};
      WithoutNone(s, {});
    } else {
      var x, rest := sub[0], sub[1..];
      var t := Without(s, {x});
      RemoveElementDistinct(s, x);
      WithoutElems(s, {x});
      RemoveEachDistinct(t, rest);
      WithoutWithout(s, {x}, Elems(rest));
      assert sub == [x] + rest;
      assert Elems(sub) == {x} + Elems(rest);
    }
  }

  /**
   On a duplicate-free list the guarded removal, when it proceeds, is the
   order-preserving filter that drops exactly the elements of `sub`.
   */
  lemma RemoveDistinct(s: seq<int>, sub: seq<int>)
    requires Distinct(s) && Contains(s, sub)
    ensures Remove(s, sub) == Without(s, Elems(sub))
    ensures Distinct(Remove(s, sub))
    ensures Elems(Remove(s, sub)) == Elems(s) - Elems(sub)
  {
    RemoveEachDistinct(s, sub);
    WithoutElems(s, Elems(sub));
  }

  lemma {:induction false} DistinctCard(s: seq<int>)
    requires Distinct(s)
    ensures |Elems(s)| == |s|
  {
    if |s| > 0 {
      DistinctCard(s[1..]);
      assert s == [s[0]] + s[1..];
      assert Elems(s) == {s[0]} + Elems(s[1..]);
    }
  }

  /**
   On a duplicate-free list the superset test depends only on the set of
   ids held: `sub` fits when it is no longer than that set and its ids all
   belong to it.
   */
  lemma ContainsDistinct(s: seq<int>, sub: seq<int>)
    requires Distinct(s)
    ensures Contains(s, sub) <==> |sub| <= |Elems(s)| && Elems(sub) <= Elems(s)
  {
    DistinctCard(s);
    if Elems(sub) <= Elems(s) {
      forall i | 0 <= i < |sub| ensures sub[i] in s {
        assert sub[i] in Elems(sub);
      }
    }
  }

  lemma RangeDistinct(m: int)
    ensures Distinct(Range(m))
    ensures forall x :: x in Range(m) <==> 0 <= x < m
  {
    var r := Range(m);
    forall x | 0 <= x < m ensures x in r {
      assert r[x] == x;
    }
  }
}
