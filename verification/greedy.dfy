/**
 The greedy winner-determination loop. Each round scans the remaining
 bids in list order, keeps the eligible bid (its whole bundle still in
 stock) with the strictly largest price-per-item ratio, moves it to the
 result, and takes its bundle out of the stock; the loop stops when no
 remaining bid is eligible.
 */
module Allocator {
  import Items
  import opened Buyers

  /**
   The two ways a round can abort: an eligible bid with an empty bundle
   divides by zero, and a round where bids are eligible but none has a
   positive ratio dereferences a missing best bid.
   */
  datatype Fault = DivisionByZero | NullBest

  /** What one scan over the remaining bids decides. */
  datatype Choice = Exhausted | Winner(index: nat) | Crash(fault: Fault)

  datatype Status = Completed | Failed(fault: Fault)

  /**
   The end state of a run: the result list, the receiver list as the run
   leaves it, the final stock, and how the loop ended.
   */
  datatype Outcome = Outcome(winners: seq<Buyer>, losers: seq<Buyer>, stock: seq<int>, status: Status)

  /**
   Integer division truncating toward zero, as on two 32-bit ints: the
   quotient is the largest-magnitude value whose product with `d` does not
   pass `a` on the far side of zero.
   */
  function JavaDiv(a: int, d: int): (r: int)
    requires d > 0
    ensures 0 <= a ==> 0 <= r && r * d <= a < r * d + d
    ensures a < 0 ==> r <= 0 && r * d - d < a <= r * d
  {
    if a >= 0 then
      var q := a / d;
      assert a == q * d + a % d && 0 <= a % d < d;
      q
    else
      var q := (-a) / d;
      assert -a == q * d + (-a) % d && 0 <= (-a) % d < d;
      -q
  }

  /** Price per requested item; both operands are ints, so the quotient is truncated. */
  function Density(b: Buyer): (r: int)
    requires |b.items| > 0
    ensures 0 <= b.value ==> 0 <= r && r * |b.items| <= b.value < r * |b.items| + |b.items|
    ensures b.value < 0 ==> r <= 0 && r * |b.items| - |b.items| < b.value <= r * |b.items|
  {
    JavaDiv(b.value, |b.items|)
  }

  /** A bid can be served when the stock passes the superset test against its bundle. */
  predicate Eligible(stock: seq<int>, b: Buyer): (r: bool)
    ensures r <==> |b.items| <= |stock| && forall i :: 0 <= i < |b.items| ==> b.items[i] in stock
  {
    Items.Contains(stock, b.items)
  }

  predicate NonEmptyBundles(bs: seq<Buyer>) {
    forall i :: 0 <= i < |bs| ==> |bs[i].items| > 0
  }

  predicate SomeEligible(stock: seq<int>, bs: seq<Buyer>) {
    exists i :: 0 <= i < |bs| && Eligible(stock, bs[i])
  }

  /** No eligible bid has a ratio above `d`. */
  predicate NoneDenser(stock: seq<int>, bs: seq<Buyer>, d: int)
    requires NonEmptyBundles(bs)
  {
    forall j :: 0 <= j < |bs| && Eligible(stock, bs[j]) ==> Density(bs[j]) <= d
  }

  /**
   Position `k` is the round's pick: eligible, with a positive ratio that
   no eligible bid exceeds and that every eligible bid before it falls
   short of, so the first maximum in list order wins ties.
   */
  predicate IsBest(stock: seq<int>, bs: seq<Buyer>, k: nat)
    requires NonEmptyBundles(bs)
  {
    && k < |bs|
    && Eligible(stock, bs[k])
    && Density(bs[k]) > 0
    && NoneDenser(stock, bs, Density(bs[k]))
    && forall j :: 0 <= j < k && Eligible(stock, bs[j]) ==> Density(bs[j]) < Density(bs[k])
  }

  /** At most one position meets the selection rule, so each round's pick is determined. */
  lemma IsBestUnique(stock: seq<int>, bs: seq<Buyer>, k1: nat, k2: nat)
    requires NonEmptyBundles(bs)
    requires IsBest(stock, bs, k1) && IsBest(stock, bs, k2)
    ensures k1 == k2
  {
  }

  /** A ratio is positive exactly when the price covers one unit per requested item. */
  lemma DensityPositive(b: Buyer)
    requires |b.items| > 0
    ensures Density(b) > 0 <==> b.value >= |b.items|
  {
    var a, d := b.value, |b.items|;
    if a >= d {
      var q, r := a / d, a % d;
      assert a == d * q + r && 0 <= r < d;
    } else if a >= 0 {
      assert a / d == 0;
    }
  }

  /** One round's scan: ratios are compared against a running maximum that starts at 0. */
  method SelectBest(stock: seq<int>, bs: seq<Buyer>) returns (c: Choice)
    ensures c == Crash(DivisionByZero) <==> !NonEmptyBundles(bs)
    ensures c == Exhausted <==> NonEmptyBundles(bs) && !SomeEligible(stock, bs)
    ensures c == Crash(NullBest) <==>
      NonEmptyBundles(bs) && SomeEligible(stock, bs) && NoneDenser(stock, bs, 0)
    ensures c.Winner? ==> NonEmptyBundles(bs) && IsBest(stock, bs, c.index)
  {
    var best := -1;
    var maxFraction := 0;
    var available := false;
    var i := 0;
    while i < |bs|
      invariant 0 <= i <= |bs|
      invariant NonEmptyBundles(bs[..i])
      invariant available <==> SomeEligible(stock, bs[..i])
      invariant -1 <= best < i
      invariant best == -1 ==> maxFraction == 0 && NoneDenser(stock, bs[..i], 0)
      invariant best >= 0 ==> IsBest(stock, bs[..i], best) && maxFraction == Density(bs[best])
    {
      var b := bs[i];
      assert bs[..i + 1] == bs[..i] + [b];
      if Items.Contains(stock, b.items) {
        if |b.items| == 0 {
          return Crash(DivisionByZero);
        }
        var fraction := JavaDiv(b.value, |b.items|);
        if fraction > maxFraction {
          maxFraction := fraction;
          best := i;
        }
        available := true;
      }
      i := i + 1;
    }
    assert bs[..|bs|] == bs;
    if !available {
      return Exhausted;
    }
    if best < 0 {
      return Crash(NullBest);
    }
    return Winner(best);
  }

  /** The initial stock: items 0 .. m-1 appended in increasing order. */
  method InitialStock(m: int) returns (stock: seq<int>)
    ensures stock == Items.Range(m)
  {
    stock := [];
    var i := 0;
    while i < m
      invariant 0 <= i && (i <= m || i == 0)
      invariant stock == Items.Range(i)
    {
      var size;
      stock, size := Items.Append(stock, i);
      i := i + 1;
    }
  }

  /** The items taken by a list of winners. */
  function Covered(ws: seq<Buyer>): set<int> {
    if |ws| == 0 then {} else Covered(ws[..|ws| - 1]) + Items.Elems(ws[|ws| - 1].items)
  }

  /** The stock once the winners `ws` are served: 0 .. m-1 less their items, in order. */
  function StockAfter(m: int, ws: seq<Buyer>): seq<int> {
    Items.Without(Items.Range(m), Covered(ws))
  }

  predicate PairwiseDisjoint(ws: seq<Buyer>) {
    forall i, j :: 0 <= i < j < |ws| ==> Items.Elems(ws[i].items) !! Items.Elems(ws[j].items)
  }

  predicate WithinRange(ws: seq<Buyer>, m: int) {
    forall i, x :: 0 <= i < |ws| && x in ws[i].items ==> 0 <= x < m
  }

  /**
   `w` is the pick of the round that follows the winners `prefix`: the best
   bid among those not yet chosen, against the stock they leave.
   */
  ghost predicate ChosenAfter(bs: seq<Buyer>, m: int, prefix: seq<Buyer>, w: Buyer) {
    var rem := DropIds(bs, IdSet(prefix));
    && NonEmptyBundles(rem)
    && exists k :: 0 <= k < |rem| && IsBest(StockAfter(m, prefix), rem, k) && rem[k] == w
  }

  /**
   Every winner was its round's pick: the earlier winners were, and the
   last one is the pick of the round they leave.
   */
  ghost predicate ChosenGreedily(bs: seq<Buyer>, m: int, ws: seq<Buyer>)
    decreases |ws|
  {
    |ws| == 0 || (ChosenGreedily(bs, m, ws[..|ws| - 1]) && ChosenAfter(bs, m, ws[..|ws| - 1], ws[|ws| - 1]))
  }

  /** Read round by round: winner `j` was the pick of the round that the winners before it left. */
  lemma {:induction false} ChosenAt(bs: seq<Buyer>, m: int, ws: seq<Buyer>, j: nat)
    requires ChosenGreedily(bs, m, ws) && j < |ws|
    ensures ChosenAfter(bs, m, ws[..j], ws[j])
    decreases |ws|
  {
    var n := |ws| - 1;
    if j < n {
      var init := ws[..n];
      ChosenAt(bs, m, init, j);
      assert init[..j] == ws[..j] && init[j] == ws[j];
    }
  }

  lemma {:induction false} CoveredHas(ws: seq<Buyer>, i: nat)
    requires i < |ws|
    ensures Items.Elems(ws[i].items) <= Covered(ws)
  {
    if i < |ws| - 1 {
      CoveredHas(ws[..|ws| - 1], i);
    }
  }

  lemma CoveredSnoc(ws: seq<Buyer>, w: Buyer)
    ensures Covered(ws + [w]) == Covered(ws) + Items.Elems(w.items)
  {
    assert (ws + [w])[..|ws|] == ws;
  }

  lemma IdSetSnoc(ws: seq<Buyer>, w: Buyer)
    ensures IdSet(ws + [w]) == IdSet(ws) + {w.id}
  {
    var v := ws + [w];
    forall x | x in IdSet(v) ensures x in IdSet(ws) + {w.id} {
      var i :| 0 <= i < |v| && v[i].id == x;
      if i < |ws| {
        assert ws[i].id == x;
      }
    }
    forall x | x in IdSet(ws) ensures x in IdSet(v) {
      var i :| 0 <= i < |ws| && ws[i].id == x;
      assert v[i].id == x;
    }
    assert v[|ws|].id == w.id;
  }

  /** The stock part of the loop invariant: feasibility of the winners so far. */
  ghost predicate StockInv(m: int, result: seq<Buyer>, stock: seq<int>) {
    && stock == StockAfter(m, result)
    && Items.Distinct(stock)
    && WithinRange(result, m)
    && PairwiseDisjoint(result)
  }

  /** The receiver part of the loop invariant: bids move from `remaining` to `result`. */
  ghost predicate ReceiverInv(bs: seq<Buyer>, result: seq<Buyer>, remaining: seq<Buyer>) {
    && |result| + |remaining| == |bs|
    && (forall w :: w in result ==> w in bs)
    && (forall b :: b in remaining ==> b in bs)
    && (!NonEmptyBundles(bs) ==> result == [] && remaining == bs)
    && (UniqueIds(bs) ==> remaining == DropIds(bs, IdSet(result)))
    && (UniqueIds(bs) ==> multiset(result) + multiset(remaining) == multiset(bs))
  }

  lemma LoopInvInit(bs: seq<Buyer>, m: int)
    ensures StockInv(m, [], Items.Range(m))
    ensures ReceiverInv(bs, [], bs)
    ensures ChosenGreedily(bs, m, [])
  {
    Items.RangeDistinct(m);
    Items.WithoutNone(Items.Range(m), {});
    assert IdSet([]) == {};
    DropIdsNone(bs, {});
  }

  /** Every item in the stock lies in 0 .. m-1 and is not yet taken. */
  lemma StockElems(m: int, ws: seq<Buyer>)
    ensures forall x :: x in StockAfter(m, ws) <==> 0 <= x < m && x !in Covered(ws)
    ensures Items.Distinct(StockAfter(m, ws))
  {
    Items.RangeDistinct(m);
    Items.WithoutElems(Items.Range(m), Covered(ws));
    forall x ensures x in StockAfter(m, ws) <==> x in Items.Elems(StockAfter(m, ws)) {
    }
  }

  /** An eligible bundle lies in 0 .. m-1 and avoids every item already taken. */
  lemma EligibleFits(m: int, result: seq<Buyer>, w: Buyer)
    requires Eligible(StockAfter(m, result), w)
    ensures forall x :: x in w.items ==> 0 <= x < m && x !in Covered(result)
  {
    StockElems(m, result);
  }

  /** Removing the bundle of the next winner yields the stock that the longer winner list leaves. */
  lemma StockStep(m: int, result: seq<Buyer>, w: Buyer)
    requires Eligible(StockAfter(m, result), w)
    ensures Items.Remove(StockAfter(m, result), w.items) == StockAfter(m, result + [w])
  {
    StockElems(m, result);
    Items.RemoveDistinct(StockAfter(m, result), w.items);
    Items.WithoutWithout(Items.Range(m), Covered(result), Items.Elems(w.items));
    CoveredSnoc(result, w);
  }

  lemma DisjointStep(result: seq<Buyer>, w: Buyer)
    requires PairwiseDisjoint(result)
    requires forall x :: x in w.items ==> x !in Covered(result)
    ensures PairwiseDisjoint(result + [w])
  {
    var result' := result + [w];
    forall x | x in Items.Elems(w.items) ensures x !in Covered(result) {
      assert x in w.items;
    }
    forall i, j | 0 <= i < j < |result'|
      ensures Items.Elems(result'[i].items) !! Items.Elems(result'[j].items)
    {
      if j == |result| {
        CoveredHas(result, i);
        assert result'[j] == w && result'[i] == result[i];
      } else {
        assert result'[i] == result[i] && result'[j] == result[j];
      }
    }
  }

  /** Taking an eligible bundle out of the stock keeps the winners feasible. */
  lemma ServeStock(m: int, result: seq<Buyer>, stock: seq<int>, w: Buyer)
    requires StockInv(m, result, stock)
    requires Eligible(stock, w)
    ensures StockInv(m, result + [w], Items.Remove(stock, w.items))
  {
    EligibleFits(m, result, w);
    StockStep(m, result, w);
    StockElems(m, result + [w]);
    DisjointStep(result, w);
    var result' := result + [w];
    forall i, x | 0 <= i < |result'| && x in result'[i].items ensures 0 <= x < m {
      if i < |result| {
        assert result'[i] == result[i];
      }
    }
  }

  /** Moving the pick from the receiver to the result keeps the receiver bookkeeping. */
  lemma ServeReceiver(bs: seq<Buyer>, result: seq<Buyer>, remaining: seq<Buyer>, k: nat)
    requires ReceiverInv(bs, result, remaining)
    requires NonEmptyBundles(remaining) && k < |remaining|
    ensures HasId(remaining, remaining[k].id)
    ensures |Buyers.Remove(remaining, remaining[k].id)| == |remaining| - 1
    ensures ReceiverInv(bs, result + [remaining[k]], Buyers.Remove(remaining, remaining[k].id))
  {
    var w := remaining[k];
    var result', remaining' := result + [w], Buyers.Remove(remaining, w.id);
    assert HasId(remaining, w.id);
    assert w in remaining;
    var f := FirstWithId(remaining, w.id);
    assert remaining' == remaining[..f] + remaining[f + 1..];
    forall b | b in remaining' ensures b in bs {
      assert b in remaining;
    }
    assert NonEmptyBundles(bs);
    if UniqueIds(bs) {
      ServeUnique(bs, result, remaining, k);
    }
  }

  lemma MoveOne(R: multiset<Buyer>, M: multiset<Buyer>, w: Buyer)
    requires w in M
    ensures (R + multiset{w}) + (M - multiset{w}) == R + M
  {
  }

  /** With unique ids, the pick is the node that removal by its id takes out. */
  lemma ServeUnique(bs: seq<Buyer>, result: seq<Buyer>, remaining: seq<Buyer>, k: nat)
    requires UniqueIds(bs) && k < |remaining|
    requires remaining == DropIds(bs, IdSet(result))
    requires multiset(result) + multiset(remaining) == multiset(bs)
    ensures HasId(remaining, remaining[k].id) && FirstWithId(remaining, remaining[k].id) == k
    ensures Buyers.Remove(remaining, remaining[k].id) == DropIds(bs, IdSet(result + [remaining[k]]))
    ensures multiset(result + [remaining[k]]) + multiset(Buyers.Remove(remaining, remaining[k].id)) == multiset(bs)
  {
    var w := remaining[k];
    assert HasId(remaining, w.id);
    DropIdsSub(bs, IdSet(result));
    RemoveUnique(remaining, w.id);
    DropIdsTwice(bs, IdSet(result), {w.id});
    IdSetSnoc(result, w);
    RemoveMultiset(remaining, w.id);
    assert multiset(result + [w]) == multiset(result) + multiset{w};
    MoveOne(multiset(result), multiset(remaining), w);
  }

  /** The pick of this round extends the record of greedy choices. */
  lemma ServeHistory(bs: seq<Buyer>, m: int, result: seq<Buyer>, remaining: seq<Buyer>, stock: seq<int>, k: nat)
    requires ChosenGreedily(bs, m, result)
    requires remaining == DropIds(bs, IdSet(result)) && stock == StockAfter(m, result)
    requires NonEmptyBundles(remaining) && IsBest(stock, remaining, k)
    ensures ChosenGreedily(bs, m, result + [remaining[k]])
  {
    var result' := result + [remaining[k]];
    assert result'[..|result'| - 1] == result;
  }

  /**
   Why a round over a sub-list of the input can abort: an empty bundle there
   is an empty bundle of the input, and when every input bid has a non-empty
   bundle and a price of at least one per item, neither fault can happen.
   */
  lemma CrashCause(bs: seq<Buyer>, remaining: seq<Buyer>, stock: seq<int>)
    requires forall b :: b in remaining ==> b in bs
    ensures !NonEmptyBundles(remaining) ==> !NonEmptyBundles(bs)
    ensures (forall b :: b in bs ==> 0 < |b.items| <= b.value) ==>
      && NonEmptyBundles(remaining)
      && (SomeEligible(stock, remaining) ==> !NoneDenser(stock, remaining, 0))
  {
    if !NonEmptyBundles(remaining) {
      var i :| 0 <= i < |remaining| && |remaining[i].items| == 0;
      assert remaining[i] in bs;
    }
    if (forall b :: b in bs ==> 0 < |b.items| <= b.value) && SomeEligible(stock, remaining) {
      var i :| 0 <= i < |remaining| && Eligible(stock, remaining[i]);
      assert remaining[i] in bs;
      DensityPositive(remaining[i]);
    }
  }

  /**
   The end of a round with a pick: append it to the result, remove it from
   the receiver by id, and take its bundle out of the stock.
   */
  method Serve(ghost bs: seq<Buyer>, ghost m: int, result: seq<Buyer>, remaining: seq<Buyer>, stock: seq<int>, k: nat)
    returns (result': seq<Buyer>, remaining': seq<Buyer>, stock': seq<int>)
    requires StockInv(m, result, stock) && ReceiverInv(bs, result, remaining)
    requires UniqueIds(bs) ==> ChosenGreedily(bs, m, result)
    requires NonEmptyBundles(remaining) && IsBest(stock, remaining, k)
    ensures result' == result + [remaining[k]]
    ensures |remaining'| == |remaining| - 1
    ensures StockInv(m, result', stock') && ReceiverInv(bs, result', remaining')
    ensures UniqueIds(bs) ==> ChosenGreedily(bs, m, result')
  {
    var w := remaining[k];
    ServeStock(m, result, stock, w);
    ServeReceiver(bs, result, remaining, k);
    if UniqueIds(bs) {
      ServeHistory(bs, m, result, remaining, stock, k);
    }
    var size;
    result', size := Buyers.Append(result, w.id, w.value, w.items);
    assert result' == result + [w] by {
      assert result' == result'[..|result|] + [result'[|result|]];
    }
    remaining' := Buyers.Remove(remaining, w.id);
    stock' := Items.Remove(stock, w.items);
  }

  /**
   Runs the greedy allocation over the receiver `bs` with items 0 .. m-1.
   The receiver is consumed as the source does: the run returns what is
   left of it as `losers`. The contract states, in order: each round moves
   one bid, so there are at most |bs| rounds; the winners are feasible; how
   the loop ended; and, with unique ids, that the receiver loses exactly
   the winners, each picked greedily.
   */
  method Greedy(bs: seq<Buyer>, m: int) returns (out: Outcome)
    ensures |out.winners| + |out.losers| == |bs|
    ensures forall w :: w in out.winners ==> w in bs
    ensures forall b :: b in out.losers ==> b in bs
    ensures out.stock == StockAfter(m, out.winners)
    ensures Items.Distinct(out.stock)
    ensures WithinRange(out.winners, m)
    ensures PairwiseDisjoint(out.winners)
    ensures out.status == Completed ==>
      forall j :: 0 <= j < |out.losers| ==> !Eligible(out.stock, out.losers[j])
    ensures out.status == Failed(DivisionByZero) <==> !NonEmptyBundles(bs)
    ensures out.status == Failed(DivisionByZero) ==> out.winners == [] && out.losers == bs
    ensures out.status == Failed(NullBest) ==>
      && NonEmptyBundles(out.losers)
      && SomeEligible(out.stock, out.losers)
      && NoneDenser(out.stock, out.losers, 0)
    ensures (forall b :: b in bs ==> 0 < |b.items| <= b.value) ==> out.status == Completed
    ensures UniqueIds(bs) ==> out.losers == DropIds(bs, IdSet(out.winners))
    ensures UniqueIds(bs) ==> ChosenGreedily(bs, m, out.winners)
    ensures UniqueIds(bs) ==> multiset(out.winners) + multiset(out.losers) == multiset(bs)
  {
    var stock := InitialStock(m);
    var remaining := bs;
    var result: seq<Buyer> := [];
    LoopInvInit(bs, m);
    while true
      invariant StockInv(m, result, stock)
      invariant ReceiverInv(bs, result, remaining)
      invariant UniqueIds(bs) ==> ChosenGreedily(bs, m, result)
      decreases |remaining|
    {
      var c := SelectBest(stock, remaining);
      match c
      case Exhausted =>
        return Outcome(result, remaining, stock, Completed);
      case Crash(f) =>
        CrashCause(bs, remaining, stock);
        if f == NullBest {
          assert NonEmptyBundles(remaining) && SomeEligible(stock, remaining);
          assert NoneDenser(stock, remaining, 0);
        }
        return Outcome(result, remaining, stock, Failed(f));
      case Winner(k) =>
        result, remaining, stock := Serve(bs, m, result, remaining, stock, k);
    }
  }
}
