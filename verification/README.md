# Greedy winner determination for combinatorial auctions, in Dafny

This project models the core of `BuyersList.java`. That file holds a greedy
heuristic for weighted set packing ("winner determination"). A pool of
items `0 .. m-1` is up for sale. Each buyer bids a price for a bundle of
items. The heuristic repeatedly serves the bid whose bundle is still
wholly in stock and whose price per item is the largest, until no
remaining bid fits.

The Java code keeps its data in two hand-written singly linked lists.
The model replaces them with sequences:

- `items.dfy` (module `Items`): the item list `ItemsList` as `seq<int>`.
  It covers the membership scan, the superset test with its size
  short-circuit, `append`, the removal of the first occurrence of an item,
  and the guarded bulk removal.
- `buyers.dfy` (module `Buyers`): the buyer list `BuyersList` as
  `seq<Buyer>`. It covers `append`, `remove(id)`, `totalValue`, and the
  sequential id numbering that `readFile` applies to already-parsed lines.
- `greedy.dfy` (module `Allocator`): the `greedy` method. It models one
  round's scan (`SelectBest`), the initial stock, serving a winner, and
  the whole loop (`Greedy`).

Modelling choices:

- **Ratio.** The ratio `value / itemsList.size()` divides two `int`s, so
  Java truncates it toward zero before widening it to `double`. The model
  uses integer division with truncation toward zero (`JavaDiv`). The
  running maximum starts at 0 and the comparison is strict. So a bid with
  ratio 0 is never picked, and the first maximum in list order wins ties.
- **Crashes.** The loop can abort in two ways, and the model returns both
  as a `Failed` status:
  - `DivisionByZero`: the superset test always passes for an empty bundle,
    and its ratio then divides by zero. Both operands are `int`, so a
    zero-size bundle throws `ArithmeticException` instead of giving an
    infinite `double`.
  - `NullBest`: some bid is eligible but none has a positive ratio, so the
    best bid is still `null` when the code dereferences it.
- **Receiver.** `greedy` mutates its receiver. `Greedy` returns the
  receiver as the run leaves it (`losers`), together with the result list
  (`winners`) and the final stock.
- **Duplicate ids.** `remove(id)` deletes the first node with that id.
  When ids repeat, that node need not be the winner. The properties that
  tie the receiver to the winners therefore assume unique ids. `FromPairs`
  (the numbering done by `readFile`) always produces unique ids.

## Model

| member | source | states |
|---|---|---|
| Items.ContainsItem | BuyersList.java:56-67 | the scan answers true exactly when the item occurs in the list |
| Items.AllFound | BuyersList.java:78-89 | the loop over the argument's nodes succeeds exactly when every one of them occurs in the list |
| Items.Contains | BuyersList.java:73-90 | superset test: true iff the list is at least as long as the argument and holds every element of it; an empty argument is always contained, and a shorter list never contains the argument even when it covers it as a set |
| Items.ContainsDistinct | BuyersList.java:73-90 | on a duplicate-free list the superset test depends only on the set of ids held: the argument fits iff it is no longer than that set and its ids all belong to it |
| Items.Append | BuyersList.java:99-112 | the new item becomes the last node, earlier nodes are unchanged, the returned count is the new size, and the held ids grow by exactly that item |
| Items.RemoveElement | BuyersList.java:119-147 | an absent item leaves the list unchanged; otherwise the list shrinks by one, positions before the first occurrence are kept and later positions shift down by one |
| Items.RemoveElementMultiset | BuyersList.java:119-147 | one removal takes exactly one copy of the item out of the list's multiset of ids, or nothing if it is absent |
| Items.RemoveElementDistinct | BuyersList.java:119-147 | on a duplicate-free list, removing the first occurrence equals filtering the item out |
| Items.RemoveEachMultiset | BuyersList.java:156-161 | removing each element of the argument in turn leaves the multiset difference of the two lists |
| Items.RemoveElementSubseq | BuyersList.java:119-147 | a single removal keeps the other nodes in their relative order |
| Items.RemoveEach | BuyersList.java:156-161 | the removal loop only deletes nodes: what it leaves is a subsequence of the list |
| Items.Remove | BuyersList.java:154-163 | guarded removal: the list is unchanged when the superset test fails; otherwise the result is the multiset difference; in both cases the survivors keep their relative order |
| Items.RemoveDistinct | BuyersList.java:154-163 | on a duplicate-free list a removal that proceeds is the order-preserving filter dropping exactly the argument's ids, and the result stays duplicate-free |
| Items.RemoveSize | BuyersList.java:154-163 | when the argument is duplicate-free and contained, exactly as many nodes as it has are removed |
| Buyers.Append | BuyersList.java:301-314 | the new bid becomes the last node with the given id, value and items, earlier nodes are unchanged, and the returned count is the new size |
| Buyers.Remove | BuyersList.java:320-348 | an absent id leaves the list unchanged; otherwise the list shrinks by one, nodes before the first node with that id are kept and later nodes shift down by one |
| Buyers.RemoveUnique | BuyersList.java:320-348 | with unique ids, removal by id drops exactly the node with that id and keeps the rest in order |
| Buyers.RemoveValue | BuyersList.java:320-348 | removing a present id lowers the total price by exactly the price of the removed node |
| Buyers.RemoveMultiset | BuyersList.java:320-348 | removing a present id takes exactly one copy of its first node out of the list's multiset of bids |
| Buyers.TotalValue | BuyersList.java:278-288 | the running sum equals the sum of the prices over the list, and is 0 for an empty list |
| Buyers.SumValuesConcat | BuyersList.java:278-288 | the total price of two lists put end to end is the sum of their totals |
| Buyers.SumValuesPerm | BuyersList.java:278-288 | the total price depends only on which bids a list holds, not on their order |
| Buyers.PartitionValue | BuyersList.java:278-288 | when two lists together hold exactly the bids of a third, their total prices add up to its total |
| Buyers.FromPairs | BuyersList.java:230-245 | one bid per parsed (price, bundle) pair, in input order, with ids 0, 1, 2, ...; the ids are unique |
| Allocator.JavaDiv | BuyersList.java:381 | the quotient of an `int` division truncates toward zero: for a non-negative dividend it is the largest non-negative q with q*d <= a, for a negative one the smallest non-positive q with a <= q*d |
| Allocator.Density | BuyersList.java:381 | a bid's ratio is its price divided by its bundle size, truncated toward zero as above |
| Allocator.Eligible | BuyersList.java:380 | a bid is eligible iff its bundle is no longer than the stock and every item of it is in stock |
| Allocator.DensityPositive | BuyersList.java:381-383 | a truncated ratio beats the initial maximum 0 exactly when the price is at least the bundle size |
| Allocator.SelectBest | BuyersList.java:373-397 | a round divides by zero iff some remaining bid has an empty bundle; it ends the loop iff no bid is eligible; it has no best bid iff bids are eligible but none has a positive ratio; otherwise its pick is eligible, has a positive ratio, is at least every eligible ratio, and is strictly above every eligible ratio scanned before it |
| Allocator.IsBestUnique | BuyersList.java:383-386 | the selection rule singles out at most one position, so a round's pick is determined |
| Allocator.InitialStock | BuyersList.java:359-363 | the stock starts as the items 0 .. m-1 in increasing order, and is empty when m <= 0 |
| Allocator.StockElems | BuyersList.java:359-406 | the stock left by a list of winners is duplicate-free and holds exactly the items of 0 .. m-1 not in any winner's bundle |
| Allocator.EligibleFits | BuyersList.java:380 | an eligible bundle lies within 0 .. m-1 and avoids every item already taken |
| Allocator.StockStep | BuyersList.java:405-406 | taking an eligible winner's bundle out of the stock gives the stock that the longer winner list leaves |
| Allocator.DisjointStep | BuyersList.java:380-406 | a bundle that avoids all taken items keeps the winners' bundles pairwise disjoint |
| Allocator.ServeStock | BuyersList.java:405-406 | serving an eligible winner keeps the stock equal to 0 .. m-1 minus the taken items, the winners within range, and their bundles pairwise disjoint |
| Allocator.ServeReceiver | BuyersList.java:400-403 | serving the pick removes exactly one node from the receiver and keeps the bookkeeping: sizes add up, every node comes from the input, and with unique ids the receiver is the input minus the winners and winners plus receiver hold exactly the input's bids |
| Allocator.ServeUnique | BuyersList.java:400-403 | with unique ids, removal by the pick's id takes out the pick itself, so the receiver becomes the input minus the longer winner list, and winners plus receiver still hold exactly the input's bids |
| Allocator.ChosenAt | BuyersList.java:372-407 | the recorded greedy history, read round by round: winner j was the best eligible bid among those the first j winners left, against the stock they left |
| Allocator.ServeHistory | BuyersList.java:372-407 | with unique ids, a round's pick extends the record that every winner was the pick of its own round |
| Allocator.Serve | BuyersList.java:399-406 | the end of a round with a pick appends exactly that bid to the result, shortens the receiver by one and keeps the loop invariant |
| Allocator.CrashCause | BuyersList.java:379-400 | an empty bundle in the receiver is an empty bundle of the input; when every input bid has a non-empty bundle and a price of at least one per item, no round can fail |
| Allocator.Greedy | BuyersList.java:357-410 | winners and losers partition the input, so there are at most as many rounds as bids; the final stock is 0 .. m-1 minus the winners' bundles, duplicate-free; every winning bundle lies in 0 .. m-1; winning bundles are pairwise disjoint; a completed run leaves no loser eligible; the run divides by zero iff the input has an empty bundle, and then in its first round; a null best bid means bids were eligible but none had a positive ratio; inputs with non-empty bundles and a price of at least one per item always complete; with unique ids the losers are the input minus the winners in order, each winner was its round's pick, and winners plus losers hold exactly the input's bids, so by `Buyers.PartitionValue` their total prices add up to the input's |

## Left out

- `main` (directory listing, timing with `System.nanoTime`, printing) is
  I/O and reporting and is not modelled.
- `readFile` (file reading, `String.split`, `Integer.parseInt`, exception
  printing) is not modelled. Only its sequential id numbering of
  already-parsed (price, bundle) pairs is modelled, as `Buyers.FromPairs`.
  The header values `n` and `opt` are only used for printing.
- `size()` and `empty()` of both lists are `|s|` and `s == []` on the
  sequences and get no members of their own.
- The node objects and their `first`/`last` relinking are replaced by
  sequences. The result list shares each winner's `ItemsList` object with
  the receiver. This sharing is harmless because bundles are never changed
  after construction, so bundles are values here.
- `max_fraction` and `buyers_fraction` are `double` in the source, but they
  only ever hold truncated integer quotients. They are compared as
  integers.
- Java's 32-bit `int` overflow in `totalValue` and in the node counters is
  not modelled. Integers are unbounded.
- Items.Remove: when the list holds repeated ids, the contract states the
  multiset difference and that survivors keep their order, but not which
  copy of a repeated id goes (the first one, as `Items.RemoveElement`
  states). The allocator only passes its stock, which is duplicate-free,
  and there `Items.RemoveDistinct` gives the result exactly.
- Buyers.TotalValue: does not model 32-bit wrap-around of the sum, because
  the model uses unbounded integers.
- When a round aborts, Java throws and the caller never receives the result
  list. The model returns the state reached at that point instead, with a
  `Failed` status.
- No optimality or approximation claim is made against the reference
  optimum `opt`. The code only prints it.
