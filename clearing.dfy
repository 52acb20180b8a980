/** The clearing-price engine: a uniform-price clearing rule applied to each
    (product_type, shoe_size) variant, with the supply limit read from the
    highest-ranked bid of the variant. */
module ClearingPrices {
  import opened Wrappers
  import opened Bids
  import opened KeyOrder
  import opened Ranking

  /** One output row: the variant, its clearing price and the supply limit used. */
  datatype ClearingRecord = ClearingRecord(variant: Variant, clearingPrice: real, supplyLimit: int)

  /** pandas positional indexing `s.iloc[i]`: a negative position counts from the
      end, and a position outside the sequence raises IndexError (None here). */
  function ILoc<T>(s: seq<T>, i: int): (r: Option<T>)
    ensures r.Some? <==> -|s| <= i < |s|
  {
    if 0 <= i < |s| then Some(s[i])
    else if -|s| <= i < 0 then Some(s[|s| + i])
    else None
  }

  /** The clearing rule on the amounts of one variant, ranked highest first:
      with at least `supply` bids, the amount at rank `supply`; otherwise the
      last (lowest) amount. Nothing guards `supply <= 0`, so such a supply reads
      from the end of the ranking, and raises when it reaches past its start. */
  function SelectPrice(ranked: seq<real>, supply: int): (price: Option<real>)
    ensures price.Some? <==> |ranked| > 0 && supply >= 1 - |ranked|
    ensures price.Some? ==> price.value in ranked
  {
    if |ranked| >= supply then ILoc(ranked, supply - 1) else ILoc(ranked, -1)
  }

  /** `q` is the supply-th highest of `xs`: one of them, reached or passed by at
      least `supply` of them and passed by fewer than `supply`. */
  ghost predicate IsSthHighest(q: real, xs: seq<real>, supply: int)
  {
    q in xs && CountAtLeast(xs, q) >= supply && CountAbove(xs, q) < supply
  }

  lemma {:induction false} NothingAboveMaximum(xs: seq<real>, v: real)
    requires forall x :: x in xs ==> x <= v
    ensures CountAbove(xs, v) == 0
  {
    if xs != [] {
      assert xs[0] in xs;
      forall x | x in xs[1..] ensures x <= v {
        assert x in xs;
      }
      NothingAboveMaximum(xs[1..], v);
    }
  }

  /** In a descending ranking the amount at position k is reached by the first
      k + 1 amounts and passed by at most the first k. */
  lemma {:induction false} RankCounts(xs: seq<real>, k: nat)
    requires Descending(xs) && k < |xs|
    ensures CountAtLeast(xs, xs[k]) >= k + 1
    ensures CountAbove(xs, xs[k]) <= k
  {
    if k == 0 {
      NothingAboveMaximum(xs, xs[0]);
    } else {
      assert xs[1..][k - 1] == xs[k];
      RankCounts(xs[1..], k - 1);
    }
  }

  /** Every amount that reaches the higher level `q` passes the lower level `p`. */
  lemma {:induction false} CountsAreMonotone(xs: seq<real>, p: real, q: real)
    requires p < q
    ensures CountAtLeast(xs, q) <= CountAbove(xs, p)
  {
    if xs != [] {
      CountsAreMonotone(xs[1..], p, q);
    }
  }

  /** With at least `supply` bids the price is the supply-th highest amount, and
      that amount is the only one that is supply-th highest. */
  lemma PriceIsSthHighest(xs: seq<real>, supply: int)
    requires Descending(xs) && 1 <= supply <= |xs|
    ensures SelectPrice(xs, supply) == Some(xs[supply - 1])
    ensures IsSthHighest(xs[supply - 1], xs, supply)
    ensures forall q :: IsSthHighest(q, xs, supply) ==> q == xs[supply - 1]
  {
    var p := xs[supply - 1];
    RankCounts(xs, supply - 1);
    forall q | IsSthHighest(q, xs, supply) ensures q == p {
      if q > p {
        CountsAreMonotone(xs, p, q);
      } else if q < p {
        CountsAreMonotone(xs, q, p);
      }
    }
  }

  /** With fewer bids than supply every bid clears, at the lowest amount. */
  lemma PriceWhenSupplyNotExhausted(xs: seq<real>, supply: int)
    requires Descending(xs) && 0 < |xs| < supply
    ensures SelectPrice(xs, supply) == Some(xs[|xs| - 1])
    ensures forall x :: x in xs ==> xs[|xs| - 1] <= x
  {
  }

  /** When the number of bids equals the supply, the first branch (rank
      `supply`) gives the same price as the second branch (the lowest bid). */
  lemma BranchesAgreeAtBoundary(xs: seq<real>)
    requires Descending(xs) && |xs| > 0
    ensures SelectPrice(xs, |xs|) == SelectPrice(xs, |xs| + 1) == Some(xs[|xs| - 1])
  {
  }

  /** Raising the supply (from 1 upwards) never raises the clearing price. */
  lemma PriceMonotoneInSupply(xs: seq<real>, smaller: int, larger: int)
    requires Descending(xs) && |xs| > 0 && 1 <= smaller <= larger
    ensures SelectPrice(xs, larger).value <= SelectPrice(xs, smaller).value
  {
  }

  /** The unguarded supply limits: a supply of 0 reads the lowest bid, and a
      negative one counts further back from the end of the ranking. */
  lemma NonPositiveSupplyReadsFromTheEnd(xs: seq<real>, supply: int)
    requires Descending(xs) && 1 - |xs| <= supply <= 0
    ensures SelectPrice(xs, supply) == Some(xs[|xs| - 1 + supply])
    ensures supply == 0 ==> SelectPrice(xs, supply) == SelectPrice(xs, |xs| + 1)
  {
  }

  /** The ranked amounts, and therefore the price for any supply, are the same
      whichever order the sort leaves equal bids in. */
  lemma TieOrderDoesNotChangePrice(a: seq<Bid>, b: seq<Bid>, supply: int)
    requires DescendingByAmount(a) && DescendingByAmount(b)
    requires multiset(a) == multiset(b)
    ensures Amounts(a) == Amounts(b)
    ensures SelectPrice(Amounts(a), supply) == SelectPrice(Amounts(b), supply)
  {
    RankingAmountsAreDetermined(a, a);
    RankingAmountsAreDetermined(b, a);
  }

  /** `rec` is a clearing result for `group`: its supply limit is the IPO supply
      of a highest bid (whichever the sort put first), and its price is what the
      clearing rule selects for that supply. */
  ghost predicate Clears(rec: ClearingRecord, group: seq<Bid>)
  {
    && (exists b :: IsTopBid(b, group) && b.ipoSupply == rec.supplyLimit)
    && SelectPrice(SortedAmounts(group), rec.supplyLimit) == Some(rec.clearingPrice)
  }

  /** The clearing price is always the amount of one of the variant's bids, so
      it lies between the lowest and the highest of them. */
  lemma ClearingPriceIsABid(rec: ClearingRecord, group: seq<Bid>)
    requires Clears(rec, group)
    ensures exists b :: b in group && b.amount == rec.clearingPrice
  {
    SortedAmountsArePermutation(group);
    assert rec.clearingPrice in multiset(Amounts(group));
    var i :| 0 <= i < |group| && Amounts(group)[i] == rec.clearingPrice;
    assert group[i] in group;
  }

  /** With at least S bids (S the supply limit used), at least S bids of the
      variant are at or above the clearing price and fewer than S are above it. */
  lemma ClearingPriceIsSthHighestBid(rec: ClearingRecord, group: seq<Bid>)
    requires Clears(rec, group) && 1 <= rec.supplyLimit <= |group|
    ensures IsSthHighest(rec.clearingPrice, Amounts(group), rec.supplyLimit)
  {
    var xs := SortedAmounts(group);
    SortedAmountsArePermutation(group);
    PriceIsSthHighest(xs, rec.supplyLimit);
    CountsRespectPermutation(xs, Amounts(group), rec.clearingPrice);
    assert rec.clearingPrice in multiset(Amounts(group));
  }

  /** With fewer bids than the supply limit, the clearing price is the lowest
      amount bid for the variant. */
  lemma ClearingPriceWhenSupplyNotExhausted(rec: ClearingRecord, group: seq<Bid>)
    requires Clears(rec, group) && |group| < rec.supplyLimit
    ensures exists b :: b in group && b.amount == rec.clearingPrice
    ensures forall b :: b in group ==> rec.clearingPrice <= b.amount
  {
    var xs := SortedAmounts(group);
    PriceWhenSupplyNotExhausted(xs, rec.supplyLimit);
    ClearingPriceIsABid(rec, group);
    forall b | b in group ensures rec.clearingPrice <= b.amount {
      var i :| 0 <= i < |group| && group[i] == b;
      AmountIsRanked(group, i);
    }
  }

  /** Each bid's amount appears in the ranked amounts of its group. */
  lemma AmountIsRanked(group: seq<Bid>, i: nat)
    requires i < |group|
    ensures group[i].amount in SortedAmounts(group)
  {
    var ys := Amounts(group);
    SortedAmountsArePermutation(group);
    assert ys[i] == group[i].amount;
    assert ys[i] in multiset(ys);
  }

  /** When all bids of the variant carry the same IPO supply, that is the supply
      limit used. */
  lemma SupplyLimitOfConsistentGroup(rec: ClearingRecord, group: seq<Bid>, supply: int)
    requires Clears(rec, group)
    requires forall b :: b in group ==> b.ipoSupply == supply
    ensures rec.supplyLimit == supply
  {
  }

  /** The group's first-ranked bid can carry a supply limit that the rule cannot
      read a price for (one reaching past the start of the ranking). */
  ghost predicate Unclearable(group: seq<Bid>)
  {
    exists b :: IsTopBid(b, group) && SelectPrice(SortedAmounts(group), b.ipoSupply) == None
  }

  /** Every bid carries a positive IPO supply. */
  predicate SuppliesPositive(bids: seq<Bid>)
  {
    forall b :: b in bids ==> b.ipoSupply >= 1
  }

  /** `calculate_clearing_prices`: one record per variant, in ascending variant
      order. A supply limit so negative that `iloc` reaches past the start of the
      ranking raises IndexError; that is the Failure case, naming the variant. */
  method CalculateClearingPrices(bids: seq<Bid>) returns (result: Result<seq<ClearingRecord>, Variant>)
    ensures result.Success? ==>
      forall i :: 0 <= i < |result.value| ==> Clears(result.value[i], Group(bids, result.value[i].variant))
    ensures result.Success? ==>
      forall i, j :: 0 <= i < j < |result.value| ==>
        VariantLess(result.value[i].variant, result.value[j].variant)
    ensures result.Success? ==>
      forall v :: v in Observed(bids) <==>
        exists i :: 0 <= i < |result.value| && result.value[i].variant == v
    ensures result.Failure? ==> result.error in Observed(bids) && Unclearable(Group(bids, result.error))
    ensures SuppliesPositive(bids) ==> result.Success?
  {
    var keys := GroupKeys(bids);
    var prices: seq<ClearingRecord> := [];
    var i := 0;
    while i < |keys|
      invariant 0 <= i <= |keys|
      invariant |prices| == i
      invariant forall j :: 0 <= j < i ==>
        prices[j].variant == keys[j] && Clears(prices[j], Group(bids, keys[j]))
    {
      var price, supplyLimit := ClearGroup(bids, keys[i]);
      if price.None? {
        return Failure(keys[i]);
      }
      var record := ClearingRecord(keys[i], price.value, supplyLimit);
      AppendRecord(bids, keys, prices, record);
      prices := prices + [record];
      i := i + 1;
    }
    RecordsFollowKeys(bids, keys, prices);
    return Success(prices);
  }

  /** The loop body of `calculate_clearing_prices` for one variant: rank its bids,
      take the supply limit from the first-ranked bid and read the price off the
      ranking. None is the IndexError of `iloc`. */
  method ClearGroup(bids: seq<Bid>, v: Variant) returns (price: Option<real>, supplyLimit: int)
    requires v in Observed(bids)
    ensures price.Some? ==> Clears(ClearingRecord(v, price.value, supplyLimit), Group(bids, v))
    ensures price.None? ==> Unclearable(Group(bids, v)) && !SuppliesPositive(bids)
  {
    var group := Group(bids, v);
    ObservedGroupNonEmpty(bids, v);
    var ranked := RankByAmount(group);
    supplyLimit := ranked[0].ipoSupply;
    price := SelectPrice(Amounts(ranked), supplyLimit);
    RankedGroupClears(group, ranked, v);
    if price.None? {
      UnclearableGroup(bids, v, ranked[0]);
    }
  }

  /** What the engine does with one group, once ranked: the record built from the
      first bid's supply and the selected price clears the group. */
  lemma RankedGroupClears(group: seq<Bid>, ranked: seq<Bid>, v: Variant)
    requires |group| > 0
    requires DescendingByAmount(ranked) && multiset(ranked) == multiset(group)
    requires |ranked| > 0 && IsTopBid(ranked[0], group)
    ensures SelectPrice(Amounts(ranked), ranked[0].ipoSupply)
         == SelectPrice(SortedAmounts(group), ranked[0].ipoSupply)
    ensures SelectPrice(Amounts(ranked), ranked[0].ipoSupply).Some? ==>
      Clears(ClearingRecord(v, SelectPrice(Amounts(ranked), ranked[0].ipoSupply).value, ranked[0].ipoSupply), group)
  {
    RankingAmountsAreDetermined(ranked, group);
  }

  /** A group whose first-ranked bid carries a supply the rule cannot read. */
  lemma UnclearableGroup(bids: seq<Bid>, v: Variant, top: Bid)
    requires v in Observed(bids)
    requires IsTopBid(top, Group(bids, v))
    requires SelectPrice(SortedAmounts(Group(bids, v)), top.ipoSupply) == None
    ensures Unclearable(Group(bids, v))
    ensures !SuppliesPositive(bids)
  {
    assert multiset(Group(bids, v))[top] == multiset(bids)[top] > 0;
    ObservedGroupNonEmpty(bids, v);
    assert top in bids && top.ipoSupply < 1;
  }

  /** The loop invariant of CalculateClearingPrices survives appending the
      record of the next key. */
  lemma AppendRecord(bids: seq<Bid>, keys: seq<Variant>, prices: seq<ClearingRecord>, record: ClearingRecord)
    requires |prices| < |keys|
    requires forall j :: 0 <= j < |prices| ==> prices[j].variant == keys[j] && Clears(prices[j], Group(bids, keys[j]))
    requires record.variant == keys[|prices|] && Clears(record, Group(bids, keys[|prices|]))
    ensures forall j :: 0 <= j < |prices| + 1 ==>
      (prices + [record])[j].variant == keys[j] && Clears((prices + [record])[j], Group(bids, keys[j]))
  {
    forall j | 0 <= j < |prices| + 1
      ensures (prices + [record])[j].variant == keys[j] && Clears((prices + [record])[j], Group(bids, keys[j]))
    {
      if j < |prices| {
        assert (prices + [record])[j] == prices[j];
      } else {
        assert (prices + [record])[j] == record;
      }
    }
  }

  /** Records made one per group key, in key order, clear their groups, are
      ascending and name exactly the observed variants. */
  lemma RecordsFollowKeys(bids: seq<Bid>, keys: seq<Variant>, prices: seq<ClearingRecord>)
    requires StrictlyAscending(keys)
    requires forall v :: v in keys <==> v in Observed(bids)
    requires |prices| == |keys|
    requires forall j :: 0 <= j < |prices| ==> prices[j].variant == keys[j] && Clears(prices[j], Group(bids, keys[j]))
    ensures forall i :: 0 <= i < |prices| ==> Clears(prices[i], Group(bids, prices[i].variant))
    ensures forall i, j :: 0 <= i < j < |prices| ==> VariantLess(prices[i].variant, prices[j].variant)
    ensures forall v :: v in Observed(bids) <==> exists i :: 0 <= i < |prices| && prices[i].variant == v
  {
    forall v | v in Observed(bids)
      ensures exists i :: 0 <= i < |prices| && prices[i].variant == v
    {
      var j :| 0 <= j < |keys| && keys[j] == v;
      assert prices[j].variant == v;
    }
  }

  /** One point of a variant's demand curve: the number of bids at or above
      this one, and its amount. */
  datatype DemandPoint = DemandPoint(cumulativeBids: nat, amount: real)

  /** The ranking behind the demand curve of one variant: its bids highest first,
      numbered 1, 2, ... The curve meets any supply line S within it at the
      clearing price for S. */
  method DemandCurve(bids: seq<Bid>, v: Variant) returns (curve: seq<DemandPoint>)
    ensures |curve| == |Group(bids, v)|
    ensures forall i :: 0 <= i < |curve| ==>
      curve[i] == DemandPoint(i + 1, SortedAmounts(Group(bids, v))[i])
    ensures forall s :: 1 <= s <= |curve| ==>
      SelectPrice(SortedAmounts(Group(bids, v)), s) == Some(curve[s - 1].amount)
  {
    var specific := Group(bids, v);
    var ranked := RankByAmount(specific);
    curve := NumberRanks(ranked);
    RankedCurve(specific, ranked, curve);
  }

  /** Numbers a ranking 1, 2, ...: the cumulative bid count of a point lies
      between the number of bids above its amount and the number at or above it. */
  function NumberRanks(ranked: seq<Bid>): (curve: seq<DemandPoint>)
    requires DescendingByAmount(ranked)
    ensures |curve| == |ranked|
    ensures forall i :: 0 <= i < |ranked| ==> curve[i] == DemandPoint(i + 1, ranked[i].amount)
    ensures forall i :: 0 <= i < |curve| ==>
      CountAbove(Amounts(ranked), curve[i].amount) < curve[i].cumulativeBids
                                                   <= CountAtLeast(Amounts(ranked), curve[i].amount)
  {
    var curve := seq(|ranked|, i requires 0 <= i < |ranked| => DemandPoint(i + 1, ranked[i].amount));
    assert forall i :: 0 <= i < |curve| ==>
      CountAbove(Amounts(ranked), curve[i].amount) < curve[i].cumulativeBids
                                                   <= CountAtLeast(Amounts(ranked), curve[i].amount) by {
      forall i | 0 <= i < |curve| {
        RankCounts(Amounts(ranked), i);
      }
    }
    curve
  }

  /** Numbering any ranking of a group gives the same curve, and the curve at
      rank s carries the clearing price for supply s. */
  lemma RankedCurve(group: seq<Bid>, ranked: seq<Bid>, curve: seq<DemandPoint>)
    requires DescendingByAmount(ranked) && multiset(ranked) == multiset(group)
    requires curve == NumberRanks(ranked)
    ensures |curve| == |group|
    ensures forall i :: 0 <= i < |curve| ==> curve[i] == DemandPoint(i + 1, SortedAmounts(group)[i])
    ensures forall s :: 1 <= s <= |curve| ==> SelectPrice(SortedAmounts(group), s) == Some(curve[s - 1].amount)
  {
    var xs := SortedAmounts(group);
    RankingAmountsAreDetermined(ranked, group);
    assert forall i :: 0 <= i < |curve| ==> curve[i].amount == xs[i];
    RanksSelectPrices(xs);
  }

  /** Within the ranking, the price for supply s is the amount at rank s. */
  lemma RanksSelectPrices(xs: seq<real>)
    ensures forall s :: 1 <= s <= |xs| ==> SelectPrice(xs, s) == Some(xs[s - 1])
  {
  }

  /** Five bids for one variant at 400, 380, 300, 250 and 200: a supply of 3
      clears at 300, a supply of 10 at 200. */
  lemma FiveBidExample()
    ensures SelectPrice([400.0, 380.0, 300.0, 250.0, 200.0], 3) == Some(300.0)
    ensures SelectPrice([400.0, 380.0, 300.0, 250.0, 200.0], 10) == Some(200.0)
  {
  }
}
