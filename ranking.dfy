/** Ranking the bids of one variant by amount, highest first, and counting how
    many amounts reach a given level. */
module Ranking {
  import opened Bids

  predicate Descending(xs: seq<real>)
  {
    forall i, j :: 0 <= i < j < |xs| ==> xs[i] >= xs[j]
  }

  predicate DescendingByAmount(s: seq<Bid>)
  {
    forall i, j :: 0 <= i < j < |s| ==> s[i].amount >= s[j].amount
  }

  /** Puts `b` into a ranking ahead of every bid it does not fall below. */
  function InsertByAmount(ranked: seq<Bid>, b: Bid): (r: seq<Bid>)
    requires DescendingByAmount(ranked)
    ensures DescendingByAmount(r)
    ensures multiset(r) == multiset(ranked) + multiset{b}
  {
    if ranked == [] || ranked[0].amount <= b.amount then
      [b] + ranked
    else
      var rest := InsertByAmount(ranked[1..], b);
      InsertBehindHead(ranked, b, rest);
      [ranked[0]] + rest
  }

  /** Inserting below the head of a ranking: the head stays in front of the
      ranking of the rest with `b` in it. */
  lemma InsertBehindHead(ranked: seq<Bid>, b: Bid, rest: seq<Bid>)
    requires DescendingByAmount(ranked) && ranked != [] && b.amount < ranked[0].amount
    requires DescendingByAmount(rest)
    requires multiset(rest) == multiset(ranked[1..]) + multiset{b}
    ensures DescendingByAmount([ranked[0]] + rest)
    ensures multiset([ranked[0]] + rest) == multiset(ranked) + multiset{b}
  {
    forall j | 0 <= j < |rest| ensures rest[j].amount <= ranked[0].amount {
      assert rest[j] in multiset(rest);
      if rest[j] != b {
        assert rest[j] in ranked[1..];
      }
    }
    assert ranked == [ranked[0]] + ranked[1..];
  }

  /** One ranking of the bids by amount, highest first (insertion sort). */
  function SortByAmount(s: seq<Bid>): (r: seq<Bid>)
    ensures DescendingByAmount(r)
    ensures multiset(r) == multiset(s)
  {
    if s == [] then []
    else
      assert s == [s[0]] + s[1..];
      InsertByAmount(SortByAmount(s[1..]), s[0])
  }

  /** The amounts of a group, highest first. Which bid comes first among equal
      amounts does not show here, so this is the same for every ranking (see
      RankingAmountsAreDetermined). */
  function SortedAmounts(group: seq<Bid>): (xs: seq<real>)
    ensures |xs| == |group|
    ensures Descending(xs)
  {
    var r := SortByAmount(group);
    assert |r| == |multiset(r)| == |group|;
    Amounts(r)
  }

  /** SortedAmounts holds exactly the amounts of the group. */
  lemma SortedAmountsArePermutation(group: seq<Bid>)
    ensures multiset(SortedAmounts(group)) == multiset(Amounts(group))
  {
    AmountsRespectPermutation(SortByAmount(group), group);
  }

  /** Two descending sequences with the same elements are equal. */
  lemma {:induction false} DescendingIsUnique(xs: seq<real>, ys: seq<real>)
    requires Descending(xs) && Descending(ys)
    requires multiset(xs) == multiset(ys)
    ensures xs == ys
    decreases |xs|
  {
    assert |xs| == |multiset(xs)| == |multiset(ys)| == |ys|;
    if xs != [] {
      SameHead(xs, ys);
      SplitFirst(xs, ys, 0);
      assert ys[..0] + ys[1..] == ys[1..];
      DescendingIsUnique(xs[1..], ys[1..]);
    }
  }

  /** Two non-empty descending sequences with the same elements start with the
      same (largest) element. */
  lemma SameHead(xs: seq<real>, ys: seq<real>)
    requires Descending(xs) && Descending(ys) && xs != [] && ys != []
    requires multiset(xs) == multiset(ys)
    ensures xs[0] == ys[0]
  {
    assert xs[0] in multiset(ys) && ys[0] in multiset(xs);
  }

  /** Every ranking of a group by amount lists the amounts of SortedAmounts: the
      tie order chosen by the sort never changes which amount sits at which rank. */
  lemma RankingAmountsAreDetermined(ranked: seq<Bid>, group: seq<Bid>)
    requires DescendingByAmount(ranked)
    requires multiset(ranked) == multiset(group)
    ensures Amounts(ranked) == SortedAmounts(group)
  {
    AmountsRespectPermutation(ranked, group);
    SortedAmountsArePermutation(group);
    DescendingIsUnique(Amounts(ranked), SortedAmounts(group));
  }

  /** A bid with the highest amount of its group. */
  ghost predicate IsTopBid(b: Bid, group: seq<Bid>)
  {
    b in group && forall c :: c in group ==> c.amount <= b.amount
  }

  /** `group.sort_values('amount', ascending=False)`. The sort is not stable, so
      all that is known of its result is that it is a descending rearrangement. */
  method RankByAmount(group: seq<Bid>) returns (ranked: seq<Bid>)
    ensures DescendingByAmount(ranked)
    ensures multiset(ranked) == multiset(group)
    ensures |ranked| == |group|
    ensures |group| > 0 ==> |ranked| > 0 && IsTopBid(ranked[0], group)
  {
    ranked := SortByAmount(group);
    assert |ranked| == |multiset(ranked)| == |group|;
    if |group| > 0 {
      forall c | c in group ensures c.amount <= ranked[0].amount {
        assert c in multiset(ranked);
      }
      assert ranked[0] in multiset(group);
    }
  }

  /** How many amounts are at least `v`. */
  function CountAtLeast(xs: seq<real>, v: real): nat
  {
    if xs == [] then 0 else (if xs[0] >= v then 1 else 0) + CountAtLeast(xs[1..], v)
  }

  /** How many amounts are strictly above `v`. */
  function CountAbove(xs: seq<real>, v: real): nat
  {
    if xs == [] then 0 else (if xs[0] > v then 1 else 0) + CountAbove(xs[1..], v)
  }

  lemma {:induction false} CountsOfConcat(a: seq<real>, b: seq<real>, v: real)
    ensures CountAtLeast(a + b, v) == CountAtLeast(a, v) + CountAtLeast(b, v)
    ensures CountAbove(a + b, v) == CountAbove(a, v) + CountAbove(b, v)
  {
    if a == [] {
      assert a + b == b;
    } else {
      assert (a + b)[1..] == a[1..] + b;
      CountsOfConcat(a[1..], b, v);
    }
  }

  /** Taking out the amount at `k` takes its share out of both counts. */
  lemma CountsRemoveAt(ys: seq<real>, k: nat, v: real)
    requires k < |ys|
    ensures CountAtLeast(ys, v) == (if ys[k] >= v then 1 else 0) + CountAtLeast(ys[..k] + ys[k + 1..], v)
    ensures CountAbove(ys, v) == (if ys[k] > v then 1 else 0) + CountAbove(ys[..k] + ys[k + 1..], v)
  {
    assert ys == ys[..k] + ([ys[k]] + ys[k + 1..]);
    CountsOfConcat(ys[..k], [ys[k]] + ys[k + 1..], v);
    CountsOfConcat(ys[..k], ys[k + 1..], v);
  }

  /** The counts depend only on which amounts there are, not on their order. */
  lemma {:induction false} CountsRespectPermutation(xs: seq<real>, ys: seq<real>, v: real)
    requires multiset(xs) == multiset(ys)
    ensures CountAtLeast(xs, v) == CountAtLeast(ys, v)
    ensures CountAbove(xs, v) == CountAbove(ys, v)
    decreases |xs|
  {
    if xs != [] {
      var x := xs[0];
      assert x in multiset(ys);
      var k :| 0 <= k < |ys| && ys[k] == x;
      SplitFirst(xs, ys, k);
      CountsRespectPermutation(xs[1..], ys[..k] + ys[k + 1..], v);
      CountsRemoveAt(ys, k, v);
    }
  }
}
