/** The record filter: the action filter applied when the sheet is loaded, and
    the bid-amount ceiling. Both are boolean masks over the rows. */
module RecordFilter {
  import opened Bids

  const IpoBidAction: string := "IPO bid"

  /** Default ceiling of `filter_data`. */
  const DefaultMaxBidAmount: real := 350.0

  /** `data[data['action'] == 'IPO bid']`: exactly the IPO bids, in input order. */
  function IpoBids(data: seq<Bid>): (ipo: seq<Bid>)
    ensures IsSubsequence(ipo, data)
    ensures forall b :: b in ipo ==> b.action == IpoBidAction
    ensures forall b: Bid :: b.action == IpoBidAction ==> multiset(ipo)[b] == multiset(data)[b]
  {
    KeepIf(data, (b: Bid) => b.action == IpoBidAction)
  }

  /** `ipo_data[ipo_data['amount'] <= max_bid_amount]`: the bids at or below the
      ceiling (inclusive), in input order. */
  function FilterData(ipoData: seq<Bid>, maxBidAmount: real := DefaultMaxBidAmount): (filtered: seq<Bid>)
    ensures IsSubsequence(filtered, ipoData)
    ensures forall b :: b in filtered ==> b.amount <= maxBidAmount
    ensures forall b: Bid :: b.amount <= maxBidAmount ==> multiset(filtered)[b] == multiset(ipoData)[b]
  {
    KeepIf(ipoData, (b: Bid) => b.amount <= maxBidAmount)
  }

  /** A subsequence is never longer than the sequence it comes from. */
  lemma {:induction false} SubsequenceIsNoLonger<T>(r: seq<T>, s: seq<T>)
    requires IsSubsequence(r, s)
    ensures |r| <= |s|
    decreases |s|
  {
    if r != [] {
      if r[0] == s[0] && IsSubsequence(r[1..], s[1..]) {
        SubsequenceIsNoLonger(r[1..], s[1..]);
      } else {
        SubsequenceIsNoLonger(r, s[1..]);
      }
    }
  }

  /** Both filters in a row, as the analysis applies them: what survives is an IPO
      bid at or below the ceiling, every such bid survives, and nothing is added. */
  lemma LoadAndFilter(data: seq<Bid>, maxBidAmount: real)
    ensures var filtered := FilterData(IpoBids(data), maxBidAmount);
      && |filtered| <= |data|
      && (forall b :: b in filtered ==> b.action == IpoBidAction && b.amount <= maxBidAmount)
      && (forall b: Bid :: b.action == IpoBidAction && b.amount <= maxBidAmount ==>
            multiset(filtered)[b] == multiset(data)[b])
  {
    var ipo := IpoBids(data);
    SubsequenceIsNoLonger(ipo, data);
    SubsequenceIsNoLonger(FilterData(ipo, maxBidAmount), ipo);
  }
}
