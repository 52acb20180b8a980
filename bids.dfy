/** Optional and failure-carrying values, used for Python's positional indexing
    and for the exception the clearing engine can raise. */
module Wrappers {
  datatype Option<+T> = None | Some(value: T)

  datatype Result<+R, +E> = Success(value: R) | Failure(error: E)
}

/** The bid record and the variant key that every component groups by. */
module Bids {

  /** One row of the "bids" sheet: action kind, amount, product type (colour),
      shoe size and the IPO supply for that product variant. */
  datatype Bid = Bid(action: string, amount: real, productType: string, shoeSize: real, ipoSupply: int)

  /** The (product_type, shoe_size) key identifying one auctioned good. */
  datatype Variant = Variant(productType: string, shoeSize: real)

  function VariantOf(b: Bid): Variant
  {
    Variant(b.productType, b.shoeSize)
  }

  /** The variants that occur among the bids. */
  ghost function Observed(bids: seq<Bid>): set<Variant>
  {
    set b | b in bids :: VariantOf(b)
  }

  /** `r` is `s` with some elements left out, the rest in their original order. */
  ghost predicate IsSubsequence<T>(r: seq<T>, s: seq<T>)
  {
    if r == [] then true
    else if s == [] then false
    else (r[0] == s[0] && IsSubsequence(r[1..], s[1..])) || IsSubsequence(r, s[1..])
  }

  /** A boolean-mask selection `data[mask]`: the rows for which `keep` holds, in
      input order. The three ensures determine the result completely: it keeps the
      order, holds nothing that fails the mask, and drops nothing that passes it. */
  function KeepIf(data: seq<Bid>, keep: Bid -> bool): (r: seq<Bid>)
    ensures IsSubsequence(r, data)
    ensures forall b :: b in r ==> keep(b)
    ensures forall b :: keep(b) ==> multiset(r)[b] == multiset(data)[b]
  {
    if data == [] then []
    else
      assert data == [data[0]] + data[1..];
      if keep(data[0]) then [data[0]] + KeepIf(data[1..], keep)
      else KeepIf(data[1..], keep)
  }

  /** The bids of one variant, in input order (one group of `groupby`). */
  function Group(bids: seq<Bid>, v: Variant): (g: seq<Bid>)
    ensures IsSubsequence(g, bids)
    ensures forall b :: b in g ==> VariantOf(b) == v
    ensures forall b :: VariantOf(b) == v ==> multiset(g)[b] == multiset(bids)[b]
  {
    KeepIf(bids, b => VariantOf(b) == v)
  }

  /** A variant that occurs among the bids has a non-empty group. */
  lemma ObservedGroupNonEmpty(bids: seq<Bid>, v: Variant)
    requires v in Observed(bids)
    ensures |Group(bids, v)| > 0
  {
    var b :| b in bids && VariantOf(b) == v;
    assert multiset(Group(bids, v))[b] == multiset(bids)[b] > 0;
  }

  /** The amount column of a sequence of bids. */
  function Amounts(s: seq<Bid>): (r: seq<real>)
    ensures |r| == |s|
    ensures forall i :: 0 <= i < |s| ==> r[i] == s[i].amount
  {
    if s == [] then [] else [s[0].amount] + Amounts(s[1..])
  }

  /** Taking out the element at `k` takes it out of the multiset. */
  lemma RemoveAtMultiset<T>(t: seq<T>, k: nat)
    requires k < |t|
    ensures multiset(t) == multiset(t[..k] + t[k + 1..]) + multiset{t[k]}
    ensures multiset(t[..k] + t[k + 1..]) == multiset(t) - multiset{t[k]}
  {
    assert t == t[..k] + [t[k]] + t[k + 1..];
  }

  /** The amounts of the bids without the one at `k`. */
  lemma AmountsRemoveAt(t: seq<Bid>, k: nat)
    requires k < |t|
    ensures Amounts(t[..k] + t[k + 1..]) == Amounts(t)[..k] + Amounts(t)[k + 1..]
  {
    var l, r := Amounts(t[..k] + t[k + 1..]), Amounts(t)[..k] + Amounts(t)[k + 1..];
    assert |l| == |r|;
    forall i | 0 <= i < |l| ensures l[i] == r[i] {
      if i < k {
        assert l[i] == t[i].amount;
      } else {
        assert l[i] == t[i + 1].amount;
      }
    }
  }

  /** Splitting one element off both sides of a rearrangement: the first element
      of `s`, wherever it sits in `t`. */
  lemma SplitFirst<T>(s: seq<T>, t: seq<T>, k: nat)
    requires multiset(s) == multiset(t) && s != [] && k < |t| && t[k] == s[0]
    ensures multiset(s[1..]) == multiset(t[..k] + t[k + 1..])
  {
    RemoveAtMultiset(t, k);
    assert s == [s[0]] + s[1..];
  }

  /** The amount of the bid at `k` is the one the amounts lose without it. */
  lemma AmountsSplit(t: seq<Bid>, k: nat)
    requires k < |t|
    ensures multiset(Amounts(t)) == multiset{t[k].amount} + multiset(Amounts(t[..k] + t[k + 1..]))
  {
    var amounts := Amounts(t);
    AmountsRemoveAt(t, k);
    RemoveAtMultiset(amounts, k);
  }

  /** Reordering the bids reorders their amounts the same way. */
  lemma {:induction false} AmountsRespectPermutation(s: seq<Bid>, t: seq<Bid>)
    requires multiset(s) == multiset(t)
    ensures multiset(Amounts(s)) == multiset(Amounts(t))
    decreases |s|
  {
    if s != [] {
      assert s[0] in multiset(t);
      var k :| 0 <= k < |t| && t[k] == s[0];
      SplitFirst(s, t, k);
      AmountsRespectPermutation(s[1..], t[..k] + t[k + 1..]);
      AmountsSplit(t, k);
      AmountsSplit(s, 0);
      assert s[..0] + s[1..] == s[1..];
    }
  }
}

/** The order in which `groupby` visits the (product_type, shoe_size) keys:
    product types compared as strings (code point by code point), then sizes. */
module KeyOrder {
  import opened Bids

  predicate StrLess(a: string, b: string)
  {
    if a == [] then b != []
    else b != [] && (a[0] < b[0] || (a[0] == b[0] && StrLess(a[1..], b[1..])))
  }

  lemma {:induction false} StrLessIrreflexive(a: string)
    ensures !StrLess(a, a)
  {
    if a != [] { StrLessIrreflexive(a[1..]); }
  }

  lemma {:induction false} StrLessTransitive(a: string, b: string, c: string)
    requires StrLess(a, b) && StrLess(b, c)
    ensures StrLess(a, c)
  {
    if a != [] && a[0] == b[0] && b[0] == c[0] {
      StrLessTransitive(a[1..], b[1..], c[1..]);
    }
  }

  lemma {:induction false} StrLessTotal(a: string, b: string)
    ensures a == b || StrLess(a, b) || StrLess(b, a)
  {
    if a != [] && b != [] && a[0] == b[0] {
      StrLessTotal(a[1..], b[1..]);
      if a[1..] == b[1..] {
        assert a == [a[0]] + a[1..] && b == [b[0]] + b[1..];
      }
    }
  }

  predicate VariantLess(u: Variant, v: Variant)
  {
    StrLess(u.productType, v.productType)
    || (u.productType == v.productType && u.shoeSize < v.shoeSize)
  }

  /** VariantLess is a strict total order on variants. */
  lemma VariantLessIsStrictTotalOrder()
    ensures forall u :: !VariantLess(u, u)
    ensures forall u, v, w :: VariantLess(u, v) && VariantLess(v, w) ==> VariantLess(u, w)
    ensures forall u, v :: u == v || VariantLess(u, v) || VariantLess(v, u)
  {
    forall u ensures !VariantLess(u, u) {
      StrLessIrreflexive(u.productType);
    }
    forall u, v, w | VariantLess(u, v) && VariantLess(v, w) ensures VariantLess(u, w) {
      if StrLess(u.productType, v.productType) && StrLess(v.productType, w.productType) {
        StrLessTransitive(u.productType, v.productType, w.productType);
      }
    }
    forall u, v ensures u == v || VariantLess(u, v) || VariantLess(v, u) {
      StrLessTotal(u.productType, v.productType);
    }
  }

  predicate StrictlyAscending(ks: seq<Variant>)
  {
    forall i, j :: 0 <= i < j < |ks| ==> VariantLess(ks[i], ks[j])
  }

  /** Adds one key to a strictly ascending key list, keeping it ascending. */
  function InsertKey(ks: seq<Variant>, v: Variant): (r: seq<Variant>)
    requires StrictlyAscending(ks)
    ensures StrictlyAscending(r)
    ensures forall u :: u in r <==> u in ks || u == v
  {
    VariantLessIsStrictTotalOrder();
    if ks == [] then [v]
    else if ks[0] == v then ks
    else if VariantLess(v, ks[0]) then [v] + ks
    else
      var rest := InsertKey(ks[1..], v);
      assert forall j :: 0 <= j < |rest| ==> rest[j] in ks[1..] || rest[j] == v;
      [ks[0]] + rest
  }

  /** The group keys of `groupby(['product_type', 'shoe_size'])`, in the ascending
      order in which it visits them: each observed variant exactly once. The rows
      are scanned in order and each row's key is put into place. */
  method GroupKeys(bids: seq<Bid>) returns (keys: seq<Variant>)
    ensures StrictlyAscending(keys)
    ensures forall v :: v in keys <==> v in Observed(bids)
  {
    keys := [];
    var i := 0;
    while i < |bids|
      invariant 0 <= i <= |bids|
      invariant StrictlyAscending(keys)
      invariant forall v :: v in keys <==> v in Observed(bids[..i])
    {
      ObservedExtend(bids, i);
      keys := InsertKey(keys, VariantOf(bids[i]));
      i := i + 1;
    }
    assert bids[..i] == bids;
  }

  /** One more row adds its key to the observed keys. */
  lemma ObservedExtend(bids: seq<Bid>, i: nat)
    requires i < |bids|
    ensures Observed(bids[..i + 1]) == Observed(bids[..i]) + {VariantOf(bids[i])}
  {
    assert bids[..i + 1] == bids[..i] + [bids[i]];
  }
}
