/** The count grid of `total_bids_by_color_and_size`: bids counted per
    (product_type, shoe_size), made dense over every observed product type and
    every observed shoe size, with 0 where a combination has no bids. */
module CrossTab {
  import opened Bids

  ghost function ProductTypes(bids: seq<Bid>): set<string>
  {
    set b | b in bids :: b.productType
  }

  ghost function ShoeSizes(bids: seq<Bid>): set<real>
  {
    set b | b in bids :: b.shoeSize
  }

  /** Splitting the first bid off a group count. */
  lemma GroupSizeStep(bids: seq<Bid>, v: Variant)
    requires bids != []
    ensures |Group(bids, v)| == (if VariantOf(bids[0]) == v then 1 else 0) + |Group(bids[1..], v)|
  {
  }

  /** A variant nobody bid on has an empty group. */
  lemma UnobservedGroupIsEmpty(bids: seq<Bid>, v: Variant)
    requires v !in Observed(bids)
    ensures |Group(bids, v)| == 0
  {
  }

  /** `groupby(['product_type', 'shoe_size']).size()`: the number of bids of each
      observed variant, and no entry for any other variant. */
  function Tally(bids: seq<Bid>): (sizes: map<Variant, nat>)
    ensures sizes.Keys == Observed(bids)
    ensures forall v :: v in sizes ==> sizes[v] == |Group(bids, v)|
  {
    if bids == [] then map[]
    else
      var rest := Tally(bids[1..]);
      var sizes := CountOne(rest, VariantOf(bids[0]));
      ObservedStep(bids);
      TallyStep(bids, rest, sizes);
      sizes
  }

  /** Adds one to the count of `v`, starting from 0 when it has none yet. */
  function CountOne(sizes: map<Variant, nat>, v: Variant): (r: map<Variant, nat>)
    ensures r.Keys == sizes.Keys + {v}
    ensures r[v] == (if v in sizes then sizes[v] else 0) + 1
    ensures forall u :: u in sizes && u != v ==> r[u] == sizes[u]
  {
    sizes[v := (if v in sizes then sizes[v] else 0) + 1]
  }

  /** Counting the first bid into the tally of the others gives the tally of all. */
  lemma TallyStep(bids: seq<Bid>, rest: map<Variant, nat>, sizes: map<Variant, nat>)
    requires bids != []
    requires rest.Keys == Observed(bids[1..])
    requires forall v :: v in rest ==> rest[v] == |Group(bids[1..], v)|
    requires sizes == CountOne(rest, VariantOf(bids[0]))
    ensures forall u :: u in sizes ==> sizes[u] == |Group(bids, u)|
  {
    var v := VariantOf(bids[0]);
    forall u | u in sizes ensures sizes[u] == |Group(bids, u)| {
      GroupSizeStep(bids, u);
      if u == v && v !in rest {
        UnobservedGroupIsEmpty(bids[1..], v);
      }
    }
  }

  lemma ObservedStep(bids: seq<Bid>)
    requires bids != []
    ensures Observed(bids) == {VariantOf(bids[0])} + Observed(bids[1..])
  {
    assert bids == [bids[0]] + bids[1..];
  }

  function RowLabels(sizes: map<Variant, nat>): set<string>
  {
    set v | v in sizes.Keys :: v.productType
  }

  function ColumnLabels(sizes: map<Variant, nat>): set<real>
  {
    set v | v in sizes.Keys :: v.shoeSize
  }

  /** `.unstack(fill_value=0)`: one cell per row label and column label, holding
      the tally where there is one and 0 elsewhere. */
  function Unstack(sizes: map<Variant, nat>): (grid: map<Variant, nat>)
    ensures forall v :: v in sizes ==> v in grid && grid[v] == sizes[v]
    ensures forall v :: v in grid && v !in sizes ==> grid[v] == 0
    ensures forall p, s :: Variant(p, s) in grid <==> p in RowLabels(sizes) && s in ColumnLabels(sizes)
  {
    var grid := map p, s | p in RowLabels(sizes) && s in ColumnLabels(sizes)
      :: Variant(p, s) := if Variant(p, s) in sizes then sizes[Variant(p, s)] else 0;
    assert forall v :: v in sizes ==> v in grid by {
      forall v | v in sizes ensures v in grid {
        assert v.productType in RowLabels(sizes) && v.shoeSize in ColumnLabels(sizes);
        assert v == Variant(v.productType, v.shoeSize);
      }
    }
    grid
  }

  /** `total_bids_by_color_and_size`: the dense grid over every observed product
      type and shoe size; each cell holds the number of bids with that key, which
      is 0 for a combination nobody bid on. */
  function TotalBidsByColorAndSize(bids: seq<Bid>): (grid: map<Variant, nat>)
    ensures forall p, s :: Variant(p, s) in grid <==> p in ProductTypes(bids) && s in ShoeSizes(bids)
    ensures forall v :: v in grid ==> grid[v] == |Group(bids, v)|
    ensures forall v :: v in grid && v !in Observed(bids) ==> grid[v] == 0
    ensures Observed(bids) <= grid.Keys
  {
    var sizes := Tally(bids);
    var grid := Unstack(sizes);
    TallyLabels(bids);
    FilledCellsAreEmptyGroups(bids, sizes, grid);
    grid
  }

  /** The cells that unstacking fills with 0 belong to variants nobody bid on. */
  lemma FilledCellsAreEmptyGroups(bids: seq<Bid>, sizes: map<Variant, nat>, grid: map<Variant, nat>)
    requires sizes.Keys == Observed(bids)
    requires forall v :: v in sizes ==> sizes[v] == |Group(bids, v)|
    requires forall v :: v in sizes ==> v in grid && grid[v] == sizes[v]
    requires forall v :: v in grid && v !in sizes ==> grid[v] == 0
    ensures forall v :: v in grid ==> grid[v] == |Group(bids, v)|
  {
    forall v | v in grid ensures grid[v] == |Group(bids, v)| {
      if v !in sizes {
        UnobservedGroupIsEmpty(bids, v);
      }
    }
  }

  /** The row and column labels of the tally are the observed product types and
      shoe sizes. */
  lemma TallyLabels(bids: seq<Bid>)
    ensures RowLabels(Tally(bids)) == ProductTypes(bids)
    ensures ColumnLabels(Tally(bids)) == ShoeSizes(bids)
  {
    var sizes := Tally(bids);
    forall p | p in ProductTypes(bids) ensures p in RowLabels(sizes) {
      var b :| b in bids && b.productType == p;
      assert VariantOf(b) in sizes;
    }
    forall s | s in ShoeSizes(bids) ensures s in ColumnLabels(sizes) {
      var b :| b in bids && b.shoeSize == s;
      assert VariantOf(b) in sizes;
    }
  }

  /** The sum of the grid's cells listed in `cells`. */
  function CellSum(grid: map<Variant, nat>, cells: seq<Variant>): nat
    requires forall c :: c in cells ==> c in grid
  {
    if cells == [] then 0 else grid[cells[0]] + CellSum(grid, cells[1..])
  }

  /** The group sizes of the variants listed in `cells`, added up. */
  function GroupSizes(bids: seq<Bid>, cells: seq<Variant>): nat
  {
    if cells == [] then 0 else |Group(bids, cells[0])| + GroupSizes(bids, cells[1..])
  }

  function Occurrences(v: Variant, cells: seq<Variant>): nat
  {
    if cells == [] then 0 else (if cells[0] == v then 1 else 0) + Occurrences(v, cells[1..])
  }

  predicate Distinct(cells: seq<Variant>)
  {
    forall i, j :: 0 <= i < j < |cells| ==> cells[i] != cells[j]
  }

  lemma {:induction false} OccursOnce(v: Variant, cells: seq<Variant>)
    requires Distinct(cells) && v in cells
    ensures Occurrences(v, cells) == 1
  {
    if cells[0] == v {
      OccursNever(v, cells[1..]);
    } else {
      OccursOnce(v, cells[1..]);
    }
  }

  lemma {:induction false} OccursNever(v: Variant, cells: seq<Variant>)
    requires v !in cells
    ensures Occurrences(v, cells) == 0
  {
    if cells != [] {
      OccursNever(v, cells[1..]);
    }
  }

  lemma {:induction false} GroupSizesStep(bids: seq<Bid>, cells: seq<Variant>)
    requires bids != []
    ensures GroupSizes(bids, cells) == Occurrences(VariantOf(bids[0]), cells) + GroupSizes(bids[1..], cells)
  {
    if cells != [] {
      GroupSizeStep(bids, cells[0]);
      GroupSizesStep(bids, cells[1..]);
    }
  }

  /** Counting each bid once under its own variant counts every bid. */
  lemma {:induction false} GroupSizesCountEveryBid(bids: seq<Bid>, cells: seq<Variant>)
    requires Distinct(cells)
    requires forall b :: b in bids ==> VariantOf(b) in cells
    ensures GroupSizes(bids, cells) == |bids|
  {
    if bids == [] {
      GroupSizesOfNothing(cells);
    } else {
      assert bids[0] in bids;
      GroupSizesStep(bids, cells);
      OccursOnce(VariantOf(bids[0]), cells);
      assert forall b :: b in bids[1..] ==> b in bids;
      GroupSizesCountEveryBid(bids[1..], cells);
    }
  }

  lemma {:induction false} GroupSizesOfNothing(cells: seq<Variant>)
    ensures GroupSizes([], cells) == 0
  {
    if cells != [] {
      GroupSizesOfNothing(cells[1..]);
    }
  }

  /** A grid whose listed cells hold their group sizes sums to those sizes. */
  lemma {:induction false} CellSumIsGroupSizes(bids: seq<Bid>, grid: map<Variant, nat>, cells: seq<Variant>)
    requires forall c :: c in cells ==> c in grid && grid[c] == |Group(bids, c)|
    ensures CellSum(grid, cells) == GroupSizes(bids, cells)
  {
    if cells != [] {
      assert cells[0] in cells;
      CellSumIsGroupSizes(bids, grid, cells[1..]);
    }
  }

  /** However the grid's cells are listed (each once), they add up to the number
      of bids. */
  lemma GridSumsToBidCount(bids: seq<Bid>, cells: seq<Variant>)
    requires Distinct(cells)
    requires forall c :: c in cells <==> c in TotalBidsByColorAndSize(bids)
    ensures CellSum(TotalBidsByColorAndSize(bids), cells) == |bids|
  {
    var grid := TotalBidsByColorAndSize(bids);
    CellSumIsGroupSizes(bids, grid, cells);
    forall b | b in bids ensures VariantOf(b) in cells {
      assert VariantOf(b) in Observed(bids);
    }
    GroupSizesCountEveryBid(bids, cells);
  }
}
