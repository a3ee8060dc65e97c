/** `adjust_matrix_based_on_shares`: for each technology group of a share tree,
    redistribute the group's total output of each product over its
    technologies by their shares, emitting an overlay of (tech, product)
    exchanges to replace those of the technosphere.

    Python's dicts are association lists (`Dict`). The set of product columns
    of a group is iterated in the order the columns first appear in the
    technosphere: that order is a choice of this model, since Python's set
    order is not specified, and it fixes the order of the overlay's entries
    within a group. The overlay's contents do not depend on it. */
module ShareAdjustment {
  import opened Wrappers
  import opened Dicts
  import opened Records
  import opened Sampler

  const BaseYear: int := 2020
  const TargetYear: int := 2050

  /** One year's entry of a technology: the keys "value", "min", "max" and
      "distribution", each of which may be absent. */
  datatype YearShare = YearShare(
    value: Option<real>, min: Option<real>, max: Option<real>, distribution: Option<string>)

  /** The "idx" key of a technology: absent, present as None, or a row. */
  datatype TechIdx = NoIdx | IdxNone | Idx(i: int)

  /** The details of one technology: its per-year entries and its "idx". */
  datatype Details = Details(years: map<int, YearShare>, idx: TechIdx)

  /** The technologies of one (category, region) group, by name. */
  type Techs = Dict<string, Details>

  /** `shares_dict`: category -> region -> technology -> details. */
  type ShareTree = Dict<string, Dict<string, Techs>>

  /** One emitted exchange: its coordinate, its row of amounts and its sign. */
  datatype Emission = Emission(coord: Coord, amounts: seq<real>, sign: bool)

  /** The three returned arrays. */
  datatype Overlay = Overlay(data: seq<seq<real>>, indices: seq<Coord>, signs: seq<bool>)

  datatype AdjustError =
    | MissingKey              // a KeyError on a year entry or one of its keys
    | UnsupportedDistribution // `exit(1)` on a 2050 distribution other than "uniform"
    | ZeroTotalShares         // the sampler divided by a zero total
    | EmptyOverlay            // `np.concatenate([])` raises ValueError

  /** Which share the base-year branch multiplies by: the value of the LAST
      technology of the group (the code as written), or the technology's own. */
  datatype BaseYearRule = LastTechValue | OwnValue

  /** The parameters every group shares. */
  datatype Setting = Setting(year: int, useDistributions: int, skip: set<int>, rule: BaseYearRule)

  /** The technosphere arrays the adjustment reads: values, coordinates and signs. */
  predicate WellFormed(a: MatrixArrays) {
    a.TechnosphereArrays? && |a.data| == |a.indices| == |a.sign|
  }

  // ---------------------------------------------------------------------
  // The share tree
  // ---------------------------------------------------------------------

  /** The number of (category, region) groups of a tree. */
  function RegionCount(tree: ShareTree): nat {
    if |tree| == 0 then 0 else |tree[0].1| + RegionCount(tree[1..])
  }

  /** Line 231-232: the groups of the tree, category by category, region by region. */
  function Groups(tree: ShareTree): (gs: seq<Techs>)
    ensures |gs| == RegionCount(tree)
    ensures forall c, r :: 0 <= c < |tree| && 0 <= r < |tree[c].1| ==> tree[c].1[r].1 in gs
  {
    if |tree| == 0 then [] else Values(tree[0].1) + Groups(tree[1..])
  }

  /** Region `r` of category `c` is the group after all regions of the
      earlier categories and the earlier regions of `c`. */
  lemma {:induction false} GroupAt(tree: ShareTree, c: nat, r: nat)
    requires c < |tree| && r < |tree[c].1|
    ensures RegionCount(tree[..c]) + r < |Groups(tree)|
    ensures Groups(tree)[RegionCount(tree[..c]) + r] == tree[c].1[r].1
  {
    if c == 0 {
      assert tree[..0] == [];
    } else {
      GroupAt(tree[1..], c - 1, r);
      assert tree[..c][0] == tree[0] && tree[..c][1..] == tree[1..][..c - 1];
    }
  }

  /** Group position `gi` is region `r` of category `c`. */
  predicate Slot(tree: ShareTree, c: nat, r: nat, gi: nat) {
    c < |tree| && r < |tree[c].1| && RegionCount(tree[..c]) + r == gi
  }

  /** Position `gi` of the groups is one (category, region) slot: the groups
      are those of the tree and no others. */
  lemma {:induction false} GroupOrigin(tree: ShareTree, gi: nat)
    requires gi < |Groups(tree)|
    ensures exists c: nat, r: nat :: Slot(tree, c, r, gi)
  {
    if gi < |tree[0].1| {
      assert tree[..0] == [];
      assert Slot(tree, 0, gi, gi);
    } else {
      GroupOrigin(tree[1..], gi - |tree[0].1|);
      var c: nat, r: nat :| Slot(tree[1..], c, r, gi - |tree[0].1|);
      assert tree[..c + 1][0] == tree[0] && tree[..c + 1][1..] == tree[1..][..c];
      assert tree[c + 1] == tree[1..][c];
      assert Slot(tree, c + 1, r, gi);
    }
  }

  /** Line 219-225: every row named as some technology's "idx". */
  function SkipSet(tree: ShareTree): (skip: set<int>)
    ensures forall x :: x in skip <==>
      exists gi, j :: 0 <= gi < |Groups(tree)| && 0 <= j < |Groups(tree)[gi]| && Groups(tree)[gi][j].1.idx == Idx(x)
  {
    var gs := Groups(tree);
    var skip := set gi, j | 0 <= gi < |gs| && 0 <= j < |gs[gi]| && gs[gi][j].1.idx.Idx? :: gs[gi][j].1.idx.i;
    assert forall x :: x in skip <==>
      exists gi, j :: 0 <= gi < |Groups(tree)| && 0 <= j < |Groups(tree)[gi]| && Groups(tree)[gi][j].1.idx == Idx(x) by {
      forall x | x in skip
        ensures exists gi, j :: 0 <= gi < |gs| && 0 <= j < |gs[gi]| && gs[gi][j].1.idx == Idx(x)
      {
        var gi, j :| 0 <= gi < |gs| && 0 <= j < |gs[gi]| && gs[gi][j].1.idx.Idx? && gs[gi][j].1.idx.i == x;
      }
      forall gi, j | 0 <= gi < |gs| && 0 <= j < |gs[gi]| && gs[gi][j].1.idx.Idx?
        ensures gs[gi][j].1.idx.i in skip
      {
      }
    }
    skip
  }

  /** Line 233-235: the rows of a group's technologies, in order, duplicates
      kept; an "idx" of None matches no row and is dropped. */
  function TechRows(g: Techs): (rows: seq<int>)
    ensures forall x :: x in rows <==> exists j :: 0 <= j < |g| && g[j].1.idx == Idx(x)
  {
    if |g| == 0 then []
    else
      var rest := TechRows(g[1..]);
      assert forall j :: 1 <= j < |g| ==> g[j] == g[1..][j - 1];
      (if g[0].1.idx.Idx? then [g[0].1.idx.i] else []) + rest
  }

  /** A single technology contributes its "idx" when it has one and nothing
      otherwise, so a group has at most one row per technology. */
  lemma {:induction false} TechRowsShape(g: Techs)
    ensures |TechRows(g)| <= |g|
    ensures |g| == 1 && g[0].1.idx.Idx? ==> TechRows(g) == [g[0].1.idx.i]
    ensures |g| == 1 && !g[0].1.idx.Idx? ==> TechRows(g) == []
  {
    if |g| > 0 {
      TechRowsShape(g[1..]);
    }
  }

  /** The rows of consecutive runs of technologies follow each other: with
      the one-technology case of `TechRowsShape`, every technology with a row
      contributes exactly one entry, in technology order, so a row named by
      two technologies is listed twice. */
  lemma {:induction false} TechRowsAppend(g1: Techs, g2: Techs)
    ensures TechRows(g1 + g2) == TechRows(g1) + TechRows(g2)
  {
    if |g1| > 0 {
      assert (g1 + g2)[0] == g1[0];
      assert (g1 + g2)[1..] == g1[1..] + g2;
      TechRowsAppend(g1[1..], g2);
    } else {
      assert g1 + g2 == g2;
    }
  }

  // ---------------------------------------------------------------------
  // The technosphere lookups
  // ---------------------------------------------------------------------

  /** Line 213: coordinate -> position; a repeated coordinate keeps its last position. */
  function IndexLookup(indices: seq<Coord>): Dict<Coord, nat> {
    FromPairs(seq(|indices|, k requires 0 <= k < |indices| => (indices[k], k as nat)))
  }

  /** `find_index`: the last position of `(row, col)` in the technosphere. */
  function Find(indices: seq<Coord>, row: int, col: int): (r: Option<nat>)
    ensures r.Some? ==> r.value < |indices| && indices[r.value] == Coord(row, col)
    ensures r.Some? ==> forall k :: r.value < k < |indices| ==> indices[k] != Coord(row, col)
    ensures r.None? <==> forall k :: 0 <= k < |indices| ==> indices[k] != Coord(row, col)
  {
    var ps := seq(|indices|, k requires 0 <= k < |indices| => (indices[k], k as nat));
    assert forall k :: 0 <= k < |ps| ==> ps[k] == (indices[k], k);
    FromPairsGet(ps, Coord(row, col));
    GetNone(ps, Coord(row, col));
    var r := Get(IndexLookup(indices), Coord(row, col));
    if r.Some? then
      GetWitness(ps, Coord(row, col));
      r
    else r
  }

  /** `set(...)` of a column list, kept in first-occurrence order. */
  function Dedup(xs: seq<int>): (ys: seq<int>)
    ensures forall x :: x in ys <==> x in xs
  {
    if |xs| == 0 then []
    else
      var d := Dedup(xs[..|xs| - 1]);
      if xs[|xs| - 1] in d then d else d + [xs[|xs| - 1]]
  }

  /** `Dedup` keeps each column once. */
  lemma {:induction false} DedupOnce(xs: seq<int>)
    ensures forall i, j :: 0 <= i < j < |Dedup(xs)| ==> Dedup(xs)[i] != Dedup(xs)[j]
  {
    if |xs| > 0 {
      var d := Dedup(xs[..|xs| - 1]);
      DedupOnce(xs[..|xs| - 1]);
      if xs[|xs| - 1] !in d {
        assert Dedup(xs) == d + [xs[|xs| - 1]];
        forall i, j | 0 <= i < j < |Dedup(xs)| ensures Dedup(xs)[i] != Dedup(xs)[j] {
          if j == |d| {
            assert Dedup(xs)[i] == d[i];
          }
        }
      }
    }
  }

  /** Line 237: the columns of the exchanges whose row is one of `rows`. */
  function ProductCols(indices: seq<Coord>, rows: seq<int>): (cols: seq<int>)
    ensures forall p :: p in cols <==> exists k :: 0 <= k < |indices| && indices[k].row in rows && indices[k].col == p
  {
    if |indices| == 0 then []
    else
      var n := |indices| - 1;
      var rest := ProductCols(indices[..n], rows);
      assert forall k :: 0 <= k < n ==> indices[..n][k] == indices[k];
      if indices[n].row in rows then rest + [indices[n].col] else rest
  }

  /** Line 236-238: the product columns of a group, each once. */
  function Products(a: MatrixArrays, g: Techs): (ps: seq<int>)
    requires WellFormed(a)
    ensures forall p :: p in ps <==>
      exists k :: 0 <= k < |a.indices| && a.indices[k].row in TechRows(g) && a.indices[k].col == p
  {
    Dedup(ProductCols(a.indices, TechRows(g)))
  }

  /** Each product column of a group is listed once. */
  lemma {:induction false} ProductsOnce(a: MatrixArrays, g: Techs)
    requires WellFormed(a)
    ensures forall i, j :: 0 <= i < j < |Products(a, g)| ==> Products(a, g)[i] != Products(a, g)[j]
  {
    DedupOnce(ProductCols(a.indices, TechRows(g)));
  }

  /** Line 272-276: the positions of the group's (tech, product) exchanges, one
      per tech row that has one, in the order of the tech rows. */
  function RelevantIndices(indices: seq<Coord>, rows: seq<int>, p: int): (ks: seq<nat>)
    ensures |ks| <= |rows|
    ensures forall i :: 0 <= i < |ks| ==> ks[i] < |indices| && indices[ks[i]].col == p && indices[ks[i]].row in rows
  {
    if |rows| == 0 then [] else Found(indices, rows[0], p) + RelevantIndices(indices, rows[1..], p)
  }

  /** Line 274-275: the position of the (row, p) exchange, if there is one. */
  function Found(indices: seq<Coord>, row: int, p: int): (ks: seq<nat>)
    ensures |ks| <= 1
    ensures forall i :: 0 <= i < |ks| ==> ks[i] < |indices| && indices[ks[i]] == Coord(row, p)
  {
    match Find(indices, row, p)
    case Some(k) => [k]
    case None => []
  }

  /** A position is listed exactly when it is where some tech row's exchange
      in column `p` is found. */
  lemma {:induction false} RelevantIndicesFound(indices: seq<Coord>, rows: seq<int>, p: int)
    ensures forall m :: 0 <= m < |RelevantIndices(indices, rows, p)| ==>
      exists i :: 0 <= i < |rows| && Find(indices, rows[i], p) == Some(RelevantIndices(indices, rows, p)[m])
    ensures forall i :: 0 <= i < |rows| && Find(indices, rows[i], p).Some? ==>
      Find(indices, rows[i], p).value in RelevantIndices(indices, rows, p)
  {
    if |rows| > 0 {
      RelevantIndicesFound(indices, rows[1..], p);
      var ks, rest := RelevantIndices(indices, rows, p), RelevantIndices(indices, rows[1..], p);
      var off := |ks| - |rest|;
      assert ks == (if Find(indices, rows[0], p).Some? then [Find(indices, rows[0], p).value] else []) + rest;
      forall m | 0 <= m < |ks|
        ensures exists i :: 0 <= i < |rows| && Find(indices, rows[i], p) == Some(ks[m])
      {
        if m < off {
          assert Find(indices, rows[0], p) == Some(ks[m]);
        } else {
          assert ks[m] == rest[m - off];
          var i :| 0 <= i < |rows[1..]| && Find(indices, rows[1..][i], p) == Some(rest[m - off]);
          assert rows[1..][i] == rows[i + 1];
        }
      }
      forall i | 0 <= i < |rows| && Find(indices, rows[i], p).Some?
        ensures Find(indices, rows[i], p).value in ks
      {
        if i > 0 {
          assert rows[i] == rows[1..][i - 1];
        }
      }
    } else {
      assert RelevantIndices(indices, rows, p) == [];
    }
  }

  /** The positions found for consecutive runs of tech rows follow each other. */
  lemma {:induction false} RelevantIndicesAppend(indices: seq<Coord>, r1: seq<int>, r2: seq<int>, p: int)
    ensures RelevantIndices(indices, r1 + r2, p) == RelevantIndices(indices, r1, p) + RelevantIndices(indices, r2, p)
  {
    if |r1| > 0 {
      var rs := r1 + r2;
      assert rs[0] == r1[0] && rs[1..] == r1[1..] + r2;
      RelevantIndicesAppend(indices, r1[1..], r2, p);
      var head := Found(indices, r1[0], p);
      assert head + (RelevantIndices(indices, r1[1..], p) + RelevantIndices(indices, r2, p))
          == (head + RelevantIndices(indices, r1[1..], p)) + RelevantIndices(indices, r2, p);
    } else {
      assert r1 + r2 == r2;
    }
  }

  /** The amounts stored at positions `ks` of the technosphere. */
  function DataAt(a: MatrixArrays, ks: seq<nat>): (xs: seq<real>)
    requires WellFormed(a) && forall i :: 0 <= i < |ks| ==> ks[i] < |a.data|
    ensures |xs| == |ks|
    ensures forall i :: 0 <= i < |ks| ==> xs[i] == a.data[ks[i]]
  {
    seq(|ks|, i requires 0 <= i < |ks| => a.data[ks[i]])
  }

  /** Line 277: the group's total output of product `p`. */
  function TotalOutput(a: MatrixArrays, rows: seq<int>, p: int): real
    requires WellFormed(a)
  {
    Sum(DataAt(a, RelevantIndices(a.indices, rows, p)))
  }

  /** What one tech row puts out of product `p`: the amount of its exchange
      in column `p`, or nothing when it has none. */
  function RowOutput(a: MatrixArrays, row: int, p: int): real
    requires WellFormed(a)
  {
    match Find(a.indices, row, p)
    case Some(k) => a.data[k]
    case None => 0.0
  }

  /** What each of `rows` puts out of product `p`, in order. */
  function RowOutputs(a: MatrixArrays, rows: seq<int>, p: int): (xs: seq<real>)
    requires WellFormed(a)
    ensures |xs| == |rows|
    ensures forall i :: 0 <= i < |rows| ==> xs[i] == RowOutput(a, rows[i], p)
  {
    seq(|rows|, i requires 0 <= i < |rows| => RowOutput(a, rows[i], p))
  }

  /** The total output is the sum, over the group's tech rows, of what each
      puts out of the product. */
  lemma {:induction false} TotalOutputPerRow(a: MatrixArrays, rows: seq<int>, p: int)
    requires WellFormed(a)
    ensures TotalOutput(a, rows, p) == Sum(RowOutputs(a, rows, p))
  {
    if |rows| > 0 {
      TotalOutputPerRow(a, rows[1..], p);
      assert RowOutputs(a, rows, p) == [RowOutput(a, rows[0], p)] + RowOutputs(a, rows[1..], p);
      SumAppend([RowOutput(a, rows[0], p)], RowOutputs(a, rows[1..], p));
      TotalOutputCons(a, rows, p);
    }
  }

  /** The first tech row's part of the total output. */
  lemma {:induction false} TotalOutputCons(a: MatrixArrays, rows: seq<int>, p: int)
    requires WellFormed(a) && |rows| > 0
    ensures TotalOutput(a, rows, p) == RowOutput(a, rows[0], p) + TotalOutput(a, rows[1..], p)
  {
    var head := Found(a.indices, rows[0], p);
    var rest := RelevantIndices(a.indices, rows[1..], p);
    assert DataAt(a, head + rest) == DataAt(a, head) + DataAt(a, rest);
    SumAppend(DataAt(a, head), DataAt(a, rest));
    FoundOutput(a, rows[0], p);
  }

  /** A tech row's found exchange holds what it puts out of the product. */
  lemma {:induction false} FoundOutput(a: MatrixArrays, row: int, p: int)
    requires WellFormed(a)
    ensures Sum(DataAt(a, Found(a.indices, row, p))) == RowOutput(a, row, p)
  {
    match Find(a.indices, row, p)
    case Some(k) =>
      assert DataAt(a, [k]) == [a.data[k]];
      assert [a.data[k]][..0] == [];
    case None =>
  }

  /** Line 296-311: the sign of the existing (row, col) exchange, or true. */
  function SignAt(a: MatrixArrays, row: int, col: int): (b: bool)
    requires WellFormed(a)
    ensures (forall k :: 0 <= k < |a.indices| ==> a.indices[k] != Coord(row, col)) ==> b
    ensures forall k :: 0 <= k < |a.indices| && a.indices[k] == Coord(row, col)
                        && (forall k' :: k < k' < |a.indices| ==> a.indices[k'] != Coord(row, col))
                        ==> b == a.sign[k]
  {
    match Find(a.indices, row, col)
    case Some(k) => a.sign[k]
    case None => true
  }

  // ---------------------------------------------------------------------
  // The shares of one group (line 240-269)
  // ---------------------------------------------------------------------

  /** `details.get(year, {}).get("value", 0)`. */
  function ValueOr0(d: Details, year: int): real {
    if year in d.years && d.years[year].value.Some? then d.years[year].value.value else 0.0
  }

  /** A technology the sampler can take: a uniform 2050 entry with a "min",
      and a "max" for the requested year. */
  predicate UniformSpec(d: Details, year: int) {
    && TargetYear in d.years
    && d.years[TargetYear].distribution == Some("uniform")
    && d.years[TargetYear].min.Some?
    && year in d.years
    && d.years[year].max.Some?
  }

  /** The 2050 entry names a distribution other than "uniform". */
  predicate NonUniform(d: Details) {
    TargetYear in d.years && d.years[TargetYear].distribution.Some?
    && d.years[TargetYear].distribution.value != "uniform"
  }

  /** `(details[2050]["min"], details[year]["max"])`. */
  function TechBounds(d: Details, year: int): Bounds
    requires UniformSpec(d, year)
  {
    Bounds(d.years[TargetYear].min.value, d.years[year].max.value)
  }

  /** Line 245-257 for one technology: its bounds and its default share, with
      the lookups in the order Python makes them. */
  function TechRange(d: Details, year: int): (r: Result<(Bounds, real), AdjustError>)
    ensures r.Success? <==> UniformSpec(d, year)
    ensures r.Success? ==> r.value == (TechBounds(d, year), ValueOr0(d, BaseYear))
    ensures r.Failure? && r.error == UnsupportedDistribution <==> NonUniform(d)
    ensures r.Failure? ==> r.error in {MissingKey, UnsupportedDistribution}
  {
    if TargetYear !in d.years then Failure(MissingKey)
    else
      var target := d.years[TargetYear];
      if target.distribution.None? then Failure(MissingKey)
      else if target.distribution.value != "uniform" then Failure(UnsupportedDistribution)
      else if target.min.None? then Failure(MissingKey)
      else if year !in d.years || d.years[year].max.None? then Failure(MissingKey)
      else Success((Bounds(target.min.value, d.years[year].max.value), ValueOr0(d, BaseYear)))
  }

  /** Line 243-257: the ranges and defaults of a group, technology by
      technology; the first technology that fails stops the run. */
  function UniformRanges(g: Techs, year: int): (r: Result<(Dict<string, Bounds>, Dict<string, real>), AdjustError>)
    ensures r.Success? <==> forall j :: 0 <= j < |g| ==> UniformSpec(g[j].1, year)
    ensures r.Success? ==> |r.value.0| == |r.value.1| == |g|
    ensures r.Success? ==> forall j :: 0 <= j < |g| ==>
      r.value.0[j] == (g[j].0, TechBounds(g[j].1, year)) && r.value.1[j] == (g[j].0, ValueOr0(g[j].1, BaseYear))
    ensures r.Failure? && r.error == UnsupportedDistribution ==> exists j :: 0 <= j < |g| && NonUniform(g[j].1)
    ensures r.Failure? ==> r.error in {MissingKey, UnsupportedDistribution}
  {
    if |g| == 0 then Success(([], []))
    else
      var head :- TechRange(g[0].1, year);
      var rest :- UniformRanges(g[1..], year);
      assert forall j :: 1 <= j < |g| ==> g[j] == g[1..][j - 1];
      Success(([(g[0].0, head.0)] + rest.0, [(g[0].0, head.1)] + rest.1))
  }

  /** Line 265-268: each technology's own value for `year`. */
  function OwnValues(g: Techs, year: int): (shares: Dict<string, real>)
    ensures Keys(shares) == Keys(g)
    ensures forall j :: 0 <= j < |g| ==> shares[j].1 == ValueOr0(g[j].1, year)
  {
    var shares := seq(|g|, j requires 0 <= j < |g| => (g[j].0, ValueOr0(g[j].1, year)));
    assert forall j :: 0 <= j < |g| ==> Keys(shares)[j] == Keys(g)[j];
    shares
  }

  /** What the shares of a group can be: one per technology, in order; in the
      base year each technology's own value; in any other year either every
      technology's base-year value (the fallback) or values within the
      technologies' bounds that sum to one. */
  predicate SharesFor(g: Techs, shares: Dict<string, real>, year: int) {
    && Keys(shares) == Keys(g)
    && (year == BaseYear ==> forall j :: 0 <= j < |g| ==> shares[j].1 == ValueOr0(g[j].1, year))
    && (year != BaseYear ==>
          && (forall j :: 0 <= j < |g| ==> UniformSpec(g[j].1, year))
          && (|| (forall j :: 0 <= j < |g| ==> shares[j].1 == ValueOr0(g[j].1, BaseYear))
              || (&& (forall j :: 0 <= j < |g| ==>
                        TechBounds(g[j].1, year).low <= shares[j].1 <= TechBounds(g[j].1, year).high)
                  && (|g| > 0 ==> Sum(Values(shares)) == 1.0))))
  }

  /** Line 240-269: the shares of a group and the new stream cursor. */
  function GroupShares(g: Techs, year: int, u: nat -> real, pos: nat)
    : (r: Result<(Dict<string, real>, nat), AdjustError>)
    ensures r.Success? ==> SharesFor(g, r.value.0, year)
    ensures year == BaseYear ==> r.Success? && r.value.1 == pos
    ensures r.Failure? && r.error == UnsupportedDistribution ==>
      year != BaseYear && exists j :: 0 <= j < |g| && NonUniform(g[j].1)
    ensures r.Failure? && r.error == ZeroTotalShares ==> year != BaseYear && |g| > 0
    ensures r.Failure? && r.error == MissingKey ==> year != BaseYear && exists j :: 0 <= j < |g| && !UniformSpec(g[j].1, year)
    ensures r.Failure? ==> r.error != EmptyOverlay
    ensures year != BaseYear && UniformRanges(g, year).Failure? ==> r == Failure(UniformRanges(g, year).error)
    ensures year != BaseYear && |g| == 0 ==> r == Success(([], pos))
    ensures year != BaseYear && |g| > 0 && UniformRanges(g, year).Success? ==>
      var sampled := CorrelatedUniformSamples(
        UniformRanges(g, year).value.0, UniformRanges(g, year).value.1, DefaultIterations, u, pos);
      && (r.Success? <==> sampled.Success?)
      && (r.Success? ==> r.value == sampled.value)
  {
    if year != BaseYear then
      var spec :- UniformRanges(g, year);
      var (ranges, defaults) := spec;
      assert Keys(ranges) == Keys(g) by {
        assert forall j :: 0 <= j < |g| ==> Keys(ranges)[j] == Keys(g)[j];
      }
      assert Keys(defaults) == Keys(g) by {
        assert forall j :: 0 <= j < |g| ==> Keys(defaults)[j] == Keys(g)[j];
      }
      if |ranges| > 0 then
        match CorrelatedUniformSamples(ranges, defaults, DefaultIterations, u, pos)
        case Success(drawn) => Success(drawn)
        case Failure(_) => Failure(ZeroTotalShares)
      else Success(([], pos))
    else Success((OwnValues(g, year), pos))
  }

  // ---------------------------------------------------------------------
  // Emission (line 271-311)
  // ---------------------------------------------------------------------

  /** The number of amounts in an emitted row: one in the base year,
      `use_distributions` copies otherwise (none when that is not positive). */
  function Width(s: Setting): nat {
    if s.year == BaseYear then 1 else if s.useDistributions > 0 then s.useDistributions else 0
  }

  /** The base-year share line 288 multiplies by. */
  function BaseShare(g: Techs, share: real, rule: BaseYearRule): real {
    match rule
    case LastTechValue => if |g| > 0 then ValueOr0(g[|g| - 1].1, BaseYear) else 0.0
    case OwnValue => share
  }

  /** Line 289 and 293: `total_output * share`, a technology's part of the
      group's total output. Kept as a named function so that the product is
      one term wherever amounts are compared. */
  function ShareOfTotal(total: real, share: real): real {
    total * share
  }

  /** Line 287-295: the row of amounts for one technology. */
  function Amounts(g: Techs, share: real, total: real, s: Setting): (xs: seq<real>)
    ensures |xs| == Width(s)
  {
    if s.year == BaseYear then [ShareOfTotal(total, BaseShare(g, share, s.rule))]
    else seq(Width(s), _ => ShareOfTotal(total, share))
  }

  /** A base-year row of `Amounts` is the one amount `total * f`, where `f`
      is the share the rule picks. */
  lemma {:induction false} BaseYearRow(xs: seq<real>, g: Techs, share: real, total: real, s: Setting, f: real)
    requires xs == Amounts(g, share, total, s)
    requires s.year == BaseYear && f == BaseShare(g, share, s.rule)
    ensures |xs| == 1 && xs[0] == ShareOfTotal(total, f)
  {
  }

  /** Any other year's row of `Amounts` is `Width` copies of `total * share`. */
  lemma {:induction false} SampledRow(xs: seq<real>, g: Techs, share: real, total: real, s: Setting)
    requires xs == Amounts(g, share, total, s)
    requires s.year != BaseYear
    ensures |xs| == Width(s) && forall c :: 0 <= c < |xs| ==> xs[c] == ShareOfTotal(total, share)
  {
  }

  /** Line 279-311 for one (tech, share) entry and product `p`: the exchange it
      emits, if its technology has a row and `p` is not skipped. */
  function EmissionFor(a: MatrixArrays, g: Techs, entry: (string, real), p: int, total: real, s: Setting)
    : (r: Option<Emission>)
    requires WellFormed(a)
    ensures r.Some? <==> p !in s.skip && Get(g, entry.0).Some? && Get(g, entry.0).value.idx.Idx?
    ensures r.Some? ==> r.value.coord.col == p && r.value.coord.col !in s.skip
    ensures r.Some? ==> r.value.sign == SignAt(a, r.value.coord.row, p)
    ensures r.Some? ==> r.value.amounts == Amounts(g, entry.1, total, s)
  {
    match Get(g, entry.0)
    case Some(d) =>
      if d.idx.Idx? && p !in s.skip
      then Some(Emission(Coord(d.idx.i, p), Amounts(g, entry.1, total, s), SignAt(a, d.idx.i, p)))
      else None
    case None => None
  }

  /** Line 279-311: the inner loop over the group's shares for product `p`. */
  function ShareEmissions(a: MatrixArrays, g: Techs, shares: Dict<string, real>, p: int, total: real, s: Setting)
    : (es: seq<Emission>)
    requires WellFormed(a)
    ensures forall e :: e in es <==> exists j :: 0 <= j < |shares| && EmissionFor(a, g, shares[j], p, total, s) == Some(e)
  {
    if |shares| == 0 then []
    else
      var rest := ShareEmissions(a, g, shares[1..], p, total, s);
      assert forall j :: 1 <= j < |shares| ==> shares[j] == shares[1..][j - 1];
      match EmissionFor(a, g, shares[0], p, total, s)
      case Some(e) => [e] + rest
      case None => rest
  }

  /** Line 271-311: the loop over the group's products. */
  function ProductEmissions(a: MatrixArrays, g: Techs, shares: Dict<string, real>, products: seq<int>, s: Setting)
    : (es: seq<Emission>)
    requires WellFormed(a)
    ensures forall e :: e in es <==>
      exists k, j :: 0 <= k < |products| && 0 <= j < |shares|
                     && EmissionFor(a, g, shares[j], products[k], TotalOutput(a, TechRows(g), products[k]), s) == Some(e)
  {
    if |products| == 0 then []
    else
      var here := ShareEmissions(a, g, shares, products[0], TotalOutput(a, TechRows(g), products[0]), s);
      var rest := ProductEmissions(a, g, shares, products[1..], s);
      assert forall k :: 1 <= k < |products| ==> products[k] == products[1..][k - 1];
      here + rest
  }

  /** The exchanges the groups emit, group after group, given their shares. */
  function Emitted(a: MatrixArrays, groups: seq<Techs>, shares: seq<Dict<string, real>>, s: Setting): seq<Emission>
    requires WellFormed(a) && |shares| == |groups|
  {
    if |groups| == 0 then []
    else ProductEmissions(a, groups[0], shares[0], Products(a, groups[0]), s) + Emitted(a, groups[1..], shares[1..], s)
  }

  /** The shares of the groups, group after group, each drawn by
      `GroupShares` from the stream cursor the previous group left; the first
      group that fails stops the run. The result carries the final cursor. */
  function DrawShares(groups: seq<Techs>, year: int, u: nat -> real, pos: nat)
    : (r: Result<(seq<Dict<string, real>>, nat), AdjustError>)
    ensures r.Success? ==> Admissible(groups, r.value.0, year)
    ensures r.Failure? ==> r.error != EmptyOverlay
    ensures year == BaseYear ==> r.Success? && r.value.1 == pos
    decreases |groups|
  {
    if |groups| == 0 then Success(([], pos))
    else
      var first :- GroupShares(groups[0], year, u, pos);
      var rest :- DrawShares(groups[1..], year, u, first.1);
      SharesForCons(groups, first.0, rest.0, year);
      Success(([first.0] + rest.0, rest.1))
  }

  /** One step of `DrawShares`: the first group's draw, then the rest from
      the cursor it leaves. */
  lemma {:induction false} DrawSharesCons(groups: seq<Techs>, year: int, u: nat -> real, pos: nat)
    requires |groups| > 0 && GroupShares(groups[0], year, u, pos).Success?
    ensures var rest := DrawShares(groups[1..], year, u, GroupShares(groups[0], year, u, pos).value.1);
      && (DrawShares(groups, year, u, pos).Success? <==> rest.Success?)
      && (rest.Success? ==>
            DrawShares(groups, year, u, pos).value == ([GroupShares(groups[0], year, u, pos).value.0] + rest.value.0, rest.value.1))
  {
  }

  /** The shares of group `k` are those `GroupShares` draws for it from the
      cursor the groups before it leave, so the sampler's properties hold of
      each group's shares. */
  lemma {:induction false} DrawSharesAt(groups: seq<Techs>, year: int, u: nat -> real, pos: nat, k: nat)
    requires DrawShares(groups, year, u, pos).Success? && k < |groups|
    ensures DrawShares(groups[..k], year, u, pos).Success?
    ensures GroupShares(groups[k], year, u, DrawShares(groups[..k], year, u, pos).value.1).Success?
    ensures DrawShares(groups, year, u, pos).value.0[k]
            == GroupShares(groups[k], year, u, DrawShares(groups[..k], year, u, pos).value.1).value.0
    decreases k
  {
    assert GroupShares(groups[0], year, u, pos).Success?;
    DrawSharesCons(groups, year, u, pos);
    if k == 0 {
      assert groups[..0] == [];
    } else {
      var next := GroupShares(groups[0], year, u, pos).value.1;
      DrawSharesAt(groups[1..], year, u, next, k - 1);
      var before := groups[..k];
      assert before[1..] == groups[1..][..k - 1] by {
        assert forall i :: 0 <= i < k - 1 ==> before[1..][i] == groups[i + 1] == groups[1..][..k - 1][i];
      }
      assert before[0] == groups[0];
      DrawSharesCons(before, year, u, pos);
      assert groups[1..][k - 1] == groups[k];
    }
  }

  /** Line 231-311: every group in turn, threading the random stream. Besides
      the emitted exchanges, the result lists the shares of each group (the
      values lines 263 and 269 print). */
  function AdjustGroups(a: MatrixArrays, groups: seq<Techs>, s: Setting, u: nat -> real, pos: nat)
    : (r: Result<(seq<Emission>, seq<Dict<string, real>>), AdjustError>)
    requires WellFormed(a)
    ensures r.Success? ==> |r.value.1| == |groups|
    ensures r.Success? ==> forall gi :: 0 <= gi < |groups| ==> SharesFor(groups[gi], r.value.1[gi], s.year)
    ensures r.Success? ==> r.value.0 == Emitted(a, groups, r.value.1, s)
    ensures s.year == BaseYear ==> r.Success?
    ensures r.Failure? && r.error == UnsupportedDistribution ==>
      s.year != BaseYear && exists gi, j :: 0 <= gi < |groups| && 0 <= j < |groups[gi]| && NonUniform(groups[gi][j].1)
    ensures r.Success? <==> DrawShares(groups, s.year, u, pos).Success?
    ensures r.Success? ==> r.value.1 == DrawShares(groups, s.year, u, pos).value.0
    ensures r.Failure? ==> r.error == DrawShares(groups, s.year, u, pos).error
    decreases |groups|
  {
    if |groups| == 0 then Success(([], []))
    else
      var drawn :- GroupShares(groups[0], s.year, u, pos);
      var here := ProductEmissions(a, groups[0], drawn.0, Products(a, groups[0]), s);
      match AdjustGroups(a, groups[1..], s, u, drawn.1)
      case Failure(e) =>
        if e == UnsupportedDistribution then NonUniformInTail(groups); Failure(e) else Failure(e)
      case Success(rest) =>
        var shares := [drawn.0] + rest.1;
        SharesForCons(groups, drawn.0, rest.1, s.year);
        assert shares[1..] == rest.1;
        Success((here + rest.0, shares))
  }

  /** A non-uniform technology in the later groups is one in all groups. */
  lemma {:induction false} NonUniformInTail(groups: seq<Techs>)
    requires |groups| > 0
    requires exists gi, j :: 0 <= gi < |groups[1..]| && 0 <= j < |groups[1..][gi]| && NonUniform(groups[1..][gi][j].1)
    ensures exists gi, j :: 0 <= gi < |groups| && 0 <= j < |groups[gi]| && NonUniform(groups[gi][j].1)
  {
    var gi, j :| 0 <= gi < |groups[1..]| && 0 <= j < |groups[1..][gi]| && NonUniform(groups[1..][gi][j].1);
    assert groups[1..][gi] == groups[gi + 1];
  }

  /** Shares fitting the first group and shares fitting the rest, together. */
  lemma {:induction false} SharesForCons(groups: seq<Techs>, first: Dict<string, real>, rest: seq<Dict<string, real>>, year: int)
    requires |groups| > 0 && |rest| == |groups| - 1
    requires SharesFor(groups[0], first, year)
    requires forall gi :: 0 <= gi < |groups[1..]| ==> SharesFor(groups[1..][gi], rest[gi], year)
    ensures forall gi :: 0 <= gi < |groups| ==> SharesFor(groups[gi], ([first] + rest)[gi], year)
  {
    forall gi | 0 < gi < |groups|
      ensures SharesFor(groups[gi], ([first] + rest)[gi], year)
    {
      assert groups[gi] == groups[1..][gi - 1];
      assert ([first] + rest)[gi] == rest[gi - 1];
    }
  }

  /** The result the adjustment must give: the error of the first group whose
      shares cannot be drawn; otherwise `EmptyOverlay` when the groups emit
      nothing (`np.concatenate` of no arrays); otherwise the overlay of the
      emitted exchanges under the drawn shares. */
  predicate Outcome(
    a: MatrixArrays, tree: ShareTree, useDistributions: int, year: int,
    u: nat -> real, pos: nat, rule: BaseYearRule, r: Result<Overlay, AdjustError>)
    requires WellFormed(a)
  {
    var d := DrawShares(Groups(tree), year, u, pos);
    var s := Setting(year, useDistributions, SkipSet(tree), rule);
    && (d.Failure? ==> r == Failure(d.error))
    && (d.Success? ==>
          var es := Emitted(a, Groups(tree), d.value.0, s);
          r == if |es| == 0 then Failure(EmptyOverlay) else Success(ToOverlay(es)))
  }

  /** `adjust_matrix_based_on_shares`: the overlay of (tech, product)
      exchanges, or the error Python raises. `u` and `pos` are the random
      stream the sampler reads (see module Sampler). */
  function AdjustMatrixBasedOnShares(
    a: MatrixArrays, tree: ShareTree, useDistributions: int, year: int,
    u: nat -> real, pos: nat, rule: BaseYearRule): (r: Result<Overlay, AdjustError>)
    requires WellFormed(a)
    ensures r.Success? ==> |r.value.data| == |r.value.indices| == |r.value.signs| > 0
    ensures r.Success? ==> forall k :: 0 <= k < |r.value.indices| ==> r.value.indices[k].col !in SkipSet(tree)
    ensures r.Success? ==> forall k :: 0 <= k < |r.value.indices| ==>
      r.value.signs[k] == SignAt(a, r.value.indices[k].row, r.value.indices[k].col)
    ensures r.Success? ==> forall k :: 0 <= k < |r.value.data| ==>
      |r.value.data[k]| == if year == BaseYear then 1 else if useDistributions > 0 then useDistributions else 0
    ensures year == BaseYear && r.Failure? ==> r.error == EmptyOverlay
    ensures r.Success? && year != BaseYear ==> forall gi, j :: 0 <= gi < |Groups(tree)| && 0 <= j < |Groups(tree)[gi]| ==>
      UniformSpec(Groups(tree)[gi][j].1, year)
    ensures r.Failure? && r.error == UnsupportedDistribution ==>
      && year != BaseYear
      && exists gi, j :: 0 <= gi < |Groups(tree)| && 0 <= j < |Groups(tree)[gi]| && NonUniform(Groups(tree)[gi][j].1)
    ensures r.Success? ==>
      exists shares ::
        && Admissible(Groups(tree), shares, year)
        && r.value == ToOverlay(Emitted(a, Groups(tree), shares, Setting(year, useDistributions, SkipSet(tree), rule)))
    ensures r.Failure? && r.error == EmptyOverlay ==>
      exists shares ::
        && Admissible(Groups(tree), shares, year)
        && |Emitted(a, Groups(tree), shares, Setting(year, useDistributions, SkipSet(tree), rule))| == 0
    ensures Outcome(a, tree, useDistributions, year, u, pos, rule, r)
  {
    var s := Setting(year, useDistributions, SkipSet(tree), rule);
    match AdjustGroups(a, Groups(tree), s, u, pos)
    case Failure(e) => Failure(e)
    case Success(adjusted) =>
      var es := adjusted.0;
      assert adjusted.1 == DrawShares(Groups(tree), year, u, pos).value.0;
      assert Admissible(Groups(tree), adjusted.1, year);
      if |es| == 0 then Failure(EmptyOverlay)
      else
        EmittedFacts(a, Groups(tree), adjusted.1, s);
        Success(ToOverlay(es))
  }

  /** Line 313-316: the three arrays of a list of exchanges, position by position. */
  function ToOverlay(es: seq<Emission>): (o: Overlay)
    ensures |o.data| == |o.indices| == |o.signs| == |es|
    ensures forall k :: 0 <= k < |es| ==>
      o.data[k] == es[k].amounts && o.indices[k] == es[k].coord && o.signs[k] == es[k].sign
  {
    Overlay(
      seq(|es|, k requires 0 <= k < |es| => es[k].amounts),
      seq(|es|, k requires 0 <= k < |es| => es[k].coord),
      seq(|es|, k requires 0 <= k < |es| => es[k].sign))
  }

  /** Every emitted exchange avoids the skipped columns, carries the sign of
      the exchange it replaces (or true), and has a row of `Width` amounts. */
  lemma {:induction false} EmittedFacts(a: MatrixArrays, groups: seq<Techs>, shares: seq<Dict<string, real>>, s: Setting)
    requires WellFormed(a) && |shares| == |groups|
    ensures forall e :: e in Emitted(a, groups, shares, s) ==>
      && e.coord.col !in s.skip
      && e.sign == SignAt(a, e.coord.row, e.coord.col)
      && |e.amounts| == Width(s)
    decreases |groups|
  {
    if |groups| > 0 {
      EmittedFacts(a, groups[1..], shares[1..], s);
    }
  }

  /** An exchange a group emits comes from one of its technologies with a
      row, for one of its product columns, with the amounts of that
      technology's share. */
  lemma {:induction false} GroupEmissionOrigin(a: MatrixArrays, g: Techs, shares: Dict<string, real>, s: Setting, e: Emission)
    returns (j: nat)
    requires WellFormed(a) && DistinctKeys(g) && Keys(shares) == Keys(g)
    requires e in ProductEmissions(a, g, shares, Products(a, g), s)
    ensures j < |g| && g[j].1.idx == Idx(e.coord.row)
    ensures e.coord.col in Products(a, g)
    ensures e.amounts == Amounts(g, shares[j].1, TotalOutput(a, TechRows(g), e.coord.col), s)
  {
    var products := Products(a, g);
    var k, jj :| 0 <= k < |products| && 0 <= jj < |shares|
      && EmissionFor(a, g, shares[jj], products[k], TotalOutput(a, TechRows(g), products[k]), s) == Some(e);
    var entry, total := shares[jj], TotalOutput(a, TechRows(g), products[k]);
    assert |Keys(shares)| == |Keys(g)|;
    assert jj < |g| && entry.0 == g[jj].0 by {
      assert Keys(shares)[jj] == Keys(g)[jj];
    }
    GetAt(g, jj);
    assert e == Emission(Coord(g[jj].1.idx.i, products[k]), Amounts(g, entry.1, total, s), SignAt(a, g[jj].1.idx.i, products[k]));
    j := jj;
  }

  /** Conversely, every technology with a row emits one exchange for every
      product column of its group that is not skipped. */
  lemma {:induction false} GroupEmissionCover(a: MatrixArrays, g: Techs, shares: Dict<string, real>, s: Setting, j: nat, p: int)
    requires WellFormed(a) && DistinctKeys(g) && Keys(shares) == Keys(g)
    requires j < |g| && g[j].1.idx.Idx?
    requires p in Products(a, g) && p !in s.skip
    ensures Emission(Coord(g[j].1.idx.i, p), Amounts(g, shares[j].1, TotalOutput(a, TechRows(g), p), s),
                     SignAt(a, g[j].1.idx.i, p))
            in ProductEmissions(a, g, shares, Products(a, g), s)
  {
    var products := Products(a, g);
    var k :| 0 <= k < |products| && products[k] == p;
    assert Keys(shares)[j] == Keys(g)[j];
    GetAt(g, j);
    assert EmissionFor(a, g, shares[j], products[k], TotalOutput(a, TechRows(g), products[k]), s).Some?;
  }

  /** Without assuming the shares name the technologies: an exchange a group
      emits comes from a share entry `i` and the technology `j` that entry
      names, which has a row, for one of the group's product columns, with
      the amounts of that entry's share. */
  lemma {:induction false} GroupRowOrigin(a: MatrixArrays, g: Techs, shares: Dict<string, real>, s: Setting, e: Emission)
    returns (j: nat, i: nat)
    requires WellFormed(a)
    requires e in ProductEmissions(a, g, shares, Products(a, g), s)
    ensures j < |g| && i < |shares| && g[j].0 == shares[i].0 && g[j].1.idx == Idx(e.coord.row)
    ensures e.coord.col in Products(a, g)
    ensures e.amounts == Amounts(g, shares[i].1, TotalOutput(a, TechRows(g), e.coord.col), s)
  {
    var products := Products(a, g);
    var k, jj :| 0 <= k < |products| && 0 <= jj < |shares|
      && EmissionFor(a, g, shares[jj], products[k], TotalOutput(a, TechRows(g), products[k]), s) == Some(e);
    j := GetFound(g, shares[jj].0);
    i := jj;
  }

  /** `GroupRowOrigin` over all groups. */
  lemma {:induction false} EmittedRowOrigin(
    a: MatrixArrays, groups: seq<Techs>, shares: seq<Dict<string, real>>, s: Setting, e: Emission)
    returns (gi: nat, j: nat, share: real)
    requires WellFormed(a) && |shares| == |groups|
    requires e in Emitted(a, groups, shares, s)
    ensures gi < |groups| && j < |groups[gi]| && groups[gi][j].1.idx == Idx(e.coord.row)
    ensures e.coord.col in Products(a, groups[gi])
    ensures e.amounts == Amounts(groups[gi], share, TotalOutput(a, TechRows(groups[gi]), e.coord.col), s)
    decreases |groups|
  {
    if e in ProductEmissions(a, groups[0], shares[0], Products(a, groups[0]), s) {
      gi := 0;
      var i;
      j, i := GroupRowOrigin(a, groups[0], shares[0], s, e);
      share := shares[0][i].1;
    } else {
      assert e in Emitted(a, groups[1..], shares[1..], s);
      var gi', j', share' := EmittedRowOrigin(a, groups[1..], shares[1..], s, e);
      assert groups[1..][gi'] == groups[gi' + 1];
      gi, j, share := gi' + 1, j', share';
    }
  }

  /** Every technology dict of the tree has distinct names, as a Python dict does. */
  predicate DistinctTechs(groups: seq<Techs>) {
    forall gi :: 0 <= gi < |groups| ==> DistinctKeys(groups[gi])
  }

  /** Each group's shares name the group's technologies, in order. */
  predicate SharesMatch(groups: seq<Techs>, shares: seq<Dict<string, real>>) {
    && |shares| == |groups|
    && forall gi :: 0 <= gi < |groups| ==> |shares[gi]| == |groups[gi]| && Keys(shares[gi]) == Keys(groups[gi])
  }

  /** Dropping the first group keeps both conditions. */
  lemma {:induction false} DistinctMatchTail(groups: seq<Techs>, shares: seq<Dict<string, real>>)
    requires |groups| > 0 && DistinctTechs(groups) && SharesMatch(groups, shares)
    ensures DistinctTechs(groups[1..]) && SharesMatch(groups[1..], shares[1..])
  {
    assert forall gi :: 0 <= gi < |groups| - 1 ==> groups[1..][gi] == groups[gi + 1] && shares[1..][gi] == shares[gi + 1];
  }

  /** An origin found among the groups after the first is an origin among
      all the groups, one position further on. */
  lemma {:induction false} OriginShift(
    a: MatrixArrays, groups: seq<Techs>, shares: seq<Dict<string, real>>, s: Setting, e: Emission, gi: nat, j: nat)
    requires WellFormed(a) && 0 < |groups| == |shares|
    requires gi < |groups[1..]| && j < |groups[1..][gi]| && j < |shares[1..][gi]|
      && groups[1..][gi][j].1.idx == Idx(e.coord.row)
    requires e.coord.col in Products(a, groups[1..][gi])
    requires e.amounts == Amounts(groups[1..][gi], shares[1..][gi][j].1, TotalOutput(a, TechRows(groups[1..][gi]), e.coord.col), s)
    ensures gi + 1 < |groups| && j < |groups[gi + 1]| && groups[gi + 1][j].1.idx == Idx(e.coord.row)
    ensures e.coord.col in Products(a, groups[gi + 1])
    ensures e.amounts == Amounts(groups[gi + 1], shares[gi + 1][j].1, TotalOutput(a, TechRows(groups[gi + 1]), e.coord.col), s)
  {
    assert groups[1..][gi] == groups[gi + 1] && shares[1..][gi] == shares[gi + 1];
  }

  /** `GroupEmissionOrigin`, over all groups. */
  lemma {:induction false} EmittedOrigin(
    a: MatrixArrays, groups: seq<Techs>, shares: seq<Dict<string, real>>, s: Setting, e: Emission)
    returns (gi: nat, j: nat)
    requires WellFormed(a) && DistinctTechs(groups) && SharesMatch(groups, shares)
    requires e in Emitted(a, groups, shares, s)
    ensures gi < |groups| && j < |groups[gi]| && groups[gi][j].1.idx == Idx(e.coord.row)
    ensures e.coord.col in Products(a, groups[gi])
    ensures e.amounts == Amounts(groups[gi], shares[gi][j].1, TotalOutput(a, TechRows(groups[gi]), e.coord.col), s)
    decreases |groups|
  {
    if e in ProductEmissions(a, groups[0], shares[0], Products(a, groups[0]), s) {
      gi := 0;
      j := GroupEmissionOrigin(a, groups[0], shares[0], s, e);
      assert groups[gi] == groups[0] && shares[gi] == shares[0];
    } else {
      assert e in Emitted(a, groups[1..], shares[1..], s);
      DistinctMatchTail(groups, shares);
      var gi', j' := EmittedOrigin(a, groups[1..], shares[1..], s, e);
      OriginShift(a, groups, shares, s, e, gi', j');
      gi, j := gi' + 1, j';
    }
  }

  /** `GroupEmissionCover`, over all groups. */
  lemma {:induction false} EmittedCover(
    a: MatrixArrays, groups: seq<Techs>, shares: seq<Dict<string, real>>, s: Setting, gi: nat, j: nat, p: int)
    requires WellFormed(a) && DistinctTechs(groups) && SharesMatch(groups, shares)
    requires gi < |groups| && j < |groups[gi]| && groups[gi][j].1.idx.Idx?
    requires p in Products(a, groups[gi]) && p !in s.skip
    ensures Emission(Coord(groups[gi][j].1.idx.i, p),
                     Amounts(groups[gi], shares[gi][j].1, TotalOutput(a, TechRows(groups[gi]), p), s),
                     SignAt(a, groups[gi][j].1.idx.i, p))
            in Emitted(a, groups, shares, s)
    decreases gi
  {
    if gi == 0 {
      GroupEmissionCover(a, groups[0], shares[0], s, j, p);
    } else {
      DistinctMatchTail(groups, shares);
      assert groups[1..][gi - 1] == groups[gi] && shares[1..][gi - 1] == shares[gi];
      EmittedCover(a, groups[1..], shares[1..], s, gi - 1, j, p);
    }
  }

  /** Shares that fit their groups name the groups' technologies in order. */
  lemma {:induction false} SharesForMatch(groups: seq<Techs>, shares: seq<Dict<string, real>>, year: int)
    requires |shares| == |groups|
    requires forall gi :: 0 <= gi < |groups| ==> SharesFor(groups[gi], shares[gi], year)
    ensures SharesMatch(groups, shares)
  {
    forall gi | 0 <= gi < |groups|
      ensures |shares[gi]| == |groups[gi]|
    {
      assert |Keys(shares[gi])| == |Keys(groups[gi])|;
    }
  }

  /** Shares that fit every group, one set per group, as line 240-269 produces them. */
  predicate Admissible(groups: seq<Techs>, shares: seq<Dict<string, real>>, year: int) {
    |shares| == |groups| && forall gi :: 0 <= gi < |groups| ==> SharesFor(groups[gi], shares[gi], year)
  }

  /** What `SharesFor` says of the share of technology `j`. */
  lemma {:induction false} ShareOf(g: Techs, shares: Dict<string, real>, year: int, j: nat)
    requires SharesFor(g, shares, year) && j < |g|
    ensures j < |shares| && shares[j].0 == g[j].0
    ensures year == BaseYear ==> shares[j].1 == ValueOr0(g[j].1, BaseYear)
    ensures year != BaseYear ==>
      && UniformSpec(g[j].1, year)
      && (|| shares[j].1 == ValueOr0(g[j].1, BaseYear)
          || TechBounds(g[j].1, year).low <= shares[j].1 <= TechBounds(g[j].1, year).high)
  {
    assert Keys(shares)[j] == Keys(g)[j];
  }

  /** Technology `j` of group `gi` could have emitted `e`: its "idx" is the
      row of `e`, the column of `e` is one of the group's product columns, and
      the amounts of `e` are `Amounts` of the group's total output of that
      column and the technology's share: total output times that share in any
      other year, and in the base year times the share the rule picks, which
      under the code as written is the group's last technology's value. */
  predicate EmittedBy(
    a: MatrixArrays, groups: seq<Techs>, shares: seq<Dict<string, real>>, s: Setting, e: Emission, gi: int, j: int)
    requires WellFormed(a) && |shares| == |groups|
  {
    && 0 <= gi < |groups| && 0 <= j < |groups[gi]| && j < |shares[gi]|
    && groups[gi][j].1.idx == Idx(e.coord.row)
    && e.coord.col in Products(a, groups[gi])
    && e.amounts == Amounts(groups[gi], shares[gi][j].1, TotalOutput(a, TechRows(groups[gi]), e.coord.col), s)
  }

  /** A share fits its technology: in the base year it is the technology's
      base-year value; in any other year the technology is uniform and the
      share is its base-year value (the sampler's fallback) or lies within its
      bounds. */
  predicate ShareFits(d: Details, share: real, year: int) {
    && (year == BaseYear ==> share == ValueOr0(d, BaseYear))
    && (year != BaseYear ==>
          && UniformSpec(d, year)
          && (share == ValueOr0(d, BaseYear) || TechBounds(d, year).low <= share <= TechBounds(d, year).high))
  }

  /** The exchange-by-exchange origin used by the lemmas below. */
  lemma {:induction false} OriginOf(
    a: MatrixArrays, groups: seq<Techs>, shares: seq<Dict<string, real>>, s: Setting, k: nat)
    returns (gi: nat, j: nat)
    requires WellFormed(a) && DistinctTechs(groups) && Admissible(groups, shares, s.year)
    requires k < |Emitted(a, groups, shares, s)|
    ensures EmittedBy(a, groups, shares, s, Emitted(a, groups, shares, s)[k], gi, j)
    ensures ShareFits(groups[gi][j].1, shares[gi][j].1, s.year)
  {
    var es := Emitted(a, groups, shares, s);
    SharesForMatch(groups, shares, s.year);
    assert es[k] in es;
    gi, j := EmittedOrigin(a, groups, shares, s, es[k]);
    ShareOf(groups[gi], shares[gi], s.year, j);
  }

  /** The share of technology `j` of group `gi` fits that technology. */
  predicate FitsAt(groups: seq<Techs>, shares: seq<Dict<string, real>>, year: int, gi: int, j: int) {
    && 0 <= gi < |groups| && 0 <= j < |groups[gi]| && gi < |shares| && j < |shares[gi]|
    && ShareFits(groups[gi][j].1, shares[gi][j].1, year)
  }

  /** Each emitted exchange replaces the output of a product column of some
      technology of some group, at the group's total output times a share
      that fits the technology. */
  lemma {:induction false} EmissionOrigin(
    a: MatrixArrays, groups: seq<Techs>, shares: seq<Dict<string, real>>, s: Setting, k: nat)
    requires WellFormed(a) && DistinctTechs(groups) && Admissible(groups, shares, s.year)
    requires k < |Emitted(a, groups, shares, s)|
    ensures exists gi, j ::
      EmittedBy(a, groups, shares, s, Emitted(a, groups, shares, s)[k], gi, j) && FitsAt(groups, shares, s.year, gi, j)
  {
    var gi, j := OriginOf(a, groups, shares, s, k);
    assert FitsAt(groups, shares, s.year, gi, j);
  }

  /** A technology whose "idx" is `row` contributes `row` to its group's rows. */
  lemma {:induction false} TechRowOf(g: Techs, j: nat, row: int)
    requires j < |g| && g[j].1.idx == Idx(row)
    ensures row in TechRows(g)
  {
  }

  /** A base-year exchange of group `gi` under the rule as written: one amount,
      the group's total output of its column times the base-year value of the
      group's LAST technology. */
  predicate LastTechAmount(a: MatrixArrays, groups: seq<Techs>, e: Emission, gi: int)
    requires WellFormed(a)
  {
    && 0 <= gi < |groups| && |groups[gi]| > 0
    && e.coord.row in TechRows(groups[gi])
    && e.coord.col in Products(a, groups[gi])
    && |e.amounts| == 1
    && e.amounts[0] == ShareOfTotal(TotalOutput(a, TechRows(groups[gi]), e.coord.col), ValueOr0(groups[gi][|groups[gi]| - 1].1, BaseYear))
  }


  /** A base-year exchange of technology `j` of group `g` under the intended
      rule: one amount, the group's total output of its column times the
      technology's OWN base-year value. */
  predicate OwnShareAmount(a: MatrixArrays, g: Techs, e: Emission, j: int)
    requires WellFormed(a)
  {
    && 0 <= j < |g|
    && g[j].1.idx == Idx(e.coord.row)
    && e.coord.col in Products(a, g)
    && |e.amounts| == 1
    && e.amounts[0] == ShareOfTotal(TotalOutput(a, TechRows(g), e.coord.col), ValueOr0(g[j].1, BaseYear))
  }

  /** A sampled-year exchange of technology `j` of group `g`, through the
      share entry `i` that names it: `width` equal amounts, the group's total
      output of its column times that share. */
  predicate SampledAmount(a: MatrixArrays, g: Techs, shares: Dict<string, real>, width: nat, e: Emission, j: int, i: int)
    requires WellFormed(a)
  {
    && 0 <= j < |g| && 0 <= i < |shares| && shares[i].0 == g[j].0
    && g[j].1.idx == Idx(e.coord.row)
    && e.coord.col in Products(a, g)
    && |e.amounts| == width
    && (forall c :: 0 <= c < width ==> e.amounts[c] == ShareOfTotal(TotalOutput(a, TechRows(g), e.coord.col), shares[i].1))
  }

  /** A base-year row under the rule as written, from the facts of its origin. */
  lemma {:induction false} LastTechOf(a: MatrixArrays, groups: seq<Techs>, s: Setting, e: Emission, gi: nat, j: nat, share: real)
    requires WellFormed(a) && s.year == BaseYear && s.rule == LastTechValue
    requires gi < |groups| && j < |groups[gi]| && groups[gi][j].1.idx == Idx(e.coord.row)
    requires e.coord.col in Products(a, groups[gi])
    requires e.amounts == Amounts(groups[gi], share, TotalOutput(a, TechRows(groups[gi]), e.coord.col), s)
    ensures LastTechAmount(a, groups, e, gi)
  {
    var g := groups[gi];
    TechRowOf(g, j, e.coord.row);
    BaseYearRow(e.amounts, g, share, TotalOutput(a, TechRows(g), e.coord.col), s, ValueOr0(g[|g| - 1].1, BaseYear));
  }

  /** The base year as written (line 288): every exchange of a group gets the
      group's total output times the base-year value of the group's LAST
      technology, whichever technology it belongs to, whatever the shares. */
  lemma {:induction false} BaseYearUsesLastTechValue(
    a: MatrixArrays, groups: seq<Techs>, shares: seq<Dict<string, real>>, s: Setting, k: nat)
    requires s.year == BaseYear && s.rule == LastTechValue
    requires WellFormed(a) && |shares| == |groups|
    requires k < |Emitted(a, groups, shares, s)|
    ensures exists gi :: LastTechAmount(a, groups, Emitted(a, groups, shares, s)[k], gi)
  {
    var e := Emitted(a, groups, shares, s)[k];
    assert e in Emitted(a, groups, shares, s);
    var gi, j, share := EmittedRowOrigin(a, groups, shares, s, e);
    LastTechOf(a, groups, s, e, gi, j, share);
  }

  /** A base-year row under the intended rule, from the facts of its origin. */
  lemma {:induction false} OwnShareOf(a: MatrixArrays, g: Techs, s: Setting, e: Emission, j: nat, share: real)
    requires WellFormed(a) && s.year == BaseYear && s.rule == OwnValue
    requires j < |g| && g[j].1.idx == Idx(e.coord.row)
    requires e.coord.col in Products(a, g)
    requires share == ValueOr0(g[j].1, BaseYear)
    requires e.amounts == Amounts(g, share, TotalOutput(a, TechRows(g), e.coord.col), s)
    ensures OwnShareAmount(a, g, e, j)
  {
    BaseYearRow(e.amounts, g, share, TotalOutput(a, TechRows(g), e.coord.col), s, ValueOr0(g[j].1, BaseYear));
  }

  /** The base year with the evidently intended rule, for one group (line
      271-311) with its base-year shares (line 265-268): each technology's
      exchange gets the group's total output times its OWN base-year value. */
  lemma {:induction false} BaseYearUsesOwnShare(a: MatrixArrays, g: Techs, shares: Dict<string, real>, s: Setting, k: nat)
    requires s.year == BaseYear && s.rule == OwnValue
    requires WellFormed(a) && DistinctKeys(g) && shares == OwnValues(g, BaseYear)
    requires k < |ProductEmissions(a, g, shares, Products(a, g), s)|
    ensures exists j :: OwnShareAmount(a, g, ProductEmissions(a, g, shares, Products(a, g), s)[k], j)
  {
    var e := ProductEmissions(a, g, shares, Products(a, g), s)[k];
    assert e in ProductEmissions(a, g, shares, Products(a, g), s);
    var j := GroupEmissionOrigin(a, g, shares, s, e);
    OwnShareOf(a, g, s, e, j, shares[j].1);
  }

  /** Any other year, for one group: each exchange is `use_distributions`
      equal copies (none when it is not positive) of the group's total output
      times the share of the technology whose row it replaces. */
  lemma {:induction false} SampledAmounts(a: MatrixArrays, g: Techs, shares: Dict<string, real>, s: Setting, k: nat)
    requires s.year != BaseYear && WellFormed(a)
    requires k < |ProductEmissions(a, g, shares, Products(a, g), s)|
    ensures exists j, i :: SampledAmount(a, g, shares, Width(s), ProductEmissions(a, g, shares, Products(a, g), s)[k], j, i)
  {
    var e := ProductEmissions(a, g, shares, Products(a, g), s)[k];
    assert e in ProductEmissions(a, g, shares, Products(a, g), s);
    var j, i := GroupRowOrigin(a, g, shares, s, e);
    SampledRow(e.amounts, g, shares[i].1, TotalOutput(a, TechRows(g), e.coord.col), s);
    assert SampledAmount(a, g, shares, Width(s), e, j, i);
  }

  /** Exchange `k` of `es` replaces `(row, col)` and carries `sign`. */
  predicate EmitsAt(es: seq<Emission>, k: int, row: int, col: int, sign: bool) {
    0 <= k < |es| && es[k].coord == Coord(row, col) && es[k].sign == sign
  }

  /** Every technology with a row gets an exchange for every product column of
      its group that is not skipped, carrying the sign of the exchange it
      replaces (or true). */
  lemma {:induction false} EmissionCoversTechProducts(
    a: MatrixArrays, groups: seq<Techs>, shares: seq<Dict<string, real>>, s: Setting, gi: nat, j: nat, p: int)
    requires WellFormed(a) && DistinctTechs(groups) && Admissible(groups, shares, s.year)
    requires gi < |groups| && j < |groups[gi]| && groups[gi][j].1.idx.Idx?
    requires p in Products(a, groups[gi]) && p !in s.skip
    ensures exists k :: EmitsAt(Emitted(a, groups, shares, s), k, groups[gi][j].1.idx.i, p, SignAt(a, groups[gi][j].1.idx.i, p))
  {
    var es := Emitted(a, groups, shares, s);
    SharesForMatch(groups, shares, s.year);
    EmittedCover(a, groups, shares, s, gi, j, p);
    var e := Emission(Coord(groups[gi][j].1.idx.i, p),
                      Amounts(groups[gi], shares[gi][j].1, TotalOutput(a, TechRows(groups[gi]), p), s),
                      SignAt(a, groups[gi][j].1.idx.i, p));
    var k :| 0 <= k < |es| && es[k] == e;
    assert EmitsAt(es, k, groups[gi][j].1.idx.i, p, SignAt(a, groups[gi][j].1.idx.i, p));
  }
}
