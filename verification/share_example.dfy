/** A two-technology group that shows the base-year rule of line 288 at work. */
module ShareExample {
  import opened Wrappers
  import opened Dicts
  import opened Records
  import opened Sampler
  import opened ShareAdjustment

  /** Technology "A" has row 5 and base-year share 0.6; "B" has row 6 and 0.4. */
  function Group(): Techs {
    [ ("A", Details(map[BaseYear := YearShare(Some(0.6), None, None, None)], Idx(5))),
      ("B", Details(map[BaseYear := YearShare(Some(0.4), None, None, None)], Idx(6))) ]
  }

  function Tree(): ShareTree {
    [("Electricity", [("EU", Group())])]
  }

  /** Rows 5 and 6 produce 60 and 40 units of product column 10. */
  function Arrays(): MatrixArrays {
    TechnosphereArrays([60.0, 40.0], [Coord(5, 10), Coord(6, 10)], [true, true], [])
  }

  /** One group; both technologies name a row, so rows 5 and 6 are skipped as products. */
  lemma TreeFacts()
    ensures Groups(Tree()) == [Group()]
    ensures SkipSet(Tree()) == {5, 6}
  {
    assert Groups(Tree()) == [Group()];
    assert Groups(Tree())[0][0].1.idx == Idx(5) && Groups(Tree())[0][1].1.idx == Idx(6);
    forall x | x in SkipSet(Tree()) ensures x in {5, 6} {
      var gi, j :| 0 <= gi < |Groups(Tree())| && 0 <= j < |Groups(Tree())[gi]| && Groups(Tree())[gi][j].1.idx == Idx(x);
    }
  }

  /** Both exchanges of the technosphere belong to the group and produce column 10. */
  lemma ColumnFacts()
    ensures ProductCols(Arrays().indices, [5, 6]) == [10, 10]
  {
    var a := Arrays();
    assert a.indices[..1] == [Coord(5, 10)] && a.indices[..1][..0] == [];
    assert ProductCols(a.indices[..1], [5, 6]) == [10];
  }

  /** The group's rows and its single product column. */
  lemma ProductFacts()
    ensures TechRows(Group()) == [5, 6]
    ensures Products(Arrays(), Group()) == [10]
  {
    ColumnFacts();
    assert TechRows(Group()) == [5, 6];
    assert Dedup([10, 10][..1]) == [10];
  }

  /** The group produces 60 + 40 = 100 units of column 10; both exchanges are positive. */
  lemma TotalFacts()
    ensures TotalOutput(Arrays(), [5, 6], 10) == 100.0
    ensures SignAt(Arrays(), 5, 10) && SignAt(Arrays(), 6, 10)
  {
    var a := Arrays();
    assert Find(a.indices, 5, 10) == Some(0);
    assert Find(a.indices, 6, 10) == Some(1);
    assert RelevantIndices(a.indices, [6], 10) == [1];
    assert RelevantIndices(a.indices, [5, 6], 10) == [0, 1];
    var xs := [60.0, 40.0];
    assert seq(2, i requires 0 <= i < 2 => a.data[[0, 1][i]]) == xs;
    assert xs[..1] == [60.0] && xs[..1][..0] == [];
    assert Sum(xs) == 100.0;
  }

  /** The amount the base year gives technology "A" under each rule. */
  function AmountOfA(rule: BaseYearRule): real {
    match rule
    case LastTechValue => 40.0
    case OwnValue => 60.0
  }

  /** The exchanges the group emits in the base year. */
  function Expected(rule: BaseYearRule): seq<Emission> {
    [Emission(Coord(5, 10), [AmountOfA(rule)], true), Emission(Coord(6, 10), [40.0], true)]
  }

  /** The base-year rows of amounts of "A" and "B" under `rule`. */
  lemma {:induction false} AmountFacts(rule: BaseYearRule)
    ensures Amounts(Group(), 0.6, 100.0, Setting(BaseYear, 1, {5, 6}, rule)) == [AmountOfA(rule)]
    ensures Amounts(Group(), 0.4, 100.0, Setting(BaseYear, 1, {5, 6}, rule)) == [40.0]
  {
    var g, s := Group(), Setting(BaseYear, 1, {5, 6}, rule);
    assert ValueOr0(g[1].1, BaseYear) == 0.4;
    var fa, fb := BaseShare(g, 0.6, rule), BaseShare(g, 0.4, rule);
    var xa, xb := Amounts(g, 0.6, 100.0, s), Amounts(g, 0.4, 100.0, s);
    BaseYearRow(xa, g, 0.6, 100.0, s, fa);
    BaseYearRow(xb, g, 0.4, 100.0, s, fb);
    assert fb == 0.4;
    assert 100.0 * fa == AmountOfA(rule);
    assert 100.0 * fb == 40.0;
    assert xa == [AmountOfA(rule)];
    assert xb == [40.0];
  }

  /** The base-year shares are the technologies' own values. */
  lemma SharesFacts()
    ensures OwnValues(Group(), BaseYear) == [("A", 0.6), ("B", 0.4)]
  {
  }

  /** The exchange of "A" for column 10. */
  lemma {:induction false} EmissionOfA(rule: BaseYearRule)
    ensures EmissionFor(Arrays(), Group(), ("A", 0.6), 10, 100.0, Setting(BaseYear, 1, {5, 6}, rule))
      == Some(Expected(rule)[0])
  {
    TotalFacts();
    AmountFacts(rule);
    var g := Group();
    GetAt(g, 0);
  }

  /** The exchange of "B" for column 10. */
  lemma {:induction false} EmissionOfB(rule: BaseYearRule)
    ensures EmissionFor(Arrays(), Group(), ("B", 0.4), 10, 100.0, Setting(BaseYear, 1, {5, 6}, rule))
      == Some(Expected(rule)[1])
  {
    TotalFacts();
    AmountFacts(rule);
  }

  /** Both shares, in order, for column 10. */
  lemma {:induction false} ShareEmissionsFacts(rule: BaseYearRule)
    ensures ShareEmissions(Arrays(), Group(), [("A", 0.6), ("B", 0.4)], 10, 100.0, Setting(BaseYear, 1, {5, 6}, rule))
      == Expected(rule)
  {
    EmissionOfA(rule);
    EmissionOfB(rule);
    var es := Expected(rule);
    var shares := [("A", 0.6), ("B", 0.4)];
    assert shares[1..] == [("B", 0.4)];
    assert [es[0]] + [es[1]] == es;
  }

  /** Every product column of the group, here only column 10. */
  lemma {:induction false} EmissionFacts(rule: BaseYearRule)
    ensures ProductEmissions(Arrays(), Group(), OwnValues(Group(), BaseYear), [10], Setting(BaseYear, 1, {5, 6}, rule))
      == Expected(rule)
  {
    ProductFacts();
    TotalFacts();
    SharesFacts();
    ShareEmissionsFacts(rule);
  }

  /** The group's exchanges over its own product columns. */
  lemma {:induction false} GroupEmissionFacts(rule: BaseYearRule)
    ensures ProductEmissions(Arrays(), Group(), OwnValues(Group(), BaseYear), Products(Arrays(), Group()),
                             Setting(BaseYear, 1, {5, 6}, rule)) == Expected(rule)
  {
    ProductFacts();
    EmissionFacts(rule);
  }

  /** With one group, the base year emits that group's exchanges under its own values. */
  lemma {:induction false} SingleGroup(a: MatrixArrays, g: Techs, s: Setting, u: nat -> real, pos: nat)
    requires WellFormed(a) && s.year == BaseYear
    ensures AdjustGroups(a, [g], s, u, pos)
      == Success((ProductEmissions(a, g, OwnValues(g, BaseYear), Products(a, g), s), [OwnValues(g, BaseYear)]))
  {
    assert [g][1..] == [] && [g][0] == g;
    var shares := OwnValues(g, BaseYear);
    var es := ProductEmissions(a, g, shares, Products(a, g), s);
    assert GroupShares(g, s.year, u, pos) == Success((shares, pos));
    assert AdjustGroups(a, [], s, u, pos) == Success(([], []));
    assert es + [] == es && [shares] + [] == [shares];
  }

  /** A non-empty list of exchanges becomes the overlay. */
  lemma {:induction false} Unfold(a: MatrixArrays, tree: ShareTree, ud: int, year: int, u: nat -> real, pos: nat, rule: BaseYearRule,
               es: seq<Emission>, shares: seq<Dict<string, real>>)
    requires WellFormed(a) && |es| > 0
    requires AdjustGroups(a, Groups(tree), Setting(year, ud, SkipSet(tree), rule), u, pos) == Success((es, shares))
    ensures AdjustMatrixBasedOnShares(a, tree, ud, year, u, pos, rule) == Success(ToOverlay(es))
  {
  }

  /** The arrays of two exchanges. */
  lemma {:induction false} PairOverlay(e0: Emission, e1: Emission)
    ensures ToOverlay([e0, e1]) == Overlay([e0.amounts, e1.amounts], [e0.coord, e1.coord], [e0.sign, e1.sign])
  {
    var o := ToOverlay([e0, e1]);
    assert o.data == [e0.amounts, e1.amounts];
    assert o.indices == [e0.coord, e1.coord];
    assert o.signs == [e0.sign, e1.sign];
  }

  /** The whole adjustment of the example, under either rule. */
  lemma {:induction false} Example(u: nat -> real, rule: BaseYearRule)
    ensures AdjustMatrixBasedOnShares(Arrays(), Tree(), 1, BaseYear, u, 0, rule)
      == Success(Overlay([[AmountOfA(rule)], [40.0]], [Coord(5, 10), Coord(6, 10)], [true, true]))
  {
    TreeFacts();
    GroupEmissionFacts(rule);
    var a, g, s := Arrays(), Group(), Setting(BaseYear, 1, {5, 6}, rule);
    SingleGroup(a, g, s, u, 0);
    var es := Expected(rule);
    Unfold(a, Tree(), 1, BaseYear, u, 0, rule, es, [OwnValues(g, BaseYear)]);
    PairOverlay(es[0], es[1]);
    assert es == [es[0], es[1]];
  }

  /** The code as written: technology "A" gets 100 * 0.4 = 40, the value of
      the group's last technology "B", instead of 100 * 0.6 = 60. */
  lemma {:induction false} LastTechValueExample(u: nat -> real)
    ensures AdjustMatrixBasedOnShares(Arrays(), Tree(), 1, BaseYear, u, 0, LastTechValue)
      == Success(Overlay([[40.0], [40.0]], [Coord(5, 10), Coord(6, 10)], [true, true]))
    ensures ValueOr0(Group()[0].1, BaseYear) == 0.6
  {
    Example(u, LastTechValue);
    SharesFacts();
    assert OwnValues(Group(), BaseYear)[0].1 == 0.6;
  }

  /** The corrected rule: each technology gets its own share of the 100 units. */
  lemma {:induction false} OwnValueExample(u: nat -> real)
    ensures AdjustMatrixBasedOnShares(Arrays(), Tree(), 1, BaseYear, u, 0, OwnValue)
      == Success(Overlay([[60.0], [40.0]], [Coord(5, 10), Coord(6, 10)], [true, true]))
  {
    Example(u, OwnValue);
  }
}
