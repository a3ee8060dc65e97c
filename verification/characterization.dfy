/** `fill_characterization_factors_matrices`: a (methods x flows) matrix of
    characterization factors, looked up by the first three components of each
    flow's key. The matrix is modelled densely: a cell never assigned is zero. */
module Characterization {
  import opened Wrappers
  import opened Dicts
  import opened Records

  /** A flow key with its fourth component (the unit) dropped. */
  type Key3 = (string, string, string)

  function Truncate(k: Key4): Key3 {
    (k.0, k.1, k.2)
  }

  datatype CharError =
    | UnknownMethod     // `lcia_data[method]` raises KeyError
    | ColumnOutOfRange  // `matrix[m, f] = ...` with f outside [-n, n) raises IndexError

  // ---------------------------------------------------------------------
  // Line 465-466: truncate the flow keys, then reverse the map
  // ---------------------------------------------------------------------

  function TruncatedPairs(flows: Dict<Key4, int>): (ps: seq<(Key3, int)>)
    ensures |ps| == |flows|
    ensures forall i :: 0 <= i < |flows| ==> ps[i] == (Truncate(flows[i].0), flows[i].1)
  {
    seq(|flows|, i requires 0 <= i < |flows| => (Truncate(flows[i].0), flows[i].1))
  }

  /** `{k[:3]: v for k, v in biosphere_flows.items()}`. */
  function TruncatedFlows(flows: Dict<Key4, int>): Dict<Key3, int> {
    FromPairs(TruncatedPairs(flows))
  }

  function Swapped(d: Dict<Key3, int>): (ps: seq<(int, Key3)>)
    ensures |ps| == |d|
    ensures forall i :: 0 <= i < |d| ==> ps[i] == (d[i].1, d[i].0)
  {
    seq(|d|, i requires 0 <= i < |d| => (d[i].1, d[i].0))
  }

  /** `{int(v): k for k, v in biosphere_flows.items()}` over the truncated map. */
  function ReversedFlows(flows: Dict<Key4, int>): Dict<int, Key3> {
    FromPairs(Swapped(TruncatedFlows(flows)))
  }

  /** Truncation keeps, for each three-part key, the index of the LAST flow
      whose key truncates to it. */
  lemma {:induction false} TruncatedFlowsLastWins(flows: Dict<Key4, int>, i: nat)
    requires i < |flows|
    requires forall j :: i < j < |flows| ==> Truncate(flows[j].0) != Truncate(flows[i].0)
    ensures Get(TruncatedFlows(flows), Truncate(flows[i].0)) == Some(flows[i].1)
  {
    FromPairsGet(TruncatedPairs(flows), Truncate(flows[i].0));
    GetLast(TruncatedPairs(flows), Truncate(flows[i].0), i);
  }

  /** Reversing is undone by looking the key up again: a flow index that the
      reversed map resolves to a key is exactly the index that key holds in
      the truncated map, and some flow's key truncates to it. */
  lemma {:induction false} ReversedFlowsRoundTrip(flows: Dict<Key4, int>, flowIdx: int)
    requires Get(ReversedFlows(flows), flowIdx).Some?
    ensures Get(TruncatedFlows(flows), Get(ReversedFlows(flows), flowIdx).value) == Some(flowIdx)
    ensures exists i :: 0 <= i < |flows| && Truncate(flows[i].0) == Get(ReversedFlows(flows), flowIdx).value
  {
    var t := TruncatedFlows(flows);
    var k := Get(ReversedFlows(flows), flowIdx).value;
    FromPairsGet(Swapped(t), flowIdx);
    var j := GetFound(Swapped(t), flowIdx);
    assert t[j] == (k, flowIdx);
    GetAt(t, j);
    assert k in KeySet(t);
    assert k in KeySet(TruncatedPairs(flows));
  }

  /** A flow index the reversed map does not know is no truncated flow's index. */
  lemma {:induction false} ReversedFlowsMissing(flows: Dict<Key4, int>, flowIdx: int)
    requires Get(ReversedFlows(flows), flowIdx).None?
    ensures forall i :: 0 <= i < |TruncatedFlows(flows)| ==> TruncatedFlows(flows)[i].1 != flowIdx
  {
    var t := TruncatedFlows(flows);
    FromPairsGet(Swapped(t), flowIdx);
    GetNone(Swapped(t), flowIdx);
  }

  // ---------------------------------------------------------------------
  // Line 468-485: the matrix
  // ---------------------------------------------------------------------

  /** scipy's check of a column index against `n` columns: negative indices
      count from the end, anything outside [-n, n) is refused. */
  function ColumnOf(f: int, n: nat): (c: Option<nat>)
    ensures c.Some? <==> -(n as int) <= f < n
    ensures c.Some? ==> c.value < n && (c.value == f || c.value == f + n)
  {
    if 0 <= f < n then Some(f) else if -(n as int) <= f < 0 then Some(f + n) else None
  }

  /** The factor a method gives the flow behind `flowIdx`, if any. */
  function FactorFor(methodData: map<Key3, real>, reversed: Dict<int, Key3>, flowIdx: int): Option<real> {
    match Get(reversed, flowIdx)
    case Some(flow) => if flow in methodData then Some(methodData[flow]) else None
    case None => None
  }

  /** Entry `e = (flow_idx, f)` of `biosphere_dict` assigns column `c`. */
  predicate Writes(methodData: map<Key3, real>, reversed: Dict<int, Key3>, n: nat, e: (int, int), c: nat) {
    FactorFor(methodData, reversed, e.0).Some? && ColumnOf(e.1, n) == Some(c)
  }

  /** Entry `e` has a factor but its column is refused. */
  predicate OutOfRange(methodData: map<Key3, real>, reversed: Dict<int, Key3>, n: nat, e: (int, int)) {
    FactorFor(methodData, reversed, e.0).Some? && ColumnOf(e.1, n).None?
  }

  function Zeros(n: nat): (z: seq<real>)
    ensures |z| == n && forall c :: 0 <= c < n ==> z[c] == 0.0
  {
    seq(n, _ => 0.0)
  }

  /** The factor the last entry of `bdict` that writes cell `c` puts there. */
  function LastWrite(methodData: map<Key3, real>, reversed: Dict<int, Key3>, bdict: Dict<int, int>, n: nat, c: nat)
    : Option<real>
  {
    if |bdict| == 0 then None
    else if Writes(methodData, reversed, n, bdict[|bdict| - 1], c)
    then FactorFor(methodData, reversed, bdict[|bdict| - 1].0)
    else LastWrite(methodData, reversed, bdict[..|bdict| - 1], n, c)
  }

  /** `LastWrite` is what its name says: nothing when no entry writes `c`,
      otherwise the factor of the writing entry that no later entry overrides. */
  lemma {:induction false} LastWriteSpec(methodData: map<Key3, real>, reversed: Dict<int, Key3>, bdict: Dict<int, int>, n: nat, c: nat)
    ensures LastWrite(methodData, reversed, bdict, n, c).None?
        <==> forall i :: 0 <= i < |bdict| ==> !Writes(methodData, reversed, n, bdict[i], c)
    ensures forall i :: 0 <= i < |bdict| && Writes(methodData, reversed, n, bdict[i], c)
                        && (forall j :: i < j < |bdict| ==> !Writes(methodData, reversed, n, bdict[j], c))
                        ==> LastWrite(methodData, reversed, bdict, n, c) == FactorFor(methodData, reversed, bdict[i].0)
    decreases |bdict|
  {
    if |bdict| > 0 {
      var prefix := bdict[..|bdict| - 1];
      LastWriteSpec(methodData, reversed, prefix, n, c);
      assert forall i :: 0 <= i < |prefix| ==> prefix[i] == bdict[i];
    }
  }

  /** One row of the matrix: the assignments of the inner loop, in order. A
      cell holds the factor of the last entry that writes it, and zero if none
      does; a factor aimed at a refused column raises. */
  function FillRow(methodData: map<Key3, real>, reversed: Dict<int, Key3>, bdict: Dict<int, int>, n: nat)
    : (r: Result<seq<real>, CharError>)
    ensures r.Success? <==> forall i :: 0 <= i < |bdict| ==> !OutOfRange(methodData, reversed, n, bdict[i])
    ensures r.Failure? ==> r.error == ColumnOutOfRange
    ensures r.Success? ==> |r.value| == n
    ensures r.Success? ==> forall c: nat :: c < n ==>
      r.value[c] == match LastWrite(methodData, reversed, bdict, n, c) { case Some(v) => v case None => 0.0 }
  {
    if |bdict| == 0 then Success(Zeros(n))
    else
      var row :- FillRow(methodData, reversed, bdict[..|bdict| - 1], n);
      var e := bdict[|bdict| - 1];
      match FactorFor(methodData, reversed, e.0)
      case None => Success(row)
      case Some(v) =>
        match ColumnOf(e.1, n)
        case None => Failure(ColumnOutOfRange)
        case Some(c) => Success(row[c := v])
  }

  /** The value a successful row holds in cell `c`. */
  function CellOr0(w: Option<real>): real {
    match w
    case Some(v) => v
    case None => 0.0
  }

  /** Some method among `methods` is missing from `lcia`. */
  predicate SomeUnknown(lcia: map<string, map<Key3, real>>, methods: seq<string>) {
    exists m :: 0 <= m < |methods| && methods[m] !in lcia
  }

  /** Some known method gives a factor to an entry whose column is refused. */
  predicate SomeOutOfRange(lcia: map<string, map<Key3, real>>, methods: seq<string>, reversed: Dict<int, Key3>,
                           bdict: Dict<int, int>) {
    exists m, i :: 0 <= m < |methods| && 0 <= i < |bdict| && methods[m] in lcia
                   && OutOfRange(lcia[methods[m]], reversed, |bdict|, bdict[i])
  }

  /** The outer loop over methods, one row each, stopping at the first error. */
  function FillRows(lcia: map<string, map<Key3, real>>, methods: seq<string>, reversed: Dict<int, Key3>,
                    bdict: Dict<int, int>): (r: Result<seq<seq<real>>, CharError>)
    ensures r.Success? <==> !SomeUnknown(lcia, methods) && !SomeOutOfRange(lcia, methods, reversed, bdict)
    ensures r.Failure? && r.error == UnknownMethod ==> SomeUnknown(lcia, methods)
    ensures r.Failure? && r.error == ColumnOutOfRange ==> SomeOutOfRange(lcia, methods, reversed, bdict)
    ensures r.Success? ==> |r.value| == |methods|
    ensures r.Success? ==> forall m :: 0 <= m < |methods| ==>
      methods[m] in lcia && FillRow(lcia[methods[m]], reversed, bdict, |bdict|) == Success(r.value[m])
    decreases |methods|
  {
    if |methods| == 0 then Success([])
    else if methods[0] !in lcia then
      assert !(0 <= 0 < |methods| && methods[0] in lcia);
      Failure(UnknownMethod)
    else
      var row :- FillRow(lcia[methods[0]], reversed, bdict, |bdict|);
      var rest :- FillRows(lcia, methods[1..], reversed, bdict);
      assert forall m :: 1 <= m < |methods| ==> methods[m] == methods[1..][m - 1];
      Success([row] + rest)
  }

  /** `fill_characterization_factors_matrices`, with `get_lcia_methods`
      supplied as the map `lcia`. */
  function FillCharacterizationFactors(flows: Dict<Key4, int>, methods: seq<string>, bdict: Dict<int, int>,
                                       lcia: map<string, map<Key3, real>>): (r: Result<seq<seq<real>>, CharError>)
    requires DistinctKeys(flows) && DistinctKeys(bdict)
    ensures r.Success? <==> !SomeUnknown(lcia, methods) && !SomeOutOfRange(lcia, methods, ReversedFlows(flows), bdict)
    ensures r.Failure? && r.error == UnknownMethod ==> SomeUnknown(lcia, methods)
    ensures r.Failure? && r.error == ColumnOutOfRange ==> SomeOutOfRange(lcia, methods, ReversedFlows(flows), bdict)
    ensures r.Success? ==> |r.value| == |methods| && forall m :: 0 <= m < |methods| ==> |r.value[m]| == |bdict|
    ensures r.Success? ==> forall m, c: nat :: 0 <= m < |methods| && c < |bdict| ==>
      methods[m] in lcia
      && r.value[m][c] == CellOr0(LastWrite(lcia[methods[m]], ReversedFlows(flows), bdict, |bdict|, c))
  {
    FillRows(lcia, methods, ReversedFlows(flows), bdict)
  }

  /** For a `biosphere_dict` that maps flow indices to distinct columns in
      range, cell (m, column of flow_idx) holds method m's factor of the flow
      that `flow_idx` reverse-maps to when that flow has one, and zero
      otherwise; a column no entry names stays zero. */
  lemma {:induction false} CellIsFactorOrZero(flows: Dict<Key4, int>, methods: seq<string>, bdict: Dict<int, int>,
                           lcia: map<string, map<Key3, real>>, m: nat)
    requires DistinctKeys(flows) && DistinctKeys(bdict)
    requires forall i :: 0 <= i < |bdict| ==> 0 <= bdict[i].1 < |bdict|
    requires forall i, j :: 0 <= i < j < |bdict| ==> bdict[i].1 != bdict[j].1
    requires m < |methods|
    requires FillCharacterizationFactors(flows, methods, bdict, lcia).Success?
    ensures forall i :: 0 <= i < |bdict| ==>
      var row := FillCharacterizationFactors(flows, methods, bdict, lcia).value[m];
      var reversed := ReversedFlows(flows);
      row[bdict[i].1] == (match Get(reversed, bdict[i].0)
                          case Some(flow) => if flow in lcia[methods[m]] then lcia[methods[m]][flow] else 0.0
                          case None => 0.0)
    ensures forall c :: 0 <= c < |bdict| && (forall i :: 0 <= i < |bdict| ==> bdict[i].1 != c) ==>
      FillCharacterizationFactors(flows, methods, bdict, lcia).value[m][c] == 0.0
  {
    var reversed := ReversedFlows(flows);
    var n := |bdict|;
    var md := lcia[methods[m]];
    forall i | 0 <= i < n
      ensures FillCharacterizationFactors(flows, methods, bdict, lcia).value[m][bdict[i].1]
           == CellOr0(FactorFor(md, reversed, bdict[i].0))
    {
      var c: nat := bdict[i].1;
      LastWriteSpec(md, reversed, bdict, n, c);
      assert forall j :: 0 <= j < n && j != i ==> !Writes(md, reversed, n, bdict[j], c);
    }
    forall c: nat | c < n && (forall i :: 0 <= i < n ==> bdict[i].1 != c)
      ensures FillCharacterizationFactors(flows, methods, bdict, lcia).value[m][c] == 0.0
    {
      LastWriteSpec(md, reversed, bdict, n, c);
    }
  }
}
