/** The indexed record store of `pathways/lca.py`: index tables (`read_indices_csv`)
    and exchange tables (`load_matrix_and_index`, `get_matrix_arrays`), modelled
    over rows that are already split into fields. */
module Records {
  import opened Wrappers
  import opened Dicts

  /** The four descriptive strings that name an activity or a flow. */
  type Key4 = (string, string, string, string)

  /** A (row, col) coordinate of a sparse matrix entry. */
  datatype Coord = Coord(row: int, col: int)

  /** The uncertainty descriptor of one exchange. */
  datatype Uncertainty = Uncertainty(
    kind: int, loc: real, scale: real, shape: real,
    minimum: real, maximum: real, negative: bool)

  /** The four parallel arrays of one matrix: values, coordinates, sign flags
      and uncertainty descriptors; position `i` of each describes one exchange. */
  datatype Bundle = Bundle(
    data: seq<real>, indices: seq<Coord>, flip: seq<bool>, distributions: seq<Uncertainty>)
  {
    predicate Parallel() {
      |data| == |indices| == |flip| == |distributions|
    }
  }

  /** What `get_matrix_arrays` hands on: four arrays for the technosphere,
      three (no sign) for the biosphere. */
  datatype MatrixArrays =
    | TechnosphereArrays(data: seq<real>, indices: seq<Coord>, sign: seq<bool>, distributions: seq<Uncertainty>)
    | BiosphereArrays(data: seq<real>, indices: seq<Coord>, distributions: seq<Uncertainty>)

  /** The exceptions the modelled code raises on malformed input. */
  datatype RecordError =
    | MissingField      // `row[k]` past the end of a CSV row (IndexError)
    | RaggedRows        // rows of different widths (genfromtxt's ValueError)
    | NotATable         // fewer than two data rows: genfromtxt returns a 1-D array (IndexError)
    | TooFewColumns     // a column index past the width of the table (IndexError)
    | UnknownMatrixType // neither "A" nor "B": `arrays` is never bound

  // ---------------------------------------------------------------------
  // read_indices_csv
  // ---------------------------------------------------------------------

  function RowKey(row: seq<string>): Key4
    requires |row| >= 4
  {
    (row[0], row[1], row[2], row[3])
  }

  /** Every row of the table, header included, as `key -> fifth field`; a later
      row with the same key overwrites the value but not the key's position.
      A row with fewer than five fields raises. */
  function ReadIndices(rows: seq<seq<string>>): (r: Result<Dict<Key4, string>, RecordError>)
    ensures r.Success? <==> forall i :: 0 <= i < |rows| ==> |rows[i]| >= 5
    ensures r.Success? ==> DistinctKeys(r.value)
    ensures r.Success? ==> KeySet(r.value) == set i | 0 <= i < |rows| :: RowKey(rows[i])
  {
    if exists i :: 0 <= i < |rows| && |rows[i]| < 5 then Failure(MissingField)
    else
      var pairs := seq(|rows|, i requires 0 <= i < |rows| => (RowKey(rows[i]), rows[i][4]));
      assert KeySet(pairs) == set i | 0 <= i < |rows| :: RowKey(rows[i]) by {
        assert forall i :: 0 <= i < |rows| ==> pairs[i].0 == RowKey(rows[i]);
      }
      Success(FromPairs(pairs))
  }

  /** The value kept for a key is the fifth field of the LAST row carrying it. */
  lemma {:induction false} ReadIndicesLastRowWins(rows: seq<seq<string>>, i: nat)
    requires ReadIndices(rows).Success?
    requires i < |rows|
    requires forall j :: i < j < |rows| ==> RowKey(rows[j]) != RowKey(rows[i])
    ensures Get(ReadIndices(rows).value, RowKey(rows[i])) == Some(rows[i][4])
  {
    var pairs := seq(|rows|, j requires 0 <= j < |rows| => (RowKey(rows[j]), rows[j][4]));
    assert ReadIndices(rows).value == FromPairs(pairs);
    FromPairsGet(pairs, RowKey(rows[i]));
    GetLast(pairs, RowKey(rows[i]), i);
  }

  // ---------------------------------------------------------------------
  // load_matrix_and_index / get_matrix_arrays
  // ---------------------------------------------------------------------

  /** numpy's `astype(int)` on a float: truncation toward zero. */
  function Trunc(x: real): (n: int)
    ensures 0.0 <= x ==> n as real <= x < n as real + 1.0
    ensures x < 0.0 ==> n as real - 1.0 < x <= n as real
  {
    if x >= 0.0 then x.Floor else -((-x).Floor)
  }

  /** numpy's `astype(bool)` on a float. */
  predicate NonZero(x: real) {
    x != 0.0
  }

  /** The shape `np.genfromtxt(..., skip_header=1)` needs to yield a 2-D array
      from which columns 0 to 9 can be taken. */
  predicate IsTable(rows: seq<seq<real>>) {
    && |rows| >= 2
    && (forall i :: 0 <= i < |rows| ==> |rows[i]| == |rows[0]|)
    && |rows[0]| >= 10
  }

  /** Row `i` of the table, as the arrays record it: the index pair is swapped
      to (column 1, column 0), the value is column 2, the uncertainty descriptor
      is columns 3 to 9. */
  ghost predicate LoadedRow(row: seq<real>, data: real, index: Coord, dist: Uncertainty)
    requires |row| >= 10
  {
    && index == Coord(Trunc(row[1]), Trunc(row[0]))
    && data == row[2]
    && dist == Uncertainty(Trunc(row[3]), row[4], row[5], row[6], row[7], row[8], NonZero(row[9]))
  }

  ghost predicate Loaded(rows: seq<seq<real>>, data: seq<real>, indices: seq<Coord>, dists: seq<Uncertainty>)
    requires forall i :: 0 <= i < |rows| ==> |rows[i]| >= 10
  {
    && |data| == |indices| == |dists| == |rows|
    && forall i :: 0 <= i < |rows| ==> LoadedRow(rows[i], data[i], indices[i], dists[i])
  }

  /** The sign flag of each row is its LAST column read as a boolean. */
  ghost predicate FlipsLoaded(rows: seq<seq<real>>, flip: seq<bool>)
    requires forall i :: 0 <= i < |rows| ==> |rows[i]| >= 1
  {
    |flip| == |rows| && forall i :: 0 <= i < |rows| ==> flip[i] == NonZero(rows[i][|rows[i]| - 1])
  }

  /** Reads an exchange table (header already dropped) into parallel arrays. */
  method LoadMatrixAndIndex(rows: seq<seq<real>>) returns (r: Result<Bundle, RecordError>)
    ensures r.Success? <==> IsTable(rows)
    ensures r.Failure? && (forall i :: 0 <= i < |rows| ==> |rows[i]| == |rows[0]|) && |rows| >= 2
      ==> r.error == TooFewColumns
    ensures r.Success? ==> r.value.Parallel()
    ensures r.Success? ==> Loaded(rows, r.value.data, r.value.indices, r.value.distributions)
    ensures r.Success? ==> FlipsLoaded(rows, r.value.flip)
  {
    if exists i :: 0 <= i < |rows| && |rows[i]| != |rows[0]| {
      return Failure(RaggedRows);
    }
    if |rows| < 2 {
      return Failure(NotATable);
    }
    if |rows[0]| < 10 {
      return Failure(TooFewColumns);
    }
    var data: seq<real> := [];
    var indices: seq<Coord> := [];
    var flip: seq<bool> := [];
    var dists: seq<Uncertainty> := [];
    var k := 0;
    while k < |rows|
      invariant 0 <= k <= |rows|
      invariant |data| == |indices| == |flip| == |dists| == k
      invariant forall i :: 0 <= i < k ==> LoadedRow(rows[i], data[i], indices[i], dists[i])
      invariant forall i :: 0 <= i < k ==> flip[i] == NonZero(rows[i][|rows[i]| - 1])
    {
      var row := rows[k];
      indices := indices + [Coord(Trunc(row[1]), Trunc(row[0]))];
      data := data + [row[2]];
      flip := flip + [NonZero(row[|row| - 1])];
      dists := dists + [Uncertainty(Trunc(row[3]), row[4], row[5], row[6], row[7], row[8], NonZero(row[9]))];
      k := k + 1;
    }
    return Success(Bundle(data, indices, flip, dists));
  }

  /** The index columns survive the round trip through `astype(int)` exactly
      when they are integral: swapping the loaded (row, col) pair back gives
      columns 0 and 1 of the row if and only if both hold whole numbers. */
  lemma {:induction false} IndexPairRoundTrip(rows: seq<seq<real>>, b: Bundle, i: nat)
    requires forall j :: 0 <= j < |rows| ==> |rows[j]| >= 10
    requires Loaded(rows, b.data, b.indices, b.distributions)
    requires i < |rows|
    ensures b.indices[i].col as real == rows[i][0] <==> rows[i][0] == rows[i][0].Floor as real
    ensures b.indices[i].row as real == rows[i][1] <==> rows[i][1] == rows[i][1].Floor as real
  {
    assert LoadedRow(rows[i], b.data[i], b.indices[i], b.distributions[i]);
    TruncExact(rows[i][0]);
    TruncExact(rows[i][1]);
  }

  /** `astype(int)` returns its argument exactly when the argument is whole. */
  lemma {:induction false} TruncExact(x: real)
    ensures Trunc(x) as real == x <==> x == x.Floor as real
  {
    if x == x.Floor as real {
      TruncIntegral(x, x.Floor);
    }
  }

  lemma {:induction false} TruncIntegral(x: real, n: int)
    requires x == n as real
    ensures Trunc(x) == n
  {
    if x < 0.0 {
      assert -x == (-n) as real;
    }
  }

  /** "A" keeps all four arrays, "B" drops the sign array; any other matrix
      type leaves the result unbound. */
  method GetMatrixArrays(rows: seq<seq<real>>, matrixType: string) returns (r: Result<MatrixArrays, RecordError>)
    ensures matrixType != "A" && matrixType != "B" ==> r == Failure(UnknownMatrixType)
    ensures matrixType == "A" || matrixType == "B" ==> (r.Success? <==> IsTable(rows))
    ensures r.Success? && matrixType == "A" ==>
              && r.value.TechnosphereArrays?
              && Loaded(rows, r.value.data, r.value.indices, r.value.distributions)
              && FlipsLoaded(rows, r.value.sign)
    ensures r.Success? && matrixType == "B" ==>
              && r.value.BiosphereArrays?
              && Loaded(rows, r.value.data, r.value.indices, r.value.distributions)
  {
    if matrixType == "A" {
      var loaded := LoadMatrixAndIndex(rows);
      if loaded.Failure? {
        return Failure(loaded.error);
      }
      var b := loaded.value;
      return Success(TechnosphereArrays(b.data, b.indices, b.flip, b.distributions));
    } else if matrixType == "B" {
      var loaded := LoadMatrixAndIndex(rows);
      if loaded.Failure? {
        return Failure(loaded.error);
      }
      var b := loaded.value;
      return Success(BiosphereArrays(b.data, b.indices, b.distributions));
    }
    return Failure(UnknownMatrixType);
  }
}
