# pathways LCA matrix core, in Dafny

A model of the matrix-building core of `pathways/lca.py`. This is the part of
`pathways` that reads the exchange tables of a life-cycle inventory and turns
them into the arrays of the technosphere ("A") and biosphere ("B") matrices.
It then rewrites them:

- **Double counting** (`remove_double_counting`): every marked activity loses
  the off-diagonal entries of its row of the technosphere matrix.
- **Share sampling** (`correlated_uniform_samples`): draws technology shares
  uniformly within their bounds and normalises them to sum to one. A draw
  with a share out of bounds is retried. After `iterations` failed draws the
  defaults are returned.
- **Share adjustment** (`adjust_matrix_based_on_shares`): for each
  (category, region) group of a share tree, takes the group's total output
  of each product column and redistributes it over the group's technologies
  by their shares. The result is an overlay of data, index and sign arrays.
- **Characterization** (`fill_characterization_factors_matrices`): a
  (methods × biosphere flows) matrix of characterization factors. Each factor
  is looked up through the first three components of the flow key.
- **Reading** (`read_indices_csv`, `load_matrix_and_index`,
  `get_matrix_arrays`): the index table becomes a dictionary. An exchange
  table becomes parallel arrays of values, swapped (row, col) pairs, sign
  flags and uncertainty descriptors. Type "A" keeps the sign array and type
  "B" drops it.

Modules, one per file:

| file | module | models |
|---|---|---|
| `wrappers.dfy` | `Wrappers` | `Option` and `Result` |
| `dicts.dfy` | `Dicts` | Python's insertion-ordered `dict` as an association list: `d[k] = v` and dict comprehensions |
| `records.dfy` | `Records` | `read_indices_csv`, `load_matrix_and_index`, `get_matrix_arrays` |
| `double_counting.dfy` | `DoubleCounting` | `remove_double_counting` |
| `sampler.dfy` | `Sampler` | `correlated_uniform_samples` |
| `characterization.dfy` | `Characterization` | `fill_characterization_factors_matrices` |
| `shares.dfy` | `ShareAdjustment` | `adjust_matrix_based_on_shares` |
| `share_example.dfy` | `ShareExample` | a two-technology group that exhibits the base-year finding below |

Modelling choices:

- **Random numbers.** `np.random.uniform(low, high)` is `low + (high - low) * u(p)`. Here `u: nat -> real` is the random stream, supplied as a parameter. A cursor `pos` threads it through the draws and the groups.
- **Python errors.** Each error the code raises becomes a `Failure` value:
  - `exit(1)` on a non-uniform distribution gives `UnsupportedDistribution`;
  - a `KeyError` on a year entry gives `MissingKey`;
  - a division by a zero total in the sampler gives `ZeroTotalShares`;
  - `np.concatenate([])` on an empty overlay gives `EmptyOverlay`;
  - a missing method gives `UnknownMethod`;
  - a column outside `[-n, n)` gives `ColumnOutOfRange`;
  - a row with too few fields gives `MissingField`.
- **Dictionaries** keep Python's insertion order. Which entry wins a key collision depends on that order (lines 52, 213, 465-466).
- **Sets.** The product columns of a group are a Python `set`. Here they are iterated in the order the columns first appear in the technosphere. That order is a choice of the model: it fixes the order of the overlay's entries within a group, and with it the entry-by-entry equality in the `AdjustMatrixBasedOnShares` contract. The overlay's contents do not depend on it. See the `AdjustMatrixBasedOnShares` line about order under "## Left out".
- **Numbers.** Floating-point numbers are `real`.

## Model

| member | source | states |
|---|---|---|
| Dicts.PutGet | pathways/lca.py:52 | Assigning `d[k] = v` makes `k` look up to `v` and leaves every other key's value as it was. |
| Dicts.FromPairsGet | pathways/lca.py:465-466 | A dict comprehension over a list of pairs keeps, for each key, the value of the last pair with that key. |
| Records.ReadIndices | pathways/lca.py:35-53 | The read succeeds exactly when every row has at least five fields. The result has distinct keys, and its keys are exactly the four-field keys of the rows. |
| Records.ReadIndicesLastRowWins | pathways/lca.py:48-53 | The value stored for a key is the fifth field of the last row carrying that key. |
| Records.Trunc | pathways/lca.py:72 | `astype(int)` truncates toward zero: the result is within one of the input, on the zero side. |
| Records.LoadMatrixAndIndex | pathways/lca.py:56-96 | Succeeds exactly when the rows form a table of at least two rows and ten columns, with `TooFewColumns` when a uniform table is too narrow. On success all four arrays have one element per row. Row `r` gives index (r[1], r[0]) truncated, value r[2], the flip flag "last field ≠ 0", and the descriptor (r[3] truncated, r[4..8], r[9] ≠ 0). |
| Records.IndexPairRoundTrip | pathways/lca.py:71-74 | Swapping the loaded (row, col) pair back recovers columns 0 and 1 of the row exactly if and only if each is a whole number. `astype(int)` truncates anything else. |
| Records.GetMatrixArrays | pathways/lca.py:99-124 | Type "A" yields the four arrays with the flip flags as signs. Type "B" yields three arrays without signs. Either type fails exactly when the table is malformed. Any other type fails with `UnknownMatrixType`. |
| DoubleCounting.Kept | pathways/lca.py:554-558 | A triple is in the result exactly when it is in the input, has a non-zero value, and is not an off-diagonal entry of a marked row. |
| DoubleCounting.RemoveDoubleCounting | pathways/lca.py:537-559 | The triples left after zeroing each distinct marked row's off-diagonal entries and dropping zeros are exactly the `Kept` triples, in their original order. Diagonals and unmarked rows survive unchanged, and no coordinate is added. |
| DoubleCounting.KeptAllSurvive | pathways/lca.py:554-558 | A list in which every entry survives is returned unchanged. |
| DoubleCounting.KeptIdempotent | pathways/lca.py:537-559 | Removing double counting a second time changes nothing. |
| Sampler.NormalizedSumsToOne | pathways/lca.py:442-443 | Dividing the draws by their non-zero total gives shares that sum to one. |
| Sampler.TryDraw | pathways/lca.py:439-448 | With no parameters the attempt is accepted with no shares. Otherwise it is a zero total exactly when the draws sum to zero. With a non-zero total it is accepted exactly when the draws divided by their total all lie within their bounds, and the accepted shares are those normalised draws. Accepted shares have the keys of `ranges` in order, lie within bounds and sum to one, and acceptance forces the lower bounds to sum to at most one. |
| Sampler.SampleFrom | pathways/lca.py:438-451 | A successful result is either `defaults` or an accepted draw from one of the remaining attempts, each attempt reading the next `width` values of the stream. |
| Sampler.CorrelatedUniformSamples | pathways/lca.py:429-451 | A successful result is either exactly `defaults` or shares valid for `ranges`: the same keys, each within its bounds, summing to one. |
| Sampler.FirstAcceptedDrawReturned | pathways/lca.py:438-448 | After rejected attempts only, the first accepted draw is what is returned, with the stream advanced past it. |
| Sampler.ZeroTotalRaises | pathways/lca.py:442-443 | After rejected attempts only, a draw summing to zero raises a division error. |
| Sampler.AllRejectedGivesDefaults | pathways/lca.py:438-451 | When every attempt is rejected, the result is exactly `defaults`, with the stream advanced by all `iterations` draws. |
| Sampler.AcceptedSharesMeetLows | pathways/lca.py:444-447 | Shares that sum to one with each share at least its minimum force the minimums to sum to at most one. |
| Sampler.BoundsBeyondOneReject | pathways/lca.py:439-447 | With positive minimums summing above one and a stream in [0, 1), every draw is rejected and none divides by zero. |
| Sampler.ImpossibleBoundsFallBack | pathways/lca.py:429-451 | Under such bounds the sampler always returns `defaults` after all the iterations. |
| Characterization.TruncatedFlowsLastWins | pathways/lca.py:465 | After dropping the fourth key component, a key keeps the index of the last flow that truncates to it. |
| Characterization.ReversedFlowsRoundTrip | pathways/lca.py:465-466 | A flow index the reversed map resolves to a key is exactly that key's index in the truncated map, and some flow truncates to that key. |
| Characterization.ReversedFlowsMissing | pathways/lca.py:466 | A flow index unknown to the reversed map is no truncated flow's index. |
| Characterization.ColumnOf | pathways/lca.py:484 | A column index is accepted exactly when it lies in [-n, n). The accepted column is the index itself, or the index plus n when negative, and lies below n. |
| Characterization.LastWriteSpec | pathways/lca.py:480-484 | A cell that no entry writes has no value. A cell that is written holds the factor of the last entry that writes it. |
| Characterization.FillRow | pathways/lca.py:480-485 | A row succeeds exactly when no factor is aimed at a refused column. It has one cell per `biosphere_dict` entry, and each cell holds its last write or zero. |
| Characterization.FillRows | pathways/lca.py:478-485 | Rows are built in method order. The build fails with `UnknownMethod` only if some method is missing, and with `ColumnOutOfRange` only if some factor has a refused column. On success row m is method m's row. |
| Characterization.FillCharacterizationFactors | pathways/lca.py:454-495 | Succeeds exactly when every method is known and no factor has a refused column. The matrix has shape (methods × `biosphere_dict` entries). Each cell holds the factor of the last entry writing it, or zero. |
| Characterization.CellIsFactorOrZero | pathways/lca.py:478-485 | For entries with distinct in-range columns, cell (m, f) holds method m's factor for the flow that `flow_idx` reverse-maps to, when both exist, and zero otherwise. A column no entry names is zero. |
| ShareAdjustment.Groups | pathways/lca.py:231-232 | There is one group per (category, region) pair, and every group of the tree is among them. |
| ShareAdjustment.GroupAt | pathways/lca.py:231-232 | Region r of category c is visited after all regions of the earlier categories and the earlier regions of c. |
| ShareAdjustment.GroupOrigin | pathways/lca.py:231-232 | Every visited position is some (category, region) slot of the tree, so no other group is visited. |
| ShareAdjustment.SkipSet | pathways/lca.py:219-225 | A column is skipped exactly when some technology of some group names it as its "idx". |
| ShareAdjustment.TechRows | pathways/lca.py:233-235 | The rows of a group are exactly the "idx" values its technologies carry. An "idx" of None contributes none. |
| ShareAdjustment.TechRowsShape | pathways/lca.py:233-235 | A group has at most one row per technology. A single technology contributes its "idx" when it has one and nothing when its "idx" is None. |
| ShareAdjustment.TechRowsAppend | pathways/lca.py:233-235 | The rows of two runs of technologies are those of the first run followed by those of the second. With `TechRowsShape`'s single-technology case, each technology with a row contributes exactly one entry, in technology order, so a row two technologies name is listed twice. |
| ShareAdjustment.Find | pathways/lca.py:213-229 | The lookup finds the last position of (row, col) in the technosphere, and finds nothing exactly when the coordinate is absent. |
| ShareAdjustment.Dedup | pathways/lca.py:236 | The result has exactly the members of the input. |
| ShareAdjustment.DedupOnce | pathways/lca.py:236 | The result of `Dedup` lists no column twice. |
| ShareAdjustment.ProductCols | pathways/lca.py:237 | A column is listed exactly when some exchange in a tech row of the group has it. |
| ShareAdjustment.Products | pathways/lca.py:236-238 | The product columns of a group are exactly the columns of exchanges in its tech rows. |
| ShareAdjustment.ProductsOnce | pathways/lca.py:236-238 | No product column of a group is listed twice. |
| ShareAdjustment.RelevantIndices | pathways/lca.py:272-276 | Positions of exchanges in product column p whose row is one of the group's tech rows, at most one per tech row. |
| ShareAdjustment.RelevantIndicesFound | pathways/lca.py:272-276 | A position is listed exactly when it is where `find_index` finds some tech row's exchange in column p. |
| ShareAdjustment.RelevantIndicesAppend | pathways/lca.py:272-276 | The positions follow the order of the tech rows: those found for one run of rows come before those of the next. |
| ShareAdjustment.TotalOutputPerRow | pathways/lca.py:272-277 | The group's total output of a product is the sum over its tech rows of the amount of each row's exchange in that column, zero for a row with none. |
| ShareAdjustment.SignAt | pathways/lca.py:296-311 | The sign of the last exchange at (row, col), or true when none exists. |
| ShareAdjustment.TechRange | pathways/lca.py:244-257 | Succeeds exactly when the technology has a uniform 2050 entry with a "min" and a "max" for the year. It then gives those bounds and its base-year default. A non-uniform 2050 distribution exits; any other gap is a missing key. |
| ShareAdjustment.UniformRanges | pathways/lca.py:243-257 | Succeeds exactly when every technology of the group is uniform-sampleable, giving each technology's bounds and default in order. Exiting implies some technology is non-uniform. |
| ShareAdjustment.OwnValues | pathways/lca.py:265-268 | One share per technology, in order: its value for the year, or 0 when absent. |
| ShareAdjustment.GroupShares | pathways/lca.py:240-269 | The shares name the group's technologies in order. In the base year they are each technology's own value, and the base year never fails. In other years a failure to read the ranges is the group's failure, an empty group gets no shares and leaves the stream untouched, and otherwise the result is exactly what `correlated_uniform_samples` returns for the group's ranges and defaults from the current cursor. An exit implies a non-uniform technology, a missing key implies a technology that is not uniform-sampleable, and no group fails with an empty overlay. |
| ShareAdjustment.DrawShares | pathways/lca.py:231-269 | The groups' shares drawn group after group, threading the stream cursor. On success they fit every group (`Admissible`). The base year never fails and does not move the cursor; no failure is an empty overlay. |
| ShareAdjustment.DrawSharesCons | pathways/lca.py:231-263 | After the first group's draw succeeds, the run succeeds exactly when the rest, drawn from the cursor the first leaves, succeeds, and then it is the first group's shares followed by the rest's. |
| ShareAdjustment.DrawSharesAt | pathways/lca.py:231-263 | In a successful run, the shares of group k are exactly those `GroupShares` draws for group k from the cursor the groups before it leave, so each group's shares come from the sampler call of lines 259-263. |
| ShareAdjustment.AdjustGroups | pathways/lca.py:231-311 | Succeeds exactly when `DrawShares` does, with the same error otherwise. On success the shares are those `DrawShares` draws, one per group, each fitting its group, and the emitted exchanges are those of every group in turn under them. The base year never fails, and an exit implies a non-uniform technology. |
| ShareAdjustment.AdjustMatrixBasedOnShares | pathways/lca.py:202-318 | On success the three arrays are non-empty and of equal length. No entry lies in a skipped column. Each sign is that of the exchange replaced, or true. Each row holds one amount in the base year and otherwise `use_distributions` amounts. In the base year the only failure is an empty overlay, and an exit implies a non-uniform technology. A successful overlay is, entry by entry, the exchanges the groups emit under some shares that fit every group (`Admissible`), and an empty-overlay failure means such shares emit nothing. More precisely (`Outcome`): the result is the error of the first group whose shares cannot be drawn; otherwise the groups' emissions under the shares `DrawShares` draws, failing with `EmptyOverlay` exactly when there are none (`np.concatenate` of an empty list). The lemmas below describe those exchanges. |
| ShareAdjustment.ToOverlay | pathways/lca.py:313-316 | Data, indices and signs are the exchanges' fields, position by position. |
| ShareAdjustment.EmittedFacts | pathways/lca.py:298-311 | Every emitted exchange avoids the skipped columns, carries the sign of the exchange it replaces (or true), and has the row width of the year. |
| ShareAdjustment.EmissionOrigin | pathways/lca.py:240-311 | Under shares that fit every group, each emitted exchange comes from some technology of some group (`EmittedBy`), at a share that fits it (`FitsAt`). Its row is that technology's "idx" and its column one of the group's product columns. Its amounts are `Amounts` of the group's total output of that column and the technology's share. In any other year each amount is that total times the share. In the base year it is the total times the share the rule picks, which under the code as written is the group's last technology's value. The technology's share fits the technology: its base-year value in the base year; otherwise the technology is uniform and the share is its base-year value or lies within its bounds. |
| ShareAdjustment.BaseYearUsesLastTechValue | pathways/lca.py:286-291 | As written, whatever the shares, every base-year exchange comes from a group whose rows include its row and whose product columns include its column (`LastTechAmount`). It holds one amount: that group's total output of the column times the base-year value of the group's last technology, whichever technology the row belongs to. |
| ShareAdjustment.BaseYearUsesOwnShare | pathways/lca.py:265-291 | With the corrected rule, take one group whose shares are its technologies' own base-year values. Each exchange it emits holds one amount (`OwnShareAmount`): the group's total output of its column times the base-year value of the technology whose row it replaces. |
| ShareAdjustment.SampledAmounts | pathways/lca.py:279-295 | In any other year, each exchange a group emits (`SampledAmount`) holds `use_distributions` equal amounts, or none when that is not positive. Each amount is the group's total output of its column times the share of the entry naming the technology whose row it replaces. |
| ShareAdjustment.EmissionCoversTechProducts | pathways/lca.py:279-311 | Under shares that fit every group, every technology with a row gets an exchange at some position (`EmitsAt`) for every non-skipped product column of its group. That exchange carries the sign of the exchange it replaces, or true. |
| ShareExample.LastTechValueExample | pathways/lca.py:286-291 | As written, a base-year group of technologies A (value 0.6) and B (value 0.4) sharing a product of total output 100 gives both A and B an amount of 40. |
| ShareExample.OwnValueExample | pathways/lca.py:286-291 | With the corrected rule the same group gives A 60 and B 40. |

## Left out

- `get_indices`, `get_lca_matrices` and `get_subshares_matrix`: path handling and thin wrappers over `bw_processing` datapackages, whose code is not part of this model.
- File opening, the CSV reader and `np.genfromtxt` parsing: tables are given as rows already split into fields. `LoadMatrixAndIndex` takes numeric fields with the header already dropped (`skip_header=1`, line 68). `ReadIndices` takes string fields for every row of the file, header included, since `read_indices_csv` skips no row (lines 48-53).
- `genfromtxt` collapsing to a one-dimensional array: a table with fewer than two rows is modelled as a failure (`NotATable`), as indexing `array[:, 1]` on it raises.
- `get_lcia_methods`: its result is passed in as a map from method name to factors.
- `remove_double_counting` marks: every variable of `vars_info` is assumed to carry one integer "idx". Lines 549-551 raise a `KeyError` for a variable without "idx", and that is not modelled. An "idx" of None, or a list of indices passed to `np.isin`, is not modelled either.
- `print`, `exit` messages and debug logging and sorting in the characterization builder: output only.
- `int(v)` in the reversed flow map: flow indices are already integers.
- Array dtypes (`INDICES_DTYPE`, `UNCERTAINTY_DTYPE`, `float32`/`int32` narrowing): values are unbounded integers and reals.
- Floating-point rounding: reals are exact, so "sums to one" and `total * share` are exact.
- `np.random.uniform`: a stream `u` of numbers, supplied as a parameter. Only `DrawsAtLeastLow`, `BoundsBeyondOneReject` and `ImpossibleBoundsFallBack` assume they lie in [0, 1).
- Commented-out code in the file.
- DoubleCounting.RemoveDoubleCounting: returns the surviving coordinate triples in their original order. The final `tocsr()`, which sorts and sums duplicate coordinates, is not modelled.
- Characterization.FillCharacterizationFactors: the CSR matrix is modelled densely as a row per method, with unassigned cells zero. A factor of exactly zero is stored as zero either way.
- ShareAdjustment.AdjustMatrixBasedOnShares: the product columns are visited in first-occurrence order rather than Python's set order. The overlay's entry order within a group therefore differs, while its contents do not.
- ShareAdjustment.AdjustMatrixBasedOnShares: only the base-year value and `use_distributions` copies are stated for the amounts. The concatenation's axis-0 shape check on rows of different widths is not modelled, because widths are uniform for one year.
- ShareAdjustment.BaseYearUsesOwnShare: stated for one group at a time, with that group's own base-year values as its shares. The whole-overlay form follows by concatenation but is not stated.
- ShareAdjustment.SampledAmounts: stated for one group at a time. It does not restate that the share fits the technology; `ShareAdjustment.EmissionOrigin` states that for the whole overlay.
- ShareAdjustment.GroupShares: a zero sampler total is modelled as a `Failure` (`ZeroTotalShares`). Python divides floats and raises `ZeroDivisionError` there.

## Findings

| source | as written | input that shows it | evidently intended | confidence | as-written member | corrected member |
|---|---|---|---|---|---|---|
| pathways/lca.py:286-291 | In the base year the share is read from `details`, the variable left over from the loop at line 243. That is the last technology of the group, not the technology being emitted. | One product column 10 with exchanges (row 5, 60.0) and (row 6, 40.0). Technologies A (idx 5, 2020 value 0.6) and B (idx 6, 2020 value 0.4). Year 2020. The overlay is [[40], [40]]. | Each technology gets total output × its own 2020 value: [[60], [40]]. | not executed | ShareAdjustment.BaseYearUsesLastTechValue | ShareAdjustment.BaseYearUsesOwnShare |

The adjustment takes a `BaseYearRule` parameter to cover both behaviours:

- `LastTechValue` is the code as written. `ShareAdjustment.BaseYearUsesLastTechValue` states it for every input.
- `OwnValue` is the evidently intended rule. `ShareAdjustment.BaseYearUsesOwnShare` states it for every group.
- `ShareExample.LastTechValueExample` and `ShareExample.OwnValueExample` work the input of the table row through both rules.
