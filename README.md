# growingdifgrow: a Dafny model of the differential-growth automaton

growingdifgrow simulates pigment-pattern formation as a stochastic cellular
automaton. Each well of a rows × cols lattice is empty (`S`), a xanthophore
(`X`) or a melanophore (`M`). Iridophores form a separate boolean mask, and
a `True` entry blocks long-range melanophore activation.

A run draws batches of random wells and random event types. The draws are
weighted by seven rate constants, normalised into probabilities. Each
event is applied to the lattice in place, one after another:

- births and deaths of either pigment cell;
- short-range killing by a random nearest neighbour;
- long-range activation from a point at distance `h`.

This project models that core:

- `lattice.dfy` (`Lattice`) defines the cell states and the Python
  errors the core can raise. It also defines grid values (`seq<seq<_>>`)
  and links a mutable `array2` to the grid value it holds.
- `baseprocess.dfy` (`BaseProcess`) holds the four transition rules.
- `neighborcalc.dfy` (`NeighborCalc`) models neighbour selection:
  - `nearest_neighbor` with its literal size test, its offset lists and its
    unwrapped, negative-index lookup;
  - `hdist_angle` with its per-axis modulo wrap.
- `initialconditions.dfy` (`InitialConditions`) builds the fresh arrays of
  `blank` and `iridophore_band`. This covers `fill`, the slice assignment
  and `np.roll`.
- `simulation.dfy` (`Simulation`) covers `sim_setup`, with rate
  normalisation over exact reals, and `run_sim`:
  - `run_sim` is a nested loop over an `array2` that writes wells in
    place;
  - the loop is proved against the specification functions `Step`, `Apply`
    and `RunSweeps`.

Every random draw is an input. A `Draw` holds:

- the well's coordinates;
- the event type;
- the index that `random.choice` picks from the neighbour list;
- the integer displacement that `hdist_angle` reaches after rounding.

Once those are fixed, every step is deterministic. An IndexError ends the
run. `RunSim` reports it as `raised = true`, and the writes made before the
error stay in place.

Where the code and its documentation disagree, the model follows the code:

- The `killX` event empties a melanophore whose neighbour is a xanthophore.
  It is weighted by `sm`, which is documented as the killing of
  xanthophores by melanophores. `killM` is the mirror case, weighted by
  `sx`.
- `birthM` ignores the iridophore mask. Only `activateM` reads the mask.
- The neighbour-size test `size != 4 | size != 8` parses as the chained
  comparison `size != (4 | size) != 8`. It resets the size to 4 exactly
  when bit 2 of `size` is clear. So a requested size of 8 gives the 4-list,
  and sizes 12 and 5 give the 8-list.
- `nearest_neighbor` does not wrap around the lattice. From row 0 the
  upward neighbour is the last row, reached through negative indexing.
  From the last row the downward neighbour raises IndexError. The same
  holds for columns. `hdist_angle` does wrap, on each axis independently.
- Only a rate sum of exactly zero raises ZeroDivisionError. A negative sum
  is divided by like any other.
- From an empty lattice, a run of `birthX` events alone makes every cell a
  xanthophore only if every cell is drawn.

## Model

| member | source | states |
|---|---|---|
| BaseProcess.BirthX | growingdifgrow/processes/baseprocess.py:8-13 | the result is `X` exactly when the well is `S` or `X`; otherwise it is the well itself |
| BaseProcess.BirthM | growingdifgrow/processes/baseprocess.py:16-21 | the result is `M` exactly when the well is `S` or `M`; otherwise the well; the rule has no iridophore input |
| BaseProcess.ShortKill | growingdifgrow/processes/baseprocess.py:24-29 | the well changes exactly when well and neighbour are `X`/`M` or `M`/`X`, and then becomes `S`, so the rule never creates a pigment cell |
| BaseProcess.LongBirth | growingdifgrow/processes/baseprocess.py:32-37 | the well changes exactly when it is `S` and the origin is `X`, and then becomes `M` |
| BaseProcess.RulesIdempotent | growingdifgrow/processes/baseprocess.py:8-37 | applying any of the four rules twice with the same context equals applying it once |
| NeighborCalc.PyIndex | growingdifgrow/processes/neighborcalc.py:25 | Python indexing by `i` into length `n` succeeds exactly for `-n <= i < n`, gives `i mod n`, and raises IndexError otherwise |
| NeighborCalc.Or4 | growingdifgrow/processes/neighborcalc.py:17 | the bitwise or of 4 and `n` has bit 2 set and keeps all other bits of `n` |
| NeighborCalc.SizeTestResets | growingdifgrow/processes/neighborcalc.py:17-18 | the chained test `size != (4 or size) != 8`, with a bitwise or, holds exactly when bit 2 of `size` is clear |
| NeighborCalc.NeighborList | growingdifgrow/processes/neighborcalc.py:17-24 | the list has 4 entries when the test resets the size or the size is 4, and 8 otherwise |
| NeighborCalc.SizeTestExamples | growingdifgrow/processes/neighborcalc.py:17-24 | sizes 4 and 8 give the 4-list; sizes 12 and 5 give the 8-list |
| NeighborCalc.VonNeumannList | growingdifgrow/processes/neighborcalc.py:20 | the 4-list holds exactly the cells at Manhattan distance 1 from the well |
| NeighborCalc.MooreList | growingdifgrow/processes/neighborcalc.py:22-24 | the 8-list begins with the 4-list, has 8 distinct entries, and holds exactly the cells other than the well at Chebyshev distance 1 |
| NeighborCalc.NearestNeighborIndex | growingdifgrow/processes/neighborcalc.py:15-25 | the picked neighbour resolves exactly when both coordinates lie in Python's index range; it resolves to the coordinates mod rows and cols; otherwise IndexError |
| NeighborCalc.NearestNeighbor | growingdifgrow/processes/neighborcalc.py:15-25 | the state of the picked neighbour under Python indexing, or IndexError exactly when a coordinate is out of range |
| NeighborCalc.NoWrapAtEdges | growingdifgrow/processes/neighborcalc.py:20-25 | from row 0 the upward neighbour is the last row; from the last row the downward neighbour raises IndexError; likewise for columns; interior cells resolve to the listed coordinates |
| NeighborCalc.HdistTarget | growingdifgrow/processes/neighborcalc.py:31-32 | for any integer displacement, the target lies in the lattice and is congruent to `loc + (dx, dy)` on each axis |
| NeighborCalc.HdistAxesIndependent | growingdifgrow/processes/neighborcalc.py:31-32 | the target row depends only on the well's row and `dx`, and the target column only on the well's column and `dy` |
| NeighborCalc.HdistAngle | growingdifgrow/processes/neighborcalc.py:28-33 | the result is the state of an in-range cell congruent to `loc + (dx, dy)` on both axes |
| InitialConditions.Fill | growingdifgrow/initialconditions.py:17 | after `fill(v)` every entry of the array is `v` |
| InitialConditions.Blank | growingdifgrow/initialconditions.py:14-18 | fresh rows × columns arrays: every cell is `S` and no cell holds an iridophore |
| InitialConditions.SliceStop | growingdifgrow/initialconditions.py:26 | the number of rows that `[0:bandwidth]` selects: clipped to the row count, with a negative stop counted from the end |
| InitialConditions.Roll | growingdifgrow/initialconditions.py:27 | `np.roll` along rows: row `i` of the result is row `(i - shift) mod rows` of the input |
| InitialConditions.IridophoreBand | growingdifgrow/initialconditions.py:21-28 | fresh arrays: every cell is `S`; a mask entry is set exactly when its row is a band row, so whole rows are set or clear |
| InitialConditions.BandIsCentred | growingdifgrow/initialconditions.py:26-27 | for 0 <= bandwidth <= rows the band rows are the contiguous run from `floor((rows - bandwidth) / 2)`; they do not wrap, and the rows left below the band number the same as above or one more |
| InitialConditions.DefaultBandRow | growingdifgrow/initialconditions.py:21-27 | with the default bandwidth of 1 the only band row is `floor((rows - 1) / 2)` |
| InitialConditions.WideBandCoversAll | growingdifgrow/initialconditions.py:26-27 | a bandwidth of at least the row count marks every row |
| InitialConditions.BandRowCount | growingdifgrow/initialconditions.py:25-27 | for 0 <= bandwidth <= rows exactly `bandwidth` rows are band rows |
| Simulation.Normalise | growingdifgrow_main.py:45-48 | ZeroDivisionError exactly when the rate sum is zero; otherwise seven probabilities, each equal to its event's rate divided by the sum, aligned with the event list |
| Simulation.NormaliseIsDistribution | growingdifgrow_main.py:45-48 | non-negative rates with a non-zero sum give non-negative probabilities that sum to 1 |
| Simulation.EventIndex | growingdifgrow_main.py:46 | each event type sits at its index in the event list |
| Simulation.ZeroRateZeroProbability | growingdifgrow_main.py:47-48 | an event type with a zero rate gets probability zero |
| Simulation.SimSetup | growingdifgrow_main.py:42-49 | a fresh all-`S` lattice with an empty mask, the event list in source order, and the normalised probabilities |
| Simulation.Step | growingdifgrow_main.py:63-119 | one event writes at most its own well; it raises IndexError exactly when `killX` meets an `M` well or `killM` an `X` well and the picked neighbour is out of range |
| Simulation.Apply | growingdifgrow_main.py:58-119 | the events of one sweep in drawn order, each on the lattice left by the ones before; the first IndexError ends the run; the lattice keeps its shape |
| Simulation.RunSweeps | growingdifgrow_main.py:58-119 | the sweeps one after another, stopping at the first IndexError; the lattice keeps its shape |
| Simulation.ApplyEvent | growingdifgrow_main.py:63-119 | the in-place loop body leaves the array holding the lattice `Step` gives, and it reports an IndexError exactly when `Step` raises |
| Simulation.RunSim | growingdifgrow_main.py:52-121 | after the nested loop the array's contents are the lattice that `RunSweeps` gives from its initial contents; the result flags the IndexError; the mask is not written |
| Simulation.StepFollowsRules | growingdifgrow_main.py:63-119 | each event type's change to the well: births follow `BirthX`/`BirthM`; deaths empty an `X`/`M` well; `killX` on `M` and `killM` on `X` follow `ShortKill` with the sampled neighbour; `activateM` off the mask follows `LongBirth` with the long-range point, and on the mask changes nothing |
| Simulation.MaskReadOnlyByActivation | growingdifgrow_main.py:67-119 | every event other than `activateM` has the same effect whatever the mask holds |
| Simulation.BirthMIgnoresMask | growingdifgrow_main.py:103-105 | `birthM` turns an empty well on an iridophore into a melanophore |
| Simulation.UndrawnCellsUnchanged | growingdifgrow_main.py:63-65 | a well that no event of the sweep draws keeps its state |
| Simulation.ApplyAppend | growingdifgrow_main.py:58-65 | the run of two event sequences in a row is the run of the first, then, unless it raised, the run of the second on the lattice it left |
| Simulation.RunSweepsIsFlatRun | growingdifgrow_main.py:58-63 | sweep boundaries do not matter: a run of sweeps is the run of all their events in order |
| Simulation.OrderMatters | growingdifgrow_main.py:64-113 | each event re-reads its well: birth then death at an empty well restores the lattice, while death then birth leaves a xanthophore |
| Simulation.MaskPermanence | growingdifgrow_main.py:67-105 | with no `birthM` event, a masked well that is not a melanophore does not become one |
| Simulation.FlattenHasNoBirthM | growingdifgrow_main.py:61 | when `birthM` has probability zero and every drawn event has non-zero probability, no drawn event is `birthM` |
| Simulation.ZeroBirthMRateKeepsMaskFree | growingdifgrow_main.py:61-105 | with `bm = 0`, a whole run keeps every masked well that is not a melanophore free of melanophores |
| Simulation.BirthXOnlyRun | growingdifgrow_main.py:97-101 | a run of `birthX` events alone never raises; a drawn well ends as `BirthX` of its starting state, so an empty drawn well becomes a xanthophore; an undrawn well is unchanged |

## Left out

- Random number generation is not modelled. This covers
  `np.random.randint`, `np.random.choice`, `random.choice` and
  `random.random`. The draws are inputs to the model. Where a property
  needs it, the model states that an event with probability zero is never
  drawn.
- Floating-point geometry is not modelled. This covers `hdist_angle`'s
  angle, cosine, sine and round-half-to-even. The displacement after
  rounding is an input. As a result, the ring shape of the long-range
  kernel and the distance `h` are not modelled, and `h` is not a parameter.
- Rates are exact reals. The model does not capture floating-point
  rounding in the division by the rate sum.
- `random_start` is not modelled because it depends on the random generator
  and on floating-point thresholds.
- `plotter`, matplotlib display, timing and the `__main__` block are
  rendering and I/O.
- `growingdifgrow/growingdifgrow.py` is not part of this model. It calls
  process functions that the process module does not define, and it calls
  `long_birth` with a different number of arguments.
- The globals set by `sim_parameters` and `reaction_rates` are passed as
  parameters.
- setup.py is packaging metadata and is not modelled.
- NumPy's uint8/uint16 index dtypes are not modelled. Coordinates are
  mathematical integers. This means `row - 1` at row 0 is -1 and reaches
  the last row, as under NumPy's value-based promotion before version 2.
  Under NumPy 2 promotion, the unsigned index would instead wrap to 255 or
  65535.
- Lattice dimensions are natural numbers. NumPy's ValueError for a negative
  dimension is not modelled.
- Cells are a three-constructor datatype rather than one-character strings.
  So every rule keeps a lattice within {S, X, M} by its type, and no
  separate closure lemma is needed.
- The `continue` statements in `run_sim` become branches that leave the
  array unwritten.
- Simulation.Apply: its own contract states only that the shape is kept.
  What a run does is stated by the lemmas about it: StepFollowsRules,
  UndrawnCellsUnchanged, ApplyAppend, MaskPermanence and BirthXOnlyRun.
- Simulation.RunSweeps: its own contract states only that the shape is
  kept. RunSweepsIsFlatRun and ZeroBirthMRateKeepsMaskFree state the rest.
