/** The simulation driver: the seven event types and their rates, the
    normalisation of the rates into probabilities, and the sweep that
    applies drawn events to the lattice one after another, in place.

    The random draws arrive as data: each event is a `Draw` holding the
    well's coordinates, the event type, the index that `random.choice`
    picks from the neighbour list and the long-range displacement. */
module Simulation {
  import opened Lattice
  import BaseProcess
  import opened NeighborCalc
  import InitialConditions

  /** The event types, in the order of the event list. */
  datatype Event = BirthX | BirthM | DeathX | DeathM | KillX | KillM | ActivateM

  const EventList: seq<Event> := [BirthX, BirthM, DeathX, DeathM, KillX, KillM, ActivateM]

  /** The seven rate constants. `sm` is documented as the killing of
      xanthophores by melanophores and `sx` as the reverse. */
  datatype Rates = Rates(bx: real, bm: real, dx: real, dm: real, sm: real, sx: real, lx: real)

  /** The rate by which each event type is weighted. */
  function RateOf(rates: Rates, e: Event): real {
    match e
    case BirthX => rates.bx
    case BirthM => rates.bm
    case DeathX => rates.dx
    case DeathM => rates.dm
    case KillX => rates.sm
    case KillM => rates.sx
    case ActivateM => rates.lx
  }

  function SumRates(rates: Rates): real {
    rates.bx + rates.bm + rates.dx + rates.dm + rates.sm + rates.sx + rates.lx
  }

  function Sum(xs: seq<real>): real {
    if xs == [] then 0.0 else xs[0] + Sum(xs[1..])
  }

  /** The probability list: each rate divided by the sum of the rates,
      index-aligned with the event list. A zero sum raises
      ZeroDivisionError; a negative sum is divided by like any other. */
  function Normalise(rates: Rates): (r: Result<seq<real>>)
    ensures r.Err? <==> SumRates(rates) == 0.0
    ensures r.Err? ==> r.error == ZeroDivisionError
    ensures r.Ok? ==> |r.value| == |EventList|
    ensures r.Ok? ==>
      forall i :: 0 <= i < |EventList| ==> r.value[i] * SumRates(rates) == RateOf(rates, EventList[i])
  {
    var s := SumRates(rates);
    if s == 0.0 then Err(ZeroDivisionError)
    else Ok([rates.bx / s, rates.bm / s, rates.dx / s, rates.dm / s, rates.sm / s, rates.sx / s, rates.lx / s])
  }

  predicate NonNegative(rates: Rates) {
    0.0 <= rates.bx && 0.0 <= rates.bm && 0.0 <= rates.dx && 0.0 <= rates.dm &&
    0.0 <= rates.sm && 0.0 <= rates.sx && 0.0 <= rates.lx
  }

  /** Non-negative rates with a non-zero sum give a probability
      distribution: every entry is non-negative and the entries sum to 1. */
  lemma NormaliseIsDistribution(rates: Rates)
    requires NonNegative(rates) && SumRates(rates) != 0.0
    ensures Normalise(rates).Ok?
    ensures forall i :: 0 <= i < |Normalise(rates).value| ==> 0.0 <= Normalise(rates).value[i]
    ensures Sum(Normalise(rates).value) == 1.0
  {
    var s := SumRates(rates);
    var p := Normalise(rates).value;
    assert p == [rates.bx / s, rates.bm / s, rates.dx / s, rates.dm / s, rates.sm / s, rates.sx / s, rates.lx / s];
    assert Sum(p) == 1.0 by {
      ScaledSumOfSeven(rates.bx, rates.bm, rates.dx, rates.dm, rates.sm, rates.sx, rates.lx, s);
      assert s / s == 1.0;
    }
    assert forall i :: 0 <= i < |p| ==> 0.0 <= p[i] by {
      DivNonNegative(rates.bx, s);
      DivNonNegative(rates.bm, s);
      DivNonNegative(rates.dx, s);
      DivNonNegative(rates.dm, s);
      DivNonNegative(rates.sm, s);
      DivNonNegative(rates.sx, s);
      DivNonNegative(rates.lx, s);
    }
  }

  lemma ScaledSumOfSeven(a: real, b: real, c: real, d: real, e: real, f: real, g: real, s: real)
    requires s != 0.0
    ensures Sum([a / s, b / s, c / s, d / s, e / s, f / s, g / s]) == (a + b + c + d + e + f + g) / s
  {
    SumOfSeven(a / s, b / s, c / s, d / s, e / s, f / s, g / s);
    DivAdd(a, b, s);
    DivAdd(a + b, c, s);
    DivAdd(a + b + c, d, s);
    DivAdd(a + b + c + d, e, s);
    DivAdd(a + b + c + d + e, f, s);
    DivAdd(a + b + c + d + e + f, g, s);
  }

  lemma DivNonNegative(a: real, s: real)
    requires 0.0 <= a && 0.0 < s
    ensures 0.0 <= a / s
  {
  }

  lemma DivAdd(a: real, b: real, s: real)
    requires s != 0.0
    ensures a / s + b / s == (a + b) / s
  {
  }

  lemma SumOfSeven(a: real, b: real, c: real, d: real, e: real, f: real, g: real)
    ensures Sum([a, b, c, d, e, f, g]) == a + b + c + d + e + f + g
  {
    assert Sum([g]) == g by { assert [g][1..] == []; }
    assert Sum([f, g]) == f + g by { assert [f, g][1..] == [g]; }
    assert Sum([e, f, g]) == e + f + g by { assert [e, f, g][1..] == [f, g]; }
    assert Sum([d, e, f, g]) == d + e + f + g by { assert [d, e, f, g][1..] == [e, f, g]; }
    assert Sum([c, d, e, f, g]) == c + d + e + f + g by { assert [c, d, e, f, g][1..] == [d, e, f, g]; }
    assert Sum([b, c, d, e, f, g]) == b + c + d + e + f + g by {
      assert [b, c, d, e, f, g][1..] == [c, d, e, f, g];
    }
    assert [a, b, c, d, e, f, g][1..] == [b, c, d, e, f, g];
  }

  /** The position of each event type in the event list. */
  function EventIndex(e: Event): (i: nat)
    ensures i < |EventList| && EventList[i] == e
  {
    match e
    case BirthX => 0
    case BirthM => 1
    case DeathX => 2
    case DeathM => 3
    case KillX => 4
    case KillM => 5
    case ActivateM => 6
  }

  /** An event type with a zero rate has probability zero, so a draw
      weighted by the probability list never yields it. */
  lemma ZeroRateZeroProbability(rates: Rates, e: Event)
    requires Normalise(rates).Ok? && RateOf(rates, e) == 0.0
    ensures Normalise(rates).value[EventIndex(e)] == 0.0
  {
    var i := EventIndex(e);
    assert Normalise(rates).value[i] * SumRates(rates) == 0.0;
  }

  /** `sim_setup`: a blank lattice and mask, the event list and the
      probability list. */
  method SimSetup(rows: nat, cols: nat, rates: Rates)
    returns (grid: array2<Cell>, irid: array2<bool>, eventList: seq<Event>, probabilities: Result<seq<real>>)
    ensures fresh(grid) && fresh(irid)
    ensures grid.Length0 == rows && grid.Length1 == cols && irid.Length0 == rows && irid.Length1 == cols
    ensures forall i, j :: 0 <= i < rows && 0 <= j < cols ==> grid[i, j] == S && !irid[i, j]
    ensures eventList == EventList
    ensures probabilities == Normalise(rates)
  {
    grid, irid := InitialConditions.Blank(rows, cols);
    eventList := EventList;
    probabilities := Normalise(rates);
  }

  /** One drawn event: the well at (row, col), the event type, the index
      of the neighbour `random.choice` picks, and the long-range
      displacement: `round(row + h * cos(angle)) - row` rows and
      `round(col + h * sin(angle)) - col` columns. */
  datatype Draw = Draw(row: nat, col: nat, event: Event, choice: nat, dx: int, dy: int)

  /** What the random draws guarantee: the well lies in the lattice and the
      neighbour index is one of the four of a 4-list. */
  predicate ValidDraw(d: Draw, rows: nat, cols: nat) {
    d.row < rows && d.col < cols && d.choice < 4
  }

  predicate ValidDraws(ds: seq<Draw>, rows: nat, cols: nat) {
    forall k :: 0 <= k < |ds| ==> ValidDraw(ds[k], rows, cols)
  }

  /** One pass of the loop body of `run_sim`: the new lattice, or the
      IndexError that `nearest_neighbor` raises for a neighbour past the
      last row or column. Only the well may change. */
  function Step(g: Grid<Cell>, irid: Grid<bool>, rows: nat, cols: nat, d: Draw): (r: Result<Grid<Cell>>)
    requires Shaped(g, rows, cols) && Shaped(irid, rows, cols) && ValidDraw(d, rows, cols)
    ensures r.Ok? ==> Shaped(r.value, rows, cols)
    ensures r.Ok? ==> forall i, j :: 0 <= i < rows && 0 <= j < cols && (i, j) != (d.row, d.col) ==>
      r.value[i][j] == g[i][j]
    ensures r.Err? <==>
      && ((d.event == KillX && g[d.row][d.col] == M) || (d.event == KillM && g[d.row][d.col] == X))
      && NearestNeighbor((d.row, d.col), g, rows, cols, d.choice, size := 4).Err?
    ensures r.Err? ==> r.error == IndexError
  {
    var loc := (d.row, d.col);
    var well := g[d.row][d.col];
    match d.event
    case ActivateM =>
      if well == S && !irid[d.row][d.col] then
        var point := HdistAngle(loc, g, rows, cols, d.dx, d.dy);
        if point == X then Ok(Set(g, d.row, d.col, M)) else Ok(g)
      else Ok(g)
    case KillX =>
      if well == M then
        match NearestNeighbor(loc, g, rows, cols, d.choice, size := 4)
        case Err(e) => Err(e)
        case Ok(neigh) => if neigh == X then Ok(Set(g, d.row, d.col, S)) else Ok(g)
      else Ok(g)
    case KillM =>
      if well == X then
        match NearestNeighbor(loc, g, rows, cols, d.choice, size := 4)
        case Err(e) => Err(e)
        case Ok(neigh) => if neigh == M then Ok(Set(g, d.row, d.col, S)) else Ok(g)
      else Ok(g)
    case BirthX => if well == S then Ok(Set(g, d.row, d.col, X)) else Ok(g)
    case BirthM => if well == S then Ok(Set(g, d.row, d.col, M)) else Ok(g)
    case DeathX => if well == X then Ok(Set(g, d.row, d.col, S)) else Ok(g)
    case DeathM => if well == M then Ok(Set(g, d.row, d.col, S)) else Ok(g)
  }

  /** The lattice after a run of events, and whether an IndexError stopped
      it; a stopped run keeps the writes made before the failing event. */
  datatype Outcome = Outcome(grid: Grid<Cell>, raised: bool)

  /** The events applied strictly in the order drawn, each to the lattice
      left by the ones before it; the first IndexError ends the run. */
  function Apply(g: Grid<Cell>, irid: Grid<bool>, rows: nat, cols: nat, ds: seq<Draw>): (o: Outcome)
    requires Shaped(g, rows, cols) && Shaped(irid, rows, cols) && ValidDraws(ds, rows, cols)
    ensures Shaped(o.grid, rows, cols)
    decreases |ds|
  {
    if ds == [] then Outcome(g, false)
    else
      match Step(g, irid, rows, cols, ds[0])
      case Err(_) => Outcome(g, true)
      case Ok(g') => Apply(g', irid, rows, cols, ds[1..])
  }

  predicate ValidSweeps(ss: seq<seq<Draw>>, rows: nat, cols: nat) {
    forall k :: 0 <= k < |ss| ==> ValidDraws(ss[k], rows, cols)
  }

  /** The sweeps applied one after another; an IndexError ends the run. */
  function RunSweeps(g: Grid<Cell>, irid: Grid<bool>, rows: nat, cols: nat, ss: seq<seq<Draw>>): (o: Outcome)
    requires Shaped(g, rows, cols) && Shaped(irid, rows, cols) && ValidSweeps(ss, rows, cols)
    ensures Shaped(o.grid, rows, cols)
    decreases |ss|
  {
    if ss == [] then Outcome(g, false)
    else
      var o := Apply(g, irid, rows, cols, ss[0]);
      if o.raised then o else RunSweeps(o.grid, irid, rows, cols, ss[1..])
  }

  /** `run_sim`: `sweeps` holds `numLoop` batches of `perLoop` drawn events,
      applied in place to `grid`. The result is the run of `RunSweeps`;
      the mask is only read. */
  method RunSim(grid: array2<Cell>, irid: array2<bool>, rows: nat, cols: nat,
                numLoop: nat, perLoop: nat, sweeps: seq<seq<Draw>>)
    returns (raised: bool)
    requires grid.Length0 == rows && grid.Length1 == cols
    requires irid.Length0 == rows && irid.Length1 == cols
    requires |sweeps| == numLoop && forall k :: 0 <= k < numLoop ==> |sweeps[k]| == perLoop
    requires ValidSweeps(sweeps, rows, cols)
    modifies grid
    ensures var o := RunSweeps(old(Contents(grid)), Contents(irid), rows, cols, sweeps);
      Contents(grid) == o.grid && raised == o.raised
  {
    ghost var mask := Contents(irid);
    ghost var result := RunSweeps(Contents(grid), mask, rows, cols, sweeps);
    ghost var cur := Contents(grid);
    raised := false;
    for loop := 0 to numLoop
      invariant Shaped(cur, rows, cols) && Holds(grid, cur)
      invariant result == RunSweeps(cur, mask, rows, cols, sweeps[loop..])
    {
      assert sweeps[loop..][1..] == sweeps[loop + 1..];
      ghost var batch := sweeps[loop];
      for i := 0 to perLoop
        invariant Shaped(cur, rows, cols) && Holds(grid, cur)
        invariant result == Continue(Apply(cur, mask, rows, cols, batch[i..]), mask, rows, cols, sweeps[loop + 1..])
      {
        assert batch[i..][1..] == batch[i + 1..];
        raised := ApplyEvent(grid, irid, rows, cols, sweeps[loop][i], cur, mask);
        if raised {
          HoldsContents(grid, cur);
          return;
        }
        cur := Step(cur, mask, rows, cols, sweeps[loop][i]).value;
      }
    }
    HoldsContents(grid, cur);
  }

  /** The rest of a run after one sweep ended with outcome `o`. */
  function Continue(o: Outcome, irid: Grid<bool>, rows: nat, cols: nat, rest: seq<seq<Draw>>): Outcome
    requires Shaped(o.grid, rows, cols) && Shaped(irid, rows, cols) && ValidSweeps(rest, rows, cols)
  {
    if o.raised then o else RunSweeps(o.grid, irid, rows, cols, rest)
  }

  /** The loop body of `run_sim` for one drawn event `d`: it reads the
      well, resolves the neighbour or the long-range point when the event
      needs one, and writes the well in place. `g` and `mask` are the
      values that `grid` and `irid` hold. */
  method ApplyEvent(grid: array2<Cell>, irid: array2<bool>, rows: nat, cols: nat, d: Draw,
                    ghost g: Grid<Cell>, ghost mask: Grid<bool>)
    returns (raised: bool)
    requires grid.Length0 == rows && grid.Length1 == cols && Holds(grid, g)
    requires irid.Length0 == rows && irid.Length1 == cols && Holds(irid, mask)
    requires ValidDraw(d, rows, cols)
    modifies grid
    ensures var r := Step(g, mask, rows, cols, d);
      && raised == r.Err?
      && Holds(grid, if r.Ok? then r.value else g)
  {
    raised := false;
    var well := grid[d.row, d.col];

    if d.event == ActivateM {
      if well == S && !irid[d.row, d.col] {
        var t := HdistTarget((d.row, d.col), d.dx, d.dy, rows, cols);
        var point := grid[t.0, t.1];
        if point == X {
          grid[d.row, d.col] := M;
        }
      }

    } else if d.event == KillX {
      if well == M {
        var n := NearestNeighborIndex((d.row, d.col), rows, cols, d.choice, size := 4);
        if n.Err? {
          return true;
        }
        var neigh := grid[n.value.0, n.value.1];
        if neigh == X {
          grid[d.row, d.col] := S;
        }
      }

    } else if d.event == KillM {
      if well == X {
        var n := NearestNeighborIndex((d.row, d.col), rows, cols, d.choice, size := 4);
        if n.Err? {
          return true;
        }
        var neigh := grid[n.value.0, n.value.1];
        if neigh == M {
          grid[d.row, d.col] := S;
        }
      }

    } else if d.event == BirthX {
      if well == S {
        grid[d.row, d.col] := X;
      }

    } else if d.event == BirthM {
      if well == S {
        grid[d.row, d.col] := M;
      }

    } else if d.event == DeathX {
      if well == X {
        grid[d.row, d.col] := S;
      }

    } else if d.event == DeathM {
      if well == M {
        grid[d.row, d.col] := S;
      }
    }
  }

  /** The loop body of `run_sim` agrees with the rules of the process
      module wherever the driver consults the same context: a birth is
      `BirthX`/`BirthM` (the latter without looking at the mask), `killX`
      on a melanophore and `killM` on a xanthophore are `ShortKill` with the
      sampled neighbour, and `activateM` off the mask is `LongBirth` with
      the long-range point. So `killX`, weighted by `sm`, empties only
      melanophores, and `killM`, weighted by `sx`, only xanthophores. */
  lemma StepFollowsRules(g: Grid<Cell>, irid: Grid<bool>, rows: nat, cols: nat, d: Draw)
    requires Shaped(g, rows, cols) && Shaped(irid, rows, cols) && ValidDraw(d, rows, cols)
    requires Step(g, irid, rows, cols, d).Ok?
    ensures var w := g[d.row][d.col];
      var w' := Step(g, irid, rows, cols, d).value[d.row][d.col];
      match d.event
      case BirthX => w' == BaseProcess.BirthX(w)
      case BirthM => w' == BaseProcess.BirthM(w)
      case DeathX => w' == if w == X then S else w
      case DeathM => w' == if w == M then S else w
      case KillX =>
        w' == if w == M then BaseProcess.ShortKill(w, NearestNeighbor((d.row, d.col), g, rows, cols, d.choice, size := 4).value)
              else w
      case KillM =>
        w' == if w == X then BaseProcess.ShortKill(w, NearestNeighbor((d.row, d.col), g, rows, cols, d.choice, size := 4).value)
              else w
      case ActivateM =>
        w' == if irid[d.row][d.col] then w
              else BaseProcess.LongBirth(w, HdistAngle((d.row, d.col), g, rows, cols, d.dx, d.dy))
  {
  }

  /** Only `activateM` reads the iridophore mask. */
  lemma MaskReadOnlyByActivation(g: Grid<Cell>, irid: Grid<bool>, irid': Grid<bool>, rows: nat, cols: nat, d: Draw)
    requires Shaped(g, rows, cols) && Shaped(irid, rows, cols) && Shaped(irid', rows, cols)
    requires ValidDraw(d, rows, cols) && d.event != ActivateM
    ensures Step(g, irid, rows, cols, d) == Step(g, irid', rows, cols, d)
  {
  }

  /** A `birthM` event turns an empty well into a melanophore even on an
      iridophore. */
  lemma BirthMIgnoresMask(g: Grid<Cell>, irid: Grid<bool>, rows: nat, cols: nat, d: Draw)
    requires Shaped(g, rows, cols) && Shaped(irid, rows, cols) && ValidDraw(d, rows, cols)
    requires d.event == BirthM && g[d.row][d.col] == S && irid[d.row][d.col]
    ensures Step(g, irid, rows, cols, d).Ok? && Step(g, irid, rows, cols, d).value[d.row][d.col] == M
  {
  }

  /** A cell that no event draws keeps its state through the whole run. */
  lemma {:induction false} UndrawnCellsUnchanged(g: Grid<Cell>, irid: Grid<bool>, rows: nat, cols: nat,
                                                 ds: seq<Draw>, i: nat, j: nat)
    requires Shaped(g, rows, cols) && Shaped(irid, rows, cols) && ValidDraws(ds, rows, cols)
    requires i < rows && j < cols
    requires forall k :: 0 <= k < |ds| ==> (ds[k].row, ds[k].col) != (i, j)
    ensures Apply(g, irid, rows, cols, ds).grid[i][j] == g[i][j]
    decreases |ds|
  {
    if ds != [] {
      match Step(g, irid, rows, cols, ds[0])
      case Err(_) =>
      case Ok(g') =>
        UndrawnCellsUnchanged(g', irid, rows, cols, ds[1..], i, j);
    }
  }

  /** The run of `xs + ys` is the run of `xs` followed, unless it raised, by
      the run of `ys` on the lattice it left: events act strictly in drawn
      order and each sees every write before it. */
  lemma {:induction false} ApplyAppend(g: Grid<Cell>, irid: Grid<bool>, rows: nat, cols: nat,
                                       xs: seq<Draw>, ys: seq<Draw>)
    requires Shaped(g, rows, cols) && Shaped(irid, rows, cols)
    requires ValidDraws(xs, rows, cols) && ValidDraws(ys, rows, cols)
    ensures ValidDraws(xs + ys, rows, cols)
    ensures var o := Apply(g, irid, rows, cols, xs);
      Apply(g, irid, rows, cols, xs + ys) == if o.raised then o else Apply(o.grid, irid, rows, cols, ys)
    decreases |xs|
  {
    assert ValidDraws(xs + ys, rows, cols) by {
      forall k | 0 <= k < |xs + ys|
        ensures ValidDraw((xs + ys)[k], rows, cols)
      {
        if k < |xs| { assert (xs + ys)[k] == xs[k]; } else { assert (xs + ys)[k] == ys[k - |xs|]; }
      }
    }
    if xs == [] {
      assert xs + ys == ys;
    } else {
      assert (xs + ys)[0] == xs[0] && (xs + ys)[1..] == xs[1..] + ys;
      match Step(g, irid, rows, cols, xs[0])
      case Err(_) =>
      case Ok(g') =>
        ApplyAppend(g', irid, rows, cols, xs[1..], ys);
    }
  }

  /** All events of all sweeps, in order. */
  function Flatten(ss: seq<seq<Draw>>): seq<Draw> {
    if ss == [] then [] else ss[0] + Flatten(ss[1..])
  }

  /** Sweep boundaries make no difference: a run of sweeps is the run of
      all their events in order. */
  lemma {:induction false} RunSweepsIsFlatRun(g: Grid<Cell>, irid: Grid<bool>, rows: nat, cols: nat,
                                              ss: seq<seq<Draw>>)
    requires Shaped(g, rows, cols) && Shaped(irid, rows, cols) && ValidSweeps(ss, rows, cols)
    ensures ValidDraws(Flatten(ss), rows, cols)
    ensures RunSweeps(g, irid, rows, cols, ss) == Apply(g, irid, rows, cols, Flatten(ss))
    decreases |ss|
  {
    if ss != [] {
      var o := Apply(g, irid, rows, cols, ss[0]);
      RunSweepsIsFlatRun(o.grid, irid, rows, cols, ss[1..]);
      ApplyAppend(g, irid, rows, cols, ss[0], Flatten(ss[1..]));
      if o.raised {
        assert RunSweeps(g, irid, rows, cols, ss) == o;
      }
    }
  }

  /** Reading the well afresh for every event makes order matter: a birth
      then a death at the same empty well leaves the lattice as it was,
      while a death then a birth leaves a xanthophore. */
  lemma OrderMatters(g: Grid<Cell>, irid: Grid<bool>, rows: nat, cols: nat, r: nat, c: nat)
    requires Shaped(g, rows, cols) && Shaped(irid, rows, cols) && r < rows && c < cols
    requires g[r][c] == S
    ensures var birth := Draw(r, c, BirthX, 0, 0, 0);
      var death := Draw(r, c, DeathX, 0, 0, 0);
      && Apply(g, irid, rows, cols, [birth, death]) == Outcome(g, false)
      && Apply(g, irid, rows, cols, [death, birth]).grid[r][c] == X
  {
    var birth := Draw(r, c, BirthX, 0, 0, 0);
    var death := Draw(r, c, DeathX, 0, 0, 0);
    var g1 := Set(g, r, c, X);
    assert Step(g, irid, rows, cols, birth) == Ok(g1);
    assert Set(g1, r, c, S) == g by {
      assert g1[r][c := S] == g[r];
    }
    assert Step(g1, irid, rows, cols, death) == Ok(g);
    calc {
      Apply(g, irid, rows, cols, [birth, death]);
      { assert [birth, death][1..] == [death]; }
      Apply(g1, irid, rows, cols, [death]);
      { assert [death][1..] == []; }
      Apply(g, irid, rows, cols, []);
    }
    assert Step(g, irid, rows, cols, death) == Ok(g);
    assert Step(g, irid, rows, cols, birth) == Ok(g1);
    calc {
      Apply(g, irid, rows, cols, [death, birth]);
      { assert [death, birth][1..] == [birth]; }
      Apply(g, irid, rows, cols, [birth]);
      { assert [birth][1..] == []; }
      Apply(g1, irid, rows, cols, []);
    }
  }

  predicate NoBirthM(ds: seq<Draw>) {
    forall k :: 0 <= k < |ds| ==> ds[k].event != BirthM
  }

  /** Without `birthM` events, an iridophore cell that is not a
      melanophore never becomes one: `activateM` checks the mask and every
      other event makes a xanthophore or empties the well. */
  lemma {:induction false} MaskPermanence(g: Grid<Cell>, irid: Grid<bool>, rows: nat, cols: nat,
                                          ds: seq<Draw>, i: nat, j: nat)
    requires Shaped(g, rows, cols) && Shaped(irid, rows, cols) && ValidDraws(ds, rows, cols)
    requires NoBirthM(ds) && i < rows && j < cols && irid[i][j] && g[i][j] != M
    ensures Apply(g, irid, rows, cols, ds).grid[i][j] != M
    decreases |ds|
  {
    if ds != [] {
      match Step(g, irid, rows, cols, ds[0])
      case Err(_) =>
      case Ok(g') =>
        assert g'[i][j] != M;
        MaskPermanence(g', irid, rows, cols, ds[1..], i, j);
    }
  }

  /** With a zero `bm` rate, no `birthM` event is ever drawn, so a whole run
      keeps every iridophore cell that is not a melanophore free of them. */
  lemma ZeroBirthMRateKeepsMaskFree(rates: Rates, g: Grid<Cell>, irid: Grid<bool>, rows: nat, cols: nat,
                                    ss: seq<seq<Draw>>, i: nat, j: nat)
    requires Normalise(rates).Ok? && rates.bm == 0.0
    requires forall k :: 0 <= k < |ss| ==>
      forall n :: 0 <= n < |ss[k]| ==> Normalise(rates).value[EventIndex(ss[k][n].event)] != 0.0
    requires Shaped(g, rows, cols) && Shaped(irid, rows, cols) && ValidSweeps(ss, rows, cols)
    requires i < rows && j < cols && irid[i][j] && g[i][j] != M
    ensures RunSweeps(g, irid, rows, cols, ss).grid[i][j] != M
  {
    ZeroRateZeroProbability(rates, BirthM);
    RunSweepsIsFlatRun(g, irid, rows, cols, ss);
    FlattenHasNoBirthM(rates, ss);
    MaskPermanence(g, irid, rows, cols, Flatten(ss), i, j);
  }

  lemma {:induction false} FlattenHasNoBirthM(rates: Rates, ss: seq<seq<Draw>>)
    requires Normalise(rates).Ok? && Normalise(rates).value[EventIndex(BirthM)] == 0.0
    requires forall k :: 0 <= k < |ss| ==>
      forall n :: 0 <= n < |ss[k]| ==> Normalise(rates).value[EventIndex(ss[k][n].event)] != 0.0
    ensures NoBirthM(Flatten(ss))
    decreases |ss|
  {
    if ss != [] {
      FlattenHasNoBirthM(rates, ss[1..]);
      var f := Flatten(ss);
      forall k | 0 <= k < |f|
        ensures f[k].event != BirthM
      {
        if k < |ss[0]| {
          assert f[k] == ss[0][k];
        } else {
          assert f[k] == Flatten(ss[1..])[k - |ss[0]|];
        }
      }
    }
  }

  /** Whether some event of `ds` draws the well (i, j). */
  predicate Drawn(ds: seq<Draw>, i: nat, j: nat) {
    exists k :: 0 <= k < |ds| && ds[k].row == i && ds[k].col == j
  }

  /** A run of `birthX` events only never raises, and turns exactly the
      drawn empty wells into xanthophores. From an all-empty lattice every
      cell ends as a xanthophore precisely when every cell was drawn. */
  lemma {:induction false} BirthXOnlyRun(g: Grid<Cell>, irid: Grid<bool>, rows: nat, cols: nat,
                                         ds: seq<Draw>, i: nat, j: nat)
    requires Shaped(g, rows, cols) && Shaped(irid, rows, cols) && ValidDraws(ds, rows, cols)
    requires forall k :: 0 <= k < |ds| ==> ds[k].event == BirthX
    requires i < rows && j < cols
    ensures !Apply(g, irid, rows, cols, ds).raised
    ensures Apply(g, irid, rows, cols, ds).grid[i][j] ==
      if Drawn(ds, i, j) then BaseProcess.BirthX(g[i][j]) else g[i][j]
    decreases |ds|
  {
    if ds != [] {
      var g' := Step(g, irid, rows, cols, ds[0]).value;
      BirthXOnlyRun(g', irid, rows, cols, ds[1..], i, j);
      BaseProcess.RulesIdempotent(g[i][j], g[i][j]);
      if Drawn(ds[1..], i, j) {
        var k :| 0 <= k < |ds[1..]| && ds[1..][k].row == i && ds[1..][k].col == j;
        assert ds[k + 1] == ds[1..][k];
      }
      if (ds[0].row, ds[0].col) != (i, j) && Drawn(ds, i, j) {
        var k :| 0 <= k < |ds| && ds[k].row == i && ds[k].col == j;
        assert k > 0 && ds[1..][k - 1] == ds[k];
      }
    }
  }
}
