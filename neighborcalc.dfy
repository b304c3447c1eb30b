/** Which cell supplies the context for a well: a short-range neighbour
    picked from a 4- or 8-element list, or a long-range point reached by an
    integer offset. The random pick and the rounded offset arrive as
    arguments; neither function changes the lattice. */
module NeighborCalc {
  import opened Lattice

  function Abs(n: int): nat {
    if n < 0 then -n else n
  }

  /** Python's indexing of a sequence of length `n` by `i`: a negative index
      counts from the end, and anything outside [-n, n) raises IndexError. */
  function PyIndex(i: int, n: nat): (r: Result<nat>)
    ensures r.Ok? <==> 0 <= i + n && i < n
    ensures r.Ok? ==> r.value == i % n
    ensures r.Err? ==> r.error == IndexError
  {
    if 0 <= i < n then Ok(i)
    else if 0 <= i + n && i < 0 then Ok(i + n)
    else Err(IndexError)
  }

  /** Python's `4 | n` on an integer of any sign: bit 2 is set and every
      other bit of `n` is kept. */
  function Or4(n: int): (r: int)
    ensures r % 8 >= 4
    ensures r / 8 == n / 8 && r % 4 == n % 4
  {
    if n % 8 < 4 then n + 4 else n
  }

  /** The test `size != 4 | size != 8`. The bitwise or binds tighter than the
      comparisons, so Python reads it as the chained comparison
      `size != (4 | size) != 8`; it holds exactly when bit 2 of `size` is
      clear. */
  function SizeTestResets(size: int): (reset: bool)
    ensures reset <==> size % 8 < 4
  {
    size != Or4(size) && Or4(size) != 8
  }

  /** The candidate neighbours of `loc` after the size test: the von Neumann
      list when the test resets `size` to 4 or `size` is 4, the Moore list
      otherwise. */
  function NeighborList(loc: (int, int), size: int := 4): (r: seq<(int, int)>)
    ensures |r| == if size % 8 < 4 || size == 4 then 4 else 8
  {
    var size' := if SizeTestResets(size) then 4 else size;
    if size' == 4 then
      [(loc.0 - 1, loc.1), (loc.0 + 1, loc.1), (loc.0, loc.1 - 1), (loc.0, loc.1 + 1)]
    else
      [(loc.0 - 1, loc.1), (loc.0 + 1, loc.1), (loc.0, loc.1 - 1), (loc.0, loc.1 + 1),
       (loc.0 - 1, loc.1 - 1), (loc.0 - 1, loc.1 + 1), (loc.0 + 1, loc.1 - 1),
       (loc.0 + 1, loc.1 + 1)]
  }

  /** A requested size of 8 falls back to the 4-list, while 12 and 5 give
      the 8-list: the reverse of a test for "neither 4 nor 8". */
  lemma SizeTestExamples(loc: (int, int))
    ensures |NeighborList(loc, 4)| == 4 && |NeighborList(loc, 8)| == 4
    ensures |NeighborList(loc, 12)| == 8 && |NeighborList(loc, 5)| == 8
  {
  }

  /** The 4-list holds exactly the cells at Manhattan distance 1. */
  lemma VonNeumannList(loc: (int, int), size: int, p: (int, int))
    requires |NeighborList(loc, size)| == 4
    ensures p in NeighborList(loc, size) <==> Abs(p.0 - loc.0) + Abs(p.1 - loc.1) == 1
  {
    var l := NeighborList(loc, size);
    if Abs(p.0 - loc.0) + Abs(p.1 - loc.1) == 1 {
      if p.0 == loc.0 - 1 { assert p == l[0]; }
      else if p.0 == loc.0 + 1 { assert p == l[1]; }
      else if p.1 == loc.1 - 1 { assert p == l[2]; }
      else { assert p == l[3]; }
    }
  }

  /** The 8-list starts with the 4-list, has no repeated entry, and holds
      exactly the cells at Chebyshev distance 1. */
  lemma MooreList(loc: (int, int), size: int, p: (int, int))
    requires |NeighborList(loc, size)| == 8
    ensures NeighborList(loc, size)[..4] == NeighborList(loc, 4)
    ensures forall i, j :: 0 <= i < j < 8 ==> NeighborList(loc, size)[i] != NeighborList(loc, size)[j]
    ensures p in NeighborList(loc, size) <==>
      p != loc && Abs(p.0 - loc.0) <= 1 && Abs(p.1 - loc.1) <= 1
  {
    var l := NeighborList(loc, size);
    if p != loc && Abs(p.0 - loc.0) <= 1 && Abs(p.1 - loc.1) <= 1 {
      if p.0 == loc.0 {
        if p.1 == loc.1 - 1 { assert p == l[2]; } else { assert p == l[3]; }
      } else if p.0 == loc.0 - 1 {
        if p.1 == loc.1 { assert p == l[0]; }
        else if p.1 == loc.1 - 1 { assert p == l[4]; }
        else { assert p == l[5]; }
      } else {
        if p.1 == loc.1 { assert p == l[1]; }
        else if p.1 == loc.1 - 1 { assert p == l[6]; }
        else { assert p == l[7]; }
      }
    }
  }

  /** The index of the neighbour picked by `choice` (the position that
      `random.choice` returns), resolved the way numpy resolves
      `array[row, col]`: no wrap-around beyond negative indexing. */
  function NearestNeighborIndex(loc: (int, int), rows: nat, cols: nat, choice: nat, size: int := 4)
    : (r: Result<(nat, nat)>)
    requires choice < |NeighborList(loc, size)|
    ensures var p := NeighborList(loc, size)[choice];
      r.Ok? <==> 0 <= p.0 + rows && p.0 < rows && 0 <= p.1 + cols && p.1 < cols
    ensures var p := NeighborList(loc, size)[choice];
      r.Ok? ==> r.value == (p.0 % rows, p.1 % cols)
    ensures r.Err? ==> r.error == IndexError
  {
    var p := NeighborList(loc, size)[choice];
    match PyIndex(p.0, rows)
    case Err(e) => Err(e)
    case Ok(i) =>
      match PyIndex(p.1, cols)
      case Err(e) => Err(e)
      case Ok(j) => Ok((i, j))
  }

  /** `nearest_neighbor`: the state of the picked neighbour, or IndexError. */
  function NearestNeighbor(loc: (int, int), g: Grid<Cell>, rows: nat, cols: nat, choice: nat, size: int := 4)
    : (r: Result<Cell>)
    requires Shaped(g, rows, cols)
    requires choice < |NeighborList(loc, size)|
    ensures var p := NeighborList(loc, size)[choice];
      r.Ok? <==> 0 <= p.0 + rows && p.0 < rows && 0 <= p.1 + cols && p.1 < cols
    ensures var p := NeighborList(loc, size)[choice];
      r.Ok? ==> r.value == g[p.0 % rows][p.1 % cols]
    ensures r.Err? ==> r.error == IndexError
  {
    match NearestNeighborIndex(loc, rows, cols, choice, size)
    case Err(e) => Err(e)
    case Ok(ij) => Ok(g[ij.0][ij.1])
  }

  /** At the edges of the lattice nothing wraps but negative indexing: from
      the first row the upward neighbour is the last row, from the last row
      the downward neighbour raises IndexError, and the same for columns. */
  lemma NoWrapAtEdges(r: nat, c: nat, rows: nat, cols: nat)
    requires r < rows && c < cols
    ensures r == 0 ==> NearestNeighborIndex((r, c), rows, cols, 0, size := 4) == Ok((rows - 1, c))
    ensures r == rows - 1 ==> NearestNeighborIndex((r, c), rows, cols, 1, size := 4) == Err(IndexError)
    ensures c == 0 ==> NearestNeighborIndex((r, c), rows, cols, 2, size := 4) == Ok((r, cols - 1))
    ensures c == cols - 1 ==> NearestNeighborIndex((r, c), rows, cols, 3, size := 4) == Err(IndexError)
    ensures 0 < r < rows - 1 && 0 < c < cols - 1 ==>
      forall k :: 0 <= k < 4 ==>
        NearestNeighborIndex((r, c), rows, cols, k, size := 4) == Ok(NeighborList((r, c), 4)[k])
  {
  }

  /** The long-range target of `hdist_angle` for the rounded offset
      (dx, dy): each axis wraps on its own with Python's `%`, which for a
      positive modulus is Dafny's. */
  function HdistTarget(loc: (int, int), dx: int, dy: int, rows: nat, cols: nat): (t: (nat, nat))
    requires rows > 0 && cols > 0
    ensures t.0 < rows && t.1 < cols
    ensures (t.0 - (loc.0 + dx)) % rows == 0 && (t.1 - (loc.1 + dy)) % cols == 0
  {
    ModIsCongruent(loc.0 + dx, rows);
    ModIsCongruent(loc.1 + dy, cols);
    ((loc.0 + dx) % rows, (loc.1 + dy) % cols)
  }

  /** `a % n` differs from `a` by a multiple of `n`. */
  lemma ModIsCongruent(a: int, n: nat)
    requires n > 0
    ensures (a % n - a) % n == 0
  {
    var q := a / n;
    assert a % n - a == (-q) * n;
    MultipleMod(-q, n);
  }

  lemma MultipleMod(q: int, n: nat)
    requires n > 0
    ensures (q * n) % n == 0
  {
    var a := q * n;
    var d := q - a / n;
    assert a % n == d * n;
    MulBounds(d, n);
  }

  lemma MulBounds(d: int, n: nat)
    requires n > 0
    ensures d >= 1 ==> d * n >= n
    ensures d <= -1 ==> d * n <= -(n as int)
  {
  }

  /** The row of the target depends on the row of `loc` and on `dx` only,
      the column on the column of `loc` and on `dy` only. */
  lemma HdistAxesIndependent(loc: (int, int), loc': (int, int), dx: int, dy: int, dx': int, dy': int,
                             rows: nat, cols: nat)
    requires rows > 0 && cols > 0
    ensures loc.0 + dx == loc'.0 + dx' ==>
      HdistTarget(loc, dx, dy, rows, cols).0 == HdistTarget(loc', dx', dy', rows, cols).0
    ensures loc.1 + dy == loc'.1 + dy' ==>
      HdistTarget(loc, dx, dy, rows, cols).1 == HdistTarget(loc', dx', dy', rows, cols).1
  {
  }

  /** `hdist_angle`: the state of the in-range cell congruent to
      `loc + (dx, dy)` on both axes. */
  function HdistAngle(loc: (int, int), g: Grid<Cell>, rows: nat, cols: nat, dx: int, dy: int): (r: Cell)
    requires Shaped(g, rows, cols) && rows > 0 && cols > 0
    ensures exists i, j ::
      && 0 <= i < rows && 0 <= j < cols
      && (i - (loc.0 + dx)) % rows == 0 && (j - (loc.1 + dy)) % cols == 0
      && r == g[i][j]
  {
    var t := HdistTarget(loc, dx, dy, rows, cols);
    g[t.0][t.1]
  }
}
