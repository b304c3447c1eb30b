/** The lattice of the automaton: the three cell states, grid values, the
    errors Python raises while indexing or normalising, and the link between
    a mutable two-dimensional array and its value. */
module Lattice {

  /** A well holds one of three states: 'S' (empty), 'X' (xanthophore) or
      'M' (melanophore). */
  datatype Cell = S | X | M

  /** The Python exceptions the core can raise. */
  datatype PyError = IndexError | ZeroDivisionError

  datatype Result<T> = Ok(value: T) | Err(error: PyError)

  /** A grid value, row by row. */
  type Grid<T> = seq<seq<T>>

  /** `g` has `rows` rows of `cols` entries each. */
  predicate Shaped<T>(g: Grid<T>, rows: nat, cols: nat) {
    |g| == rows && forall i :: 0 <= i < rows ==> |g[i]| == cols
  }

  /** `g` with the entry at (r, c) replaced by `v`: numpy's `array[r, c] = v`. */
  function Set<T>(g: Grid<T>, r: nat, c: nat, v: T): (g': Grid<T>)
    requires r < |g| && c < |g[r]|
    ensures |g'| == |g| && forall i :: 0 <= i < |g| ==> |g'[i]| == |g[i]|
    ensures g'[r][c] == v
    ensures forall i, j :: 0 <= i < |g| && 0 <= j < |g[i]| && (i, j) != (r, c) ==> g'[i][j] == g[i][j]
  {
    g[r := g[r][c := v]]
  }

  /** The value held by a two-dimensional array. */
  ghost function Contents<T>(a: array2<T>): (g: Grid<T>)
    reads a
    ensures Shaped(g, a.Length0, a.Length1)
    ensures forall i, j :: 0 <= i < a.Length0 && 0 <= j < a.Length1 ==> g[i][j] == a[i, j]
  {
    seq(a.Length0, i requires 0 <= i < a.Length0 reads a =>
      seq(a.Length1, j requires 0 <= j < a.Length1 reads a => a[i, j]))
  }

  /** The array `a` holds the grid value `g`, entry by entry. */
  ghost predicate Holds<T>(a: array2<T>, g: Grid<T>)
    reads a
  {
    Shaped(g, a.Length0, a.Length1) &&
    forall i, j :: 0 <= i < a.Length0 && 0 <= j < a.Length1 ==> a[i, j] == g[i][j]
  }

  /** An array holds exactly one grid value: its contents. */
  lemma HoldsContents<T>(a: array2<T>, g: Grid<T>)
    requires Holds(a, g)
    ensures Contents(a) == g
  {
    var h := Contents(a);
    forall i | 0 <= i < a.Length0
      ensures h[i] == g[i]
    {
      assert forall j :: 0 <= j < a.Length1 ==> h[i][j] == g[i][j];
    }
  }

  /** Within one period either side of zero, `%` is a shift by 0 or `n`. */
  lemma ModOnePeriod(x: int, n: nat)
    requires n > 0 && -(n as int) <= x < n
    ensures x % n == if x < 0 then x + n else x
  {
  }
}
