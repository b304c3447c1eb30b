/** Builders of initial conditions: each returns a fresh lattice and a fresh
    iridophore mask of the requested shape. A `true` mask entry marks an
    iridophore. */
module InitialConditions {
  import opened Lattice

  /** numpy's `a.fill(v)`: every entry of `a` becomes `v`. */
  method Fill<T>(a: array2<T>, v: T)
    modifies a
    ensures forall i, j :: 0 <= i < a.Length0 && 0 <= j < a.Length1 ==> a[i, j] == v
  {
    forall i, j | 0 <= i < a.Length0 && 0 <= j < a.Length1 {
      a[i, j] := v;
    }
  }

  /** `blank`: an all-empty lattice and a mask without iridophores. */
  method Blank(rows: nat, columns: nat) returns (output: array2<Cell>, irid: array2<bool>)
    ensures fresh(output) && fresh(irid)
    ensures output.Length0 == rows && output.Length1 == columns
    ensures irid.Length0 == rows && irid.Length1 == columns
    ensures forall i, j :: 0 <= i < rows && 0 <= j < columns ==> output[i, j] == S && !irid[i, j]
  {
    output := new Cell[rows, columns];
    Fill(output, S);
    irid := new bool[rows, columns]((i, j) => false);
  }

  /** The number of leading rows that Python's slice `[0:stop]` selects out
      of `n`: a negative stop counts from the end, and the slice is clipped
      to the sequence. */
  function SliceStop(stop: int, n: nat): (k: nat)
    ensures k <= n
    ensures stop >= 0 ==> k == stop || k == n < stop
    ensures stop < 0 ==> k == n + stop || k == 0 >= n + stop
  {
    if stop >= 0 then (if stop < n then stop else n)
    else if n + stop > 0 then n + stop else 0
  }

  /** numpy's `np.roll(a, shift, axis=0)`: row `i` of the result is row
      `(i - shift) mod rows` of `a`. */
  method Roll<T>(a: array2<T>, shift: int) returns (r: array2<T>)
    ensures fresh(r) && r.Length0 == a.Length0 && r.Length1 == a.Length1
    ensures forall i, j :: 0 <= i < a.Length0 && 0 <= j < a.Length1 ==>
      r[i, j] == a[(i - shift) % a.Length0, j]
  {
    r := new T[a.Length0, a.Length1]((i, j) reads a requires 0 <= i < a.Length0 && 0 <= j < a.Length1 =>
      a[(i - shift) % a.Length0, j]);
  }

  /** The rotation that moves the band into the middle: Python's
      `floor((rows - bandwidth) / 2)`, a floor division. */
  function BandShift(rows: nat, bandwidth: int): int {
    (rows - bandwidth) / 2
  }

  /** Whether row `j` of the `iridophore_band` mask is an iridophore row:
      the first `bandwidth` rows are set, then the mask is rolled. */
  function InBand(j: nat, rows: nat, bandwidth: int): bool
    requires j < rows
  {
    (j - BandShift(rows, bandwidth)) % rows < SliceStop(bandwidth, rows)
  }

  /** `iridophore_band`: an all-empty lattice and a mask whose rows are
      wholly set or wholly clear, as `InBand` says. */
  method IridophoreBand(rows: nat, columns: nat, bandwidth: int := 1)
    returns (output: array2<Cell>, irid: array2<bool>)
    ensures fresh(output) && fresh(irid)
    ensures output.Length0 == rows && output.Length1 == columns
    ensures irid.Length0 == rows && irid.Length1 == columns
    ensures forall i, j :: 0 <= i < rows && 0 <= j < columns ==> output[i, j] == S
    ensures forall i, j :: 0 <= i < rows && 0 <= j < columns ==> irid[i, j] == InBand(i, rows, bandwidth)
  {
    output := new Cell[rows, columns];
    Fill(output, S);
    var band := new bool[rows, columns]((i, j) => false);
    var stop := SliceStop(bandwidth, rows);
    forall i, j | 0 <= i < stop && 0 <= j < columns {
      band[i, j] := true;
    }
    irid := Roll(band, BandShift(rows, bandwidth));
  }

  /** For a bandwidth between 0 and the number of rows, the iridophore rows
      are the contiguous run starting at the shift: the band does not wrap
      and sits in the middle, with as many rows above it as below, or one
      fewer. */
  lemma BandIsCentred(j: nat, rows: nat, bandwidth: int)
    requires 0 <= bandwidth <= rows && j < rows
    ensures var k := BandShift(rows, bandwidth);
      && 0 <= k && k + bandwidth <= rows
      && (rows - k - bandwidth == k || rows - k - bandwidth == k + 1)
      && (InBand(j, rows, bandwidth) <==> k <= j < k + bandwidth)
  {
    var k := BandShift(rows, bandwidth);
    ModOnePeriod(j - k, rows);
  }

  /** The default bandwidth of 1 marks the single row `floor((rows - 1) / 2)`. */
  lemma DefaultBandRow(j: nat, rows: nat)
    requires j < rows
    ensures InBand(j, rows, 1) <==> j == (rows - 1) / 2
  {
    BandIsCentred(j, rows, 1);
  }

  /** A bandwidth of at least the number of rows marks every row. */
  lemma WideBandCoversAll(j: nat, rows: nat, bandwidth: int)
    requires rows <= bandwidth && j < rows
    ensures InBand(j, rows, bandwidth)
  {
  }

  /** Exactly `bandwidth` rows are iridophore rows, so the mask holds
      `bandwidth * columns` iridophores. */
  lemma BandRowCount(rows: nat, bandwidth: int)
    requires 0 <= bandwidth <= rows
    ensures |set j: nat | j < rows && InBand(j, rows, bandwidth)| == bandwidth
  {
    var k := BandShift(rows, bandwidth);
    var band := set j: nat | j < rows && InBand(j, rows, bandwidth);
    forall j: nat | j < rows
      ensures InBand(j, rows, bandwidth) <==> k <= j < k + bandwidth
    {
      BandIsCentred(j, rows, bandwidth);
    }
    if rows > 0 {
      BandIsCentred(0, rows, bandwidth);
      assert band == RowRange(k, bandwidth);
    }
  }

  /** The rows `lo`, ..., `lo + len - 1`. */
  function RowRange(lo: nat, len: nat): (r: set<nat>)
    ensures forall j :: j in r <==> lo <= j < lo + len
    ensures |r| == len
  {
    if len == 0 then {} else RowRange(lo, len - 1) + {lo + len - 1}
  }
}
