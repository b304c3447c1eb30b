/** The elementary processes: one pure rule per process, each taking the
    state of the chosen well (and, for the short- and long-range rules, the
    state of the cell that supplies the context) and giving the well's new
    state. Each rule returns a literal or the well itself. */
module BaseProcess {
  import opened Lattice

  /** An empty well becomes a xanthophore; any other well is unchanged. */
  function BirthX(well: Cell): (r: Cell)
    ensures r == X <==> well == S || well == X
    ensures r != X ==> r == well
  {
    if well == S then X else well
  }

  /** An empty well becomes a melanophore; any other well is unchanged.
      The rule has no iridophore input. */
  function BirthM(well: Cell): (r: Cell)
    ensures r == M <==> well == S || well == M
    ensures r != M ==> r == well
  {
    if well == S then M else well
  }

  /** A well whose neighbour holds the opposite pigment cell is emptied. */
  function ShortKill(well: Cell, neighbor: Cell): (r: Cell)
    ensures r != well <==> (well == X && neighbor == M) || (well == M && neighbor == X)
    ensures r != well ==> r == S
  {
    if (well == X && neighbor == M) || (well == M && neighbor == X) then S else well
  }

  /** An empty well whose long-range origin is a xanthophore becomes a
      melanophore. */
  function LongBirth(well: Cell, origin: Cell): (r: Cell)
    ensures r != well <==> well == S && origin == X
    ensures r != well ==> r == M
  {
    if well == S && origin == X then M else well
  }

  /** Applying a rule a second time, with the same context, changes nothing. */
  lemma RulesIdempotent(well: Cell, context: Cell)
    ensures BirthX(BirthX(well)) == BirthX(well)
    ensures BirthM(BirthM(well)) == BirthM(well)
    ensures ShortKill(ShortKill(well, context), context) == ShortKill(well, context)
    ensures LongBirth(LongBirth(well, context), context) == LongBirth(well, context)
  {
  }
}
