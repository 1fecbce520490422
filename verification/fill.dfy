/** The fill-missing step: `dataframe_main.apply(..., axis=1)` assigned back
    to the Year column. */
module Fill {
  import opened Wrappers
  import opened Tables
  import opened Lookup

  /** One row of the apply: a present Year is kept, a missing one is looked up
      by the row's Game. */
  function FillRow(row: GameRow, years: seq<RefRow>): (r: GameRow)
    ensures r.game == row.game && r.rest == row.rest
    ensures row.year.Some? ==> r == row
    ensures row.year.None? ==> r.year == LookupReleaseYear(row.game, years)
  {
    if row.year.None? then row.(year := LookupReleaseYear(row.game, years)) else row
  }

  /** The main table with every missing Year looked up in the reference table. */
  function FillMissing(main: seq<GameRow>, years: seq<RefRow>): (r: seq<GameRow>)
    ensures |r| == |main|
    ensures forall i :: 0 <= i < |main| ==> r[i].game == main[i].game && r[i].rest == main[i].rest
    ensures forall i :: 0 <= i < |main| && main[i].year.Some? ==> r[i] == main[i]
    ensures forall i :: 0 <= i < |main| && main[i].year.None? ==>
              r[i].year == LookupReleaseYear(main[i].game, years)
  {
    seq(|main|, i requires 0 <= i < |main| => FillRow(main[i], years))
  }

  /** After the fill a row lacks a Year exactly when it lacked one before and
      the reference table has no Year for its Game. */
  lemma FillMissingLeavesGap(main: seq<GameRow>, years: seq<RefRow>, i: int)
    requires 0 <= i < |main|
    ensures FillMissing(main, years)[i].year.None?
            <==> main[i].year.None? && LookupReleaseYear(main[i].game, years).None?
  {
  }

  /** Filling an already filled table changes nothing. */
  lemma FillMissingIdempotent(main: seq<GameRow>, years: seq<RefRow>)
    ensures FillMissing(FillMissing(main, years), years) == FillMissing(main, years)
  {
    var once := FillMissing(main, years);
    var twice := FillMissing(once, years);
    forall i | 0 <= i < |main|
      ensures twice[i] == once[i]
    {
      if main[i].year.None? && once[i].year.None? {
        assert twice[i].year == LookupReleaseYear(once[i].game, years) == once[i].year;
      }
    }
  }
}
