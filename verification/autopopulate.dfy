/** The whole script after loading: fill the missing Years of the main table
    from the reference table, then write them into the worksheet and save it
    only if every data row resolved. */
module Autopopulate {
  import opened Wrappers
  import opened Tables
  import opened Mask
  import opened Lookup
  import opened Fill
  import opened SheetWriter

  /** The Year the run will write for main-table row `g`. */
  function YearAfterFill(g: GameRow, years: seq<RefRow>): Option<Year> {
    FillRow(g, years).year
  }

  /** Data row `row` can be written, stated on the tables as loaded: it has
      cells 0 and 4, its cell 0 equals some Game exactly, and the first such
      Game either has a Year or gets one from the reference table. */
  ghost predicate Resolvable(main: seq<GameRow>, years: seq<RefRow>, row: seq<Cell>) {
    && |row| > YearCol
    && exists i :: IsFirst(main, GameIs(row[GameCol]), i) && YearAfterFill(main[i], years).Some?
  }

  /** The fill does not change which main-table row is the first for a Game. */
  lemma FillKeepsFirstGame(main: seq<GameRow>, years: seq<RefRow>, cell: Cell, i: int)
    ensures IsFirst(main, GameIs(cell), i) <==> IsFirst(FillMissing(main, years), GameIs(cell), i)
  {
    var filled := FillMissing(main, years);
    assert forall j :: 0 <= j < |main| ==> GameIs(cell)(filled[j]) == GameIs(cell)(main[j]);
  }

  /** Whether a worksheet row resolves against the filled table can be read off
      the tables as loaded. */
  lemma ResolvesAfterFill(main: seq<GameRow>, years: seq<RefRow>)
    ensures forall row :: Resolves(FillMissing(main, years), row) <==> Resolvable(main, years, row)
  {
    var filled := FillMissing(main, years);
    forall row: seq<Cell> | |row| > YearCol
      ensures Resolves(filled, row) <==> Resolvable(main, years, row)
    {
      forall i
        ensures IsFirst(main, GameIs(row[GameCol]), i) <==> IsFirst(filled, GameIs(row[GameCol]), i)
      {
        FillKeepsFirstGame(main, years, row[GameCol], i);
      }
    }
  }

  /** A written row of the filled table carries the filled Year of the first
      main-table row with its Game. */
  lemma WrittenYearAfterFill(main: seq<GameRow>, years: seq<RefRow>, row: seq<Cell>, out: seq<Cell>)
    requires WriteRow(FillMissing(main, years), row) == Success(out)
    ensures YearCol < |row| == |out|
    ensures forall i :: IsFirst(main, GameIs(row[GameCol]), i) ==>
              YearAfterFill(main[i], years).Some? && out[YearCol] == Num(YearAfterFill(main[i], years).value)
  {
    forall i | IsFirst(main, GameIs(row[GameCol]), i)
      ensures YearAfterFill(main[i], years).Some? && out[YearCol] == Num(YearAfterFill(main[i], years).value)
    {
      FillKeepsFirstGame(main, years, row[GameCol], i);
    }
  }

  /** A saved write-back of the filled table puts, in cell 4 of each data row,
      the filled Year of the first main-table row with that row's Game. */
  lemma WrittenYearsAfterFill(main: seq<GameRow>, years: seq<RefRow>, sheet: Sheet)
    requires WriteBack(FillMissing(main, years), sheet).Saved?
    ensures var out := WriteBack(FillMissing(main, years), sheet).sheet;
      forall k :: FirstDataRow <= k < |sheet| ==>
        && YearCol < |sheet[k]| == |out[k]|
        && forall i :: IsFirst(main, GameIs(sheet[k][GameCol]), i) ==>
             YearAfterFill(main[i], years).Some? && out[k][YearCol] == Num(YearAfterFill(main[i], years).value)
  {
    var filled := FillMissing(main, years);
    var out := WriteBack(filled, sheet).sheet;
    forall k | FirstDataRow <= k < |sheet|
      ensures YearCol < |sheet[k]| == |out[k]|
      ensures forall i :: IsFirst(main, GameIs(sheet[k][GameCol]), i) ==>
                YearAfterFill(main[i], years).Some? && out[k][YearCol] == Num(YearAfterFill(main[i], years).value)
    {
      WrittenYearAfterFill(main, years, sheet[k], out[k]);
    }
  }

  /** Lines 43-67 of the script after the files are loaded. */
  function Run(main: seq<GameRow>, years: seq<RefRow>, sheet: Sheet): (o: Outcome)
    ensures o.Saved? <==> forall k :: FirstDataRow <= k < |sheet| ==> Resolvable(main, years, sheet[k])
    ensures o.Saved? ==>
              && |o.sheet| == |sheet|
              && (|sheet| > 0 ==> o.sheet[0] == sheet[0])
              && forall k :: FirstDataRow <= k < |sheet| ==>
                   && YearCol < |sheet[k]| == |o.sheet[k]|
                   && (forall j :: 0 <= j < |sheet[k]| && j != YearCol ==> o.sheet[k][j] == sheet[k][j])
                   && forall i :: IsFirst(main, GameIs(sheet[k][GameCol]), i) ==>
                        && YearAfterFill(main[i], years).Some?
                        && o.sheet[k][YearCol] == Num(YearAfterFill(main[i], years).value)
    ensures o.Aborted? ==>
              && FirstDataRow <= o.row < |sheet|
              && !Resolvable(main, years, sheet[o.row])
              && forall k :: FirstDataRow <= k < o.row ==> Resolvable(main, years, sheet[k])
  {
    var filled := FillMissing(main, years);
    ResolvesAfterFill(main, years);
    if WriteBack(filled, sheet).Saved? then
      WrittenYearsAfterFill(main, years, sheet);
      WriteBack(filled, sheet)
    else
      WriteBack(filled, sheet)
  }

  /** Every worksheet row with a given Game gets the Year of the first
      main-table row with that Game, when that row has one. */
  lemma RunKeepsKnownYears(main: seq<GameRow>, years: seq<RefRow>, sheet: Sheet, k: int, i: int)
    requires Run(main, years, sheet).Saved?
    requires FirstDataRow <= k < |sheet|
    requires IsFirst(main, GameIs(sheet[k][GameCol]), i)
    requires main[i].year.Some?
    ensures Run(main, years, sheet).sheet[k][YearCol] == Num(main[i].year.value)
  {
  }

  /** A missing Year is written as the reference table's Year for the Game. */
  lemma RunFillsFromReference(main: seq<GameRow>, years: seq<RefRow>, sheet: Sheet, k: int, i: int)
    requires Run(main, years, sheet).Saved?
    requires FirstDataRow <= k < |sheet|
    requires IsFirst(main, GameIs(sheet[k][GameCol]), i)
    requires main[i].year.None?
    ensures exists r :: IsFirst(years, NameIs(main[i].game), r) && years[r].year.Some?
              && Run(main, years, sheet).sheet[k][YearCol] == Num(years[r].year.value)
  {
  }

  /** A run whose main table was already filled behaves like the original run. */
  lemma RunOnFilledTable(main: seq<GameRow>, years: seq<RefRow>, sheet: Sheet)
    ensures Run(FillMissing(main, years), years, sheet) == Run(main, years, sheet)
  {
    FillMissingIdempotent(main, years);
  }

  /** Running again on the saved worksheet saves the same worksheet. */
  lemma RunAgainSavesSame(main: seq<GameRow>, years: seq<RefRow>, sheet: Sheet)
    requires Run(main, years, sheet).Saved?
    ensures Run(main, years, Run(main, years, sheet).sheet) == Run(main, years, sheet)
  {
    WriteBackIdempotent(FillMissing(main, years), sheet);
  }

  /** A Game listed twice with different Years: the worksheet row of the
      second listing is saved with the first listing's Year. */
  lemma RunOverwritesLaterDuplicate()
    ensures var main := [GameRow("Tetris", Some(1984), []), GameRow("Tetris", Some(1989), [])];
            var row1 := [Text("Tetris"), Blank, Blank, Blank, Num(1984)];
            var row2 := [Text("Tetris"), Blank, Blank, Blank, Num(1989)];
            var out := Run(main, [], [[Text("Game")], row1, row2]);
            out.Saved? && out.sheet[2][YearCol] == Num(1984)
  {
  }
}
