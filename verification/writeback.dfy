/** The write-back loop: every worksheet row after the header takes the Year
    of its Game from the filled main table, and the workbook is saved only if
    every row resolved. */
module SheetWriter {
  import opened Wrappers
  import opened Tables
  import opened Mask

  /** Column of the Game name in the worksheet (`row[0]`). */
  const GameCol := 0
  /** Column the Year is written to (`row[4]`). */
  const YearCol := 4
  /** First data row: `iter_rows(min_row=2, ...)` skips the 1-based header row. */
  const FirstDataRow := 1

  /** Why a run stops before saving. */
  datatype Abort =
    | NoGameCell    // the row has no cell 0: `row[0]` raises
    | GameNotFound  // no main-table Game equals the cell: `.values[0]` raises
    | YearNotFound  // the matching Year is missing: "Year not found", exit(1)
    | NoYearCell    // the row has no cell 4: `row[4]` raises

  /** The result of a run: nothing written, or the worksheet to save. */
  datatype Outcome = Aborted(row: nat, why: Abort) | Saved(sheet: Sheet)

  /** A failure while writing the data rows: the index among them and why. */
  datatype Halt = Halt(at: nat, why: Abort)

  /** The mask `dataframe_main['Game'] == game_name`: exact, case-sensitive. */
  function GameIs(cell: Cell): GameRow -> bool {
    (row: GameRow) => Text(row.game) == cell
  }

  /** Row `row` of the worksheet can be written: it has cells 0 and 4, and
      the first main-table row whose Game equals cell 0 has a Year. */
  ghost predicate Resolves(main: seq<GameRow>, row: seq<Cell>) {
    && |row| > YearCol
    && exists i :: IsFirst(main, GameIs(row[GameCol]), i) && main[i].year.Some?
  }

  /** One iteration of the loop over worksheet rows. */
  function WriteRow(main: seq<GameRow>, row: seq<Cell>): (r: Result<seq<Cell>, Abort>)
    ensures r.Success? <==> Resolves(main, row)
    ensures r.Success? ==>
              && |r.value| == |row|
              && (forall j :: 0 <= j < |row| && j != YearCol ==> r.value[j] == row[j])
              && forall i :: IsFirst(main, GameIs(row[GameCol]), i) ==>
                   r.value[YearCol] == Num(main[i].year.value)
  {
    if |row| <= GameCol then Failure(NoGameCell)
    else
      match Head(main, GameIs(row[GameCol]))
      case None => Failure(GameNotFound)
      case Some(found) =>
        if found.year.None? then Failure(YearNotFound)
        else if |row| <= YearCol then Failure(NoYearCell)
        else Success(row[YearCol := Num(found.year.value)])
  }

  /** The reason a failing row gets, in the order the loop body meets the
      failures: no cell 0, no equal Game (`.values[0]` raises), a missing
      Year ("Year not found" and exit), no cell 4. */
  lemma WriteRowReason(main: seq<GameRow>, row: seq<Cell>)
    ensures var r := WriteRow(main, row);
      && (r == Failure(NoGameCell) <==> |row| <= GameCol)
      && (r == Failure(GameNotFound) <==>
            |row| > GameCol && forall i :: 0 <= i < |main| ==> !GameIs(row[GameCol])(main[i]))
      && (r == Failure(YearNotFound) <==>
            |row| > GameCol && exists i :: IsFirst(main, GameIs(row[GameCol]), i) && main[i].year.None?)
      && (r == Failure(NoYearCell) <==>
            GameCol < |row| <= YearCol && exists i :: IsFirst(main, GameIs(row[GameCol]), i) && main[i].year.Some?)
  {
  }

  /** The loop over a run of data rows, stopping at the first failing one. */
  function WriteRows(main: seq<GameRow>, rows: Sheet): (r: Result<Sheet, Halt>)
    ensures r.Success? ==>
              && |r.value| == |rows|
              && forall k :: 0 <= k < |rows| ==> WriteRow(main, rows[k]) == Success(r.value[k])
    ensures r.Failure? ==>
              && r.error.at < |rows|
              && WriteRow(main, rows[r.error.at]) == Failure(r.error.why)
              && forall k :: 0 <= k < r.error.at ==> WriteRow(main, rows[k]).Success?
  {
    if |rows| == 0 then Success([])
    else
      match WriteRow(main, rows[0])
      case Failure(why) => Failure(Halt(0, why))
      case Success(row) =>
        match WriteRows(main, rows[1..])
        case Failure(h) => Failure(Halt(h.at + 1, h.why))
        case Success(rest) => Success([row] + rest)
  }

  /** `WriteRows` on the data rows of a sheet, with indices counted in the sheet. */
  lemma WriteRowsOnSheet(main: seq<GameRow>, sheet: Sheet)
    requires |sheet| > FirstDataRow
    ensures var r := WriteRows(main, sheet[FirstDataRow..]);
      && (r.Success? ==>
            && |r.value| == |sheet| - FirstDataRow
            && (forall k :: FirstDataRow <= k < |sheet| ==> Resolves(main, sheet[k]))
            && forall k :: FirstDataRow <= k < |sheet| ==>
                 WriteRow(main, sheet[k]) == Success(r.value[k - FirstDataRow]))
      && (r.Failure? ==>
            && FirstDataRow + r.error.at < |sheet|
            && WriteRow(main, sheet[FirstDataRow + r.error.at]) == Failure(r.error.why)
            && !Resolves(main, sheet[FirstDataRow + r.error.at])
            && forall k :: FirstDataRow <= k < FirstDataRow + r.error.at ==> Resolves(main, sheet[k]))
  {
    var data := sheet[FirstDataRow..];
    assert forall k :: FirstDataRow <= k < |sheet| ==> sheet[k] == data[k - FirstDataRow];
    var r := WriteRows(main, data);
    if r.Success? {
      forall k | FirstDataRow <= k < |sheet|
        ensures Resolves(main, sheet[k])
      {
        assert WriteRow(main, data[k - FirstDataRow]).Success?;
      }
    } else {
      forall k | FirstDataRow <= k < FirstDataRow + r.error.at
        ensures Resolves(main, sheet[k])
      {
        assert WriteRow(main, data[k - FirstDataRow]).Success?;
      }
    }
  }

  /** The write-back and the all-or-nothing save. */
  function WriteBack(main: seq<GameRow>, sheet: Sheet): (o: Outcome)
    ensures o.Saved? <==> forall k :: FirstDataRow <= k < |sheet| ==> Resolves(main, sheet[k])
    ensures o.Saved? ==>
              && |o.sheet| == |sheet|
              && (|sheet| > 0 ==> o.sheet[0] == sheet[0])
              && forall k :: FirstDataRow <= k < |sheet| ==> WriteRow(main, sheet[k]) == Success(o.sheet[k])
    ensures o.Aborted? ==>
              && FirstDataRow <= o.row < |sheet|
              && WriteRow(main, sheet[o.row]) == Failure(o.why)
              && forall k :: FirstDataRow <= k < o.row ==> Resolves(main, sheet[k])
  {
    if |sheet| <= FirstDataRow then Saved(sheet)
    else
      WriteRowsOnSheet(main, sheet);
      match WriteRows(main, sheet[FirstDataRow..])
      case Failure(h) => Aborted(FirstDataRow + h.at, h.why)
      case Success(rows) => Saved(sheet[..FirstDataRow] + rows)
  }

  /** Writing a row that has already been written changes nothing. */
  lemma WriteRowIdempotent(main: seq<GameRow>, row: seq<Cell>)
    requires WriteRow(main, row).Success?
    ensures WriteRow(main, WriteRow(main, row).value) == WriteRow(main, row)
  {
    var once := WriteRow(main, row).value;
    var i :| IsFirst(main, GameIs(row[GameCol]), i) && main[i].year.Some?;
    assert once[GameCol] == row[GameCol];
    assert Resolves(main, once);
    var twice := WriteRow(main, once).value;
    assert twice == once by {
      forall j | 0 <= j < |once|
        ensures twice[j] == once[j]
      {
        if j == YearCol {
          assert twice[j] == Num(main[i].year.value) == once[j];
        }
      }
    }
  }

  /** Running the write-back again on the sheet it saved saves the same sheet. */
  lemma WriteBackIdempotent(main: seq<GameRow>, sheet: Sheet)
    requires WriteBack(main, sheet).Saved?
    ensures WriteBack(main, WriteBack(main, sheet).sheet) == WriteBack(main, sheet)
  {
    var once := WriteBack(main, sheet).sheet;
    forall k | FirstDataRow <= k < |once|
      ensures Resolves(main, once[k])
      ensures WriteRow(main, once[k]) == Success(once[k])
    {
      WriteRowIdempotent(main, sheet[k]);
    }
    var twice := WriteBack(main, once).sheet;
    assert twice == once by {
      forall k | 0 <= k < |once|
        ensures twice[k] == once[k]
      {
        if k >= FirstDataRow {
          assert WriteRow(main, once[k]) == Success(twice[k]);
        }
      }
    }
  }
}
