# Autopopulate: filling missing release years

The script `autopopulate.py` fills the Year column of a game list
(`Master_List.xlsx`). It works in three steps. First it looks up each game
whose Year is missing in a reference data set (`Video_Games.csv`). Then it
copies the resulting Years into the formatted worksheet row by row. Last, it
saves the workbook, but only if every row got a Year.

This project models those three steps as pure functions over immutable
sequences of records and proves what they promise:

- `wrappers.dfy`: `Option` (a missing Year) and `Result`.
- `text.dfy`: lower-casing of keys, on ASCII letters.
- `mask.dfy`: pandas boolean-mask selection (`frame[condition]`) and taking
  its first row (`.values[0]`). Both lookups in the script use it.
- `tables.dfy`: the reference rows (Name, Year), the main-table rows (Game,
  Year, other columns) and the worksheet (a grid of cells, row 0 the header).
- `lookup.dfy`: `lookup_release_year`. It picks the first reference row
  whose lower-cased Name equals the lower-cased key.
- `fill.dfy`: the `apply` that keeps a present Year and looks up a missing one.
- `writeback.dfy`: the loop over worksheet rows 2 and onward. Each row takes
  the Year of the first main-table row whose Game equals cell 0 exactly, and
  that Year is written to cell 4. The result is `Aborted(row, why)` or
  `Saved(sheet)`.
- `autopopulate.dfy`: the whole run, `Run(main, years, sheet)`, with the
  end-to-end properties stated on the tables as loaded.

Matching differs between the steps. The reference lookup compares names
ignoring case: two names match when they are equal after lower-casing.
There is no similarity score and no threshold. The write-back matches Game
against cell 0 exactly and case-sensitively. In both steps, when several
rows match, the first one in table order wins.

The write-back writes cell 4 of every data row. Every row with a given Game
gets the Year of the first main-table row with that Game
(`Autopopulate.RunKeepsKnownYears`). When a Game appears twice in the main
table with different Years, the worksheet row of the second one is
overwritten with the first one's Year
(`Autopopulate.RunOverwritesLaterDuplicate`).

## Model

| member | source | states |
|---|---|---|
| `Text.Lower` | autopopulate.py:32 | lower-casing keeps the length, turns each upper-case letter into its lower-case letter, and leaves every other character unchanged |
| `Mask.Where` | autopopulate.py:32 | the mask selection holds every row that satisfies the condition and no other row, and no more rows than the table |
| `Mask.WhereAppend` | autopopulate.py:32 | selecting from two tables placed one after the other is the selection from the first followed by the selection from the second, so table order and repeated rows are kept |
| `Mask.WhereStartsAtFirst` | autopopulate.py:36 | a selection starts with the first row of the table that satisfies the condition |
| `Mask.Head` | autopopulate.py:35-38 | taking `.values[0]` of a non-empty selection yields the first satisfying row in table order; it yields nothing exactly when no row satisfies the condition |
| `Lookup.LookupReleaseYear` | autopopulate.py:30-38 | the result is the Year of the first reference row whose lower-cased Name equals the lower-cased key; it is None when no row matches |
| `Lookup.LookupNoneIff` | autopopulate.py:35-38 | when every reference row has a Year, the lookup returns None exactly when no Name matches ignoring case |
| `Lookup.LookupCaseInsensitive` | autopopulate.py:32 | two keys with the same lower-cased form get the same answer |
| `Lookup.LookupLowerKey` | autopopulate.py:32 | looking up the lower-cased key gives the same answer as looking up the key |
| `Fill.FillRow` | autopopulate.py:44-46 | a row with a Year is unchanged; a row without one gets the lookup of its Game; Game and other columns are never changed |
| `Fill.FillMissing` | autopopulate.py:43-48 | the fill keeps the row count and order, every Game and every other column; present Years are untouched and missing ones are looked up |
| `Fill.FillMissingLeavesGap` | autopopulate.py:43-48 | after the fill a row has no Year exactly when it had none before and the lookup of its Game found none |
| `Fill.FillMissingIdempotent` | autopopulate.py:43-48 | filling an already filled table changes nothing |
| `SheetWriter.WriteRow` | autopopulate.py:58-65 | a row is written exactly when it has cells 0 and 4 and the first main-table Game equal to cell 0 has a Year; only cell 4 changes, and it gets that Year |
| `SheetWriter.WriteRowReason` | autopopulate.py:58-65 | a failing row gets its reason in the order the loop body meets the failures: no cell 0, no Game equal to cell 0, a missing Year for the first such Game, no cell 4; each reason is given exactly in its own case |
| `SheetWriter.WriteRows` | autopopulate.py:57-65 | the loop succeeds with every row written, or stops at the first row that fails with that row's reason, every earlier row having succeeded |
| `SheetWriter.WriteBack` | autopopulate.py:57-67 | the workbook is saved exactly when every row after the header resolves; the saved sheet keeps the header and row count, and every later row is its written form; otherwise the outcome names the first failing row and carries no sheet |
| `SheetWriter.WriteRowIdempotent` | autopopulate.py:58-62 | writing an already written row changes nothing |
| `SheetWriter.WriteBackIdempotent` | autopopulate.py:57-67 | running the write-back on the sheet it saved saves the same sheet |
| `Autopopulate.FillKeepsFirstGame` | autopopulate.py:43-48 | the fill does not change which main-table row is the first with a given Game |
| `Autopopulate.ResolvesAfterFill` | autopopulate.py:43-65 | a worksheet row resolves against the filled table exactly when its first matching Game had a Year or gets one from the reference table |
| `Autopopulate.Run` | autopopulate.py:43-67 | the run saves exactly when every data row's first exactly matching Game has a Year or gets one by lookup; only cell 4 of data rows changes, and it gets that Year; an aborted run names the first data row that cannot be resolved, every earlier data row being resolvable |
| `Autopopulate.RunKeepsKnownYears` | autopopulate.py:43-62 | every worksheet row with a given Game gets the Year of the first main-table row with that Game, when that row has one |
| `Autopopulate.RunOverwritesLaterDuplicate` | autopopulate.py:60-62 | an example: with Tetris listed in the main table with 1984 and then 1989, the worksheet row that held 1989 is saved with 1984 (the general case is `Autopopulate.RunKeepsKnownYears`) |
| `Autopopulate.RunFillsFromReference` | autopopulate.py:43-62 | for a Game without a Year, the value written is the Year of the first reference row matching it ignoring case |
| `Autopopulate.RunOnFilledTable` | autopopulate.py:43-48 | a run on an already filled main table has the same outcome as the run on the original |
| `Autopopulate.RunAgainSavesSame` | autopopulate.py:57-67 | running again on the saved worksheet saves the same worksheet |

## Left out

- Loading and saving files is not modelled. This covers `load_workbook`, `read_excel`, `read_csv`, `save` and the `FileNotFoundError` handling (lines 6-11, 20, 23, 67). It is library I/O. The save is the `Saved` outcome, and the three tables are parameters of `Run`.
- Making the sheet visible (lines 15-17) is not modelled. It sets one attribute on a library object.
- The main table and the worksheet are separate inputs. The model does not assume that one was read from the other, because the code does not rely on it.
- Text.Lower: lower-cases ASCII letters only. Python's `str.lower` follows full Unicode case mapping.
- A missing value is `None` throughout. In pandas, a None returned by the lookup becomes NaN in a float column, and NaN passes the `is not None` test at line 61. The model treats every missing Year as None. The source can therefore write NaN and save where the model aborts.
- Main-table Games are modelled as strings. A Game that is not a string (a blank or a number) would make `.lower()` raise during the fill when its Year is missing. Worksheet cells may be blank, text or numbers. A non-text cell 0 never equals a Game.
- Years are modelled as integers, and a Year is written as a number cell. Spreadsheet types such as floats and dates are not modelled.
- An abort is reported as the 0-based index of the failing worksheet row with its reason. The message printed at line 64 and the exception tracebacks are not modelled.
