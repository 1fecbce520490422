/** The three data sets the script works on.
    - The reference table (`Video_Games.csv`): rows of Name and Year.
    - The main table (`Master_List.xlsx` read as a data frame): rows with a
      Game, a possibly missing Year, and the other columns.
    - The formatted worksheet of the same workbook: a grid of cells whose
      first row is the header.
 */
module Tables {
  import opened Wrappers

  /** A release year. Missing years are `None` in an `Option<Year>`. */
  type Year = int

  /** One cell of the worksheet. */
  datatype Cell = Blank | Text(text: string) | Num(num: int)

  /** One row of the reference data set. */
  datatype RefRow = RefRow(name: string, year: Option<Year>)

  /** One row of the main data frame: the Game key, the Year to fill, and
      every other column, which the fill step never touches. */
  datatype GameRow = GameRow(game: string, year: Option<Year>, rest: seq<Cell>)

  /** The worksheet, row by row; row 0 is the header. */
  type Sheet = seq<seq<Cell>>
}
