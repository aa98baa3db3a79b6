/**
 * Tables as the query engine sees them: column names, rows of text cells,
 * and the specification of what one select scan and one update scan make of
 * a table. CSV::load, CSV::save and the textual CSV format are not part of
 * this model; a loaded table is a CsvData value.
 */
module Csv {
  import opened Text

  /** Column names and rows, row-major, as the loader delivers them. */
  datatype CsvData = CsvData(columns: seq<string>, rows: seq<seq<string>>)

  /** Every row has one cell per column. */
  predicate Rectangular(columns: seq<string>, rows: seq<seq<string>>)
  {
    forall i :: 0 <= i < |rows| ==> |rows[i]| == |columns|
  }

  /** What a successful load yields: a rectangular table. */
  type LoadedCsv = d: CsvData | Rectangular(d.columns, d.rows) witness CsvData([], [])

  /** An in-memory table. The column list and the number of rows are fixed
      after loading; the cells of each row are overwritten in place. */
  class Table {
    const columns: seq<string>
    var rows: seq<seq<string>>

    ghost predicate Valid()
      reads this
    {
      Rectangular(columns, rows)
    }

    /** The table's current content, as a save would write it. */
    function Data(): CsvData
      reads this
    {
      CsvData(columns, rows)
    }

    constructor (data: LoadedCsv)
      ensures Valid()
      ensures columns == data.columns && rows == data.rows
    {
      columns := data.columns;
      rows := data.rows;
    }
  }

  /** SQLAirBase::matches(cell, cond, value); its definition is not part of
      this model, so every scan is stated for an arbitrary matcher. */
  type Matcher = (string, string, string) -> bool

  /** An optional one-column condition: `colIdx` is the index of the column
      it tests, or -1 when the query has no where clause. */
  datatype Where = Where(colIdx: int, cond: string, value: string)

  /** The condition's column exists (or there is no condition). */
  predicate WhereFits(w: Where, width: nat)
  {
    w.colIdx == -1 || 0 <= w.colIdx < width
  }

  /** The test a scan applies to each row. */
  predicate RowMatches(row: seq<string>, w: Where, matches: Matcher)
  {
    w.colIdx == -1 || (0 <= w.colIdx < |row| && matches(row[w.colIdx], w.cond, w.value))
  }

  /** Every name is one of the table's columns. */
  predicate Named(columns: seq<string>, names: seq<string>)
  {
    forall n :: n in names ==> n in columns
  }

  /** The position of a column name: its first occurrence in the list. */
  function IndexOf(columns: seq<string>, name: string): (i: nat)
    requires name in columns
    ensures i < |columns| && columns[i] == name
    ensures forall j :: 0 <= j < i ==> columns[j] != name
  {
    if columns[0] == name then 0 else 1 + IndexOf(columns[1..], name)
  }

  /** The cells of `row` under the requested column names, in request order. */
  function Project(row: seq<string>, columns: seq<string>, names: seq<string>): (cells: seq<string>)
    requires |row| == |columns| && Named(columns, names)
    ensures |cells| == |names|
    ensures forall k :: 0 <= k < |names| ==> cells[k] == row[IndexOf(columns, names[k])]
  {
    if |names| == 0 then []
    else Project(row, columns, names[..|names| - 1]) + [row[IndexOf(columns, names[|names| - 1])]]
  }

  /** The indices of the rows a scan keeps, collected in table order. */
  function MatchingIndices(rows: seq<seq<string>>, w: Where, matches: Matcher): seq<nat>
  {
    if |rows| == 0 then []
    else
      var init := MatchingIndices(rows[..|rows| - 1], w, matches);
      if RowMatches(rows[|rows| - 1], w, matches) then init + [|rows| - 1] else init
  }

  /** The output lines of a select scan, one per kept row, without their
      terminating newlines: the requested cells joined by tabs. */
  function SelectedLines(columns: seq<string>, rows: seq<seq<string>>, names: seq<string>,
                         w: Where, matches: Matcher): seq<string>
    requires Rectangular(columns, rows) && Named(columns, names)
  {
    if |rows| == 0 then []
    else
      var init := SelectedLines(columns, rows[..|rows| - 1], names, w, matches);
      var row := rows[|rows| - 1];
      if RowMatches(row, w, matches) then init + [Join(Project(row, columns, names), '\t')] else init
  }

  /** `row` after the assignments names[k] = values[k], applied in list order. */
  function Assigned(row: seq<string>, columns: seq<string>, names: seq<string>,
                    values: seq<string>): (r: seq<string>)
    requires |row| == |columns| && Named(columns, names) && |names| <= |values|
    ensures |r| == |row|
  {
    if |names| == 0 then row
    else
      var n := |names|;
      Assigned(row, columns, names[..n - 1], values)[IndexOf(columns, names[n - 1]) := values[n - 1]]
  }

  /** The rows after an update scan: matching rows get the assignments,
      the others stay as they are. */
  function UpdatedRows(columns: seq<string>, rows: seq<seq<string>>, names: seq<string>,
                       values: seq<string>, w: Where, matches: Matcher): (r: seq<seq<string>>)
    requires Rectangular(columns, rows) && Named(columns, names) && |names| <= |values|
    ensures Rectangular(columns, r)
  {
    seq(|rows|, i requires 0 <= i < |rows| =>
      if RowMatches(rows[i], w, matches) then Assigned(rows[i], columns, names, values) else rows[i])
  }

  /** One more requested name adds that column's cell at the end. */
  lemma ProjectStep(row: seq<string>, columns: seq<string>, names: seq<string>, k: nat)
    requires |row| == |columns| && Named(columns, names) && k < |names|
    ensures Project(row, columns, names[..k + 1]) ==
              Project(row, columns, names[..k]) + [row[IndexOf(columns, names[k])]]
  {
    assert names[..k + 1][..k] == names[..k];
  }

  /** One more row of a scan: it adds its index and its line exactly when it
      matches. */
  lemma ScanStep(columns: seq<string>, rows: seq<seq<string>>, names: seq<string>,
                 w: Where, matches: Matcher, i: nat)
    requires Rectangular(columns, rows) && Named(columns, names) && i < |rows|
    ensures Rectangular(columns, rows[..i]) && Rectangular(columns, rows[..i + 1])
    ensures MatchingIndices(rows[..i + 1], w, matches) ==
              MatchingIndices(rows[..i], w, matches) + (if RowMatches(rows[i], w, matches) then [i] else [])
    ensures SelectedLines(columns, rows[..i + 1], names, w, matches) ==
              SelectedLines(columns, rows[..i], names, w, matches) +
              (if RowMatches(rows[i], w, matches) then [Join(Project(rows[i], columns, names), '\t')] else [])
  {
    assert rows[..i + 1][..i] == rows[..i];
  }

  /** Cells whose table holds no tab and no newline, so that the text a scan
      writes can be read back unambiguously. */
  predicate CellsPlain(rows: seq<seq<string>>)
  {
    forall i, j :: 0 <= i < |rows| && 0 <= j < |rows[i]| ==> '\t' !in rows[i][j] && '\n' !in rows[i][j]
  }

  /** A scan keeps exactly the matching rows, each once, in table order. */
  lemma {:induction false} MatchingIndicesExact(rows: seq<seq<string>>, w: Where, matches: Matcher)
    ensures forall k :: 0 <= k < |MatchingIndices(rows, w, matches)| ==>
              MatchingIndices(rows, w, matches)[k] < |rows| &&
              RowMatches(rows[MatchingIndices(rows, w, matches)[k]], w, matches)
    ensures forall k, l :: 0 <= k < l < |MatchingIndices(rows, w, matches)| ==>
              MatchingIndices(rows, w, matches)[k] < MatchingIndices(rows, w, matches)[l]
    ensures forall i :: 0 <= i < |rows| && RowMatches(rows[i], w, matches) ==>
              i in MatchingIndices(rows, w, matches)
  {
    if |rows| > 0 {
      var n := |rows|;
      var init := rows[..n - 1];
      MatchingIndicesExact(init, w, matches);
      var mi := MatchingIndices(init, w, matches);
      assert forall k :: 0 <= k < |mi| ==> mi[k] < n - 1 && rows[mi[k]] == init[mi[k]];
      assert forall i :: 0 <= i < n - 1 ==> rows[i] == init[i];
    }
  }

  /** Without a where clause every row is kept. */
  lemma {:induction false} MatchingIndicesAll(rows: seq<seq<string>>, w: Where, matches: Matcher)
    requires w.colIdx == -1
    ensures |MatchingIndices(rows, w, matches)| == |rows|
    ensures forall k :: 0 <= k < |rows| ==> MatchingIndices(rows, w, matches)[k] == k
  {
    if |rows| > 0 {
      MatchingIndicesAll(rows[..|rows| - 1], w, matches);
    }
  }

  /** Line k of a select scan is the projection of the k-th kept row. */
  lemma {:induction false} SelectedLinesExact(columns: seq<string>, rows: seq<seq<string>>,
                                              names: seq<string>, w: Where, matches: Matcher)
    requires Rectangular(columns, rows) && Named(columns, names)
    ensures |SelectedLines(columns, rows, names, w, matches)| == |MatchingIndices(rows, w, matches)|
    ensures forall k :: 0 <= k < |SelectedLines(columns, rows, names, w, matches)| ==>
              MatchingIndices(rows, w, matches)[k] < |rows| &&
              SelectedLines(columns, rows, names, w, matches)[k] ==
                Join(Project(rows[MatchingIndices(rows, w, matches)[k]], columns, names), '\t')
  {
    if |rows| > 0 {
      var n := |rows|;
      var init := rows[..n - 1];
      var lines, mi := SelectedLines(columns, rows, names, w, matches), MatchingIndices(rows, w, matches);
      var lines0, mi0 := SelectedLines(columns, init, names, w, matches), MatchingIndices(init, w, matches);
      SelectedLinesExact(columns, init, names, w, matches);
      assert forall k :: 0 <= k < |mi0| ==> mi0[k] < n - 1 && rows[mi0[k]] == init[mi0[k]];
      if RowMatches(rows[n - 1], w, matches) {
        assert lines == lines0 + [Join(Project(rows[n - 1], columns, names), '\t')];
        assert mi == mi0 + [n - 1];
      } else {
        assert lines == lines0 && mi == mi0;
      }
    }
  }

  /** Reading back the text of a select scan: split at newlines it gives its
      lines (and the empty rest after the last newline); each line split at
      tabs gives the requested cells of one kept row, in table order. */
  lemma {:induction false} SelectedTextReadsBack(columns: seq<string>, rows: seq<seq<string>>,
                              names: seq<string>, w: Where, matches: Matcher)
    requires Rectangular(columns, rows) && Named(columns, names) && |names| > 0
    requires CellsPlain(rows)
    ensures Split(Terminated(SelectedLines(columns, rows, names, w, matches), '\n'), '\n') ==
              SelectedLines(columns, rows, names, w, matches) + [""]
    ensures |SelectedLines(columns, rows, names, w, matches)| == |MatchingIndices(rows, w, matches)|
    ensures forall k :: 0 <= k < |SelectedLines(columns, rows, names, w, matches)| ==>
              MatchingIndices(rows, w, matches)[k] < |rows| &&
              Split(SelectedLines(columns, rows, names, w, matches)[k], '\t') ==
                Project(rows[MatchingIndices(rows, w, matches)[k]], columns, names)
  {
    var lines := SelectedLines(columns, rows, names, w, matches);
    var mi := MatchingIndices(rows, w, matches);
    SelectedLinesExact(columns, rows, names, w, matches);
    forall k | 0 <= k < |lines|
      ensures '\n' !in lines[k]
      ensures Split(lines[k], '\t') == Project(rows[mi[k]], columns, names)
    {
      var cells := Project(rows[mi[k]], columns, names);
      assert forall c :: 0 <= c < |cells| ==> '\t' !in cells[c] && '\n' !in cells[c];
      JoinExcludes(cells, '\t', '\n');
      SplitJoin(cells, '\t');
    }
    SplitTerminated(lines, "", '\n');
    assert Terminated(lines, '\n') + "" == Terminated(lines, '\n');
  }

  /** No assigned name resolves to column position `j`. With a repeated column
      name, only its first position is ever written. */
  predicate Untouched(columns: seq<string>, names: seq<string>, j: int)
    requires Named(columns, names)
  {
    forall k :: 0 <= k < |names| ==> IndexOf(columns, names[k]) != j
  }

  /** The cells an assignment list touches: the last value given for a column
      wins, and a column no name resolves to keeps its cell. */
  lemma {:induction false} AssignedCells(row: seq<string>, columns: seq<string>,
                                         names: seq<string>, values: seq<string>)
    requires |row| == |columns| && Named(columns, names) && |names| <= |values|
    ensures forall k :: 0 <= k < |names| && names[k] !in names[k + 1..] ==>
              Assigned(row, columns, names, values)[IndexOf(columns, names[k])] == values[k]
    ensures forall j :: 0 <= j < |row| && Untouched(columns, names, j) ==>
              Assigned(row, columns, names, values)[j] == row[j]
  {
    if |names| > 0 {
      var n := |names|;
      var init := names[..n - 1];
      AssignedCells(row, columns, init, values);
      forall k | 0 <= k < n - 1 && names[k] !in names[k + 1..]
        ensures Assigned(row, columns, names, values)[IndexOf(columns, names[k])] == values[k]
      {
        assert names[n - 1] in names[k + 1..];
        assert init[k + 1..] == names[k + 1..n - 1];
        assert names[k] == init[k];
      }
      forall j | 0 <= j < |row| && Untouched(columns, names, j)
        ensures Assigned(row, columns, names, values)[j] == row[j]
      {
        assert Untouched(columns, init, j) by {
          forall k | 0 <= k < |init| ensures IndexOf(columns, init[k]) != j {
            assert init[k] == names[k];
          }
        }
      }
    }
  }

  /** What an update scan does to the table: the row count stays, rows that
      do not match are untouched, and in a matching row each named column
      holds the last value assigned to it while every column no name
      resolves to keeps its cell. */
  lemma {:induction false} UpdatedRowsEffect(columns: seq<string>, rows: seq<seq<string>>, names: seq<string>,
                          values: seq<string>, w: Where, matches: Matcher)
    requires Rectangular(columns, rows) && Named(columns, names) && |names| <= |values|
    ensures |UpdatedRows(columns, rows, names, values, w, matches)| == |rows|
    ensures forall i :: 0 <= i < |rows| && !RowMatches(rows[i], w, matches) ==>
              UpdatedRows(columns, rows, names, values, w, matches)[i] == rows[i]
    ensures forall i, k ::
              (0 <= i < |rows| && RowMatches(rows[i], w, matches) &&
               0 <= k < |names| && names[k] !in names[k + 1..]) ==>
              UpdatedRows(columns, rows, names, values, w, matches)[i][IndexOf(columns, names[k])] == values[k]
    ensures forall i, j ::
              (0 <= i < |rows| && RowMatches(rows[i], w, matches) &&
               0 <= j < |columns| && Untouched(columns, names, j)) ==>
              UpdatedRows(columns, rows, names, values, w, matches)[i][j] == rows[i][j]
  {
    forall i | 0 <= i < |rows| && RowMatches(rows[i], w, matches)
      ensures forall k :: 0 <= k < |names| && names[k] !in names[k + 1..] ==>
                UpdatedRows(columns, rows, names, values, w, matches)[i][IndexOf(columns, names[k])] == values[k]
      ensures forall j :: 0 <= j < |columns| && Untouched(columns, names, j) ==>
                UpdatedRows(columns, rows, names, values, w, matches)[i][j] == rows[i][j]
    {
      AssignedCells(rows[i], columns, names, values);
    }
  }

  /** An update scan that matches no row leaves the rows as they were. */
  lemma {:induction false} UpdateWithoutMatches(columns: seq<string>, rows: seq<seq<string>>, names: seq<string>,
                             values: seq<string>, w: Where, matches: Matcher)
    requires Rectangular(columns, rows) && Named(columns, names) && |names| <= |values|
    requires |MatchingIndices(rows, w, matches)| == 0
    ensures UpdatedRows(columns, rows, names, values, w, matches) == rows
  {
    MatchingIndicesExact(rows, w, matches);
    assert forall i :: 0 <= i < |rows| ==> !RowMatches(rows[i], w, matches);
  }
}
