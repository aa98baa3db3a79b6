/**
 * The query engine of SQLAir: the select and update scans over an in-memory
 * table, the formatting of their replies, and the registry of loaded tables
 * with its "most recent table" default. Threads, locks and the wait/notify
 * protocol are not modelled; the model is one caller acting alone.
 */
module Engine {
  import opened Wrappers
  import opened Text
  import opened Csv

  /** The failures the modelled code raises. */
  datatype Error =
    | EmptyColumnList                      // colNames.at(0) on an empty list
    | LoadFailure(id: string, cause: string)
    | SaveRefused(message: string)
    | NotInMemory(id: string)              // inMemoryCSV.at(id) of an absent id

  /** What a select or update query writes, or that its caller would block. */
  datatype Reply =
    | Printed(text: string)
    | Waits                                // mustWait and nothing matched
    | Failed(error: Error)

  /** What a save hands to the file writer, and the confirmation it prints. */
  datatype Saved = Saved(path: string, contents: CsvData, text: string)

  /** Reads the table a file name or URL identifies (CSV::load over a file
      stream or an HTTP download), or fails with a reason. */
  type Loader = string -> Result<LoadedCsv, string>

  const SaveRefusedMessage := "Saving CSV to an URL using POST is not implemented"
  const UrlScheme := "http://"

  /** The column list a query uses: "*" in first place stands for all the
      table's columns, in table order. */
  function ResolveColumns(colNames: seq<string>, columns: seq<string>): seq<string>
    requires |colNames| > 0
  {
    if colNames[0] == "*" then columns else colNames
  }

  /** The text of a finished select: header and rows only when something
      matched, then the count line. */
  function SelectText(names: seq<string>, lines: seq<string>): string
  {
    (if |lines| > 0 then Join(names, '\t') + "\n" + Terminated(lines, '\n') else "")
    + NatToString(|lines|) + " row(s) selected.\n"
  }

  class SQLAir {
    /** SQLAirBase::matches, left abstract. */
    const matches: Matcher
    /** The file and URL reader, left abstract. */
    const load: Loader
    /** The tables loaded so far, by file name or URL. */
    var inMemory: map<string, Table>
    /** The identifier the last query used; an empty identifier means this one. */
    var recent: string

    ghost predicate Valid()
      reads this, inMemory.Values
    {
      forall id :: id in inMemory ==> inMemory[id].Valid()
    }

    constructor (matches: Matcher, load: Loader)
      ensures Valid()
      ensures this.matches == matches && this.load == load
      ensures inMemory == map[] && recent == ""
    {
      this.matches := matches;
      this.load := load;
      inMemory := map[];
      recent := "";
    }

    /** One select scan: appends to `toPrint` one tab-joined line per matching
        row, in table order, and counts those rows. The table is only read. */
    method ProcessSelectRow(colNames: seq<string>, toPrint: string, t: Table, w: Where)
      returns (count: nat, out: string)
      requires t.Valid() && WhereFits(w, |t.columns|) && Named(t.columns, colNames)
      ensures count == |MatchingIndices(t.rows, w, matches)|
      ensures count == |SelectedLines(t.columns, t.rows, colNames, w, matches)|
      ensures out == toPrint + Terminated(SelectedLines(t.columns, t.rows, colNames, w, matches), '\n')
    {
      var rows, columns := t.rows, t.columns;
      count, out := 0, toPrint;
      ghost var lines: seq<string> := [];
      var i := 0;
      while i < |rows|
        invariant 0 <= i <= |rows|
        invariant Rectangular(columns, rows[..i])
        invariant lines == SelectedLines(columns, rows[..i], colNames, w, matches)
        invariant count == |lines|
        invariant out == toPrint + Terminated(lines, '\n')
      {
        ScanStep(columns, rows, colNames, w, matches, i);
        var printRow := rows[i];
        if w.colIdx == -1 || matches(printRow[w.colIdx], w.cond, w.value) {
          ghost var cells := Join(Project(printRow, columns, colNames), '\t');
          TerminatedSnoc(lines, cells, '\n');
          AppendLine(toPrint, Terminated(lines, '\n'), cells, '\n');
          out := AppendProjection(out, printRow, columns, colNames);
          lines := lines + [cells];
          count := count + 1;
        } else {
          assert !RowMatches(printRow, w, matches);
        }
        i := i + 1;
      }
      assert rows[..i] == rows;
      SelectedLinesExact(columns, rows, colNames, w, matches);
    }

    /** The inner loop of a select scan: appends the requested cells of one
        row, tab-separated, and a newline. */
    method AppendProjection(out: string, row: seq<string>, columns: seq<string>, colNames: seq<string>)
      returns (out': string)
      requires |row| == |columns| && Named(columns, colNames)
      ensures out' == out + (Join(Project(row, columns, colNames), '\t') + "\n")
    {
      out' := out;
      var delim := "";
      ghost var cells: seq<string> := [];
      var k := 0;
      while k < |colNames|
        invariant 0 <= k <= |colNames|
        invariant delim == if k == 0 then "" else "\t"
        invariant cells == Project(row, columns, colNames[..k])
        invariant out' == out + Join(cells, '\t')
      {
        var cell := row[IndexOf(columns, colNames[k])];
        ProjectStep(row, columns, colNames, k);
        JoinSnoc(cells, cell, '\t');
        AppendPart(out, Join(cells, '\t'), delim, cell);
        out' := out' + delim + cell;
        cells := cells + [cell];
        delim := "\t";
        k := k + 1;
      }
      assert colNames[..k] == colNames;
      out' := out' + "\n";
    }

    /** A select query. "*" expands to all columns; a header and the row
        lines are written only when some row matched; the count line is
        always written. With mustWait and no match the caller would wait
        for a writer; no writer exists in this model. */
    method SelectQuery(t: Table, mustWait: bool, colNames: seq<string>, w: Where)
      returns (reply: Reply)
      requires t.Valid() && WhereFits(w, |t.columns|)
      requires |colNames| > 0 ==> Named(t.columns, ResolveColumns(colNames, t.columns))
      ensures |colNames| == 0 ==> reply == Failed(EmptyColumnList)
      ensures |colNames| > 0 ==>
                var names := ResolveColumns(colNames, t.columns);
                var lines := SelectedLines(t.columns, t.rows, names, w, matches);
                reply == if mustWait && |lines| == 0 then Waits else Printed(SelectText(names, lines))
    {
      if |colNames| == 0 {
        return Failed(EmptyColumnList);
      }
      var names := colNames;
      if names[0] == "*" {
        names := t.columns;
      }
      var count, toPrint := ProcessSelectRow(names, "", t, w);
      ghost var lines := SelectedLines(t.columns, t.rows, names, w, matches);
      assert toPrint == Terminated(lines, '\n');
      if mustWait && count < 1 {
        return Waits;
      }
      var text := "";
      if count > 0 {
        text := Join(names, '\t') + "\n" + toPrint;
      }
      reply := Printed(text + NatToString(count) + " row(s) selected.\n");
    }

    /** One update scan: in every matching row, assigns values[k] to the
        column colNames[k] for k in list order; counts the matching rows. */
    method ProcessUpdateRow(t: Table, w: Where, colNames: seq<string>, values: seq<string>)
      returns (count: nat)
      requires t.Valid() && WhereFits(w, |t.columns|) && Named(t.columns, colNames)
      requires |colNames| <= |values|
      modifies t
      ensures t.Valid()
      ensures t.rows == UpdatedRows(t.columns, old(t.rows), colNames, values, w, matches)
      ensures count == |MatchingIndices(old(t.rows), w, matches)|
    {
      ghost var orig := t.rows;
      ghost var target := UpdatedRows(t.columns, orig, colNames, values, w, matches);
      count := 0;
      var i := 0;
      while i < |t.rows|
        invariant 0 <= i <= |t.rows| == |orig|
        invariant t.Valid()
        invariant count == |MatchingIndices(orig[..i], w, matches)|
        invariant forall r :: 0 <= r < i ==> t.rows[r] == target[r]
        invariant forall r :: i <= r < |orig| ==> t.rows[r] == orig[r]
      {
        assert orig[..i + 1][..i] == orig[..i];
        if w.colIdx == -1 || matches(t.rows[i][w.colIdx], w.cond, w.value) {
          ghost var before := t.rows;
          var k := 0;
          while k < |colNames|
            invariant 0 <= k <= |colNames|
            invariant t.rows == before[i := Assigned(orig[i], t.columns, colNames[..k], values)]
          {
            assert colNames[..k + 1][..k] == colNames[..k];
            t.rows := t.rows[i := t.rows[i][IndexOf(t.columns, colNames[k]) := values[k]]];
            k := k + 1;
          }
          assert colNames[..k] == colNames;
          count := count + 1;
        }
        i := i + 1;
      }
      assert orig[..i] == orig;
      assert t.rows == target;
    }

    /** An update query: the update scan, then the count line. A write that
        changed rows wakes every waiting query (`notifyAll`); with mustWait
        and no match the caller would wait for a writer. */
    method UpdateQuery(t: Table, mustWait: bool, colNames: seq<string>, values: seq<string>, w: Where)
      returns (reply: Reply, notifyAll: bool)
      requires t.Valid() && WhereFits(w, |t.columns|)
      requires |colNames| > 0 ==>
                 Named(t.columns, ResolveColumns(colNames, t.columns)) &&
                 |ResolveColumns(colNames, t.columns)| <= |values|
      modifies t
      ensures t.Valid()
      ensures |colNames| == 0 ==> reply == Failed(EmptyColumnList) && !notifyAll && t.rows == old(t.rows)
      ensures |colNames| > 0 ==>
                var names := ResolveColumns(colNames, t.columns);
                var count := |MatchingIndices(old(t.rows), w, matches)|;
                && t.rows == UpdatedRows(t.columns, old(t.rows), names, values, w, matches)
                && notifyAll == (count > 0)
                && reply == if mustWait && count == 0 then Waits
                            else Printed(NatToString(count) + " row(s) updated.\n")
    {
      notifyAll := false;
      if |colNames| == 0 {
        return Failed(EmptyColumnList), false;
      }
      var names := colNames;
      if names[0] == "*" {
        names := t.columns;
      }
      var count := ProcessUpdateRow(t, w, names, values);
      if mustWait && count < 1 {
        return Waits, false;
      }
      notifyAll := count > 0;
      reply := Printed(NatToString(count) + " row(s) updated.\n");
    }

    /** Resolves an identifier to its in-memory table: an empty identifier
        means the most recent one, which is then recorded as most recent;
        a table already in memory is returned as it is, otherwise it is
        loaded and registered under the identifier. */
    method LoadAndGet(fileOrURL: string) returns (r: Result<Table, Error>)
      requires Valid()
      modifies this
      ensures Valid()
      ensures recent == if fileOrURL == "" then old(recent) else fileOrURL
      ensures recent in old(inMemory) ==> r == Ok(old(inMemory)[recent]) && inMemory == old(inMemory)
      ensures recent !in old(inMemory) && load(recent).Err? ==>
                r == Err(LoadFailure(recent, load(recent).error)) && inMemory == old(inMemory)
      ensures recent !in old(inMemory) && load(recent).Ok? ==>
                && r.Ok? && fresh(r.value)
                && r.value.Data() == load(recent).value
                && inMemory == old(inMemory)[recent := r.value]
      ensures r.Ok? ==> recent in inMemory && inMemory[recent] == r.value
    {
      var id := if fileOrURL == "" then recent else fileOrURL;
      recent := id;
      if id in inMemory {
        return Ok(inMemory[id]);
      }
      var loaded := load(id);
      if loaded.Err? {
        return Err(LoadFailure(id, loaded.error));
      }
      var csv := new Table(loaded.value);
      inMemory := inMemory[id := csv];
      r := Ok(csv);
    }

    /** A save of the most recent table: refused when there is none or it
        came from a URL; otherwise the table's current content goes to the
        file of that name. */
    method SaveQuery() returns (r: Result<Saved, Error>)
      ensures recent == "" || UrlScheme <= recent <==> r == Err(SaveRefused(SaveRefusedMessage))
      ensures recent != "" && !(UrlScheme <= recent) && recent !in inMemory ==>
                r == Err(NotInMemory(recent))
      ensures recent != "" && !(UrlScheme <= recent) && recent in inMemory ==>
                r == Ok(Saved(recent, inMemory[recent].Data(), recent + " saved.\n"))
    {
      if recent == "" || UrlScheme <= recent {
        return Err(SaveRefused(SaveRefusedMessage));
      }
      if recent !in inMemory {
        return Err(NotInMemory(recent));
      }
      r := Ok(Saved(recent, inMemory[recent].Data(), recent + " saved.\n"));
    }
  }
}
