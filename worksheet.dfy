/**
 * The worksheet the mentions are stored in, and the append step
 * (scraper_to_sheets.py lines 103-117).  Only the cell contents are
 * modelled: the network calls, the one-second pause and the exception that
 * triggers the row-by-row fallback are not.
 */
module Sheet {
  import opened Articles

  /** The first worksheet of the mentions spreadsheet: its rows of cells, top to bottom. */
  class Worksheet {
    var rows: seq<seq<string>>

    constructor (initial: seq<seq<string>>)
      ensures rows == initial
    {
      rows := initial;
    }

    /** `get_all_values()`: every row, the header included. */
    method GetAllValues() returns (values: seq<seq<string>>)
      ensures values == rows
    {
      values := rows;
    }

    /** `append_row(row)`: adds one row after the last one. */
    method AppendRow(row: seq<string>)
      modifies this
      ensures rows == old(rows) + [row]
    {
      rows := rows + [row];
    }

    /** `append_rows(batch)`: adds the rows of `batch` after the last one, in order. */
    method AppendRows(batch: seq<seq<string>>)
      modifies this
      ensures rows == old(rows) + batch
    {
      rows := rows + batch;
    }
  }

  /**
   * The sheet after the append step: unchanged when there is nothing new;
   * otherwise the header first when the sheet was empty, then the new rows.
   */
  function AfterAppend(before: seq<seq<string>>, newRows: seq<seq<string>>): (after: seq<seq<string>>)
    ensures newRows == [] ==> after == before
    ensures |before| <= |after| && after[..|before|] == before
    ensures |after| == |before| + |newRows| + (if before == [] && newRows != [] then 1 else 0)
    ensures after[|after| - |newRows|..] == newRows
    ensures before == [] && newRows != [] ==> after[0] == Headers
  {
    if newRows == [] then before
    else if before == [] then [Headers] + newRows
    else before + newRows
  }

  /**
   * The append step.  `batchFails` stands for the batch call raising: the
   * failed batch writes nothing, and the rows are then appended one by one.
   * Both paths leave the same contents.
   */
  method AppendNewMentions(ws: Worksheet, newRows: seq<seq<string>>, batchFails: bool)
    modifies ws
    ensures ws.rows == AfterAppend(old(ws.rows), newRows)
  {
    if newRows == [] {
      return;
    }
    var values := ws.GetAllValues();
    if |values| == 0 {
      ws.AppendRow(Headers);
    }
    ghost var start := ws.rows;
    if !batchFails {
      ws.AppendRows(newRows);
    } else {
      for i := 0 to |newRows|
        invariant ws.rows == start + newRows[..i]
      {
        ws.AppendRow(newRows[i]);
        assert newRows[..i + 1] == newRows[..i] + [newRows[i]];
      }
      assert newRows[..|newRows|] == newRows;
    }
  }
}
