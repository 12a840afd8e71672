/** The two places `JNRun` reads the surjection back: the cell under the
    cursor, chosen before running, and the buffer line of a traceback frame,
    found after an error. */
module Lookups {
  import opened Outcomes
  import opened Text
  import opened Executor
  import opened Traceback

  /** The cell `JNRun` runs: the cell recorded for the cursor line, or `None`
      ("Current line is out of cell") when that entry's cell is `-1`. The
      cursor is the editor's 1-based `line('.')`, so the entry read is
      `surjection[cursor - 1]`. */
  function CurrentCell(surjection: seq<Pair>, cursor: int): (r: Option<int>)
    requires 1 <= cursor <= |surjection|
    ensures r.None? <==> surjection[cursor - 1].0 == -1
    ensures r.Some? ==> r.value == surjection[cursor - 1].0
  {
    var cell := surjection[cursor - 1].0;
    if cell == -1 then None else Some(cell)
  }

  /** Against the scan: the cursor is out of cell exactly when the scan's
      cursor never stopped on that buffer line, and otherwise the cell chosen
      is a real cell one of whose lines is the text under the cursor. */
  lemma CurrentCellOfSurjection(buffer: seq<string>, cells: seq<Cell>, cursor: int)
    requires Surjection(buffer, cells).Ok?
    requires 1 <= cursor <= |buffer|
    ensures Stops(buffer, cells).Some?
    ensures var current := CurrentCell(Surjection(buffer, cells).value, cursor);
      && (current.None? <==> cursor - 1 !in Stops(buffer, cells).value)
      && (current.Some? ==> 0 <= current.value < |cells| && buffer[cursor - 1] in Lines(cells[current.value]))
  {
    SurjectionUnmapped(buffer, cells);
    SurjectionAttributes(buffer, cells);
    var r := Surjection(buffer, cells).value;
    var k := cursor - 1;
    if r[k] != Unmapped {
      assert buffer[k] == Lines(cells[r[k].0])[r[k].1];
    }
  }

  /** `s.index(p)`: the first position holding `p`, or `ValueError` when
      there is none. */
  function IndexOf<T(==)>(s: seq<T>, p: T): (r: Result<nat>)
    ensures r.Ok? ==> r.value < |s| && s[r.value] == p && p !in s[..r.value]
    ensures r.Err? ==> p !in s && r.error == ValueError
  {
    if s == [] then Err(ValueError)
    else if s[0] == p then Ok(0)
    else match IndexOf(s[1..], p)
      case Ok(k) =>
        assert s[..k + 1] == [s[0]] + s[1..][..k];
        Ok(k + 1)
      case Err(e) => Err(e)
  }

  /** `surjection.index((cell, line - 1)) + 1`: the 1-based buffer line of the
      1-based `line` of `cell`, or `ValueError` when no entry records it. */
  function TracebackLine(surjection: seq<Pair>, cell: int, line: int): (r: Result<int>)
    ensures r.Ok? ==> 1 <= r.value <= |surjection| && surjection[r.value - 1] == (cell, line - 1)
                      && (cell, line - 1) !in surjection[..r.value - 1]
    ensures r.Err? <==> (cell, line - 1) !in surjection
    ensures r.Err? ==> r.error == ValueError
  {
    match IndexOf(surjection, (cell, line - 1))
    case Ok(k) => Ok(k + 1)
    case Err(e) => Err(e)
  }

  /** Looking a mapped buffer line up again gives that line back: entries
      of a surjection never repeat, so the first one found is the one. */
  lemma TracebackLineRoundTrip(buffer: seq<string>, cells: seq<Cell>, k: nat)
    requires Surjection(buffer, cells).Ok?
    requires k < |buffer| && Surjection(buffer, cells).value[k] != Unmapped
    ensures var r := Surjection(buffer, cells).value;
      TracebackLine(r, r[k].0, r[k].1 + 1) == Ok(k + 1)
  {
    var r := Surjection(buffer, cells).value;
    SurjectionMonotone(buffer, cells);
    var found := TracebackLine(r, r[k].0, r[k].1 + 1);
    assert r[k] in r;
    assert !Before(r[k], r[k]);
  }

  /** A line found by the lookup is a real line of that cell, and the buffer
      line returned holds exactly its text. */
  lemma TracebackLineText(buffer: seq<string>, cells: seq<Cell>, cell: int, line: int)
    requires Surjection(buffer, cells).Ok?
    requires cell >= 0
    ensures var found := TracebackLine(Surjection(buffer, cells).value, cell, line);
      found.Ok? ==>
        && cell < |cells| && 1 <= line <= |Lines(cells[cell])|
        && 1 <= found.value <= |buffer| && buffer[found.value - 1] == Lines(cells[cell])[line - 1]
  {
    SurjectionAttributes(buffer, cells);
    var r := Surjection(buffer, cells).value;
    var found := TracebackLine(r, cell, line);
    if found.Ok? {
      assert r[found.value - 1] != Unmapped;
    }
  }

  /** The cost of last-write-wins: a cell line that shared its buffer line
      with the next cell line is recorded nowhere, so a traceback pointing at
      it ends in `ValueError`. */
  lemma TracebackLineOverwritten(buffer: seq<string>, cells: seq<Cell>, t: nat)
    requires Surjection(buffer, cells).Ok?
    ensures Stops(buffer, cells).Some?
    ensures var ps, xs := Stops(buffer, cells).value, Items(cells);
      t + 1 < |ps| && ps[t] == ps[t + 1] ==>
        TracebackLine(Surjection(buffer, cells).value, xs[t].cell, xs[t].line + 1) == Err(ValueError)
  {
    SurjectionLastWriteWins(buffer, cells);
  }

  /** The first line of the error report: the frame of the cell's own code
      (traceback entry 2), with its file replaced by the buffer's name and its
      line carried from the cell into the buffer. Both ways to fail, a line
      field that is no number and a cell line no entry records, raise
      `ValueError`. */
  function FirstFrame(surjection: seq<Pair>, cell: int, bufferName: string, entry: string): (r: Result<Frame>)
    ensures r.Err? ==> r.error == ValueError
    ensures ParseTraceback(entry).Err? ==> r == Err(ValueError)
    ensures r.Ok? ==> r.value.file == bufferName && 1 <= r.value.line <= |surjection|
  {
    match ParseTraceback(entry)
    case Err(e) => Err(e)
    case Ok(frame) =>
      match TracebackLine(surjection, cell, frame.line)
      case Err(e) => Err(e)
      case Ok(l) => Ok(Frame(bufferName, l, frame.func))
  }

  /** For an entry that parses, naming line `n` and function `func`, the
      report names that function and a buffer line holding exactly the text
      of line `n` of the cell that ran, the one the scan recorded it at; it
      fails exactly when the scan recorded that cell line nowhere. */
  lemma FirstFrameRelocates(buffer: seq<string>, cells: seq<Cell>, cell: int, bufferName: string, entry: string)
    requires Surjection(buffer, cells).Ok?
    requires cell >= 0
    requires ParseTraceback(entry).Ok?
    ensures var s, n := Surjection(buffer, cells).value, ParseTraceback(entry).value.line;
      var r := FirstFrame(s, cell, bufferName, entry);
      && (r.Ok? <==> (cell, n - 1) in s)
      && (r.Ok? ==>
            && r.value.func == ParseTraceback(entry).value.func
            && cell < |cells| && 1 <= n <= |Lines(cells[cell])|
            && buffer[r.value.line - 1] == Lines(cells[cell])[n - 1])
      && (forall k :: 0 <= k < |s| && s[k] == (cell, n - 1) ==> r.Ok? && r.value.line == k + 1)
  {
    var s, frame := Surjection(buffer, cells).value, ParseTraceback(entry).value;
    var r := FirstFrame(s, cell, bufferName, entry);
    FirstFrameIsLookup(s, cell, bufferName, entry);
    TracebackLineText(buffer, cells, cell, frame.line);
    forall k | 0 <= k < |s| && s[k] == (cell, frame.line - 1)
      ensures r.Ok? && r.value.line == k + 1
    {
      FirstFrameAt(buffer, cells, cell, bufferName, entry, frame.line, frame.func, k);
    }
  }

  /** The report is the lookup of the parsed line, with the parsed function. */
  lemma FirstFrameIsLookup(s: seq<Pair>, cell: int, bufferName: string, entry: string)
    requires ParseTraceback(entry).Ok?
    ensures var frame := ParseTraceback(entry).value;
      FirstFrame(s, cell, bufferName, entry) ==
        match TracebackLine(s, cell, frame.line)
        case Err(e) => Err(e)
        case Ok(l) => Ok(Frame(bufferName, l, frame.func))
  {
  }

  /** In particular for the entries IPython writes, whatever their file
      name: the report for line `n` of the cell that ran is the buffer line
      the scan recorded it at. */
  lemma FirstFrameOfEntry(buffer: seq<string>, cells: seq<Cell>, cell: int, bufferName: string,
                          file: string, func: string, call: string, context: string,
                          dashes: string, n: nat, rest: string, k: nat)
    requires Surjection(buffer, cells).Ok?
    requires cell >= 0
    requires Esc !in func && Dashes(dashes)
    requires Free(call, FunctionMarker) && Free(context, FunctionMarker)
    requires Free(rest, Arrow) && Free(rest, FunctionMarker)
    requires k < |buffer| && Surjection(buffer, cells).value[k] == (cell, n - 1)
    ensures FirstFrame(Surjection(buffer, cells).value, cell, bufferName,
                       FrameEntry(file, func, call, context, dashes, n, rest))
            == Ok(Frame(bufferName, k + 1, func))
  {
    var entry := FrameEntry(file, func, call, context, dashes, n, rest);
    ParseEntryFields(file, func, call, context, dashes, n, rest);
    FirstFrameAt(buffer, cells, cell, bufferName, entry, n, func, k);
  }

  /** The report for an entry that parses to line `n` and function `func`,
      when the scan recorded line `n` of the cell at buffer line `k`. */
  lemma FirstFrameAt(buffer: seq<string>, cells: seq<Cell>, cell: int, bufferName: string,
                     entry: string, n: int, func: string, k: nat)
    requires Surjection(buffer, cells).Ok?
    requires cell >= 0
    requires ParseTraceback(entry).Ok? && ParseTraceback(entry).value.line == n
    requires ParseTraceback(entry).value.func == func
    requires k < |buffer| && Surjection(buffer, cells).value[k] == (cell, n - 1)
    ensures FirstFrame(Surjection(buffer, cells).value, cell, bufferName, entry) == Ok(Frame(bufferName, k + 1, func))
  {
    TracebackLineRoundTrip(buffer, cells, k);
  }
}
