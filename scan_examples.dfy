/** Worked examples of the scan and the lookups on small notebooks. */
module ScanExamples {
  import opened Outcomes
  import opened Text
  import opened Executor
  import opened Lookups

  /** The buffer of a two-cell notebook in the percent format. */
  const Buffer: seq<string> := ["# %%", "x = 1", "y = 2", "# %%", "print(x)"]

  /** The two cells of that notebook, as the converter gives them. */
  const Notebook: seq<Cell> := [Cell("x = 1\ny = 2"), Cell("print(x)")]

  /** The lines of the first cell, as `splitlines` gives them. */
  lemma FirstCellLines()
    ensures Lines(Cell("x = 1\ny = 2")) == ["x = 1", "y = 2"]
  {
    FirstCellSplit();
  }

  lemma FirstCellSplit()
    ensures SplitLines("x = 1\ny = 2") == ["x = 1", "y = 2"]
  {
    assert "x = 1\ny = 2" == "x = 1" + [NewLine] + "y = 2";
    SplitLinesCons("x = 1", "y = 2");
    SplitLinesSingle("y = 2");
  }

  /** The lines of the second cell. */
  lemma SecondCellLines()
    ensures Lines(Cell("print(x)")) == ["print(x)"]
  {
    SplitLinesSingle("print(x)");
  }

  /** The cell markers stay unmapped; the cursor on the first line is out of
      cell, on the last line it is in cell 1, and line 1 of cell 1 is buffer
      line 5. */
  lemma TwoCellExample()
    ensures Surjection(Buffer, Notebook) == Ok([(-1, -1), (0, 0), (0, 1), (-1, -1), (1, 0)])
    ensures CurrentCell(Surjection(Buffer, Notebook).value, 1) == None
    ensures CurrentCell(Surjection(Buffer, Notebook).value, 5) == Some(1)
    ensures TracebackLine(Surjection(Buffer, Notebook).value, 1, 1) == Ok(5)
  {
    FirstCellLines();
    SecondCellLines();
    TwoCellScan(Notebook);
  }

  /** The same for any two cells with those lines. */
  lemma TwoCellScan(cells: seq<Cell>)
    requires |cells| == 2 && Lines(cells[0]) == ["x = 1", "y = 2"] && Lines(cells[1]) == ["print(x)"]
    ensures Surjection(Buffer, cells) == Ok([(-1, -1), (0, 0), (0, 1), (-1, -1), (1, 0)])
    ensures CurrentCell(Surjection(Buffer, cells).value, 1) == None
    ensures CurrentCell(Surjection(Buffer, cells).value, 5) == Some(1)
    ensures TracebackLine(Surjection(Buffer, cells).value, 1, 1) == Ok(5)
  {
    var b := Buffer;
    var xs := [Item(0, 0, "x = 1"), Item(0, 1, "y = 2"), Item(1, 0, "print(x)")];
    assert Items(cells) == xs by {
      assert ItemsFrom(cells, 2) == [];
      assert ItemsFrom(cells, 1) == [Item(1, 0, "print(x)")];
    }
    var u := Unmapped;
    assert seq(|b|, _ => Unmapped) == [u, u, u, u, u];
    assert NextMatch(b, "x = 1", 0) == Some(1);
    assert NextMatch(b, "y = 2", 1) == Some(2);
    assert NextMatch(b, "print(x)", 2) == Some(4);
    assert [u, u, u, u, u][1 := (0, 0)] == [u, (0, 0), u, u, u];
    assert [u, (0, 0), u, u, u][2 := (0, 1)] == [u, (0, 0), (0, 1), u, u];
    assert [u, (0, 0), (0, 1), u, u][4 := (1, 0)] == [u, (0, 0), (0, 1), u, (1, 0)];
    assert xs[1..] == [Item(0, 1, "y = 2"), Item(1, 0, "print(x)")];
    assert xs[1..][1..] == [Item(1, 0, "print(x)")];
    calc {
      Fill(b, xs, 0, [u, u, u, u, u]);
      Fill(b, xs[1..], 1, [u, (0, 0), u, u, u]);
      Fill(b, xs[1..][1..], 2, [u, (0, 0), (0, 1), u, u]);
      Fill(b, [], 4, [u, (0, 0), (0, 1), u, (1, 0)]);
    }
    assert (1, 0) !in [u, (0, 0), (0, 1), u];
  }

  /** Lines of the notebook out of their buffer order: the scan runs off the
      end of the buffer and raises `IndexError`. */
  lemma OutOfOrderExample(cells: seq<Cell>)
    requires |cells| == 1 && Lines(cells[0]) == ["x = 1", "y = 2"]
    ensures Surjection(["y = 2", "x = 1"], cells) == Err(IndexError)
  {
    var b := ["y = 2", "x = 1"];
    var xs := [Item(0, 0, "x = 1"), Item(0, 1, "y = 2")];
    assert Items(cells) == xs by {
      assert ItemsFrom(cells, 1) == [];
    }
    assert seq(|b|, _ => Unmapped) == [Unmapped, Unmapped];
    assert NextMatch(b, "x = 1", 0) == Some(1);
    assert NextMatch(b, "y = 2", 1) == None;
    assert xs[1..] == [Item(0, 1, "y = 2")];
    calc {
      Fill(b, xs, 0, [Unmapped, Unmapped]);
      Fill(b, xs[1..], 1, [Unmapped, (0, 0)]);
    }
  }

  /** Two equal lines of one cell meet one buffer line: the second overwrites
      the first, so `(0, 0)` appears nowhere and looking it up fails. */
  lemma SharedSlotExample()
    ensures Surjection([""], [Cell("\n\n")]) == Ok([(0, 1)])
    ensures TracebackLine([(0, 1)], 0, 1) == Err(ValueError)
  {
    assert Lines(Cell("\n\n")) == ["", ""] by {
      FirstIndexAt("", NewLine, "\n");
      FirstIndexAt("", NewLine, "");
      assert "\n\n"[1..] == "\n";
    }
    var b := [""];
    var xs := [Item(0, 0, ""), Item(0, 1, "")];
    assert Items([Cell("\n\n")]) == xs;
    assert seq(|b|, _ => Unmapped) == [Unmapped];
    assert NextMatch(b, "", 0) == Some(0);
    assert xs[1..] == [Item(0, 1, "")];
    assert [Unmapped][0 := Label(xs[0])] == [(0, 0)];
    assert [(0, 0)][0 := Label(xs[1])] == [(0, 1)];
    calc {
      Fill(b, xs, 0, [Unmapped]);
      Fill(b, xs[1..], 0, [(0, 0)]);
      Fill(b, [], 0, [(0, 1)]);
    }
  }
}
