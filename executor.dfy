/** `Executor.code_surjection`: reconciles the editor buffer (a sequence of
    lines) with the parsed notebook (a sequence of cells) by a greedy
    left-to-right scan, giving every buffer line the `(cell, line within cell)`
    it was matched to, or `(-1, -1)`.

    The model has three layers:
    - `CodeSurjection`, the scan itself, over an array, proved equal to
    - `Surjection`, a recursive function that follows the scan step by step
      (`Fill`), about which
    - the lemmas state what the result means, through `Placement` (where the
      cursor stops for each cell line) and `Embeds` (the cell lines occur in
      the buffer in order). */
module Executor {
  import opened Outcomes
  import opened Text

  /** A surjection entry: `(cell index, line index within the cell)`. */
  type Pair = (int, int)

  /** The entry of a buffer line no cell line was matched to. */
  const Unmapped: Pair := (-1, -1)

  /** A notebook cell; only its source text matters to the scan. */
  datatype Cell = Cell(source: string)

  /** `cell.source.splitlines()` */
  function Lines(cell: Cell): seq<string>
  {
    SplitLines(cell.source)
  }

  /** One line of one cell, in the order the scan visits them. */
  datatype Item = Item(cell: nat, line: nat, text: string)

  function Label(it: Item): Pair
  {
    (it.cell, it.line)
  }

  /** Lexicographic order on entries. */
  predicate Before(p: Pair, q: Pair)
  {
    p.0 < q.0 || (p.0 == q.0 && p.1 < q.1)
  }

  // ---------------------------------------------------------------------------
  // The cell lines in scan order (the two nested `for` loops, flattened)

  function CellItems(c: nat, lines: seq<string>): seq<Item>
  {
    seq(|lines|, l requires 0 <= l < |lines| => Item(c, l, lines[l]))
  }

  function ItemsFrom(cells: seq<Cell>, c: nat): seq<Item>
    requires c <= |cells|
    decreases |cells| - c
  {
    if c == |cells| then [] else CellItems(c, Lines(cells[c])) + ItemsFrom(cells, c + 1)
  }

  function Items(cells: seq<Cell>): seq<Item>
  {
    ItemsFrom(cells, 0)
  }

  /** `it` names a line that really is in the notebook, with its text. */
  predicate ListsLine(cells: seq<Cell>, it: Item)
  {
    it.cell < |cells| && it.line < |Lines(cells[it.cell])| && Lines(cells[it.cell])[it.line] == it.text
  }

  ghost predicate Visits(xs: seq<Item>, c: int, l: int)
  {
    exists t :: 0 <= t < |xs| && Label(xs[t]) == (c, l)
  }

  /** Every item from cell `c` on names a line of the notebook, with its text. */
  ghost predicate Listed(cells: seq<Cell>, xs: seq<Item>, c: nat)
  {
    forall t :: 0 <= t < |xs| ==> c <= xs[t].cell && ListsLine(cells, xs[t])
  }

  /** Labels strictly increase along `xs`. */
  ghost predicate Increasing(xs: seq<Item>)
  {
    forall t1, t2 :: 0 <= t1 < t2 < |xs| ==> Before(Label(xs[t1]), Label(xs[t2]))
  }

  /** Every line of every cell from `c` on has an item. */
  ghost predicate Covers(cells: seq<Cell>, xs: seq<Item>, c: nat)
  {
    forall d, l :: c <= d < |cells| && 0 <= l < |Lines(cells[d])| ==> Visits(xs, d, l)
  }

  /** What the items from cell `c` on are: the lines of those cells, each once,
      in lexicographic order of `(cell, line)`. */
  lemma {:induction false} ItemsFromFacts(cells: seq<Cell>, c: nat)
    requires c <= |cells|
    ensures Listed(cells, ItemsFrom(cells, c), c)
    ensures Increasing(ItemsFrom(cells, c))
    ensures Covers(cells, ItemsFrom(cells, c), c)
    decreases |cells| - c
  {
    if c < |cells| {
      ItemsFromFacts(cells, c + 1);
      var a, b := CellItems(c, Lines(cells[c])), ItemsFrom(cells, c + 1);
      assert ItemsFrom(cells, c) == a + b;
      PrependListed(cells, c, b);
      PrependIncreasing(cells, c, b);
      PrependCovers(cells, c, b);
    }
  }

  lemma PrependListed(cells: seq<Cell>, c: nat, b: seq<Item>)
    requires c < |cells| && Listed(cells, b, c + 1)
    ensures Listed(cells, CellItems(c, Lines(cells[c])) + b, c)
  {
    var a := CellItems(c, Lines(cells[c]));
    var xs := a + b;
    assert forall t :: 0 <= t < |a| ==> xs[t] == a[t];
    assert forall t :: |a| <= t < |xs| ==> xs[t] == b[t - |a|];
  }

  lemma PrependIncreasing(cells: seq<Cell>, c: nat, b: seq<Item>)
    requires c < |cells| && Listed(cells, b, c + 1) && Increasing(b)
    ensures Increasing(CellItems(c, Lines(cells[c])) + b)
  {
    var a := CellItems(c, Lines(cells[c]));
    var xs := a + b;
    assert forall t :: 0 <= t < |a| ==> xs[t] == a[t] && Label(a[t]) == (c, t);
    assert forall t :: |a| <= t < |xs| ==> xs[t] == b[t - |a|] && c < xs[t].cell;
  }

  lemma PrependCovers(cells: seq<Cell>, c: nat, b: seq<Item>)
    requires c < |cells| && Covers(cells, b, c + 1)
    ensures Covers(cells, CellItems(c, Lines(cells[c])) + b, c)
  {
    var a := CellItems(c, Lines(cells[c]));
    var xs := a + b;
    forall d, l | c <= d < |cells| && 0 <= l < |Lines(cells[d])|
      ensures Visits(xs, d, l)
    {
      if d == c {
        assert xs[l] == a[l];
        assert Label(xs[l]) == (d, l);
      } else {
        assert Visits(b, d, l);
        var u :| 0 <= u < |b| && Label(b[u]) == (d, l);
        assert xs[|a| + u] == b[u];
      }
    }
  }

  /** The notebook's lines in scan order: every line of every cell exactly
      once, with its text, in increasing `(cell, line)` order. */
  lemma ItemsEnumerateLines(cells: seq<Cell>)
    ensures Listed(cells, Items(cells), 0)
    ensures Increasing(Items(cells))
    ensures Covers(cells, Items(cells), 0)
  {
    ItemsFromFacts(cells, 0);
  }

  // ---------------------------------------------------------------------------
  // The inner `while`: skip to the next buffer line equal to `text`

  /** `j` is the first index at or after `from` whose line is `text`. */
  predicate FirstFrom(buffer: seq<string>, text: string, from: nat, j: nat)
  {
    from <= j < |buffer| && buffer[j] == text &&
    forall k :: from <= k < j ==> buffer[k] != text
  }

  function NextMatch(buffer: seq<string>, text: string, i: nat): (r: Option<nat>)
    ensures r.Some? ==> FirstFrom(buffer, text, i, r.value)
    ensures r.None? ==> forall k :: i <= k < |buffer| ==> buffer[k] != text
    decreases |buffer| - i
  {
    if i >= |buffer| then None
    else if buffer[i] == text then Some(i)
    else NextMatch(buffer, text, i + 1)
  }

  // ---------------------------------------------------------------------------
  // The scan, step by step

  /** Runs the scan over the items `xs`, from cursor `i`, on the entries
      `slots` written so far. */
  function Fill(buffer: seq<string>, xs: seq<Item>, i: nat, slots: seq<Pair>): (r: Result<seq<Pair>>)
    requires |slots| == |buffer|
    ensures r.Ok? ==> |r.value| == |buffer|
    ensures r.Err? ==> r.error == IndexError
    decreases |xs|
  {
    if xs == [] then Ok(slots)
    else match NextMatch(buffer, xs[0].text, i)
      case None => Err(IndexError)
      case Some(j) => Fill(buffer, xs[1..], j, slots[j := Label(xs[0])])
  }

  // ---------------------------------------------------------------------------
  // Where the cursor stops: the declarative view of the scan

  /** `ps` places every item, in order, on a buffer line with its text, at or
      after `i`, never moving backwards (equal lines may share a place). */
  ghost predicate IsEmbedding(buffer: seq<string>, xs: seq<Item>, i: nat, ps: seq<nat>)
  {
    && |ps| == |xs|
    && (forall t :: 0 <= t < |ps| ==> i <= ps[t] < |buffer| && buffer[ps[t]] == xs[t].text)
    && (forall t1, t2 :: 0 <= t1 <= t2 < |ps| ==> ps[t1] <= ps[t2])
  }

  /** The items occur in the buffer in order from line `i` on. */
  ghost predicate Embeds(buffer: seq<string>, xs: seq<Item>, i: nat)
  {
    exists ps :: IsEmbedding(buffer, xs, i, ps)
  }

  /** The cursor before item `t`: where the previous item was placed. */
  function Previous(i: nat, ps: seq<nat>, t: nat): nat
    requires t <= |ps|
  {
    if t == 0 then i else ps[t - 1]
  }

  /** Each item is placed on the first matching line at or after the previous
      item's place: no matching line is skipped. */
  ghost predicate Greedy(buffer: seq<string>, xs: seq<Item>, i: nat, ps: seq<nat>)
    requires |ps| == |xs|
  {
    forall t :: 0 <= t < |ps| ==> FirstFrom(buffer, xs[t].text, Previous(i, ps, t), ps[t])
  }

  /** The cursor positions at which the scan writes, one per item, or `None`
      when it runs off the buffer. */
  function Placement(buffer: seq<string>, xs: seq<Item>, i: nat): (r: Option<seq<nat>>)
    ensures r.Some? ==> IsEmbedding(buffer, xs, i, r.value) && Greedy(buffer, xs, i, r.value)
    decreases |xs|
  {
    if xs == [] then Some([])
    else match NextMatch(buffer, xs[0].text, i)
      case None => None
      case Some(j) =>
        match Placement(buffer, xs[1..], j)
        case None => None
        case Some(ps) =>
          PlacementStep(buffer, xs, i, j, ps);
          Some([j] + ps)
  }

  lemma PlacementStep(buffer: seq<string>, xs: seq<Item>, i: nat, j: nat, ps: seq<nat>)
    requires xs != [] && FirstFrom(buffer, xs[0].text, i, j)
    requires IsEmbedding(buffer, xs[1..], j, ps) && Greedy(buffer, xs[1..], j, ps)
    ensures IsEmbedding(buffer, xs, i, [j] + ps) && Greedy(buffer, xs, i, [j] + ps)
  {
    EmbeddingStep(buffer, xs, i, j, ps);
    GreedyStep(buffer, xs, i, j, ps);
  }

  lemma EmbeddingStep(buffer: seq<string>, xs: seq<Item>, i: nat, j: nat, ps: seq<nat>)
    requires xs != [] && i <= j < |buffer| && buffer[j] == xs[0].text
    requires IsEmbedding(buffer, xs[1..], j, ps)
    ensures IsEmbedding(buffer, xs, i, [j] + ps)
  {
    var qs := [j] + ps;
    forall t | 0 <= t < |qs|
      ensures i <= qs[t] < |buffer| && buffer[qs[t]] == xs[t].text
    {
      if t > 0 {
        assert qs[t] == ps[t - 1] && xs[t] == xs[1..][t - 1];
      }
    }
    forall t1, t2 | 0 <= t1 <= t2 < |qs|
      ensures qs[t1] <= qs[t2]
    {
      if t1 > 0 {
        assert qs[t1] == ps[t1 - 1] && qs[t2] == ps[t2 - 1];
      } else if t2 > 0 {
        assert qs[t2] == ps[t2 - 1];
      }
    }
  }

  lemma GreedyStep(buffer: seq<string>, xs: seq<Item>, i: nat, j: nat, ps: seq<nat>)
    requires xs != [] && FirstFrom(buffer, xs[0].text, i, j)
    requires |ps| == |xs| - 1 && Greedy(buffer, xs[1..], j, ps)
    ensures Greedy(buffer, xs, i, [j] + ps)
  {
    forall t | 0 <= t < |xs|
      ensures FirstFrom(buffer, xs[t].text, Previous(i, [j] + ps, t), ([j] + ps)[t])
    {
      if t > 0 {
        GreedyLater(buffer, xs, i, j, ps, t);
      }
    }
  }

  lemma GreedyLater(buffer: seq<string>, xs: seq<Item>, i: nat, j: nat, ps: seq<nat>, t: nat)
    requires 0 < t < |xs| && |ps| == |xs| - 1
    requires FirstFrom(buffer, xs[1..][t - 1].text, Previous(j, ps, t - 1), ps[t - 1])
    ensures FirstFrom(buffer, xs[t].text, Previous(i, [j] + ps, t), ([j] + ps)[t])
  {
    assert ([j] + ps)[t] == ps[t - 1] && xs[t] == xs[1..][t - 1];
    assert Previous(i, [j] + ps, t) == Previous(j, ps, t - 1);
  }

  /** The greedy placement is the leftmost embedding: it exists whenever some
      embedding does, and places every item no later than that embedding. */
  lemma {:induction false} PlacementLeftmost(buffer: seq<string>, xs: seq<Item>, i: nat, qs: seq<nat>)
    requires IsEmbedding(buffer, xs, i, qs)
    ensures Placement(buffer, xs, i).Some?
    ensures forall t :: 0 <= t < |xs| ==> Placement(buffer, xs, i).value[t] <= qs[t]
    decreases |xs|
  {
    if xs != [] {
      assert buffer[qs[0]] == xs[0].text;
      var j := NextMatch(buffer, xs[0].text, i).value;
      assert j <= qs[0];
      var rest := qs[1..];
      assert forall t :: 0 <= t < |rest| ==> rest[t] == qs[t + 1] && qs[0] <= qs[t + 1];
      assert IsEmbedding(buffer, xs[1..], j, rest);
      PlacementLeftmost(buffer, xs[1..], j, rest);
    }
  }

  /** The scan succeeds exactly when the items occur in the buffer in order. */
  lemma PlacementSucceedsIff(buffer: seq<string>, xs: seq<Item>, i: nat)
    ensures Placement(buffer, xs, i).Some? <==> Embeds(buffer, xs, i)
  {
    if Embeds(buffer, xs, i) {
      var qs :| IsEmbedding(buffer, xs, i, qs);
      PlacementLeftmost(buffer, xs, i, qs);
    }
  }

  /** `r` is `s` after writing the label of every item `t` at `ps[t]`, in order:
      untouched slots keep their entry and a slot ends with the label of the
      last item written there. */
  ghost predicate Painted(s: seq<Pair>, xs: seq<Item>, ps: seq<nat>, r: seq<Pair>)
  {
    && |r| == |s| && |ps| == |xs|
    && (forall t :: 0 <= t < |ps| ==> ps[t] < |r|)
    && Untouched(s, ps, r) && LastWins(xs, ps, r)
  }

  ghost predicate Untouched(s: seq<Pair>, ps: seq<nat>, r: seq<Pair>)
    requires |r| == |s|
  {
    forall k :: 0 <= k < |r| && k !in ps ==> r[k] == s[k]
  }

  /** Item `t` is the last one placed on its line. */
  predicate IsLast(ps: seq<nat>, t: nat)
    requires t < |ps|
  {
    t + 1 == |ps| || ps[t] != ps[t + 1]
  }

  ghost predicate LastWins(xs: seq<Item>, ps: seq<nat>, r: seq<Pair>)
    requires |ps| == |xs| && forall t :: 0 <= t < |ps| ==> ps[t] < |r|
  {
    forall t :: 0 <= t < |ps| && IsLast(ps, t) ==> r[ps[t]] == Label(xs[t])
  }

  /** The last of the items placed together with item `t` (places never
      decrease, so the items sharing a place are consecutive). */
  function LastAt(ps: seq<nat>, t: nat): (u: nat)
    requires t < |ps|
    ensures t <= u < |ps| && ps[u] == ps[t]
    ensures IsLast(ps, u)
    decreases |ps| - t
  {
    if t + 1 < |ps| && ps[t + 1] == ps[t] then LastAt(ps, t + 1) else t
  }

  /** The step-by-step scan and the placement agree: they fail together, and
      on success the scan's result is the placement painted over the start. */
  lemma {:induction false} FillPaints(buffer: seq<string>, xs: seq<Item>, i: nat, s: seq<Pair>)
    requires |s| == |buffer|
    ensures Fill(buffer, xs, i, s).Ok? <==> Placement(buffer, xs, i).Some?
    ensures Fill(buffer, xs, i, s).Ok? ==>
      Painted(s, xs, Placement(buffer, xs, i).value, Fill(buffer, xs, i, s).value)
    decreases |xs|
  {
    if xs != [] {
      match NextMatch(buffer, xs[0].text, i)
      case None =>
      case Some(j) =>
        var s' := s[j := Label(xs[0])];
        FillPaints(buffer, xs[1..], j, s');
        if Fill(buffer, xs, i, s).Ok? {
          var ps' := Placement(buffer, xs[1..], j).value;
          assert Placement(buffer, xs, i).value == [j] + ps';
          PaintStep(s, xs, j, ps', Fill(buffer, xs, i, s).value);
        }
    }
  }

  /** Writing the first item at `j` before the rest, all of which land at or
      after `j`, in order. */
  lemma PaintStep(s: seq<Pair>, xs: seq<Item>, j: nat, ps': seq<nat>, r: seq<Pair>)
    requires xs != [] && j < |s|
    requires Painted(s[j := Label(xs[0])], xs[1..], ps', r)
    requires forall u :: 0 <= u < |ps'| ==> j <= ps'[u]
    requires forall u1, u2 :: 0 <= u1 <= u2 < |ps'| ==> ps'[u1] <= ps'[u2]
    ensures Painted(s, xs, [j] + ps', r)
  {
    UntouchedStep(s, j, Label(xs[0]), ps', r);
    LastWinsStep(s, xs, j, ps', r);
  }

  lemma UntouchedStep(s: seq<Pair>, j: nat, entry: Pair, ps': seq<nat>, r: seq<Pair>)
    requires j < |s| && |r| == |s|
    requires Untouched(s[j := entry], ps', r)
    ensures Untouched(s, [j] + ps', r)
  {
    forall k | 0 <= k < |r| && k !in [j] + ps'
      ensures r[k] == s[k]
    {
      assert k != j && k !in ps';
    }
  }

  lemma LastWinsStep(s: seq<Pair>, xs: seq<Item>, j: nat, ps': seq<nat>, r: seq<Pair>)
    requires xs != [] && j < |s| && |r| == |s| && |ps'| + 1 == |xs|
    requires forall u :: 0 <= u < |ps'| ==> j <= ps'[u] < |r|
    requires forall u1, u2 :: 0 <= u1 <= u2 < |ps'| ==> ps'[u1] <= ps'[u2]
    requires Untouched(s[j := Label(xs[0])], ps', r)
    requires LastWins(xs[1..], ps', r)
    ensures LastWins(xs, [j] + ps', r)
  {
    var ps := [j] + ps';
    forall t | 0 <= t < |ps| && IsLast(ps, t)
      ensures r[ps[t]] == Label(xs[t])
    {
      if t == 0 {
        forall u | 0 <= u < |ps'|
          ensures ps'[u] != j
        {
          assert ps[1] == ps'[0] <= ps'[u];
        }
        assert j !in ps';
      } else {
        assert ps[t] == ps'[t - 1] && xs[t] == xs[1..][t - 1];
        assert t + 1 < |ps| ==> ps[t + 1] == ps'[t];
      }
    }
  }

  /** What `code_surjection(buffer, nb)` returns, or the `IndexError` it raises. */
  function Surjection(buffer: seq<string>, cells: seq<Cell>): Result<seq<Pair>>
  {
    Fill(buffer, Items(cells), 0, seq(|buffer|, _ => Unmapped))
  }

  // ---------------------------------------------------------------------------
  // What the surjection means

  /** The notebook's lines occur in the buffer in order; a line may share its
      buffer line with the line before it when their texts are equal. */
  ghost predicate InOrder(buffer: seq<string>, cells: seq<Cell>)
  {
    Embeds(buffer, Items(cells), 0)
  }

  /** Where the scan's cursor stops for each cell line, in scan order. */
  function Stops(buffer: seq<string>, cells: seq<Cell>): Option<seq<nat>>
  {
    Placement(buffer, Items(cells), 0)
  }

  /** `code_surjection` returns exactly when the cell lines occur in the buffer
      in order, and raises `IndexError` otherwise. */
  lemma SurjectionSucceedsIff(buffer: seq<string>, cells: seq<Cell>)
    ensures Surjection(buffer, cells).Ok? <==> InOrder(buffer, cells)
    ensures !InOrder(buffer, cells) ==> Surjection(buffer, cells) == Err(IndexError)
  {
    FillPaints(buffer, Items(cells), 0, seq(|buffer|, _ => Unmapped));
    PlacementSucceedsIff(buffer, Items(cells), 0);
  }

  /** On success the result is the all-unmapped list painted with the label of
      every cell line at the line where the cursor stopped for it. */
  lemma SurjectionPainted(buffer: seq<string>, cells: seq<Cell>)
    requires Surjection(buffer, cells).Ok?
    ensures Stops(buffer, cells).Some?
    ensures IsEmbedding(buffer, Items(cells), 0, Stops(buffer, cells).value)
    ensures Painted(seq(|buffer|, _ => Unmapped), Items(cells), Stops(buffer, cells).value,
                    Surjection(buffer, cells).value)
  {
    FillPaints(buffer, Items(cells), 0, seq(|buffer|, _ => Unmapped));
  }

  /** Every entry is `(-1, -1)` or a real `(cell, line)` of the notebook whose
      text is exactly that buffer line. */
  ghost predicate Attributed(buffer: seq<string>, cells: seq<Cell>, r: seq<Pair>)
  {
    && |r| == |buffer|
    && forall k :: 0 <= k < |r| && r[k] != Unmapped ==>
         && 0 <= r[k].0 < |cells| && 0 <= r[k].1 < |Lines(cells[r[k].0])|
         && buffer[k] == Lines(cells[r[k].0])[r[k].1]
  }

  /** Read in buffer order, the mapped entries strictly increase. */
  ghost predicate Ascending(r: seq<Pair>)
  {
    forall k1, k2 :: 0 <= k1 < k2 < |r| && r[k1] != Unmapped && r[k2] != Unmapped ==> Before(r[k1], r[k2])
  }

  /** A mapped slot of a painting of the all-unmapped list holds the label of
      an item placed there. */
  lemma PaintedSlot(xs: seq<Item>, ps: seq<nat>, r: seq<Pair>, k: nat) returns (u: nat)
    requires Painted(seq(|r|, _ => Unmapped), xs, ps, r)
    requires k < |r| && r[k] != Unmapped
    ensures u < |ps| && ps[u] == k && r[k] == Label(xs[u])
  {
    assert k in ps;
    var t :| 0 <= t < |ps| && ps[t] == k;
    u := LastAt(ps, t);
    assert r[ps[u]] == Label(xs[u]);
  }

  lemma SortedOrder(ps: seq<nat>, u1: nat, u2: nat)
    requires forall t1, t2 :: 0 <= t1 <= t2 < |ps| ==> ps[t1] <= ps[t2]
    requires u1 < |ps| && u2 < |ps| && ps[u1] < ps[u2]
    ensures u1 < u2
  {
  }

  lemma PaintingAttributed(buffer: seq<string>, cells: seq<Cell>, xs: seq<Item>, ps: seq<nat>, r: seq<Pair>)
    requires |r| == |buffer| && Painted(seq(|r|, _ => Unmapped), xs, ps, r)
    requires IsEmbedding(buffer, xs, 0, ps) && Listed(cells, xs, 0)
    ensures Attributed(buffer, cells, r)
  {
    forall k | 0 <= k < |r| && r[k] != Unmapped
      ensures 0 <= r[k].0 < |cells| && 0 <= r[k].1 < |Lines(cells[r[k].0])|
      ensures buffer[k] == Lines(cells[r[k].0])[r[k].1]
    {
      var u := PaintedSlot(xs, ps, r, k);
      assert ListsLine(cells, xs[u]);
    }
  }

  lemma PaintingAscending(buffer: seq<string>, xs: seq<Item>, ps: seq<nat>, r: seq<Pair>)
    requires Painted(seq(|r|, _ => Unmapped), xs, ps, r)
    requires IsEmbedding(buffer, xs, 0, ps) && Increasing(xs)
    ensures Ascending(r)
  {
    forall k1, k2 | 0 <= k1 < k2 < |r| && r[k1] != Unmapped && r[k2] != Unmapped
      ensures Before(r[k1], r[k2])
    {
      var u1 := PaintedSlot(xs, ps, r, k1);
      var u2 := PaintedSlot(xs, ps, r, k2);
      SortedOrder(ps, u1, u2);
    }
  }

  /** `code_surjection` returns one entry per buffer line, each `(-1, -1)` or a
      real `(cell, line)` whose text is exactly that buffer line. */
  lemma SurjectionAttributes(buffer: seq<string>, cells: seq<Cell>)
    requires Surjection(buffer, cells).Ok?
    ensures Attributed(buffer, cells, Surjection(buffer, cells).value)
  {
    SurjectionPainted(buffer, cells);
    ItemsEnumerateLines(cells);
    PaintingAttributed(buffer, cells, Items(cells), Stops(buffer, cells).value, Surjection(buffer, cells).value);
  }

  /** Read in buffer order, the mapped entries strictly increase in
      `(cell, line)` order; in particular no `(cell, line)` appears twice. */
  lemma SurjectionMonotone(buffer: seq<string>, cells: seq<Cell>)
    requires Surjection(buffer, cells).Ok?
    ensures Ascending(Surjection(buffer, cells).value)
  {
    SurjectionPainted(buffer, cells);
    ItemsEnumerateLines(cells);
    PaintingAscending(buffer, Items(cells), Stops(buffer, cells).value, Surjection(buffer, cells).value);
  }

  lemma PaintingUnmapped(xs: seq<Item>, ps: seq<nat>, r: seq<Pair>)
    requires Painted(seq(|r|, _ => Unmapped), xs, ps, r)
    requires forall t1, t2 :: 0 <= t1 <= t2 < |ps| ==> ps[t1] <= ps[t2]
    ensures forall k :: 0 <= k < |r| ==> (r[k] != Unmapped <==> k in ps)
    ensures forall k :: 0 <= k < |r| && (ps == [] || k < ps[0]) ==> r[k] == Unmapped
  {
    forall k | 0 <= k < |r| && k in ps
      ensures r[k] != Unmapped
    {
      var t :| 0 <= t < |ps| && ps[t] == k;
      var u := LastAt(ps, t);
      assert r[ps[u]] == Label(xs[u]);
    }
    forall k | 0 <= k < |r| && (ps == [] || k < ps[0])
      ensures k !in ps
    {
      assert forall t :: 0 <= t < |ps| ==> ps[0] <= ps[t];
    }
  }

  /** A buffer line is mapped exactly when the cursor stopped on it for some
      cell line; so every line before the first stop (all of them when the
      notebook has no lines) stays `(-1, -1)`. */
  lemma SurjectionUnmapped(buffer: seq<string>, cells: seq<Cell>)
    requires Surjection(buffer, cells).Ok?
    ensures Stops(buffer, cells).Some?
    ensures var r, ps := Surjection(buffer, cells).value, Stops(buffer, cells).value;
      && (forall k :: 0 <= k < |r| ==> (r[k] != Unmapped <==> k in ps))
      && (forall k :: 0 <= k < |r| && (ps == [] || k < ps[0]) ==> r[k] == Unmapped)
  {
    SurjectionPainted(buffer, cells);
    PaintingUnmapped(Items(cells), Stops(buffer, cells).value, Surjection(buffer, cells).value);
  }

  lemma PaintingLastWrite(xs: seq<Item>, ps: seq<nat>, r: seq<Pair>)
    requires Painted(seq(|r|, _ => Unmapped), xs, ps, r)
    requires Increasing(xs)
    ensures forall t :: 0 <= t < |ps| ==> r[ps[t]] == Label(xs[LastAt(ps, t)])
    ensures forall t :: 0 <= t < |ps| - 1 && ps[t] == ps[t + 1] ==> Label(xs[t]) !in r
  {
    forall t | 0 <= t < |ps|
      ensures r[ps[t]] == Label(xs[LastAt(ps, t)])
    {
      LastWriteAt(xs, ps, r, t);
    }
    forall t | 0 <= t < |ps| - 1 && ps[t] == ps[t + 1]
      ensures Label(xs[t]) !in r
    {
      OverwrittenNowhere(xs, ps, r, t);
    }
  }

  lemma LastWriteAt(xs: seq<Item>, ps: seq<nat>, r: seq<Pair>, t: nat)
    requires Painted(seq(|r|, _ => Unmapped), xs, ps, r)
    requires t < |ps|
    ensures r[ps[t]] == Label(xs[LastAt(ps, t)])
  {
    var u := LastAt(ps, t);
    assert r[ps[u]] == Label(xs[u]);
  }

  lemma OverwrittenNowhere(xs: seq<Item>, ps: seq<nat>, r: seq<Pair>, t: nat)
    requires Painted(seq(|r|, _ => Unmapped), xs, ps, r) && Increasing(xs)
    requires t + 1 < |ps| && ps[t] == ps[t + 1]
    ensures Label(xs[t]) !in r
  {
    forall k | 0 <= k < |r|
      ensures r[k] != Label(xs[t])
    {
      OverwrittenGone(xs, ps, r, t, k);
    }
  }

  lemma OverwrittenGone(xs: seq<Item>, ps: seq<nat>, r: seq<Pair>, t: nat, k: nat)
    requires Painted(seq(|r|, _ => Unmapped), xs, ps, r) && Increasing(xs)
    requires t + 1 < |ps| && ps[t] == ps[t + 1] && k < |r|
    ensures r[k] != Label(xs[t])
  {
    if r[k] != Unmapped {
      var u' := PaintedSlot(xs, ps, r, k);
      var u := LastAt(ps, t);
      assert u > t;
      assert r[ps[u]] == Label(xs[u]);
      assert Before(Label(xs[t]), Label(xs[u]));
      if u' != t {
        assert Before(Label(xs[u']), Label(xs[t])) || Before(Label(xs[t]), Label(xs[u']));
      }
    }
  }

  /** When consecutive cell lines stop on the same buffer line, the slot keeps
      the last of them: each earlier label is overwritten and appears nowhere. */
  lemma SurjectionLastWriteWins(buffer: seq<string>, cells: seq<Cell>)
    requires Surjection(buffer, cells).Ok?
    ensures Stops(buffer, cells).Some?
    ensures var r, ps, xs := Surjection(buffer, cells).value, Stops(buffer, cells).value, Items(cells);
      && (forall t :: 0 <= t < |ps| ==> ps[t] < |r| && r[ps[t]] == Label(xs[LastAt(ps, t)]))
      && (forall t :: 0 <= t < |ps| - 1 && ps[t] == ps[t + 1] ==> Label(xs[t]) !in r)
  {
    SurjectionPainted(buffer, cells);
    ItemsEnumerateLines(cells);
    PaintingLastWrite(Items(cells), Stops(buffer, cells).value, Surjection(buffer, cells).value);
  }

  /** A cell whose source has no lines owns no buffer line. */
  lemma EmptyCellOwnsNothing(buffer: seq<string>, cells: seq<Cell>, c: nat)
    requires Surjection(buffer, cells).Ok?
    requires c < |cells| && Lines(cells[c]) == []
    ensures forall k :: 0 <= k < |Surjection(buffer, cells).value| ==> Surjection(buffer, cells).value[k].0 != c
  {
    SurjectionAttributes(buffer, cells);
  }

  /** The scan as the plugin runs it: a cursor over the buffer that only moves
      forward, and a list of entries overwritten in place. */
  method CodeSurjection(buffer: seq<string>, cells: seq<Cell>) returns (r: Result<seq<Pair>>)
    ensures r == Surjection(buffer, cells)
  {
    var surjection := new Pair[|buffer|](_ => Unmapped);
    assert surjection[..] == seq(|buffer|, _ => Unmapped);
    var i := 0;
    for c := 0 to |cells|
      invariant i <= |buffer|
      invariant Surjection(buffer, cells) == Fill(buffer, ItemsFrom(cells, c), i, surjection[..])
    {
      var lines := Lines(cells[c]);
      assert ItemsFrom(cells, c) == CellItems(c, lines)[0..] + ItemsFrom(cells, c + 1);
      for l := 0 to |lines|
        invariant i <= |buffer|
        invariant Surjection(buffer, cells) ==
          Fill(buffer, CellItems(c, lines)[l..] + ItemsFrom(cells, c + 1), i, surjection[..])
      {
        var line := lines[l];
        ghost var start := i;
        while i < |buffer| && buffer[i] != line
          invariant start <= i <= |buffer|
          invariant NextMatch(buffer, line, start) == NextMatch(buffer, line, i)
        {
          i := i + 1;
        }
        ghost var rest := CellItems(c, lines)[l..] + ItemsFrom(cells, c + 1);
        assert rest[0] == Item(c, l, line);
        assert rest[1..] == CellItems(c, lines)[l + 1..] + ItemsFrom(cells, c + 1);
        if i == |buffer| {
          return Err(IndexError);
        }
        surjection[i] := (c, l);
      }
      assert CellItems(c, lines)[|lines|..] + ItemsFrom(cells, c + 1) == ItemsFrom(cells, c + 1);
    }
    return Ok(surjection[..]);
  }
}
