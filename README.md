# executor.nvim: the buffer-to-notebook scan and the lookups around it

executor.nvim runs a cell of a script-formatted notebook (a Python buffer with
`# %%` cell markers) on a live Jupyter kernel from inside Neovim. Before it
runs anything, the `JNRun` command parses the buffer into a notebook and maps
every buffer line back to the `(cell, line)` it came from, with
`Executor.code_surjection`. It reads that map twice:

- forwards, to find the cell under the cursor;
- backwards, after an error, to turn the `(cell, line)` of a traceback frame
  into a buffer line.

The frame's fields come from `Executor.parse_traceback`, which takes apart
one ANSI-coloured IPython traceback entry.

This project models those four pieces and proves what they promise. The
modules are:

- `Outcomes`: `Option`, and `Result` with the two failures the code can
  raise: `IndexError` (the label this model gives the error `buffer[i]`
  raises past the last line) and `ValueError`.
- `Text`: the Python string operations the code relies on, each with its
  laws:
  - `splitlines` and its inverse join;
  - `lstrip` with a character set;
  - `split(sep)`, its pieces, and its last piece `split(sep)[-1]`;
  - `int` on digit strings.
- `Executor`: `code_surjection`. `CodeSurjection` is the imperative scan,
  over an array that is overwritten in place with a cursor that only moves
  forward. It is proved equal to the function `Surjection`, and the meaning
  of `Surjection` is proved in lemmas:
  - when it fails;
  - where the cursor stops;
  - what every entry holds;
  - that entries ascend;
  - which lines stay unmapped;
  - which write wins.
- `Traceback`: `parse_traceback` as written, the same parse with the file
  field read as intended, the IPython entry format they read, and the
  proofs of what reading an entry gives back.
- `Lookups`: the current-cell lookup and the reverse lookup
  `surjection.index((cell, l-1)) + 1`, proved against the surjection.
- `ScanExamples`: small concrete scans, including the worked example of a
  two-cell buffer.

Two facts about the code shape the model:

- **Duplicate entries.** The code writes `surjection[i] = (c, l)` without
  advancing `i`. So when two consecutive cell lines have the same text,
  both land on one buffer line and the later write wins, and the earlier
  `(cell, line)` appears nowhere. `Executor.SurjectionLastWriteWins` proves
  this, and `ScanExamples.SharedSlotExample` shows a case. A traceback that
  points at such a line then ends in `ValueError`
  (`Lookups.TracebackLineOverwritten`).
- **No dedicated mismatch error.** When the buffer does not contain the
  cell lines in order, the out-of-range read `buffer[i]` propagates. The
  model labels that error `IndexError`.

## Model

| member | source | states |
|---|---|---|
| Executor.CodeSurjection | rplugin/python3/executor/__init__.py:45-54 | The in-place scan (a cursor that only moves forward, one array slot written per cell line) returns exactly `Surjection(buffer, cells)`. That covers the same list, and the same failure (`IndexError`, the error of `buffer[i]` past the last line) when the cursor runs off the buffer. |
| Executor.ItemsEnumerateLines | rplugin/python3/executor/__init__.py:49-50 | The nested `for` loops visit every line of every cell exactly once, with its text and `(cell, line)` label. They visit in strictly increasing `(cell, line)` order. |
| Executor.NextMatch | rplugin/python3/executor/__init__.py:51-52 | The `while` loop stops at the first buffer line at or after the cursor whose text equals the cell line. If there is none, no later line matches. |
| Executor.Fill | rplugin/python3/executor/__init__.py:47-54 | On success there is one entry per buffer line. The only failure is the read past the last line, `IndexError`. |
| Executor.Placement | rplugin/python3/executor/__init__.py:48-53 | The stops place every cell line, in scan order, on a buffer line with its text, never moving backwards. Each stop is the first match at or after the previous one. |
| Executor.PlacementLeftmost | rplugin/python3/executor/__init__.py:48-53 | Take any in-order placement of the cell lines. The scan's placement then exists, and every stop is no later than that placement's. |
| Executor.PlacementSucceedsIff | rplugin/python3/executor/__init__.py:51-52 | The cursor never runs off the buffer exactly when the cell lines occur in the buffer in order. |
| Executor.FillPaints | rplugin/python3/executor/__init__.py:47-54 | The step-by-step scan fails exactly when the placement does. Otherwise it returns the starting list with every stop overwritten by its label. Slots without a stop keep their entry, and a shared slot keeps the label written last. |
| Executor.SurjectionSucceedsIff | rplugin/python3/executor/__init__.py:47-54 | `code_surjection` returns exactly when the notebook's lines occur in the buffer in order. Otherwise it fails with the error of reading `buffer[i]` past the last line (`IndexError`). |
| Executor.SurjectionPainted | rplugin/python3/executor/__init__.py:47-53 | On success the result is the all-`(-1,-1)` list painted with the label of each cell line at its stop. The stops form an in-order placement. |
| Executor.SurjectionAttributes | rplugin/python3/executor/__init__.py:47-53 | Every entry is `(-1,-1)` or a real `(cell, line)` of the notebook, and that line's text equals the buffer line. |
| Executor.SurjectionMonotone | rplugin/python3/executor/__init__.py:48-53 | Read in buffer order, the mapped entries strictly increase in `(cell, line)` order, so no entry appears twice. |
| Executor.SurjectionUnmapped | rplugin/python3/executor/__init__.py:47-53 | A buffer line is mapped exactly when the cursor stopped on it. Every line before the first stop stays `(-1,-1)`, and all of them do when the notebook has no lines. |
| Executor.SurjectionLastWriteWins | rplugin/python3/executor/__init__.py:53 | Each stop holds the label of the last cell line that stopped there. When consecutive cell lines share a stop, the earlier label appears nowhere in the result. |
| Executor.EmptyCellOwnsNothing | rplugin/python3/executor/__init__.py:49-53 | A cell whose source has no lines owns no buffer line. |
| Executor.LastAt | rplugin/python3/executor/__init__.py:53 | Among the cell lines that share item `t`'s stop, returns the last one. Its stop equals `t`'s, and it is the last write there. |
| Text.FirstIndex | rplugin/python3/executor/__init__.py:50 | The index of the first occurrence of a character, or the length when there is none. The prefix before it does not contain the character. |
| Text.SplitLines | rplugin/python3/executor/__init__.py:50 | `splitlines()` on `\n`: no line it returns contains a newline. |
| Text.SplitJoin | rplugin/python3/executor/__init__.py:50 | Splitting newline-free lines that were joined with a `\n` after each gives the same lines back. |
| Text.JoinSplit | rplugin/python3/executor/__init__.py:50 | Joining the lines of `s`, each followed by `\n`, gives `s` back, with a final newline added if `s` lacked one. |
| Text.SplitLinesCons | rplugin/python3/executor/__init__.py:50 | A first line ended by `\n` is split off as the first element. |
| Text.Terminated | rplugin/python3/executor/__init__.py:50 | The text with a final newline: empty, or ending in `\n`. |
| Text.LStrip | rplugin/python3/executor/__init__.py:40 | `lstrip(chars)` returns a suffix of `s`. Every character it drops is in `chars`, and its result does not start with one. |
| Text.StripsExactly | rplugin/python3/executor/__init__.py:40 | `lstrip` removes exactly a leading run of characters from the set. It stops at the first character outside the set. |
| Text.RemovePrefix | rplugin/python3/executor/__init__.py:40 | Removing a prefix gives a suffix of the text, and it changes nothing when the prefix is absent. |
| Text.RemovePrefixOf | rplugin/python3/executor/__init__.py:40 | Removing `p` from `p + t` gives `t`. |
| Text.Find | rplugin/python3/executor/__init__.py:41-42 | Returns the first occurrence of the separator at or after a position, or reports that there is none. |
| Text.Split | rplugin/python3/executor/__init__.py:40-42 | `split(sep)` returns at least one piece. |
| Text.SplitPiecesFree | rplugin/python3/executor/__init__.py:40-42 | No piece of `split(sep)` contains the separator. |
| Text.SplitJoinWith | rplugin/python3/executor/__init__.py:40-42 | Joining the pieces of `split(sep)` with `sep` gives the text back. |
| Text.SplitSingle | rplugin/python3/executor/__init__.py:40-42 | A text without the separator splits into itself alone. |
| Text.SplitFirstPiece | rplugin/python3/executor/__init__.py:40-42 | `split(ch)[0]` is the text up to the first `ch`. |
| Text.LastPieceAfter | rplugin/python3/executor/__init__.py:41-42 | `split(sep)[-1]` of `a + sep + b` is `b` when `b` does not contain the separator. |
| Text.LastPieceOfEnding | rplugin/python3/executor/__init__.py:41-42 | `split(sep)[-1]` of a text ending with `sep + b` is `b` when `b` does not contain the separator. |
| Text.Numeral | rplugin/python3/executor/__init__.py:41 | `str(n)` of a natural number is a numeral, a non-empty string of decimal digits. |
| Text.ParseInt | rplugin/python3/executor/__init__.py:41 | `int(s)` succeeds exactly on a non-empty string of ASCII digits. Otherwise it raises `ValueError`. |
| Text.ParseNumeral | rplugin/python3/executor/__init__.py:41 | `int` of the decimal digits of `n` is `n`. |
| Traceback.UpToEsc | rplugin/python3/executor/__init__.py:40-42 | `split('\033')[0]` is the longest prefix without an escape character. It ends where the first escape character is. |
| Traceback.ParseTraceback | rplugin/python3/executor/__init__.py:38-43 | `parse_traceback` as written, with the file read by `lstrip`. It succeeds exactly when the text after the last `-> ` up to the next escape is a numeral. Otherwise it raises `ValueError`. On success the line is non-negative, and neither the file nor the function holds an escape character. |
| Traceback.ParseTracebackIntended | rplugin/python3/executor/__init__.py:38-43 | The same parse with the file field read as intended. It fails exactly when `parse_traceback` does, and it agrees on the line and the function. |
| Traceback.ParseEntryFields | rplugin/python3/executor/__init__.py:41-42 | Take an IPython frame entry for line `n` and function `m`. It may have any file name, any call text after the function (argument list and reset code), any context lines, and any run of dashes before `-> `. `parse_traceback` succeeds on it and gives back `n` and `m`. |
| Traceback.ParseFrameEntry | rplugin/python3/executor/__init__.py:38-43 | Take such an entry whose file name `f` does not begin with one of `ESC [ 0 ; 3 2 m`. `parse_traceback` as written gives back `(f, n, m)`. |
| Traceback.ParseFrameEntryLosesName | rplugin/python3/executor/__init__.py:40 | Take such an entry whose file name begins with one of `ESC [ 0 ; 3 2 m`. `parse_traceback` as written succeeds, with the right line and function but a file that is not `f`. |
| Traceback.ParseFrameEntryIntended | rplugin/python3/executor/__init__.py:38-43 | Read as intended, every such entry gives back `(f, n, m)`, whatever its file name. |
| Traceback.LineFieldFrom | rplugin/python3/executor/__init__.py:41 | The line field of a text ending in `-> ` digits ESC rest is those digits. |
| Traceback.LineFieldOfEntry | rplugin/python3/executor/__init__.py:41 | The line field of a frame entry is the numeral of its line. |
| Traceback.FunctionFieldFrom | rplugin/python3/executor/__init__.py:42 | The function field of a text ending in the cyan marker, a name and ESC is that name. |
| Traceback.FunctionFieldOfEntry | rplugin/python3/executor/__init__.py:42 | The function field of a frame entry is its function name. |
| Traceback.FileFieldAsWrittenLosesName | rplugin/python3/executor/__init__.py:40 | The file field as written loses the name of a file that begins with one of `ESC [ 0 ; 3 2 m`. |
| Traceback.FileFieldAsWrittenAgrees | rplugin/python3/executor/__init__.py:40 | The file field as written is right for every file name that begins with any other character. |
| Traceback.FileFieldOf | rplugin/python3/executor/__init__.py:40 | The intended file field (the colour code removed as a prefix) gives back every file name without an escape character. |
| Lookups.CurrentCell | rplugin/python3/executor/__init__.py:84-88 | For the 1-based cursor line, returns `None` ("Current line is out of cell") exactly when `surjection[line-1]` has cell `-1`. Otherwise it returns that cell. |
| Lookups.CurrentCellOfSurjection | rplugin/python3/executor/__init__.py:83-88 | Against the scan: out of cell exactly when the cursor never stopped on that buffer line. Otherwise the cell is real and holds the text under the cursor. |
| Lookups.IndexOf | rplugin/python3/executor/__init__.py:99 | `list.index` returns the first position holding the value. It raises `ValueError` exactly when the value is absent. |
| Lookups.TracebackLine | rplugin/python3/executor/__init__.py:99 | `surjection.index((cell, l-1)) + 1` is a 1-based buffer line that records `(cell, l-1)`, with no earlier line recording it. It raises `ValueError` exactly when no line records it. |
| Lookups.TracebackLineRoundTrip | rplugin/python3/executor/__init__.py:99 | Looking up the entry of a mapped buffer line gives that buffer line back. |
| Lookups.TracebackLineText | rplugin/python3/executor/__init__.py:99 | A successful lookup names a real line of the cell, and the buffer line returned holds exactly its text. |
| Lookups.TracebackLineOverwritten | rplugin/python3/executor/__init__.py:53 | Take a cell line whose buffer line was overwritten by the next cell line. Its lookup raises `ValueError`. |
| Lookups.FirstFrame | rplugin/python3/executor/__init__.py:97-99 | The first reported frame names the buffer and a line within it. Both ways to fail raise `ValueError`, and an entry whose line field is not a numeral always makes the report fail. |
| Lookups.FirstFrameRelocates | rplugin/python3/executor/__init__.py:97-99 | For a parsable entry, the report succeeds exactly when the scan recorded that cell line. It then keeps the function, and names the buffer line where the scan recorded it, which holds the cell line's text. |
| Lookups.FirstFrameAt | rplugin/python3/executor/__init__.py:97-99 | Take an entry that parses to line `n` and function `m`, where the scan recorded line `n` of the running cell at buffer line `k`. The report is `(buffer name, k+1, m)`. |
| Lookups.FirstFrameOfEntry | rplugin/python3/executor/__init__.py:97-99 | Take an IPython entry for line `n` of the running cell, with any file name, call text, context lines and arrow dashes. The report is `(buffer name, k+1, function)`, where `k` is the buffer line the scan recorded for it. |
| ScanExamples.FirstCellLines | rplugin/python3/executor/__init__.py:50 | `"x = 1\ny = 2".splitlines()` is `["x = 1", "y = 2"]`. |
| ScanExamples.TwoCellScan | rplugin/python3/executor/__init__.py:45-54 | Any two cells with the lines `x = 1`, `y = 2` and `print(x)`, scanned against the buffer `# %%, x = 1, y = 2, # %%, print(x)`, give `[(-1,-1),(0,0),(0,1),(-1,-1),(1,0)]`. |
| ScanExamples.TwoCellExample | rplugin/python3/executor/__init__.py:45-54 | Take the buffer `# %%, x = 1, y = 2, # %%, print(x)` and its two cells `Cell("x = 1\ny = 2")` and `Cell("print(x)")`. The scan gives `[(-1,-1),(0,0),(0,1),(-1,-1),(1,0)]`. Line 1 is out of cell, line 5 is in cell 1, and line 1 of cell 1 maps back to buffer line 5. |
| ScanExamples.OutOfOrderExample | rplugin/python3/executor/__init__.py:51-52 | When cell lines appear in the buffer in the wrong order, the scan fails reading past the last line (`IndexError`). |
| ScanExamples.SharedSlotExample | rplugin/python3/executor/__init__.py:50-53 | A cell with two equal lines maps both to the same buffer line, so the earlier label is lost. Its reverse lookup raises `ValueError`. |

## Left out

- Text.SplitLines: Python's `splitlines` also breaks at `\r`, `\r\n`, `\v`, `\f`, `\x1c`-`\x1e`, `\x85`, `\u2028` and `\u2029`. The model breaks only at `\n`.
- Text.ParseInt: Python's `int` also accepts surrounding whitespace, a sign, underscores between digits and non-ASCII digits. The model raises `ValueError` on all of those.
- Traceback.FrameEntry: the entry layout follows IPython 7's verbose colour format. The header is the green file name and reset code, then `in`, the cyan function name, and the blue call text ending in the reset code and a newline. Then come the context lines, the green arrow line (any run of `-` before `-> `, then the number), and the rest. IPython itself is not part of this model, so the call text and the context lines are free parameters. The call text, the context lines and the rest are required not to contain the function marker, and the rest not to contain the arrow.
- Traceback.ParseFrameEntry: an entry with an empty file name is not covered. As written, `lstrip` then also strips the reset code after the name, so the file field is not empty.
- Lookups.CurrentCell: requires the cursor line to be within the buffer, which the editor guarantees. Python's negative indexing is therefore not reached.
- Lookups.FirstFrame: models only the frame the plugin relocates, `traceback[2]` of the first error output. The loop over outputs (`__init__.py:95-96`) and the later frames written to the quickfix buffer (`__init__.py:100-105`) are left out. The later frames also go through `parse_traceback` (`__init__.py:103`), which raises `ValueError` on a frame whose line field is not a numeral. The model covers that parse only on the first frame, and leaves out the rest of the report.
- The Neovim and kernel I/O become parameters: the buffer lines, the parsed cells, the cursor line, the buffer name and the traceback entry text.
- Executor.Fill: the failure is labelled `IndexError`. In the plugin, `buffer` is a pynvim `Buffer` (`__init__.py:83`), not a Python list. Reading past its last line goes through the Neovim API, so the exception raised is the client library's own error type, which the model does not name. The same applies to `Executor.SurjectionSucceedsIff` and `Executor.CodeSurjection`.
- Cells are modelled by their `source` text only. `jupytext.reads` (`__init__.py:82`) is not part of this model.
- Left out because they are calls into the editor, the kernel library or the shell, with no logic of their own:
  - kernel discovery and connection (`JKConnect`, `__init__.py:56-76`);
  - cell execution (`__init__.py:91`);
  - the HTML export and file write (`__init__.py:108-114`);
  - `print` (`__init__.py:32-36`);
  - `JNDevTest`;
  - the plugin constructor.
- Executor.CodeSurjection: Python's list becomes a Dafny array that the method overwrites in place. Its contents are returned as a sequence, since nothing else holds a reference to the list.

## Findings

| source | as written | input that shows it | evidently intended | confidence | as-written member | corrected member |
|---|---|---|---|---|---|---|
| rplugin/python3/executor/__init__.py:40 | `line.lstrip('\033[0;32m')` treats its argument as a set of characters. It strips every leading ESC, `[`, `0`, `;`, `3`, `2` and `m`, not just the colour code. | A frame whose file name starts with one of those characters, e.g. `main.py`, comes back as `ain.py`, and `2020.py` comes back as `.py`. | Remove the colour code `\033[0;32m` as a prefix, leaving the file name intact. | medium, not executed; `JNRun` replaces the file with the buffer name (line 98) | Traceback.ParseFrameEntryLosesName | Traceback.ParseFrameEntryIntended |
