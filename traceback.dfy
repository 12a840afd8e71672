/** `Executor.parse_traceback`: reads `(file, line, function)` out of one
    frame entry of an IPython traceback, a line coloured with ANSI escape
    sequences. Each field is the text after a marker up to the next escape
    character. */
module Traceback {
  import opened Outcomes
  import opened Text

  /** The escape character `\033` that opens every colour code. */
  const Esc: char := '\U{1B}'

  /** The colour code IPython puts before a frame's file name. */
  const Green: string := [Esc] + "[0;32m"

  /** The characters of `'\033[0;32m'`: `lstrip` takes its argument as a set
      and removes any leading run of them. */
  const GreenChars: set<char> := {Esc, '[', '0', ';', '3', '2', 'm'}

  /** What precedes the line number: the tip of IPython's `---->` arrow. */
  const Arrow: string := "-> "

  /** What precedes the function name: `in` and the cyan colour code. */
  const FunctionMarker: string := "in " + [Esc] + "[0;36m"

  datatype Frame = Frame(file: string, line: int, func: string)

  /** `s.split('\033')[0]`: the text before the first escape character. */
  function UpToEsc(s: string): (r: string)
    ensures |r| <= |s| && r == s[..|r|] && Esc !in r
    ensures |r| == |s| || s[|r|] == Esc
  {
    SplitFirstPiece(s, Esc);
    Split(s, [Esc])[0]
  }

  /** The file field as written: `line.lstrip('\033[0;32m').split('\033')[0]`. */
  function FileFieldAsWritten(text: string): string
  {
    UpToEsc(LStrip(text, GreenChars))
  }

  /** The file field as intended: the green colour code removed as a prefix. */
  function FileField(text: string): string
  {
    UpToEsc(RemovePrefix(text, Green))
  }

  /** `line.split('-> ')[-1].split('\033')[0]` */
  function LineField(text: string): string
  {
    UpToEsc(LastPiece(text, Arrow))
  }

  /** `line.split('in \033[0;36m')[-1].split('\033')[0]` */
  function FunctionField(text: string): string
  {
    UpToEsc(LastPiece(text, FunctionMarker))
  }

  /** `parse_traceback(line)`: the three fields, the file read with `lstrip`
      as written, the line number with `int`, which raises `ValueError` when
      the text it gets is no numeral. */
  function ParseTraceback(text: string): (r: Result<Frame>)
    ensures r.Ok? <==> IsNumeral(LineField(text))
    ensures r.Err? ==> r.error == ValueError
    ensures r.Ok? ==> r.value.line >= 0 && Esc !in r.value.file && Esc !in r.value.func
  {
    match ParseInt(LineField(text))
    case Err(e) => Err(e)
    case Ok(l) => Ok(Frame(FileFieldAsWritten(text), l, FunctionField(text)))
  }

  /** `parse_traceback` with the file field read as intended: it fails
      exactly when the code as written does, and differs only in the file. */
  function ParseTracebackIntended(text: string): (r: Result<Frame>)
    ensures r.Ok? <==> ParseTraceback(text).Ok?
    ensures r.Err? ==> r.error == ValueError
    ensures r.Ok? ==> && r.value.line == ParseTraceback(text).value.line
                      && r.value.func == ParseTraceback(text).value.func
                      && Esc !in r.value.file
  {
    match ParseInt(LineField(text))
    case Err(e) => Err(e)
    case Ok(l) => Ok(Frame(FileField(text), l, FunctionField(text)))
  }

  // ---------------------------------------------------------------------------
  // The entries IPython writes, and reading them back

  /** A run of the dashes that pad IPython's arrow to the width of the line
      numbers (`'-' * (pad - 2)` in its `make_arrow`). */
  predicate Dashes(s: string)
  {
    forall k :: 0 <= k < |s| ==> s[k] == '-'
  }

  /** The entry IPython's verbose formatter prints for a frame: the file in
      green and the reset code, then `in` and the function in cyan, then the
      blue call text (the argument list and the reset code, here `call`) and
      a newline; then the lines of code shown before the failing one
      (`context`), the green arrow (`dashes` and `-> `) with the failing
      line's number, and the code after it, here `rest`. The pieces are
      grouped from the right, the way the fields are read back. */
  function FrameEntry(file: string, func: string, call: string, context: string,
                      dashes: string, n: nat, rest: string): string
  {
    Green + (file + ([Esc] + ("[0m " + FunctionPart(func, call, context, dashes, n, rest))))
  }

  /** The entry from the function marker on. */
  function FunctionPart(func: string, call: string, context: string,
                        dashes: string, n: nat, rest: string): string
  {
    FunctionMarker + (func + ([Esc] + ("[0;34m" + CallAndLines(call, context, dashes, n, rest))))
  }

  /** The entry after the blue colour code that follows the function name. */
  function CallAndLines(call: string, context: string, dashes: string, n: nat, rest: string): string
  {
    call + ("\n" + (context + LinePart(dashes, n, rest)))
  }

  /** The arrow line of the entry: the arrow and the line number. */
  function LinePart(dashes: string, n: nat, rest: string): string
  {
    [Esc] + ("[0;32m" + (dashes + (Arrow + (Numeral(n) + ([Esc] + rest)))))
  }

  /** Whatever the file name, an entry parses, to its line number and its
      function, as long as the function holds no escape character, neither
      the call text nor the context lines nor the code after the number hold
      the function marker, and that code does not hold the arrow. */
  lemma ParseEntryFields(file: string, func: string, call: string, context: string,
                         dashes: string, n: nat, rest: string)
    requires Esc !in func && Dashes(dashes)
    requires Free(call, FunctionMarker) && Free(context, FunctionMarker)
    requires Free(rest, Arrow) && Free(rest, FunctionMarker)
    ensures var r := ParseTraceback(FrameEntry(file, func, call, context, dashes, n, rest));
      r.Ok? && r.value.line == n && r.value.func == func
  {
    LineFieldOfEntry(file, func, call, context, dashes, n, rest);
    FunctionFieldOfEntry(file, func, call, context, dashes, n, rest);
    ParseNumeral(n);
  }

  /** Reading a frame entry gives back its file, line number and function,
      when the file name does not begin with a character of the green colour
      code and holds no escape character. */
  lemma ParseFrameEntry(file: string, func: string, call: string, context: string,
                        dashes: string, n: nat, rest: string)
    requires file != [] && file[0] !in GreenChars && Esc !in file && Esc !in func
    requires Dashes(dashes)
    requires Free(call, FunctionMarker) && Free(context, FunctionMarker)
    requires Free(rest, Arrow) && Free(rest, FunctionMarker)
    ensures ParseTraceback(FrameEntry(file, func, call, context, dashes, n, rest))
            == Ok(Frame(file, n, func))
  {
    ParseEntryFields(file, func, call, context, dashes, n, rest);
    FileFieldAsWrittenAgrees(file, "[0m " + FunctionPart(func, call, context, dashes, n, rest));
  }

  /** As written, a file name that begins with a character of the green
      colour code comes back damaged from an entry that otherwise parses. */
  lemma ParseFrameEntryLosesName(file: string, func: string, call: string, context: string,
                                 dashes: string, n: nat, rest: string)
    requires file != [] && file[0] in GreenChars && Esc !in file && Esc !in func
    requires Dashes(dashes)
    requires Free(call, FunctionMarker) && Free(context, FunctionMarker)
    requires Free(rest, Arrow) && Free(rest, FunctionMarker)
    ensures var r := ParseTraceback(FrameEntry(file, func, call, context, dashes, n, rest));
      r.Ok? && r.value.line == n && r.value.func == func && r.value.file != file
  {
    ParseEntryFields(file, func, call, context, dashes, n, rest);
    FileFieldAsWrittenLosesName(file, "[0m " + FunctionPart(func, call, context, dashes, n, rest));
  }

  /** Read as intended, every frame entry gives back its file, line number
      and function. */
  lemma ParseFrameEntryIntended(file: string, func: string, call: string, context: string,
                                dashes: string, n: nat, rest: string)
    requires Esc !in file && Esc !in func && Dashes(dashes)
    requires Free(call, FunctionMarker) && Free(context, FunctionMarker)
    requires Free(rest, Arrow) && Free(rest, FunctionMarker)
    ensures ParseTracebackIntended(FrameEntry(file, func, call, context, dashes, n, rest))
            == Ok(Frame(file, n, func))
  {
    ParseEntryFields(file, func, call, context, dashes, n, rest);
    FileFieldOf(file, "[0m " + FunctionPart(func, call, context, dashes, n, rest));
  }

  lemma EntryEndsWithFunctionPart(file: string, func: string, call: string, context: string,
                                  dashes: string, n: nat, rest: string)
    ensures EndsWith(FrameEntry(file, func, call, context, dashes, n, rest),
                     FunctionPart(func, call, context, dashes, n, rest))
  {
    var fp := FunctionPart(func, call, context, dashes, n, rest);
    EndsWithAppend("[0m ", fp, fp);
    EndsWithAppend([Esc], "[0m " + fp, fp);
    EndsWithAppend(file, [Esc] + ("[0m " + fp), fp);
    EndsWithAppend(Green, file + ([Esc] + ("[0m " + fp)), fp);
  }

  lemma FunctionPartEndsWithLinePart(func: string, call: string, context: string,
                                     dashes: string, n: nat, rest: string)
    ensures EndsWith(FunctionPart(func, call, context, dashes, n, rest), LinePart(dashes, n, rest))
  {
    var lp := LinePart(dashes, n, rest);
    var cl := CallAndLines(call, context, dashes, n, rest);
    EndsWithAppend(context, lp, lp);
    EndsWithAppend("\n", context + lp, lp);
    EndsWithAppend(call, "\n" + (context + lp), lp);
    EndsWithAppend("[0;34m", cl, lp);
    EndsWithAppend([Esc], "[0;34m" + cl, lp);
    EndsWithAppend(func, [Esc] + ("[0;34m" + cl), lp);
    EndsWithAppend(FunctionMarker, func + ([Esc] + ("[0;34m" + cl)), lp);
  }

  lemma LinePartEndsWithArrow(dashes: string, n: nat, rest: string)
    ensures EndsWith(LinePart(dashes, n, rest), Arrow + (Numeral(n) + ([Esc] + rest)))
  {
    var a := Arrow + (Numeral(n) + ([Esc] + rest));
    EndsWithAppend(dashes, a, a);
    EndsWithAppend("[0;32m", dashes + a, a);
    EndsWithAppend([Esc], "[0;32m" + (dashes + a), a);
  }

  lemma EntryEndsWithArrow(file: string, func: string, call: string, context: string,
                           dashes: string, n: nat, rest: string)
    ensures EndsWith(FrameEntry(file, func, call, context, dashes, n, rest),
                     Arrow + (Numeral(n) + ([Esc] + rest)))
  {
    var entry := FrameEntry(file, func, call, context, dashes, n, rest);
    var lp := LinePart(dashes, n, rest);
    EntryEndsWithFunctionPart(file, func, call, context, dashes, n, rest);
    FunctionPartEndsWithLinePart(func, call, context, dashes, n, rest);
    LinePartEndsWithArrow(dashes, n, rest);
    EndsWithTrans(entry, FunctionPart(func, call, context, dashes, n, rest), lp);
    EndsWithTrans(entry, lp, Arrow + (Numeral(n) + ([Esc] + rest)));
  }

  lemma LineFieldOfEntry(file: string, func: string, call: string, context: string,
                         dashes: string, n: nat, rest: string)
    requires Free(rest, Arrow)
    ensures LineField(FrameEntry(file, func, call, context, dashes, n, rest)) == Numeral(n)
  {
    EntryEndsWithArrow(file, func, call, context, dashes, n, rest);
    LineFieldFrom(FrameEntry(file, func, call, context, dashes, n, rest), Numeral(n), rest);
  }

  /** The number is read from after the last arrow up to the escape that
      ends it. */
  lemma LineFieldFrom(text: string, digits: string, rest: string)
    requires IsNumeral(digits) && Free(rest, Arrow)
    requires EndsWith(text, Arrow + (digits + ([Esc] + rest)))
    ensures LineField(text) == digits
  {
    var b := digits + ([Esc] + rest);
    FreeJoinByFirst([Esc], rest, Arrow);
    assert forall k :: 0 <= k < |digits| ==> digits[k] != '-';
    FreeJoinByFirst(digits, [Esc] + rest, Arrow);
    LastPieceOfEnding(text, Arrow, b);
    assert forall k :: 0 <= k < |digits| ==> digits[k] != Esc;
    FirstIndexAt(digits, Esc, rest);
    assert b == digits + [Esc] + rest;
  }

  lemma FunctionFieldOfEntry(file: string, func: string, call: string, context: string,
                             dashes: string, n: nat, rest: string)
    requires Esc !in func && Dashes(dashes)
    requires Free(call, FunctionMarker) && Free(context, FunctionMarker)
    requires Free(rest, FunctionMarker)
    ensures FunctionField(FrameEntry(file, func, call, context, dashes, n, rest)) == func
  {
    EntryEndsWithFunctionPart(file, func, call, context, dashes, n, rest);
    CallAndLinesFree(call, context, dashes, n, rest);
    FunctionFieldFrom(FrameEntry(file, func, call, context, dashes, n, rest), func,
                      CallAndLines(call, context, dashes, n, rest));
  }

  /** The function name is read from after the last function marker up to
      the escape that ends it. */
  lemma FunctionFieldFrom(text: string, func: string, after: string)
    requires Esc !in func && Free(after, FunctionMarker)
    requires EndsWith(text, FunctionMarker + (func + ([Esc] + ("[0;34m" + after))))
    ensures FunctionField(text) == func
  {
    var b := func + ([Esc] + ("[0;34m" + after));
    FreeJoinByFirst("[0;34m", after, FunctionMarker);
    FreeJoinByFirst([Esc], "[0;34m" + after, FunctionMarker);
    MarkerNotInFunction(func, after);
    FreeJoin(func, [Esc] + ("[0;34m" + after), FunctionMarker);
    LastPieceOfEnding(text, FunctionMarker, b);
    FirstIndexAt(func, Esc, "[0;34m" + after);
    assert b == func + [Esc] + ("[0;34m" + after);
  }

  /** What follows the function's blue colour code never holds the function
      marker: the newline that ends the call text cannot be part of one. */
  lemma CallAndLinesFree(call: string, context: string, dashes: string, n: nat, rest: string)
    requires Dashes(dashes)
    requires Free(call, FunctionMarker) && Free(context, FunctionMarker)
    requires Free(rest, FunctionMarker)
    ensures Free(CallAndLines(call, context, dashes, n, rest), FunctionMarker)
  {
    var lines := context + LinePart(dashes, n, rest);
    ContextLinesFree(context, dashes, n, rest);
    FreeJoinByFirst("\n", lines, FunctionMarker);
    FreeJoinAtBreak(call, "\n" + lines, FunctionMarker);
  }

  /** The context lines followed by the arrow line never hold the function
      marker. */
  lemma ContextLinesFree(context: string, dashes: string, n: nat, rest: string)
    requires Dashes(dashes)
    requires Free(context, FunctionMarker) && Free(rest, FunctionMarker)
    ensures Free(context + LinePart(dashes, n, rest), FunctionMarker)
  {
    LinePartFree(dashes, n, rest);
    MarkerNotBeforeLinePart(context, dashes + (Arrow + (Numeral(n) + ([Esc] + rest))));
    FreeJoin(context, LinePart(dashes, n, rest), FunctionMarker);
  }

  /** No occurrence of the function marker starts in the context lines: one
      that stayed inside them would be an occurrence in them, and one that
      reached the arrow line would need the green colour code that opens it
      to be cyan. */
  lemma MarkerNotBeforeLinePart(context: string, x: string)
    requires Free(context, FunctionMarker)
    ensures var s := context + ([Esc] + ("[0;32m" + x));
      forall q: nat :: q < |context| ==> !OccursAt(s, FunctionMarker, q)
  {
    var s := context + ([Esc] + ("[0;32m" + x));
    var c := |context|;
    assert FunctionMarker == ['i', 'n', ' ', Esc, '[', '0', ';', '3', '6', 'm'];
    assert s[c] == Esc && s[c + 5] == '2';
    forall q: nat | q < c
      ensures !OccursAt(s, FunctionMarker, q)
    {
      if q + 10 <= |s| {
        var w := s[q..q + 10];
        if q + 10 <= c {
          assert w == context[q..q + 10];
          assert !OccursAt(context, FunctionMarker, q);
        } else if c - q == 3 {
          assert w[8] == s[c + 5];
        } else {
          assert w[c - q] == s[c];
        }
      }
    }
  }

  /** The arrow line never holds the function marker: none of its
      characters outside `rest` is an `i`. */
  lemma LinePartFree(dashes: string, n: nat, rest: string)
    requires Dashes(dashes) && Free(rest, FunctionMarker)
    ensures Free(LinePart(dashes, n, rest), FunctionMarker)
  {
    var numeral := Numeral(n);
    var tip := Arrow + (numeral + ([Esc] + rest));
    FreeJoinByFirst([Esc], rest, FunctionMarker);
    assert forall k :: 0 <= k < |numeral| ==> numeral[k] != 'i';
    FreeJoinByFirst(numeral, [Esc] + rest, FunctionMarker);
    FreeJoinByFirst(Arrow, numeral + ([Esc] + rest), FunctionMarker);
    FreeJoinByFirst(dashes, tip, FunctionMarker);
    FreeJoinByFirst("[0;32m", dashes + tip, FunctionMarker);
    FreeJoinByFirst([Esc], "[0;32m" + (dashes + tip), FunctionMarker);
  }

  /** No occurrence of the function marker starts inside the function name:
      the escape character the marker needs at its fourth position is, at
      best, the one of the blue colour code after the name, and that code is
      not cyan. */
  lemma MarkerNotInFunction(func: string, after: string)
    requires Esc !in func
    ensures var s := func + ([Esc] + ("[0;34m" + after));
      forall q: nat :: q < |func| ==> !OccursAt(s, FunctionMarker, q)
  {
    var s := func + ([Esc] + ("[0;34m" + after));
    var f := |func|;
    assert s[f] == Esc && s[f + 1] == '[' && s[f + 2] == '0' && s[f + 5] == '4';
    forall q: nat | q < f
      ensures !OccursAt(s, FunctionMarker, q)
    {
      if q + 10 <= |s| {
        var w := s[q..q + 10];
        if q + 3 < f {
          assert w[3] == func[q + 3];
        } else if q + 3 == f {
          assert w[8] == s[f + 5];
        } else {
          assert w[3] == s[q + 3];
        }
      }
    }
  }

  // ---------------------------------------------------------------------------
  // The file field: as written and as intended

  /** As written, `lstrip` also eats the leading characters of a file name
      that begins with one of the characters of the colour code (`main.py`
      comes back as `ain.py`). */
  lemma FileFieldAsWrittenLosesName(file: string, rest: string)
    requires file != [] && file[0] in GreenChars && Esc !in file
    ensures FileFieldAsWritten(Green + (file + ([Esc] + rest))) != file
  {
    var stripped := LStrip(Green + (file + ([Esc] + rest)), GreenChars);
    var h := UpToEsc(stripped);
    assert h != [] ==> h[0] == stripped[0];
  }

  /** ... while for every other file name the as-written field is right. */
  lemma FileFieldAsWrittenAgrees(file: string, rest: string)
    requires file != [] && file[0] !in GreenChars && Esc !in file
    ensures FileFieldAsWritten(Green + (file + ([Esc] + rest))) == file
  {
    var tail := file + ([Esc] + rest);
    assert tail == file + [Esc] + rest;
    GreenIsStripped();
    StripsExactly(Green, tail, GreenChars);
    FirstIndexAt(file, Esc, rest);
  }

  lemma GreenIsStripped()
    ensures forall k :: 0 <= k < |Green| ==> Green[k] in GreenChars
  {
    assert Green == [Esc, '[', '0', ';', '3', '2', 'm'];
  }

  /** The intended field: the file name whatever it begins with. */
  lemma FileFieldOf(file: string, rest: string)
    requires Esc !in file
    ensures FileField(Green + (file + ([Esc] + rest))) == file
  {
    var tail := file + ([Esc] + rest);
    assert tail == file + [Esc] + rest;
    RemovePrefixOf(Green, tail);
    FirstIndexAt(file, Esc, rest);
  }
}
