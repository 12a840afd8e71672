/** The few `str` operations of Python that the plugin relies on, over `string`
    (a `seq<char>`): `splitlines`, `split`, `lstrip` and `int`. */
module Text {
  import opened Outcomes

  const NewLine: char := '\n'

  // ---------------------------------------------------------------------------
  // str.splitlines, restricted to '\n' as the only line break

  /** Index of the first `ch` in `s`, or `|s|` when `s` has none. */
  function FirstIndex(s: string, ch: char): (k: nat)
    ensures k <= |s|
    ensures forall j :: 0 <= j < k ==> s[j] != ch
    ensures k < |s| ==> s[k] == ch
  {
    if s == [] then 0
    else if s[0] == ch then 0
    else 1 + FirstIndex(s[1..], ch)
  }

  /** `s.splitlines()`: the lines of `s` without their terminators; a final
      line break does not open an empty last line and "" has no lines. */
  function SplitLines(s: string): (lines: seq<string>)
    ensures forall l :: 0 <= l < |lines| ==> NewLine !in lines[l]
    decreases |s|
  {
    if s == [] then []
    else
      var k := FirstIndex(s, NewLine);
      if k == |s| then [s] else [s[..k]] + SplitLines(s[k + 1..])
  }

  /** The inverse direction: every line followed by a line break. */
  function JoinLines(lines: seq<string>): string
  {
    if lines == [] then [] else lines[0] + [NewLine] + JoinLines(lines[1..])
  }

  /** Lines free of line breaks survive a join followed by a split. */
  lemma {:induction false} SplitJoin(lines: seq<string>)
    requires forall l :: 0 <= l < |lines| ==> NewLine !in lines[l]
    ensures SplitLines(JoinLines(lines)) == lines
  {
    if lines != [] {
      var s := JoinLines(lines);
      var rest := JoinLines(lines[1..]);
      assert s == lines[0] + [NewLine] + rest;
      FirstIndexAt(lines[0], NewLine, rest);
      assert s[..|lines[0]|] == lines[0];
      assert s[|lines[0]| + 1..] == rest;
      SplitJoin(lines[1..]);
    }
  }

  /** The first line is the text up to the first line break. */
  lemma SplitLinesCons(a: string, b: string)
    requires NewLine !in a
    ensures SplitLines(a + [NewLine] + b) == [a] + SplitLines(b)
  {
    var s := a + [NewLine] + b;
    FirstIndexAt(a, NewLine, b);
    assert s[..|a|] == a && s[|a| + 1..] == b;
  }

  /** A non-empty text without line breaks is one line. */
  lemma SplitLinesSingle(a: string)
    requires a != [] && NewLine !in a
    ensures SplitLines(a) == [a]
  {
    assert FirstIndex(a, NewLine) == |a|;
  }

  lemma FirstIndexAt(a: string, ch: char, b: string)
    requires ch !in a
    ensures FirstIndex(a + [ch] + b, ch) == |a|
  {
    var s := a + [ch] + b;
    assert forall j :: 0 <= j < |a| ==> s[j] == a[j] && s[j] != ch;
    assert s[|a|] == ch;
  }

  /** `s` ending in a line break: unchanged when empty or already ending in
      one, otherwise with one added. */
  function Terminated(s: string): (r: string)
    ensures r == [] || r[|r| - 1] == NewLine
  {
    if s == [] || s[|s| - 1] == NewLine then s else s + [NewLine]
  }

  /** Splitting and joining again gives back the text, with a line break added
      when its last line had none. */
  lemma {:induction false} JoinSplit(s: string)
    ensures JoinLines(SplitLines(s)) == Terminated(s)
    decreases |s|
  {
    if s != [] {
      var k := FirstIndex(s, NewLine);
      if k == |s| {
        JoinSplitOne(s);
      } else {
        JoinSplitStep(s, k);
        JoinSplit(s[k + 1..]);
        TerminatedCons(s, k);
      }
    }
  }

  lemma JoinSplitOne(s: string)
    requires s != [] && FirstIndex(s, NewLine) == |s|
    ensures JoinLines(SplitLines(s)) == s + [NewLine]
  {
    assert SplitLines(s) == [s];
    JoinLinesCons(s, []);
  }

  lemma JoinSplitStep(s: string, k: nat)
    requires s != [] && k == FirstIndex(s, NewLine) && k < |s|
    ensures JoinLines(SplitLines(s)) == s[..k] + [NewLine] + JoinLines(SplitLines(s[k + 1..]))
  {
    SplitLinesStep(s, k);
    JoinLinesCons(s[..k], SplitLines(s[k + 1..]));
  }

  lemma SplitLinesStep(s: string, k: nat)
    requires s != [] && k == FirstIndex(s, NewLine) && k < |s|
    ensures SplitLines(s) == [s[..k]] + SplitLines(s[k + 1..])
  {
  }

  lemma JoinLinesCons(line: string, lines: seq<string>)
    ensures JoinLines([line] + lines) == line + [NewLine] + JoinLines(lines)
  {
    assert ([line] + lines)[1..] == lines;
  }

  lemma TerminatedCons(s: string, k: nat)
    requires k < |s| && s[k] == NewLine
    ensures s[..k] + [NewLine] + Terminated(s[k + 1..]) == Terminated(s)
  {
    var head, rest := s[..k], s[k + 1..];
    assert s == head + [NewLine] + rest;
    if rest != [] {
      assert s[|s| - 1] == rest[|rest| - 1];
      assert s + [NewLine] == head + [NewLine] + (rest + [NewLine]);
    }
  }

  // ---------------------------------------------------------------------------
  // str.lstrip(chars)

  /** `s.lstrip(chars)`: drops the longest prefix made only of characters of
      the SET `chars` (the argument is a set, not a prefix to remove). */
  function LStrip(s: string, chars: set<char>): (r: string)
    ensures |r| <= |s| && r == s[|s| - |r|..]
    ensures forall k :: 0 <= k < |s| - |r| ==> s[k] in chars
    ensures r != [] ==> r[0] !in chars
  {
    if s != [] && s[0] in chars then LStrip(s[1..], chars) else s
  }

  /** Stripping stops at the first character outside the set: whatever
      stood before it is gone and everything from it on is kept. */
  lemma StripsExactly(a: string, s: string, chars: set<char>)
    requires forall k :: 0 <= k < |a| ==> a[k] in chars
    requires s == [] || s[0] !in chars
    ensures LStrip(a + s, chars) == s
  {
    var t := a + s;
    var r := LStrip(t, chars);
    assert forall k :: 0 <= k < |a| ==> t[k] == a[k];
    assert s != [] ==> t[|a|] == s[0];
    assert r != [] ==> r[0] == t[|t| - |r|];
    assert |r| == |s|;
  }

  /** `s.removeprefix(p)`: `s` without the leading `p`, or `s` unchanged when
      it does not start with `p`. */
  function RemovePrefix(s: string, p: string): (r: string)
    ensures |p| <= |s| && s[..|p|] == p ==> s == p + r
    ensures !(|p| <= |s| && s[..|p|] == p) ==> r == s
  {
    if |p| <= |s| && s[..|p|] == p then s[|p|..] else s
  }

  /** Removing a prefix undoes prepending it. */
  lemma RemovePrefixOf(p: string, t: string)
    ensures RemovePrefix(p + t, p) == t
  {
    assert (p + t)[..|p|] == p;
  }

  // ---------------------------------------------------------------------------
  // str.split(sep) with an explicit, non-empty separator

  predicate OccursAt(s: string, sep: string, p: nat)
  {
    p + |sep| <= |s| && s[p..p + |sep|] == sep
  }

  ghost predicate Free(s: string, sep: string)
  {
    forall q: nat :: !OccursAt(s, sep, q)
  }

  /** The leftmost occurrence of `sep` in `s` at or after `from`. */
  function Find(s: string, sep: string, from: nat): (r: Option<nat>)
    ensures r.Some? ==> from <= r.value && OccursAt(s, sep, r.value)
    ensures forall q: nat :: from <= q && (r.None? || q < r.value) ==> !OccursAt(s, sep, q)
    decreases |s| - from
  {
    if from + |sep| > |s| then None
    else if OccursAt(s, sep, from) then Some(from)
    else Find(s, sep, from + 1)
  }

  lemma OccursInPrefix(s: string, sep: string, p: nat, q: nat)
    requires p <= |s|
    ensures OccursAt(s[..p], sep, q) ==> q + |sep| <= p && OccursAt(s, sep, q)
  {
    if OccursAt(s[..p], sep, q) {
      assert s[..p][q..q + |sep|] == s[q..q + |sep|];
    }
  }

  /** `s.split(sep)`: the pieces between the occurrences of `sep` found from
      left to right. */
  function Split(s: string, sep: string): (pieces: seq<string>)
    requires sep != []
    ensures |pieces| >= 1
    decreases |s|
  {
    match Find(s, sep, 0)
    case None => [s]
    case Some(p) => [s[..p]] + Split(s[p + |sep|..], sep)
  }

  /** No piece of a split holds the separator. */
  lemma {:induction false} SplitPiecesFree(s: string, sep: string)
    requires sep != []
    ensures forall k :: 0 <= k < |Split(s, sep)| ==> Free(Split(s, sep)[k], sep)
    decreases |s|
  {
    match Find(s, sep, 0)
    case None =>
    case Some(p) =>
      var head := s[..p];
      forall q: nat ensures !OccursAt(head, sep, q) {
        OccursInPrefix(s, sep, p, q);
      }
      SplitPiecesFree(s[p + |sep|..], sep);
  }

  /** `sep.join(pieces)`, the inverse of `Split`. */
  function JoinWith(pieces: seq<string>, sep: string): string
    requires |pieces| >= 1
  {
    if |pieces| == 1 then pieces[0] else pieces[0] + sep + JoinWith(pieces[1..], sep)
  }

  /** Splitting loses nothing: joining the pieces with the separator gives `s`. */
  lemma {:induction false} SplitJoinWith(s: string, sep: string)
    requires sep != []
    ensures JoinWith(Split(s, sep), sep) == s
    decreases |s|
  {
    match Find(s, sep, 0)
    case None =>
    case Some(p) =>
      var rest := s[p + |sep|..];
      var tail := Split(rest, sep);
      assert Split(s, sep) == [s[..p]] + tail;
      assert JoinWith([s[..p]] + tail, sep) == s[..p] + sep + JoinWith(tail, sep);
      SplitJoinWith(rest, sep);
      assert s == s[..p] + sep + rest;
  }

  /** `s.split(sep)[-1]` */
  function LastPiece(s: string, sep: string): string
    requires sep != []
  {
    var pieces := Split(s, sep);
    pieces[|pieces| - 1]
  }

  /** A split that finds `sep` at `p` ends the way the split of the text
      after that occurrence ends. */
  lemma LastPieceStep(s: string, sep: string, p: nat)
    requires sep != [] && Find(s, sep, 0) == Some(p)
    ensures LastPiece(s, sep) == LastPiece(s[p + |sep|..], sep)
  {
    var tail := Split(s[p + |sep|..], sep);
    assert Split(s, sep) == [s[..p]] + tail;
  }

  /** A separator that begins with a character it does not repeat cannot
      overlap itself; so when `sep` stands between `a` and a `b` free of it,
      the last piece of the split is `b`, however often `sep` occurs in `a`. */
  lemma {:induction false} LastPieceAfter(a: string, sep: string, b: string)
    requires sep != [] && sep[0] !in sep[1..]
    requires Free(b, sep)
    ensures LastPiece(a + sep + b, sep) == b
    decreases |a|
  {
    var s := a + sep + b;
    assert OccursAt(s, sep, |a|) by { assert s[|a|..|a| + |sep|] == sep; }
    var p := Find(s, sep, 0).value;
    LastPieceStep(s, sep, p);
    if p == |a| {
      assert s[p + |sep|..] == b;
      SplitSingle(b, sep);
    } else {
      NoSelfOverlap(s, sep, p, |a|);
      var a' := a[p + |sep|..];
      assert s[p + |sep|..] == a' + sep + b;
      LastPieceAfter(a', sep, b);
    }
  }

  /** An occurrence of such a separator ends before the next place its first
      character appears. */
  lemma NoSelfOverlap(s: string, sep: string, p: nat, m: nat)
    requires sep != [] && sep[0] !in sep[1..]
    requires OccursAt(s, sep, p) && p < m < |s| && s[m] == sep[0]
    ensures p + |sep| <= m
  {
    assert forall i :: 0 < i < |sep| ==> sep[i] == sep[1..][i - 1];
    assert forall i :: p < i < p + |sep| ==> s[i] == s[p..p + |sep|][i - p];
  }

  /** `s.endswith(t)` */
  predicate EndsWith(s: string, t: string)
  {
    |t| <= |s| && s[|s| - |t|..] == t
  }

  lemma EndsWithAppend(x: string, y: string, t: string)
    requires EndsWith(y, t)
    ensures EndsWith(x + y, t)
  {
    assert (x + y)[|x + y| - |t|..] == y[|y| - |t|..];
  }

  lemma EndsWithTrans(s: string, t: string, u: string)
    requires EndsWith(s, t) && EndsWith(t, u)
    ensures EndsWith(s, u)
  {
    assert s[|s| - |u|..] == s[|s| - |t|..][|t| - |u|..];
  }

  /** `LastPieceAfter` for a text known only to end with `sep + b`. */
  lemma LastPieceOfEnding(s: string, sep: string, b: string)
    requires sep != [] && sep[0] !in sep[1..]
    requires Free(b, sep) && EndsWith(s, sep + b)
    ensures LastPiece(s, sep) == b
  {
    var a := s[..|s| - |sep + b|];
    assert s == a + sep + b;
    LastPieceAfter(a, sep, b);
  }

  /** Prepending text in which no occurrence of `sep` can start keeps a text
      free of `sep`. */
  lemma FreeJoin(x: string, y: string, sep: string)
    requires Free(y, sep)
    requires forall q: nat :: q < |x| ==> !OccursAt(x + y, sep, q)
    ensures Free(x + y, sep)
  {
    forall q: nat | |x| <= q
      ensures !OccursAt(x + y, sep, q)
    {
      if q + |sep| <= |x + y| {
        assert (x + y)[q..q + |sep|] == y[q - |x|..q - |x| + |sep|];
        assert !OccursAt(y, sep, q - |x|);
      }
    }
  }

  /** In particular when no character of `x` is the first of `sep`. */
  lemma FreeJoinByFirst(x: string, y: string, sep: string)
    requires sep != [] && sep[0] !in x
    requires Free(y, sep)
    ensures Free(x + y, sep)
  {
    forall q: nat | q < |x|
      ensures !OccursAt(x + y, sep, q)
    {
      assert (x + y)[q] == x[q];
      if q + |sep| <= |x + y| {
        assert (x + y)[q..q + |sep|][0] == x[q];
      }
    }
    FreeJoin(x, y, sep);
  }

  /** Or when both halves are free of `sep` and `y` begins with a character
      `sep` does not hold, so that no occurrence can straddle the two. */
  lemma FreeJoinAtBreak(x: string, y: string, sep: string)
    requires Free(x, sep) && Free(y, sep)
    requires y != [] && y[0] !in sep
    ensures Free(x + y, sep)
  {
    forall q: nat | q < |x|
      ensures !OccursAt(x + y, sep, q)
    {
      if q + |sep| <= |x + y| {
        if q + |sep| <= |x| {
          assert (x + y)[q..q + |sep|] == x[q..q + |sep|];
          assert !OccursAt(x, sep, q);
        } else {
          assert (x + y)[q..q + |sep|][|x| - q] == y[0];
        }
      }
    }
    FreeJoin(x, y, sep);
  }

  /** A split yields a single piece exactly when the separator does not occur. */
  lemma SplitSingle(s: string, sep: string)
    requires sep != []
    ensures |Split(s, sep)| == 1 <==> Free(s, sep)
  {
    match Find(s, sep, 0)
    case None =>
    case Some(p) =>
      assert OccursAt(s, sep, p);
  }

  /** The first piece of a split on a single character: the text before its
      first occurrence. */
  lemma SplitFirstPiece(s: string, ch: char)
    ensures var head := Split(s, [ch])[0];
      head == s[..FirstIndex(s, ch)]
  {
    var k := FirstIndex(s, ch);
    assert forall j :: 0 <= j < |s| ==> (OccursAt(s, [ch], j) <==> s[j] == ch);
  }

  // ---------------------------------------------------------------------------
  // int(text) for plain decimal numerals

  predicate IsDigit(ch: char)
  {
    '0' <= ch <= '9'
  }

  predicate IsNumeral(s: string)
  {
    |s| > 0 && forall k :: 0 <= k < |s| ==> IsDigit(s[k])
  }

  function DigitValue(ch: char): nat
    requires IsDigit(ch)
  {
    ch as int - '0' as int
  }

  function Digit(d: nat): char
    requires d < 10
  {
    ('0' as int + d) as char
  }

  /** The value of a string of decimal digits. */
  function NumeralValue(s: string): nat
    requires forall k :: 0 <= k < |s| ==> IsDigit(s[k])
  {
    if s == [] then 0 else 10 * NumeralValue(s[..|s| - 1]) + DigitValue(s[|s| - 1])
  }

  /** The shortest decimal numeral of `n` (`str(n)`). */
  function Numeral(n: nat): (s: string)
    ensures IsNumeral(s)
  {
    if n < 10 then [Digit(n)] else Numeral(n / 10) + [Digit(n % 10)]
  }

  /** `int(s)`, for the decimal numerals this model admits; everything else is
      a `ValueError`. */
  function ParseInt(s: string): (r: Result<int>)
    ensures r.Ok? <==> IsNumeral(s)
    ensures r.Err? ==> r.error == ValueError
  {
    if IsNumeral(s) then Ok(NumeralValue(s)) else Err(ValueError)
  }

  /** Reading back a printed number gives the number. */
  lemma {:induction false} ParseNumeral(n: nat)
    ensures ParseInt(Numeral(n)) == Ok(n)
  {
    var s := Numeral(n);
    if n >= 10 {
      ParseNumeral(n / 10);
      assert s[..|s| - 1] == Numeral(n / 10);
      assert NumeralValue(s) == 10 * (n / 10) + n % 10;
    }
  }
}
