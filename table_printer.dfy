/** The column layout of the CLI table printer in
    `v2/cli/output/table_printer.go`: column widths from the header and the
    cells, shrunk one character at a time from the widest column until the
    table fits, cells wrapped to their width, and separator rows collapsed.
    Lengths are counted in characters. */
module TablePrinter {
  import opened Strings

  const SeparatorToken := "__melody_table_separator__"
  const MinColumnWidth := 4
  const DefaultMaxWidth := 120

  /** `NewTablePrinter`: a maximum width below 1 falls back to 120. */
  function NormalizedMaxWidth(tableMaxWidth: int): (r: int)
    ensures r >= 1
    ensures tableMaxWidth >= 1 ==> r == tableMaxWidth
    ensures tableMaxWidth < 1 ==> r == DefaultMaxWidth
  {
    if 1 > tableMaxWidth then DefaultMaxWidth else tableMaxWidth
  }

  /** `isSeparatorRow`: one cell holding exactly the separator token. */
  predicate IsSeparatorRow(row: seq<string>) {
    |row| == 1 && row[0] == SeparatorToken
  }

  // ---------------------------------------------------------------------------
  // Initial widths

  /** The widest of `base` and the cells in column `k` of the rows that are
      not separators and reach that column. */
  function CellMax(rows: seq<seq<string>>, k: nat, base: nat): nat
    decreases |rows|
  {
    if rows == [] then base
    else
      var m := CellMax(rows[..|rows| - 1], k, base);
      var last := rows[|rows| - 1];
      if IsSeparatorRow(last) || k >= |last| || |last[k]| <= m then m else |last[k]|
  }

  /** The width is the header's or that of one of the column's cells, and no
      cell of a non-separator row is wider. */
  lemma {:induction false} CellMaxIsWidest(rows: seq<seq<string>>, k: nat, base: nat)
    ensures base <= CellMax(rows, k, base)
    ensures forall j :: 0 <= j < |rows| && !IsSeparatorRow(rows[j]) && k < |rows[j]| ==> |rows[j][k]| <= CellMax(rows, k, base)
    ensures CellMax(rows, k, base) == base
      || exists j :: 0 <= j < |rows| && !IsSeparatorRow(rows[j]) && k < |rows[j]| && |rows[j][k]| == CellMax(rows, k, base)
    decreases |rows|
  {
    if rows != [] {
      var init := rows[..|rows| - 1];
      CellMaxIsWidest(init, k, base);
      var m := CellMax(init, k, base);
      if CellMax(rows, k, base) != base && CellMax(rows, k, base) == m {
        var j :| 0 <= j < |init| && !IsSeparatorRow(init[j]) && k < |init[j]| && |init[j][k]| == m;
        assert rows[j] == init[j];
      }
    }
  }

  /** Each column's width before shrinking: its header or its widest cell. */
  function InitialWidths(columns: seq<string>, rows: seq<seq<string>>): (r: seq<int>)
    ensures |r| == |columns|
  {
    seq(|columns|, k requires 0 <= k < |columns| => CellMax(rows, k, |columns[k]|))
  }

  // ---------------------------------------------------------------------------
  // Shrinking

  function Sum(ws: seq<int>): int
    decreases |ws|
  {
    if ws == [] then 0 else Sum(ws[..|ws| - 1]) + ws[|ws| - 1]
  }

  lemma {:induction false} SumUpdate(ws: seq<int>, i: nat, x: int)
    requires i < |ws|
    ensures Sum(ws[i := x]) == Sum(ws) - ws[i] + x
    decreases |ws|
  {
    var n := |ws| - 1;
    if i < n {
      assert ws[i := x][..n] == ws[..n][i := x];
      SumUpdate(ws[..n], i, x);
    } else {
      assert ws[i := x][..n] == ws[..n];
    }
  }

  predicate AtLeast(ws: seq<int>, mins: seq<int>) {
    |ws| == |mins| && forall k :: 0 <= k < |ws| ==> mins[k] <= ws[k]
  }

  predicate NonNegative(ws: seq<int>) {
    forall k :: 0 <= k < |ws| ==> 0 <= ws[k]
  }

  lemma {:induction false} SumAtLeast(ws: seq<int>, mins: seq<int>)
    requires AtLeast(ws, mins)
    ensures Sum(mins) <= Sum(ws)
    decreases |ws|
  {
    if ws != [] {
      SumAtLeast(ws[..|ws| - 1], mins[..|mins| - 1]);
    }
  }

  /** A column's least width: 4, or its header's length when longer. */
  function MinWidth(column: string): int {
    if MinColumnWidth < |column| then |column| else MinColumnWidth
  }

  function MinWidths(columns: seq<string>, n: nat): (r: seq<int>)
    requires n <= |columns|
    ensures |r| == n && NonNegative(r)
  {
    seq(n, k requires 0 <= k < n => MinWidth(columns[k]))
  }

  /** Each width raised to its least width. */
  function Clamped(ws: seq<int>, mins: seq<int>): (r: seq<int>)
    requires |ws| == |mins|
    ensures AtLeast(r, mins)
  {
    seq(|ws|, k requires 0 <= k < |ws| => if ws[k] < mins[k] then mins[k] else ws[k])
  }

  /** The room left for content in `maxWidth`: the outer border takes 4
      characters and each inner border 3; at least 1. */
  function Available(maxWidth: int, columnCount: int): int {
    var available := maxWidth - 4 - 3 * (columnCount - 1);
    if 1 > available then 1 else available
  }

  datatype Widest = Widest(index: int, width: int)

  /** The widest column among the first `n` that is above its least width,
      the first one on a tie; index -1 when none is. */
  function WidestIn(ws: seq<int>, mins: seq<int>, n: nat): (r: Widest)
    requires n <= |ws| == |mins| && NonNegative(mins)
    ensures r.index == -1 ==> forall k :: 0 <= k < n ==> ws[k] <= mins[k]
    ensures r.index != -1 ==>
      0 <= r.index < n && mins[r.index] < ws[r.index] && r.width == ws[r.index]
      && (forall k :: 0 <= k < n && mins[k] < ws[k] ==> ws[k] <= r.width)
      && (forall k :: 0 <= k < r.index && mins[k] < ws[k] ==> ws[k] < r.width)
    ensures r.index == -1 ==> r.width == 0
    decreases n
  {
    if n == 0 then Widest(-1, 0)
    else
      var previous := WidestIn(ws, mins, n - 1);
      if ws[n - 1] <= mins[n - 1] || ws[n - 1] <= previous.width then previous
      else Widest(n - 1, ws[n - 1])
  }

  /** The shrink loop: while the widths add up to more than `available`,
      the widest column above its least width loses one character. */
  function ShrinkAll(ws: seq<int>, mins: seq<int>, available: int): seq<int>
    requires AtLeast(ws, mins) && NonNegative(mins)
    decreases Sum(ws) - Sum(mins)
  {
    SumAtLeast(ws, mins);
    if Sum(ws) <= available then ws
    else
      var w := WidestIn(ws, mins, |ws|).index;
      if w == -1 then ws
      else
        SumUpdate(ws, w, ws[w] - 1);
        SumAtLeast(ws[w := ws[w] - 1], mins);
        ShrinkAll(ws[w := ws[w] - 1], mins, available)
  }

  /** One round of the shrink loop, when it shrinks. */
  lemma ShrinkAllStep(ws: seq<int>, mins: seq<int>, available: int, w: int)
    requires AtLeast(ws, mins) && NonNegative(mins)
    requires available < Sum(ws) && w == WidestIn(ws, mins, |ws|).index && w != -1
    ensures AtLeast(ws[w := ws[w] - 1], mins)
    ensures Sum(ws[w := ws[w] - 1]) == Sum(ws) - 1
    ensures ShrinkAll(ws, mins, available) == ShrinkAll(ws[w := ws[w] - 1], mins, available)
  {
    SumUpdate(ws, w, ws[w] - 1);
  }

  /** The shrink loop ends when the widths fit or no column can shrink. */
  lemma ShrinkAllDone(ws: seq<int>, mins: seq<int>, available: int)
    requires AtLeast(ws, mins) && NonNegative(mins)
    requires Sum(ws) <= available || WidestIn(ws, mins, |ws|).index == -1
    ensures ShrinkAll(ws, mins, available) == ws
  {
  }

  /** The shrunk widths stay at or above the least widths and never grow;
      either they fit in `available` or every column is at its least width. */
  lemma {:induction false} ShrinkAllShape(ws: seq<int>, mins: seq<int>, available: int)
    requires AtLeast(ws, mins) && NonNegative(mins)
    ensures var r := ShrinkAll(ws, mins, available);
      AtLeast(r, mins) && (forall k :: 0 <= k < |ws| ==> r[k] <= ws[k])
      && (Sum(r) <= available || forall k :: 0 <= k < |r| ==> r[k] == mins[k])
    decreases Sum(ws) - Sum(mins)
  {
    SumAtLeast(ws, mins);
    var w := WidestIn(ws, mins, |ws|).index;
    if Sum(ws) <= available || w == -1 {
      ShrinkAllDone(ws, mins, available);
    } else {
      var next := ws[w := ws[w] - 1];
      ShrinkAllStep(ws, mins, available, w);
      SumAtLeast(next, mins);
      ShrinkAllShape(next, mins, available);
    }
  }

  /** `shrinkWidthsToFitMaxWidth`, on the widths as values. */
  function ShrunkWidths(columns: seq<string>, ws: seq<int>, maxWidth: int): seq<int>
    requires |ws| <= |columns|
  {
    if |ws| == 0 || 1 > maxWidth then ws
    else
      var mins := MinWidths(columns, |ws|);
      ShrinkAll(Clamped(ws, mins), mins, Available(maxWidth, |ws|))
  }

  /** After shrinking, every width is at least 4 and at least its header's
      length, no width is above what it was (or its least width), and the
      table fits unless every column is already at its least width. */
  lemma ShrunkWidthsShape(columns: seq<string>, ws: seq<int>, maxWidth: int)
    requires 0 < |ws| <= |columns| && 1 <= maxWidth
    ensures var r := ShrunkWidths(columns, ws, maxWidth);
      |r| == |ws|
      && (forall k :: 0 <= k < |r| ==> MinColumnWidth <= r[k] && |columns[k]| <= r[k])
      && (forall k :: 0 <= k < |r| ==> r[k] <= ws[k] || r[k] == MinWidth(columns[k]))
      && (Sum(r) <= Available(maxWidth, |ws|) || forall k :: 0 <= k < |r| ==> r[k] == MinWidth(columns[k]))
  {
    var mins := MinWidths(columns, |ws|);
    ShrinkAllShape(Clamped(ws, mins), mins, Available(maxWidth, |ws|));
  }

  /** One round of the shrink loop takes one character from the widest
      shrinkable column, the leftmost on a tie. */
  lemma ShrinkStep(ws: seq<int>, mins: seq<int>, available: int)
    requires AtLeast(ws, mins) && NonNegative(mins)
    requires available < Sum(ws)
    requires exists k :: 0 <= k < |ws| && mins[k] < ws[k]
    ensures var w := WidestIn(ws, mins, |ws|).index;
      0 <= w < |ws| && mins[w] < ws[w]
      && (forall k :: 0 <= k < |ws| && mins[k] < ws[k] ==> ws[k] <= ws[w])
      && ShrinkAll(ws, mins, available) == ShrinkAll(ws[w := ws[w] - 1], mins, available)
  {
    SumAtLeast(ws, mins);
  }

  /** The first loop of `shrinkWidthsToFitMaxWidth`: records each column's
      least width and raises the widths below it. */
  method RaiseToMinWidths(columns: seq<string>, widths: array<int>) returns (minWidths: array<int>)
    requires widths.Length <= |columns|
    modifies widths
    ensures fresh(minWidths)
    ensures minWidths[..] == MinWidths(columns, widths.Length)
    ensures widths[..] == Clamped(old(widths[..]), minWidths[..])
  {
    var columnCount := widths.Length;
    ghost var mins := MinWidths(columns, columnCount);
    minWidths := new int[columnCount];
    for index := 0 to columnCount
      invariant forall k :: 0 <= k < index ==> minWidths[k] == mins[k]
      invariant forall k :: 0 <= k < index ==> widths[k] == Clamped(old(widths[..]), mins)[k]
      invariant forall k :: index <= k < columnCount ==> widths[k] == old(widths[k])
    {
      var minWidth := MinColumnWidth;
      if minWidth < |columns[index]| {
        minWidth := |columns[index]|;
      }
      minWidths[index] := minWidth;
      if widths[index] < minWidth {
        widths[index] := minWidth;
      }
    }
    assert minWidths[..] == mins;
  }

  /** The total of the widths. */
  method SumWidths(widths: array<int>) returns (total: int)
    ensures total == Sum(widths[..])
  {
    total := 0;
    for index := 0 to widths.Length
      invariant total == Sum(widths[..index])
    {
      assert widths[..index + 1][..index] == widths[..index];
      total := total + widths[index];
    }
    assert widths[..widths.Length] == widths[..];
  }

  /** The scan for the widest column above its least width. */
  method FindWidest(widths: array<int>, minWidths: array<int>) returns (widest: Widest)
    requires widths.Length == minWidths.Length && NonNegative(minWidths[..])
    ensures widest == WidestIn(widths[..], minWidths[..], widths.Length)
  {
    widest := Widest(-1, 0);
    for index := 0 to widths.Length
      invariant widest == WidestIn(widths[..], minWidths[..], index)
    {
      if !(widths[index] <= minWidths[index]) && widths[index] > widest.width {
        widest := Widest(index, widths[index]);
      }
    }
  }

  /** One character off one column. */
  method DecrementWidth(widths: array<int>, w: int)
    requires 0 <= w < widths.Length
    modifies widths
    ensures widths[..] == old(widths[..])[w := old(widths[w]) - 1]
  {
    widths[w] := widths[w] - 1;
  }

  /** One round of the shrink loop: the widest shrinkable column loses a
      character, or the loop stops when there is none. */
  method ShrinkRound(widths: array<int>, minWidths: array<int>, available: int, currentContentWidth: int)
    returns (stopped: bool, nextContentWidth: int)
    requires widths != minWidths && AtLeast(widths[..], minWidths[..]) && NonNegative(minWidths[..])
    requires currentContentWidth == Sum(widths[..]) && available < currentContentWidth
    modifies widths
    ensures AtLeast(widths[..], minWidths[..])
    ensures nextContentWidth == Sum(widths[..])
    ensures ShrinkAll(widths[..], minWidths[..], available) == ShrinkAll(old(widths[..]), minWidths[..], available)
    ensures stopped ==> widths[..] == ShrinkAll(widths[..], minWidths[..], available)
    ensures !stopped ==> nextContentWidth == currentContentWidth - 1
    ensures stopped ==> nextContentWidth == currentContentWidth
  {
    var widest := FindWidest(widths, minWidths);
    if widest.index == -1 {
      ShrinkAllDone(widths[..], minWidths[..], available);
      return true, currentContentWidth;
    }
    ghost var before := widths[..];
    ghost var mins := minWidths[..];
    ShrinkAllStep(before, mins, available, widest.index);
    DecrementWidth(widths, widest.index);
    assert widths[..] == before[widest.index := before[widest.index] - 1] && minWidths[..] == mins;
    return false, currentContentWidth - 1;
  }

  /** The shrink loop, with the running total kept beside the widths. */
  method ShrinkToFit(widths: array<int>, minWidths: array<int>, available: int)
    requires widths != minWidths && AtLeast(widths[..], minWidths[..]) && NonNegative(minWidths[..])
    modifies widths
    ensures widths[..] == ShrinkAll(old(widths[..]), minWidths[..], available)
  {
    var currentContentWidth := SumWidths(widths);
    var stopped := false;
    while currentContentWidth > available && !stopped
      invariant AtLeast(widths[..], minWidths[..])
      invariant currentContentWidth == Sum(widths[..])
      invariant ShrinkAll(widths[..], minWidths[..], available) == ShrinkAll(old(widths[..]), minWidths[..], available)
      invariant stopped ==> widths[..] == ShrinkAll(widths[..], minWidths[..], available)
      decreases currentContentWidth - Sum(minWidths[..]), if stopped then 0 else 1
    {
      SumAtLeast(widths[..], minWidths[..]);
      stopped, currentContentWidth := ShrinkRound(widths, minWidths, available, currentContentWidth);
      SumAtLeast(widths[..], minWidths[..]);
    }
    if !stopped {
      ShrinkAllDone(widths[..], minWidths[..], available);
    }
  }

  /** `shrinkWidthsToFitMaxWidth`, on the widths array in place. */
  method ShrinkWidthsToFitMaxWidth(columns: seq<string>, widths: array<int>, maxWidth: int)
    requires widths.Length <= |columns|
    modifies widths
    ensures widths[..] == ShrunkWidths(columns, old(widths[..]), maxWidth)
  {
    if widths.Length == 0 || 1 > maxWidth {
      return;
    }
    var minWidths := RaiseToMinWidths(columns, widths);
    var availableContentWidth := Available(maxWidth, widths.Length);
    ShrinkToFit(widths, minWidths, availableContentWidth);
  }

  /** One row's pass of the width loop: a non-separator row widens every
      column its cells are longer than. */
  method WidenByRow(columns: seq<string>, rows: seq<seq<string>>, widths: array<int>)
    requires rows != [] && widths.Length == |columns|
    requires forall k :: 0 <= k < |columns| ==> widths[k] == CellMax(rows[..|rows| - 1], k, |columns[k]|)
    modifies widths
    ensures forall k :: 0 <= k < |columns| ==> widths[k] == CellMax(rows, k, |columns[k]|)
  {
    var row := rows[|rows| - 1];
    if IsSeparatorRow(row) {
      return;
    }
    for index := 0 to widths.Length
      invariant forall k :: 0 <= k < index ==> widths[k] == CellMax(rows, k, |columns[k]|)
      invariant forall k :: index <= k < widths.Length ==> widths[k] == CellMax(rows[..|rows| - 1], k, |columns[k]|)
    {
      if index < |row| && widths[index] < |row[index]| {
        widths[index] := |row[index]|;
      }
    }
  }

  /** `calculateColumnWidthsWithMaxWidth`: header lengths, widened by every
      cell of a non-separator row, then shrunk to fit. */
  method CalculateColumnWidthsWithMaxWidth(columns: seq<string>, rows: seq<seq<string>>, maxWidth: int)
    returns (widths: array<int>)
    ensures fresh(widths)
    ensures widths[..] == ShrunkWidths(columns, InitialWidths(columns, rows), maxWidth)
  {
    var columnCount := |columns|;
    widths := new int[columnCount];
    for index := 0 to columnCount
      invariant forall k :: 0 <= k < index ==> widths[k] == |columns[k]|
    {
      widths[index] := |columns[index]|;
    }
    for r := 0 to |rows|
      invariant forall k :: 0 <= k < columnCount ==> widths[k] == CellMax(rows[..r], k, |columns[k]|)
    {
      assert rows[..r + 1][..r] == rows[..r];
      WidenByRow(columns, rows[..r + 1], widths);
    }
    assert rows[..|rows|] == rows;
    assert widths[..] == InitialWidths(columns, rows);
    ShrinkWidthsToFitMaxWidth(columns, widths, maxWidth);
  }

  // ---------------------------------------------------------------------------
  // Wrapping a cell

  /** Line breaks as the printer sees them: "\r\n" and a lone "\r" become "\n". */
  function NormalizedBreaks(value: string): string {
    ReplaceAll(ReplaceAll(value, "\r\n", "\n"), "\r", "\n")
  }

  /** The pieces of one line: an empty line stays one empty piece. */
  function LinePieces(line: string, width: int): (r: seq<string>)
    requires 1 < width
    ensures |r| >= 1 && forall k :: 0 <= k < |r| ==> |r[k]| <= width
  {
    if line == "" then [""]
    else
      ChunksShape(line, width);
      Chunks(line, width)
  }

  function AllPieces(lines: seq<string>, width: int): seq<string>
    requires 1 < width
    decreases |lines|
  {
    if lines == [] then [] else AllPieces(lines[..|lines| - 1], width) + LinePieces(lines[|lines| - 1], width)
  }

  /** `wrapCellValue`. */
  function WrapCell(value: string, width: int): seq<string> {
    if value == "" then [""]
    else if 1 >= width then [value]
    else AllPieces(Split(NormalizedBreaks(value), '\n'), width)
  }

  lemma {:induction false} AllPiecesShape(lines: seq<string>, width: int)
    requires 1 < width
    ensures |AllPieces(lines, width)| >= |lines|
    ensures forall k :: 0 <= k < |AllPieces(lines, width)| ==> |AllPieces(lines, width)[k]| <= width
    decreases |lines|
  {
    if lines != [] {
      AllPiecesShape(lines[..|lines| - 1], width);
    }
  }

  /** A wrapped cell has at least one line; with a width above 1 no line is
      longer than the width, and a value without line breaks is cut into
      full-width pieces with the remainder last. */
  lemma WrapCellShape(value: string, width: int)
    ensures |WrapCell(value, width)| >= 1
    ensures 1 < width ==> forall k :: 0 <= k < |WrapCell(value, width)| ==> |WrapCell(value, width)[k]| <= width
    ensures 1 < width && value != "" && '\r' !in value && '\n' !in value ==> WrapCell(value, width) == Chunks(value, width)
  {
    if value != "" && 1 < width {
      AllPiecesShape(Split(NormalizedBreaks(value), '\n'), width);
      if '\r' !in value && '\n' !in value {
        NoBreakChar(value, "\r\n", '\r');
        ReplaceAllAbsent(value, "\r\n", "\n");
        NoBreakChar(value, "\r", '\r');
        ReplaceAllAbsent(value, "\r", "\n");
        SplitNoSeparator(value, '\n');
        assert [value][..0] == [];
      }
    }
  }

  /** A string without `c` contains no needle that starts with `c`. */
  lemma NoBreakChar(s: string, needle: string, c: char)
    requires needle != [] && needle[0] == c && c !in s
    ensures !Contains(s, needle)
  {
  }

  /** The wrapping loops: each line of the normalised value is cut into
      pieces of `width` characters. */
  method WrapCellValue(value: string, width: int) returns (lines: seq<string>)
    ensures lines == WrapCell(value, width)
  {
    if value == "" {
      return [""];
    }
    if 1 >= width {
      return [value];
    }
    var split := Split(NormalizedBreaks(value), '\n');
    lines := [];
    for i := 0 to |split|
      invariant lines == AllPieces(split[..i], width)
    {
      assert split[..i + 1][..i] == split[..i];
      var splitLine := split[i];
      if splitLine == "" {
        lines := lines + [""];
      } else {
        var pieces := [];
        var done := false;
        while 0 < |splitLine| && !done
          invariant !done ==> splitLine != [] && pieces + Chunks(splitLine, width) == Chunks(split[i], width)
          invariant done ==> pieces == Chunks(split[i], width)
          decreases |splitLine|, if done then 0 else 1
        {
          if |splitLine| <= width {
            pieces := pieces + [splitLine];
            done := true;
          } else {
            pieces := pieces + [splitLine[..width]];
            splitLine := splitLine[width..];
          }
        }
        lines := lines + pieces;
      }
    }
    assert split[..|split|] == split;
  }

  // ---------------------------------------------------------------------------
  // Separator rows

  /** What the block body prints after the header and its separator. */
  datatype Line = SeparatorLine | CellsLine(cells: seq<string>)

  /** The printed lines from `rows` on: a separator row prints only when the
      previous printed line was not a separator. */
  function Collapsed(rows: seq<seq<string>>, previousWasSeparator: bool): seq<Line>
    decreases |rows|
  {
    if rows == [] then []
    else if IsSeparatorRow(rows[0]) then
      (if previousWasSeparator then [] else [SeparatorLine]) + Collapsed(rows[1..], true)
    else [CellsLine(rows[0])] + Collapsed(rows[1..], false)
  }

  /** The rows that are not separators. */
  function DataRows(rows: seq<seq<string>>): seq<seq<string>>
    decreases |rows|
  {
    if rows == [] then []
    else (if IsSeparatorRow(rows[0]) then [] else [rows[0]]) + DataRows(rows[1..])
  }

  function CellsOf(lines: seq<Line>): seq<seq<string>>
    decreases |lines|
  {
    if lines == [] then []
    else (if lines[0].SeparatorLine? then [] else [lines[0].cells]) + CellsOf(lines[1..])
  }

  predicate NoDoubleSeparator(lines: seq<Line>) {
    forall k :: 0 <= k < |lines| - 1 ==> !(lines[k].SeparatorLine? && lines[k + 1].SeparatorLine?)
  }

  /** The printed body never has two separators in a row, starts with no
      separator right after the header's, and prints every data row once,
      in order. */
  lemma {:induction false} CollapsedShape(rows: seq<seq<string>>, previousWasSeparator: bool)
    ensures NoDoubleSeparator(Collapsed(rows, previousWasSeparator))
    ensures previousWasSeparator && |Collapsed(rows, previousWasSeparator)| > 0 ==> Collapsed(rows, previousWasSeparator)[0].CellsLine?
    ensures CellsOf(Collapsed(rows, previousWasSeparator)) == DataRows(rows)
    decreases |rows|
  {
    if rows != [] {
      var sep := IsSeparatorRow(rows[0]);
      CollapsedShape(rows[1..], sep);
      var rest := Collapsed(rows[1..], sep);
      var head: seq<Line> := if sep then (if previousWasSeparator then [] else [SeparatorLine]) else [CellsLine(rows[0])];
      assert Collapsed(rows, previousWasSeparator) == head + rest;
      CellsOfAppend(head, rest);
    }
  }

  lemma {:induction false} CellsOfAppend(a: seq<Line>, b: seq<Line>)
    ensures CellsOf(a + b) == CellsOf(a) + CellsOf(b)
    decreases |a|
  {
    if a != [] {
      assert (a + b)[1..] == a[1..] + b;
      CellsOfAppend(a[1..], b);
    } else {
      assert a + b == b;
    }
  }

  /** The row loop of `printTableBlock`, collecting the printed lines. */
  method PrintTableBlockRows(rows: seq<seq<string>>) returns (printed: seq<Line>)
    ensures printed == Collapsed(rows, true)
  {
    printed := [];
    var previousWasSeparator := true;
    for i := 0 to |rows|
      invariant printed + Collapsed(rows[i..], previousWasSeparator) == Collapsed(rows, true)
    {
      assert rows[i..][1..] == rows[i + 1..];
      var row := rows[i];
      if IsSeparatorRow(row) {
        if !previousWasSeparator {
          printed := printed + [SeparatorLine];
          previousWasSeparator := true;
        }
      } else {
        printed := printed + [CellsLine(row)];
        previousWasSeparator := false;
      }
    }
  }
}
