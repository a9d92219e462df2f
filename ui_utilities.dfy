/** UserInterfaceUtilities.java: the plain-text layout behind the console and the reports (a
    table whose columns are fitted to a fixed width and whose cells wrap, a progress bar) and the
    rule by which a typed selection picks a menu option. Reading the console and printing to it
    are left out: the typed line is a parameter and the text that would be printed is a result. */
module UserInterface {
  import opened Wrappers
  import opened Text
  import Numerals
  import Utilities

  /** The width makeTable fits its columns into. */
  const TABLE_WIDTH: int := 76

  // ---------------------------------------------------------------------------------------------
  // Sums

  function Total(xs: seq<int>): int {
    if xs == [] then 0 else Total(xs[..|xs| - 1]) + xs[|xs| - 1]
  }

  function TotalLength(items: seq<string>): nat {
    if items == [] then 0 else TotalLength(items[..|items| - 1]) + |items[|items| - 1]|
  }

  /** sumInts: the sum of the elements, accumulated first to last. */
  method SumInts(nums: array<int>) returns (sum: int)
    ensures sum == Total(nums[..])
  {
    sum := 0;
    for i := 0 to nums.Length
      invariant sum == Total(nums[..i])
    {
      assert nums[..i + 1][..i] == nums[..i];
      sum := sum + nums[i];
    }
    assert nums[..nums.Length] == nums[..];
  }

  /** sumStringLengths: the sum of the lengths, accumulated first to last. */
  method SumStringLengths(items: seq<string>) returns (sum: nat)
    ensures sum == TotalLength(items)
  {
    sum := 0;
    for i := 0 to |items|
      invariant sum == TotalLength(items[..i])
    {
      assert items[..i + 1][..i] == items[..i];
      sum := sum + |items[i]|;
    }
    assert items[..|items|] == items;
  }

  /** The lengths add up to the length of the concatenation. */
  lemma {:induction false} TotalLengthIsFlattened(items: seq<string>)
    ensures TotalLength(items) == |Utilities.Flatten(items)|
  {
    if items != [] {
      var n := |items| - 1;
      TotalLengthIsFlattened(items[..n]);
      Utilities.FlattenAppend(items[..n], [items[n]]);
      assert items == items[..n] + [items[n]];
      assert Utilities.Flatten([items[n]]) == items[n];
    }
  }

  /** Changing one element changes the sum by the difference. */
  lemma {:induction false} TotalUpdate(xs: seq<int>, i: nat, v: int)
    requires i < |xs|
    ensures Total(xs[i := v]) == Total(xs) - xs[i] + v
    decreases |xs|
  {
    var n := |xs| - 1;
    if i < n {
      assert xs[i := v][..n] == xs[..n][i := v];
      TotalUpdate(xs[..n], i, v);
    } else {
      assert xs[i := v][..n] == xs[..n];
    }
  }

  /** A sum of elements none above m is at most m per element. */
  lemma {:induction false} TotalAtMost(xs: seq<int>, m: int)
    requires forall i :: 0 <= i < |xs| ==> xs[i] <= m
    ensures Total(xs) <= |xs| * m
  {
    if xs != [] {
      TotalAtMost(xs[..|xs| - 1], m);
    }
  }

  lemma {:induction false} TotalNonNegative(xs: seq<int>)
    requires forall i :: 0 <= i < |xs| ==> xs[i] >= 0
    ensures Total(xs) >= 0
  {
    if xs != [] {
      TotalNonNegative(xs[..|xs| - 1]);
    }
  }

  // ---------------------------------------------------------------------------------------------
  // Column widths

  predicate NonNegative(ws: seq<int>) {
    forall i :: 0 <= i < |ws| ==> ws[i] >= 0
  }

  /** Every row has at least cols cells. */
  predicate Covers(table: seq<seq<string>>, cols: nat) {
    forall r :: 0 <= r < |table| ==> cols <= |table[r]|
  }

  /** The longest cell of column c. */
  function ColumnWidth(table: seq<seq<string>>, c: nat): nat
    requires Covers(table, c + 1)
  {
    if table == [] then 0
    else
      var front := ColumnWidth(table[..|table| - 1], c);
      var len := |table[|table| - 1][c]|;
      if len > front then len else front
  }

  /** The measured widths of the first cols columns. */
  function Widths(table: seq<seq<string>>, cols: nat): (ws: seq<int>)
    requires Covers(table, cols)
    ensures |ws| == cols && NonNegative(ws)
  {
    seq(cols, c requires 0 <= c < cols => ColumnWidth(table, c))
  }

  /** Every cell fits its column's width, and a non-empty column has a cell that fills it. */
  lemma {:induction false} ColumnWidthIsMaximum(table: seq<seq<string>>, c: nat)
    requires Covers(table, c + 1)
    ensures forall r :: 0 <= r < |table| ==> |table[r][c]| <= ColumnWidth(table, c)
    ensures |table| > 0 ==> exists r :: 0 <= r < |table| && |table[r][c]| == ColumnWidth(table, c)
  {
    if table != [] {
      var n := |table| - 1;
      ColumnWidthIsMaximum(table[..n], c);
      if |table[n][c]| <= ColumnWidth(table[..n], c) && n > 0 {
        var r :| 0 <= r < n && |table[..n][r][c]| == ColumnWidth(table[..n], c);
        assert |table[r][c]| == ColumnWidth(table, c);
      }
      forall r | 0 <= r < n
        ensures |table[r][c]| <= ColumnWidth(table, c)
      {
        assert table[r] == table[..n][r];
      }
    }
  }

  /** The first loop of makeTable: a width per column of the first row, grown to each cell's
      length row by row. A row shorter than the first fails. */
  method MeasureColumns(table: seq<seq<string>>) returns (r: Result<array<int>>)
    requires |table| > 0
    ensures r.Ok? <==> Covers(table, |table[0]|)
    ensures r.Err? ==> r.error == IndexOutOfBounds
    ensures r.Ok? ==> fresh(r.value) && r.value[..] == Widths(table, |table[0]|)
  {
    var cols := |table[0]|;
    var maxLengths := new int[cols](_ => 0);
    for row := 0 to |table|
      invariant Covers(table[..row], cols)
      invariant forall c :: 0 <= c < cols ==> maxLengths[c] == ColumnWidth(table[..row], c)
    {
      assert table[..row + 1][..row] == table[..row];
      if |table[row]| < cols {
        return Err(IndexOutOfBounds);
      }
      MeasureRow(table[row], maxLengths);
    }
    assert table[..|table|] == table;
    assert maxLengths[..] == Widths(table, cols);
    return Ok(maxLengths);
  }

  /** The inner loop: each width grows to its cell's length. */
  method MeasureRow(row: seq<string>, maxLengths: array<int>)
    requires maxLengths.Length <= |row|
    modifies maxLengths
    ensures forall c :: 0 <= c < maxLengths.Length ==>
      maxLengths[c] == if |row[c]| > old(maxLengths[c]) then |row[c]| else old(maxLengths[c])
  {
    for c := 0 to maxLengths.Length
      invariant forall k :: 0 <= k < c ==>
        maxLengths[k] == if |row[k]| > old(maxLengths[k]) then |row[k]| else old(maxLengths[k])
      invariant forall k :: c <= k < maxLengths.Length ==> maxLengths[k] == old(maxLengths[k])
    {
      var len := |row[c]|;
      if len > maxLengths[c] {
        maxLengths[c] := len;
      }
    }
  }

  /** The first widest column (the loop's comparison is strict). */
  function Widest(ws: seq<int>): (w: nat)
    requires |ws| > 0
    ensures w < |ws|
  {
    if |ws| == 1 then 0
    else
      var front := Widest(ws[..|ws| - 1]);
      if ws[|ws| - 1] > ws[front] then |ws| - 1 else front
  }

  lemma {:induction false} WidestIsFirstMaximum(ws: seq<int>)
    requires |ws| > 0
    ensures forall i :: 0 <= i < |ws| ==> ws[i] <= ws[Widest(ws)]
    ensures forall i :: 0 <= i < Widest(ws) ==> ws[i] < ws[Widest(ws)]
  {
    if |ws| > 1 {
      var n := |ws| - 1;
      WidestIsFirstMaximum(ws[..n]);
      assert forall i :: 0 <= i < n ==> ws[i] == ws[..n][i];
    }
  }

  /** Above the limit the widest column is wider than nothing. */
  lemma WidestPositive(ws: seq<int>)
    requires NonNegative(ws) && Total(ws) > 0
    ensures |ws| > 0 && ws[Widest(ws)] > 0
  {
    if |ws| > 0 {
      WidestIsFirstMaximum(ws);
      if ws[Widest(ws)] <= 0 {
        TotalAtMost(ws, 0);
      }
    }
  }

  /** The shrink loop of makeTable: while the widths add up to more than TABLE_WIDTH, the first
      widest column loses one character. */
  function Fitted(ws: seq<int>): (r: seq<int>)
    requires NonNegative(ws)
    decreases Total(ws)
  {
    if Total(ws) <= TABLE_WIDTH then ws
    else
      WidestPositive(ws);
      TotalUpdate(ws, Widest(ws), ws[Widest(ws)] - 1);
      Fitted(ws[Widest(ws) := ws[Widest(ws)] - 1])
  }

  /** Fitting keeps the number of columns, narrows no column below zero and widens none, and ends
      exactly at TABLE_WIDTH when it had to shrink at all. */
  lemma {:induction false} FittedMeaning(ws: seq<int>)
    requires NonNegative(ws)
    ensures |Fitted(ws)| == |ws| && NonNegative(Fitted(ws))
    ensures forall i :: 0 <= i < |ws| ==> Fitted(ws)[i] <= ws[i]
    ensures Total(Fitted(ws)) == if Total(ws) <= TABLE_WIDTH then Total(ws) else TABLE_WIDTH
    decreases Total(ws)
  {
    if Total(ws) > TABLE_WIDTH {
      WidestPositive(ws);
      var w := Widest(ws);
      var next := ws[w := ws[w] - 1];
      TotalUpdate(ws, w, ws[w] - 1);
      FittedMeaning(next);
    }
  }

  /** The shrink loop, on the widths array; sumInts is taken again after every step. */
  method FitWidths(maxLengths: array<int>)
    requires NonNegative(maxLengths[..])
    modifies maxLengths
    ensures maxLengths[..] == Fitted(old(maxLengths[..]))
  {
    ghost var target := Fitted(maxLengths[..]);
    var sum := SumInts(maxLengths);
    while sum > TABLE_WIDTH
      invariant NonNegative(maxLengths[..]) && Fitted(maxLengths[..]) == target
      invariant sum == Total(maxLengths[..])
      decreases sum
    {
      var maxIndex := WidestColumn(maxLengths);
      ghost var before := maxLengths[..];
      FitStep(before, maxIndex);
      maxLengths[maxIndex] := maxLengths[maxIndex] - 1;
      assert maxLengths[..] == before[maxIndex := before[maxIndex] - 1];
      sum := SumInts(maxLengths);
    }
  }

  /** One step of the shrink loop keeps the widths non-negative and the final widths the same. */
  lemma FitStep(ws: seq<int>, w: nat)
    requires NonNegative(ws) && Total(ws) > TABLE_WIDTH && |ws| > 0 && w == Widest(ws)
    ensures ws[w] > 0 && NonNegative(ws[w := ws[w] - 1])
    ensures Fitted(ws[w := ws[w] - 1]) == Fitted(ws) && Total(ws[w := ws[w] - 1]) == Total(ws) - 1
  {
    WidestPositive(ws);
    TotalUpdate(ws, w, ws[w] - 1);
  }

  /** The inner loop of the shrink step. */
  method WidestColumn(maxLengths: array<int>) returns (maxIndex: nat)
    requires maxLengths.Length > 0
    ensures maxIndex == Widest(maxLengths[..])
  {
    maxIndex := 0;
    for i := 1 to maxLengths.Length
      invariant maxIndex == Widest(maxLengths[..i])
    {
      assert maxLengths[..i + 1][..i] == maxLengths[..i];
      if maxLengths[i] > maxLengths[maxIndex] {
        maxIndex := i;
      }
    }
    assert maxLengths[..maxLengths.Length] == maxLengths[..];
  }

  // ---------------------------------------------------------------------------------------------
  // Progress bar

  /** Java's (int) cast of a double: the fraction is dropped toward zero. */
  function Trunc(x: real): int {
    if x >= 0.0 then x.Floor else -((-x).Floor)
  }

  /** The bar's filled length: progress above 1 counts as 1. */
  function Filled(insideLength: int, progress: real): int {
    Trunc(insideLength as real * (if progress > 1.0 then 1.0 else progress))
  }

  function ProgressBar(insideLength: int, progress: real): string {
    var n := Filled(insideLength, progress);
    "[" + Repeat('=', if n > 0 then n else 0)
        + Repeat(' ', if insideLength - n > 0 then insideLength - n else 0) + "]"
  }

  /** makeProgressBar: the clamp, then one '=' per filled place and one space for the rest. */
  method MakeProgressBar(insideLength: int, progress: real) returns (bar: string)
    ensures bar == ProgressBar(insideLength, progress)
  {
    var p := progress;
    if p > 1.0 {
      p := 1.0;
    }
    var numBars := Trunc(insideLength as real * p);
    assert numBars == Filled(insideLength, progress);
    bar := AppendCopies("[", '=', numBars);
    bar := AppendCopies(bar, ' ', insideLength - numBars);
    bar := bar + "]";
  }

  /** One of the two loops of makeProgressBar: count copies of c appended, none for a count
      below one. */
  method AppendCopies(s: string, c: char, count: int) returns (r: string)
    ensures r == s + Repeat(c, if count > 0 then count else 0)
  {
    r := s;
    var i: nat := 0;
    while i < count
      invariant r == s + Repeat(c, i)
      invariant i <= count || i == 0
    {
      r := r + [c];
      i := i + 1;
    }
  }

  /** For progress in [0, 1] and a non-negative length, the bar is insideLength + 2 characters:
      floor(insideLength * progress) '=' after the '[', spaces up to the ']'. */
  lemma ProgressBarShape(insideLength: int, progress: real)
    requires insideLength >= 0 && 0.0 <= progress <= 1.0
    ensures var bar := ProgressBar(insideLength, progress);
      var n := (insideLength as real * progress).Floor;
      && |bar| == insideLength + 2 && bar[0] == '[' && bar[|bar| - 1] == ']'
      && 0 <= n <= insideLength
      && (forall i :: 1 <= i <= n ==> bar[i] == '=')
      && (forall i :: n < i <= insideLength ==> bar[i] == ' ')
  {
    var x := insideLength as real * progress;
    assert 0.0 <= x <= insideLength as real;
  }

  /** Any progress beyond 1 draws the full bar. */
  lemma ProgressBarClamped(insideLength: int, progress: real)
    requires insideLength >= 0 && progress >= 1.0
    ensures ProgressBar(insideLength, progress) == "[" + Repeat('=', insideLength) + "]"
  {
    assert Filled(insideLength, progress) == insideLength;
  }

  // ---------------------------------------------------------------------------------------------
  // Selecting an option

  /** The matching rule of menu and getMultipleSelections: the option's text ignoring case, or
      its 1-based number written in decimal. */
  predicate Matches(option: string, selection: string, i: nat) {
    ToLower(option) == ToLower(selection) || selection == Numerals.ShowInt(i + 1)
  }

  /** The selection loop of menu for one typed line: the first matching option, or None, upon
      which the source prints an apology and reads another line. */
  method Select(options: seq<string>, selection: string) returns (r: Option<nat>)
    ensures r.Some? ==> r.value < |options| && Matches(options[r.value], selection, r.value)
    ensures r.Some? ==> forall j :: 0 <= j < r.value ==> !Matches(options[j], selection, j)
    ensures r.None? ==> forall j :: 0 <= j < |options| ==> !Matches(options[j], selection, j)
  {
    for i := 0 to |options|
      invariant forall j :: 0 <= j < i ==> !Matches(options[j], selection, j)
    {
      if ToLower(options[i]) == ToLower(selection) || selection == Numerals.ShowInt(i + 1) {
        return Some(i);
      }
    }
    return None;
  }

  /** The first option matching a selection, spaces removed from the option first. */
  function FirstMatch(options: seq<string>, selection: string): (r: Option<nat>)
    ensures r.Some? ==> r.value < |options|
  {
    if options == [] then None
    else
      var front := FirstMatch(options[..|options| - 1], selection);
      if front.Some? then front
      else if Matches(RemoveChar(options[|options| - 1], ' '), selection, |options| - 1) then Some(|options| - 1)
      else None
  }

  /** FirstMatch is the first option that matches. */
  lemma {:induction false} FirstMatchMeaning(options: seq<string>, selection: string)
    ensures var r := FirstMatch(options, selection);
      && (r.Some? ==>
            && Matches(RemoveChar(options[r.value], ' '), selection, r.value)
            && forall j :: 0 <= j < r.value ==> !Matches(RemoveChar(options[j], ' '), selection, j))
      && (r.None? ==> forall j :: 0 <= j < |options| ==> !Matches(RemoveChar(options[j], ' '), selection, j))
  {
    if options != [] {
      var n := |options| - 1;
      FirstMatchMeaning(options[..n], selection);
      assert forall j :: 0 <= j < n ==> options[j] == options[..n][j];
    }
  }

  /** The spaces of the typed line are removed and the rest split at commas. */
  function SelectionsOf(line: string): seq<string> {
    Utilities.Split(RemoveChar(line, ' '), ',')
  }

  /** The indices getMultipleSelections returns for one typed line, or None when some selection
      matches no option (the source then reads another line). */
  function MultipleSelections(options: seq<string>, line: string): (r: Option<seq<nat>>)
    ensures r.Some? ==> |r.value| == |SelectionsOf(line)|
  {
    MatchAll(options, SelectionsOf(line))
  }

  function MatchAll(options: seq<string>, selections: seq<string>): (r: Option<seq<nat>>)
    ensures r.Some? ==> |r.value| == |selections|
  {
    if selections == [] then Some([])
    else
      var front := MatchAll(options, selections[..|selections| - 1]);
      var last := FirstMatch(options, selections[|selections| - 1]);
      if front.None? || last.None? then None else Some(front.value + [last.value])
  }

  /** A line is accepted exactly when every selection matches some option. */
  lemma {:induction false} MatchAllAccepts(options: seq<string>, selections: seq<string>)
    ensures MatchAll(options, selections).Some? <==>
      forall i :: 0 <= i < |selections| ==> FirstMatch(options, selections[i]).Some?
  {
    if selections != [] {
      var n := |selections| - 1;
      MatchAllAccepts(options, selections[..n]);
      assert forall i :: 0 <= i < n ==> selections[i] == selections[..n][i];
    }
  }

  /** Each selection is resolved to its first matching option. */
  lemma {:induction false} MatchAllEntry(options: seq<string>, selections: seq<string>, i: nat)
    requires i < |selections| && MatchAll(options, selections).Some?
    ensures FirstMatch(options, selections[i]).Some?
    ensures MatchAll(options, selections).value[i] == FirstMatch(options, selections[i]).value
  {
    var n := |selections| - 1;
    if i < n {
      MatchAllEntry(options, selections[..n], i);
      assert selections[..n][i] == selections[i];
    }
  }

  lemma MatchAllSnoc(options: seq<string>, selections: seq<string>, i: nat, found: Option<nat>)
    requires i < |selections| && found == FirstMatch(options, selections[i])
    ensures MatchAll(options, selections[..i + 1]) ==
      if MatchAll(options, selections[..i]).None? || found.None? then None
      else Some(MatchAll(options, selections[..i]).value + [found.value])
  {
    assert selections[..i + 1][..i] == selections[..i];
  }

  /** The selection loop of getMultipleSelections for one typed line: the inner search stops at
      the first match, the outer one at the first selection nothing matches. */
  method GetMultipleSelections(options: seq<string>, line: string) returns (r: Option<seq<nat>>)
    ensures r == MultipleSelections(options, line)
  {
    var selectionsString := RemoveChar(line, ' ');
    var selections := Utilities.StringSplitChar(selectionsString, ',');
    var selectionIndices: seq<nat> := [];
    for i := 0 to |selections|
      invariant MatchAll(options, selections[..i]) == Some(selectionIndices)
    {
      var found := FindOption(options, selections[i]);
      MatchAllSnoc(options, selections, i, found);
      if found.None? {
        MatchAllStops(options, selections, i + 1);
        return None;
      }
      selectionIndices := selectionIndices + [found.value];
    }
    assert selections[..|selections|] == selections;
    return Some(selectionIndices);
  }

  /** The inner loop over the options. */
  method FindOption(options: seq<string>, selection: string) returns (found: Option<nat>)
    ensures found == FirstMatch(options, selection)
  {
    found := None;
    for o := 0 to |options|
      invariant found == FirstMatch(options[..o], selection)
      invariant found.None?
    {
      assert options[..o + 1][..o] == options[..o];
      var option := RemoveChar(options[o], ' ');
      if ToLower(option) == ToLower(selection) || selection == Numerals.ShowInt(o + 1) {
        FirstMatchKept(options, selection, o + 1);
        return Some(o);
      }
    }
    assert options[..|options|] == options;
  }

  lemma {:induction false} FirstMatchKept(options: seq<string>, selection: string, i: nat)
    requires 0 < i <= |options| && FirstMatch(options[..i], selection).Some?
    ensures FirstMatch(options, selection) == FirstMatch(options[..i], selection)
    decreases |options| - i
  {
    if i < |options| {
      assert options[..i + 1][..i] == options[..i];
      FirstMatchKept(options, selection, i + 1);
    } else {
      assert options[..i] == options;
    }
  }

  lemma {:induction false} MatchAllStops(options: seq<string>, selections: seq<string>, i: nat)
    requires 0 < i <= |selections| && MatchAll(options, selections[..i]).None?
    ensures MatchAll(options, selections).None?
    decreases |selections| - i
  {
    if i < |selections| {
      assert selections[..i + 1][..i] == selections[..i];
      MatchAllStops(options, selections, i + 1);
    } else {
      assert selections[..i] == selections;
    }
  }

  // ---------------------------------------------------------------------------------------------
  // Wrapped lines

  /** Every column is at least one character wide. */
  predicate Positive(ws: seq<int>) {
    forall c :: 0 <= c < |ws| ==> ws[c] > 0
  }

  /** The pieces a cell is cut into, one per started w characters. A column of width zero has
      none: its cutting loop never advances. */
  function ChunkCount(len: nat, w: int): nat {
    if w <= 0 then 0 else (len + w - 1) / w
  }

  /** Piece r of a cell cut every w characters; empty past the end. */
  function Piece(item: string, w: int, r: nat): (p: string)
    requires w >= 0
  {
    if r * w < |item| then item[r * w .. if r * w + w < |item| then r * w + w else |item|] else ""
  }

  /** The row count the corrected FormatLineWithWrap gives its map: the most pieces any cell
      has, and at least one. */
  function RowsNeeded(ws: seq<int>, items: seq<string>): (n: nat)
    requires |items| <= |ws|
    ensures n >= 1
  {
    if items == [] then 1
    else
      var front := RowsNeeded(ws, items[..|items| - 1]);
      var chunks := ChunkCount(|items[|items| - 1]|, ws[|items| - 1]);
      if chunks > front then chunks else front
  }

  /** The maxWrapping of the source: the largest length / (width + 1), from zero; the map then
      has one row more. */
  function WrapAsWritten(ws: seq<int>, items: seq<string>): nat
    requires |items| <= |ws| && NonNegative(ws)
  {
    if items == [] then 0
    else
      var front := WrapAsWritten(ws, items[..|items| - 1]);
      var wrapping := |items[|items| - 1]| / (ws[|items| - 1] + 1);
      if wrapping > front then wrapping else front
  }

  /** The fill loop stays inside a map of the given rows: a non-empty cell needs a column of
      positive width, and a cell needs no more rows than there are. */
  predicate Fits(ws: seq<int>, items: seq<string>, rows: nat)
    requires |items| <= |ws|
  {
    forall c :: 0 <= c < |items| ==> (ws[c] > 0 || |items[c]| == 0) && ChunkCount(|items[c]|, ws[c]) <= rows
  }

  /** The cells of one row of the map. */
  function Pieces(ws: seq<int>, items: seq<string>, r: nat): (cells: seq<string>)
    requires |items| <= |ws| && NonNegative(ws)
    ensures |cells| == |items|
  {
    seq(|items|, c requires 0 <= c < |items| => Piece(items[c], ws[c], r))
  }

  /** "%-ws" of String.format: left-justified, padded with spaces to w, never cut. */
  function Padded(s: string, w: int): string {
    if |s| < w then s + Repeat(' ', w - |s|) else s
  }

  /** The template of makeTable applied to one row of cells: each padded to its width, a bar after
      every cell but the last, and the line break of "%n". */
  function Line(ws: seq<int>, cells: seq<string>): string
    requires |cells| <= |ws|
  {
    Utilities.Join(seq(|cells|, c requires 0 <= c < |cells| => Padded(cells[c], ws[c])), '|') + [EOL]
  }

  /** String.format with that template: a width of zero makes the specifier "%-0s", which has the
      '-' flag and no width. */
  function Format(ws: seq<int>, cells: seq<string>): Result<string>
    requires |cells| <= |ws|
  {
    if !Positive(ws) then Err(MissingFormatWidth) else Ok(Line(ws, cells))
  }

  /** The first n rows of the map, formatted. */
  function Block(ws: seq<int>, items: seq<string>, n: nat): string
    requires |items| <= |ws| && NonNegative(ws)
  {
    if n == 0 then "" else Block(ws, items, n - 1) + Line(ws, Pieces(ws, items, n - 1))
  }

  /** FormatLineWithWrap with a map of the given rows: a cell beyond the widths, or one the fill
      loop cannot place, is an index out of bounds; then String.format refuses a zero width. */
  function Wrap(ws: seq<int>, items: seq<string>, rows: nat): Result<string>
    requires |items| <= |ws| && NonNegative(ws)
  {
    if !Fits(ws, items, rows) then Err(IndexOutOfBounds)
    else if !Positive(ws) then Err(MissingFormatWidth)
    else Ok(Block(ws, items, rows))
  }

  /** FormatLineWithWrap with the row count the source computes. */
  function FormatLineAsWritten(ws: seq<int>, items: seq<string>): Result<string>
    requires NonNegative(ws)
  {
    if |items| > |ws| then Err(IndexOutOfBounds) else Wrap(ws, items, WrapAsWritten(ws, items) + 1)
  }

  /** FormatLineWithWrap with one map row per piece of the longest cell. */
  function FormatLine(ws: seq<int>, items: seq<string>): Result<string>
    requires NonNegative(ws)
  {
    if |items| > |ws| then Err(IndexOutOfBounds) else Wrap(ws, items, RowsNeeded(ws, items))
  }

  lemma ChunkCountExact(len: nat, w: int, r: nat)
    requires w > 0 && len <= r * w && (r == 0 || (r - 1) * w < len)
    ensures ChunkCount(len, w) == r
  {
    var a := len + w - 1;
    var q := a / w;
    assert a == q * w + a % w && 0 <= a % w < w;
    if q > r {
      assert q * w >= (r + 1) * w by {
        MultiplyMonotone(r + 1, q, w);
      }
    } else if q < r {
      assert q * w <= (r - 1) * w by {
        MultiplyMonotone(q, r - 1, w);
      }
    }
  }

  lemma ChunkCountAbove(len: nat, w: int, r: nat)
    requires w > 0 && r * w < len
    ensures ChunkCount(len, w) > r
  {
    var a := len + w - 1;
    var q := a / w;
    assert a == q * w + a % w && 0 <= a % w < w;
    if q <= r {
      MultiplyMonotone(q, r, w);
    }
  }

  lemma MultiplyMonotone(x: int, y: int, w: int)
    requires x <= y && w >= 0
    ensures x * w <= y * w
  {
    assert y * w - x * w == (y - x) * w;
  }

  /** Past its pieces a cell contributes nothing. */
  lemma PieceBeyond(item: string, w: int, r: nat)
    requires w >= 0 && (w > 0 || |item| == 0) && r >= ChunkCount(|item|, w)
    ensures Piece(item, w, r) == ""
  {
    if w > 0 && r * w < |item| {
      ChunkCountAbove(|item|, w, r);
    }
  }

  /** The loop of FormatLineWithWrap that counts the rows, with the count corrected. */
  method CountRows(columnWidths: seq<int>, items: seq<string>) returns (r: Result<nat>)
    ensures r == if |items| > |columnWidths| then Err(IndexOutOfBounds) else Ok(RowsNeeded(columnWidths, items))
  {
    var maxWrapping := 1;
    for i := 0 to |items|
      invariant i <= |columnWidths| && maxWrapping == RowsNeeded(columnWidths, items[..i])
    {
      if i >= |columnWidths| {
        return Err(IndexOutOfBounds);
      }
      assert items[..i + 1][..i] == items[..i];
      var wrapping := if columnWidths[i] <= 0 then 0 else (|items[i]| + columnWidths[i] - 1) / columnWidths[i];
      if wrapping > maxWrapping {
        maxWrapping := wrapping;
      }
    }
    assert items[..|items|] == items;
    return Ok(maxWrapping);
  }

  /** The fill loop for column c: piece after piece down the column; it fails when it runs past
      the last row, which a width of zero always does for a non-empty cell. */
  method FillColumn(cells: array2<Option<string>>, c: nat, item: string, w: int) returns (ok: bool)
    requires c < cells.Length1 && w >= 0
    modifies cells
    ensures ok <==> (w > 0 || |item| == 0) && ChunkCount(|item|, w) <= cells.Length0
    ensures ok ==> forall r, k :: 0 <= r < cells.Length0 && 0 <= k < cells.Length1 ==>
      cells[r, k] == if k == c && r < ChunkCount(|item|, w) then Some(Piece(item, w, r)) else old(cells[r, k])
  {
    var r := 0;
    var i := 0;
    while i < |item|
      invariant 0 <= r <= cells.Length0 && i == r * w
      invariant r > 0 ==> (r - 1) * w < |item|
      invariant forall rr, k :: 0 <= rr < cells.Length0 && 0 <= k < cells.Length1 ==>
        cells[rr, k] == if k == c && rr < r then Some(Piece(item, w, rr)) else old(cells[rr, k])
      decreases cells.Length0 - r
    {
      if r >= cells.Length0 {
        if w > 0 {
          ChunkCountAbove(|item|, w, r);
        }
        return false;
      }
      var end := if i + w < |item| then i + w else |item|;
      cells[r, c] := Some(item[i..end]);
      r := r + 1;
      i := i + w;
    }
    if w > 0 {
      ChunkCountExact(|item|, w, r);
    }
    return true;
  }

  /** The loop that puts an empty string wherever no piece was placed. */
  method FillBlanks(cells: array2<Option<string>>)
    modifies cells
    ensures forall r, k :: 0 <= r < cells.Length0 && 0 <= k < cells.Length1 ==>
      cells[r, k] == if old(cells[r, k]).None? then Some("") else old(cells[r, k])
  {
    for r := 0 to cells.Length0
      invariant forall rr, k :: 0 <= rr < cells.Length0 && 0 <= k < cells.Length1 ==>
        cells[rr, k] == if rr < r && old(cells[rr, k]).None? then Some("") else old(cells[rr, k])
    {
      for c := 0 to cells.Length1
        invariant forall rr, k :: 0 <= rr < cells.Length0 && 0 <= k < cells.Length1 ==>
          cells[rr, k] == if (rr < r || (rr == r && k < c)) && old(cells[rr, k]).None? then Some("") else old(cells[rr, k])
      {
        if cells[r, c].None? {
          cells[r, c] := Some("");
        }
      }
    }
  }

  /** The map of FormatLineWithWrap: every cell's pieces down its column, empty strings below. */
  method FillMap(ws: seq<int>, items: seq<string>, rows: nat) returns (cells: array2<Option<string>>, ok: bool)
    requires |items| <= |ws| && NonNegative(ws)
    ensures fresh(cells) && cells.Length0 == rows && cells.Length1 == |items|
    ensures ok == Fits(ws, items, rows)
    ensures ok ==> forall r, k :: 0 <= r < rows && 0 <= k < |items| ==> cells[r, k] == Some(Piece(items[k], ws[k], r))
  {
    cells := new Option<string>[rows, |items|]((_, _) => None);
    for c := 0 to |items|
      invariant forall k :: 0 <= k < c ==> (ws[k] > 0 || |items[k]| == 0) && ChunkCount(|items[k]|, ws[k]) <= rows
      invariant forall r, k :: 0 <= r < rows && 0 <= k < |items| ==>
        cells[r, k] == if k < c && r < ChunkCount(|items[k]|, ws[k]) then Some(Piece(items[k], ws[k], r)) else None
    {
      var placed := FillColumn(cells, c, items[c], ws[c]);
      if !placed {
        return cells, false;
      }
    }
    FillBlanks(cells);
    forall r, k | 0 <= r < rows && 0 <= k < |items| && r >= ChunkCount(|items[k]|, ws[k])
      ensures Piece(items[k], ws[k], r) == ""
    {
      PieceBeyond(items[k], ws[k], r);
    }
    return cells, true;
  }

  /** One row of the map, as the array handed to String.format. */
  function RowOf(cells: array2<Option<string>>, row: nat): (line: seq<string>)
    requires row < cells.Length0
    reads cells
    ensures |line| == cells.Length1
  {
    seq(cells.Length1, k requires 0 <= k < cells.Length1 reads cells => if cells[row, k].Some? then cells[row, k].value else "")
  }

  lemma RowOfPieces(ws: seq<int>, items: seq<string>, cells: array2<Option<string>>, row: nat)
    requires |items| <= |ws| && NonNegative(ws) && cells.Length1 == |items| && row < cells.Length0
    requires forall k :: 0 <= k < |items| ==> cells[row, k] == Some(Piece(items[k], ws[k], row))
    ensures RowOf(cells, row) == Pieces(ws, items, row)
  {
  }

  /** The last loop of FormatLineWithWrap: each row of the map through String.format. */
  method Render(ws: seq<int>, items: seq<string>, cells: array2<Option<string>>) returns (r: Result<string>)
    requires |items| <= |ws| && NonNegative(ws) && cells.Length1 == |items| && cells.Length0 > 0
    requires forall row, k :: 0 <= row < cells.Length0 && 0 <= k < |items| ==> cells[row, k] == Some(Piece(items[k], ws[k], row))
    ensures r == if Positive(ws) then Ok(Block(ws, items, cells.Length0)) else Err(MissingFormatWidth)
  {
    var formatted := "";
    for row := 0 to cells.Length0
      invariant formatted == Block(ws, items, row)
      invariant row > 0 ==> Positive(ws)
    {
      RowOfPieces(ws, items, cells, row);
      var f := Format(ws, RowOf(cells, row));
      if f.Err? {
        return Err(f.error);
      }
      formatted := formatted + f.value;
    }
    return Ok(formatted);
  }

  /** FormatLineWithWrap, with the row count corrected: the text of a table row, its cells wrapped
      over as many lines as its longest cell needs. */
  method FormatLineWithWrap(columnWidths: seq<int>, items: seq<string>) returns (r: Result<string>)
    requires |items| >= |columnWidths| && NonNegative(columnWidths)
    ensures r == FormatLine(columnWidths, items)
  {
    var rows := CountRows(columnWidths, items);
    if rows.Err? {
      return Err(rows.error);
    }
    var cells, ok := FillMap(columnWidths, items, rows.value);
    if !ok {
      return Err(IndexOutOfBounds);
    }
    r := Render(columnWidths, items, cells);
  }

  // ---------------------------------------------------------------------------------------------
  // What a wrapped line is

  /** A cell's pieces, in order. */
  function Chunks(item: string, w: int): (ps: seq<string>)
    requires w > 0
    ensures |ps| == ChunkCount(|item|, w)
  {
    seq(ChunkCount(|item|, w), r requires 0 <= r < ChunkCount(|item|, w) => Piece(item, w, r))
  }

  lemma ChunkCountAtMost(len: nat, w: int, r: nat)
    requires w > 0 && len <= r * w
    ensures ChunkCount(len, w) <= r
  {
    var a := len + w - 1;
    var q := a / w;
    assert a == q * w + a % w && 0 <= a % w < w;
    if q > r {
      MultiplyMonotone(r + 1, q, w);
    }
  }

  /** Piece r and the ones after it spell the cell from character r * w on. */
  lemma {:induction false} ChunksFrom(item: string, w: int, r: nat)
    requires w > 0 && r <= ChunkCount(|item|, w)
    ensures Utilities.Flatten(Chunks(item, w)[r..]) == item[if r * w < |item| then r * w else |item|..]
    decreases ChunkCount(|item|, w) - r
  {
    var n := ChunkCount(|item|, w);
    if r == n {
      if r * w < |item| {
        ChunkCountAbove(|item|, w, r);
      }
      assert Chunks(item, w)[r..] == [];
    } else {
      ChunkStart(|item|, w, r);
      ChunksFrom(item, w, r + 1);
      ChunksFromStep(item, w, r, Chunks(item, w));
    }
  }

  /** Piece r of a cell with more than r pieces starts inside the cell. */
  lemma ChunkStart(len: nat, w: int, r: nat)
    requires w > 0 && r < ChunkCount(len, w)
    ensures r * w < len && (r + 1) * w == r * w + w
  {
    if r * w >= len {
      ChunkCountAtMost(len, w, r);
    }
    MultiplySucc(r + 1, w);
  }

  lemma ChunksFromStep(item: string, w: int, r: nat, cs: seq<string>)
    requires w > 0 && r < |cs| && r * w < |item| && cs[r] == Piece(item, w, r)
    requires Utilities.Flatten(cs[r + 1..]) == item[if (r + 1) * w < |item| then (r + 1) * w else |item|..]
    requires (r + 1) * w == r * w + w
    ensures Utilities.Flatten(cs[r..]) == item[r * w..]
  {
    var a := r * w;
    var b := if a + w < |item| then a + w else |item|;
    assert cs[r..][1..] == cs[r + 1..];
    assert item[a..] == item[a..b] + item[b..];
  }

  /** Wrapping loses and repeats nothing: the pieces of a cell spell it exactly, each is
      at most w long, and none is empty. */
  lemma ChunksRejoin(item: string, w: int)
    requires w > 0
    ensures Utilities.Flatten(Chunks(item, w)) == item
    ensures forall r :: 0 <= r < |Chunks(item, w)| ==> 0 < |Chunks(item, w)[r]| <= w
  {
    var cs := Chunks(item, w);
    ChunksFrom(item, w, 0);
    assert 0 * w == 0 && cs[0..] == cs && item[0..] == item;
    forall r | 0 <= r < |cs|
      ensures 0 < |cs[r]| <= w
    {
      ChunkStart(|item|, w, r);
      PieceAtMost(item, w, r);
    }
  }

  /** Each cell's pieces fit in the rows of the corrected count. */
  lemma {:induction false} RowsNeededCovers(ws: seq<int>, items: seq<string>, c: nat)
    requires |items| <= |ws| && c < |items|
    ensures ChunkCount(|items[c]|, ws[c]) <= RowsNeeded(ws, items)
  {
    var n := |items| - 1;
    if c < n {
      RowsNeededCovers(ws, items[..n], c);
      assert items[..n][c] == items[c];
    }
  }

  /** Any count that holds every cell's pieces, and is at least one, is at least the corrected
      one. */
  lemma {:induction false} RowsNeededLeast(ws: seq<int>, items: seq<string>, m: nat)
    requires |items| <= |ws| && m >= 1
    requires forall c :: 0 <= c < |items| ==> ChunkCount(|items[c]|, ws[c]) <= m
    ensures RowsNeeded(ws, items) <= m
  {
    if items != [] {
      var n := |items| - 1;
      assert forall c :: 0 <= c < n ==> items[..n][c] == items[c];
      RowsNeededLeast(ws, items[..n], m);
    }
  }

  /** With the corrected count only a column of width zero holding text makes the fill loop
      fail. */
  lemma RowsNeededFits(ws: seq<int>, items: seq<string>)
    requires |items| <= |ws|
    ensures Fits(ws, items, RowsNeeded(ws, items)) <==> forall c :: 0 <= c < |items| ==> ws[c] > 0 || |items[c]| == 0
  {
    forall c | 0 <= c < |items| {
      RowsNeededCovers(ws, items, c);
    }
  }

  lemma WrappingBelowChunks(len: nat, w: int)
    requires w > 0 && len > 0
    ensures len / (w + 1) + 1 <= ChunkCount(len, w)
  {
    var k := ChunkCount(len, w);
    var p := len / (w + 1);
    assert p * (w + 1) <= len;
    if k * w < len {
      ChunkCountAbove(len, w, k);
    }
    if p >= k {
      MultiplyMonotone(k, p, w + 1);
      assert false;
    }
  }

  /** The source never gives a line more rows than it needs. */
  lemma {:induction false} WrapAsWrittenAtMost(ws: seq<int>, items: seq<string>)
    requires |items| <= |ws| && Positive(ws)
    ensures WrapAsWritten(ws, items) + 1 <= RowsNeeded(ws, items)
  {
    if items != [] {
      var n := |items| - 1;
      WrapAsWrittenAtMost(ws, items[..n]);
      if |items[n]| > 0 {
        WrappingBelowChunks(|items[n]|, ws[n]);
      }
    }
  }

  /** Where the source's FormatLineWithWrap succeeds, it gives the corrected text. */
  lemma AsWrittenAgrees(ws: seq<int>, items: seq<string>)
    requires NonNegative(ws) && FormatLineAsWritten(ws, items).Ok?
    ensures FormatLine(ws, items) == FormatLineAsWritten(ws, items)
  {
    var rows := WrapAsWritten(ws, items) + 1;
    assert Fits(ws, items, rows) && Positive(ws);
    RowsNeededLeast(ws, items, rows);
    WrapAsWrittenAtMost(ws, items);
  }

  /** An eleven-character cell in a column five wide needs three rows; the source makes two, and
      its fill loop writes past the map. */
  lemma WrapCounterexample()
    ensures FormatLineAsWritten([5], ["abcdefghijk"]) == Err(IndexOutOfBounds)
    ensures FormatLine([5], ["abcdefghijk"]) == Ok(Block([5], ["abcdefghijk"], 3))
  {
    assert RowsNeeded([5], ["abcdefghijk"]) == 3 by {
      assert ["abcdefghijk"][..0] == [];
    }
    assert WrapAsWritten([5], ["abcdefghijk"]) == 1 by {
      assert ["abcdefghijk"][..0] == [];
    }
    assert !Fits([5], ["abcdefghijk"], 2);
  }

  lemma {:induction false} JoinLength(xs: seq<string>, c: char)
    requires xs != []
    ensures |Utilities.Join(xs, c)| == |Utilities.Flatten(xs)| + |xs| - 1
  {
    if |xs| > 1 {
      JoinLength(xs[1..], c);
    }
  }

  /** Cells no wider than their columns make a line exactly as wide as the separator. */
  lemma LineWidth(ws: seq<int>, cells: seq<string>)
    requires |cells| == |ws| > 0 && forall c :: 0 <= c < |ws| ==> |cells[c]| <= ws[c]
    ensures |Line(ws, cells)| == Total(ws) + |ws|
  {
    var padded := seq(|cells|, c requires 0 <= c < |cells| => Padded(cells[c], ws[c]));
    PaddedTotal(ws, padded);
    JoinLength(padded, '|');
    TotalLengthIsFlattened(padded);
  }

  lemma {:induction false} PaddedTotal(ws: seq<int>, padded: seq<string>)
    requires |padded| == |ws| && forall c :: 0 <= c < |ws| ==> |padded[c]| == ws[c]
    ensures TotalLength(padded) == Total(ws)
  {
    if ws != [] {
      var n := |ws| - 1;
      PaddedTotal(ws[..n], padded[..n]);
    }
  }

  /** Every text line of a wrapped row is as wide as the separator: n rows take n times its
      length. */
  lemma {:induction false} BlockWidth(ws: seq<int>, items: seq<string>, n: nat)
    requires |items| == |ws| > 0 && NonNegative(ws)
    ensures |Block(ws, items, n)| == n * (Total(ws) + |ws|)
  {
    if n > 0 {
      var m := Total(ws) + |ws|;
      BlockWidth(ws, items, n - 1);
      BlockStep(ws, items, n);
      MultiplySucc(n, m);
      assert |Block(ws, items, n)| == (n - 1) * m + m;
    } else {
      assert |Block(ws, items, n)| == 0;
    }
  }

  lemma BlockStep(ws: seq<int>, items: seq<string>, n: nat)
    requires |items| == |ws| > 0 && NonNegative(ws) && n > 0
    ensures |Block(ws, items, n)| == |Block(ws, items, n - 1)| + Total(ws) + |ws|
  {
    var cells := Pieces(ws, items, n - 1);
    PiecesFit(ws, items, n - 1);
    LineWidth(ws, cells);
  }

  lemma MultiplySucc(n: nat, m: int)
    requires n > 0
    ensures (n - 1) * m + m == n * m
  {
  }

  /** Every piece of a row fits its column. */
  lemma PiecesFit(ws: seq<int>, items: seq<string>, r: nat)
    requires |items| <= |ws| && NonNegative(ws)
    ensures forall c :: 0 <= c < |items| ==> |Pieces(ws, items, r)[c]| <= ws[c]
  {
    forall c | 0 <= c < |items|
      ensures |Pieces(ws, items, r)[c]| <= ws[c]
    {
      PieceAtMost(items[c], ws[c], r);
    }
  }

  lemma PieceAtMost(item: string, w: int, r: nat)
    requires w >= 0
    ensures |Piece(item, w, r)| <= w
  {
  }

  /** Cells that fit their columns are not wrapped: the row is a single line. */
  lemma OneLine(ws: seq<int>, items: seq<string>)
    requires |items| == |ws| && Positive(ws) && forall c :: 0 <= c < |ws| ==> |items[c]| <= ws[c]
    ensures FormatLine(ws, items) == Ok(Line(ws, items))
  {
    forall c | 0 <= c < |items|
      ensures ChunkCount(|items[c]|, ws[c]) <= 1
    {
      ChunkCountAtMost(|items[c]|, ws[c], 1);
    }
    RowsNeededLeast(ws, items, 1);
    forall c | 0 <= c < |items|
      ensures Pieces(ws, items, 0)[c] == items[c]
    {
      assert 0 * ws[c] == 0;
      assert items[c][0..|items[c]|] == items[c];
    }
    assert Pieces(ws, items, 0) == items;
    assert Block(ws, items, 1) == Line(ws, items);
  }

  // ---------------------------------------------------------------------------------------------
  // The whole table

  /** The widths makeTable formats with: the measured widths of the columns of the first row,
      fitted to TABLE_WIDTH. */
  function TableWidths(table: seq<seq<string>>): (ws: seq<int>)
    requires |table| > 0 && Covers(table, |table[0]|)
    ensures |ws| == |table[0]| && NonNegative(ws)
  {
    FittedMeaning(Widths(table, |table[0]|));
    Fitted(Widths(table, |table[0]|))
  }

  /** The line under the header: a dash for every character of a table line but its break. */
  function Separator(ws: seq<int>): string
    requires |ws| > 0 && NonNegative(ws)
  {
    TotalNonNegative(ws);
    Repeat('-', Total(ws) + |ws| - 1) + "\n"
  }

  /** Texts joined in order; the first failure is the result. */
  function Concat(results: seq<Result<string>>): Result<string> {
    if results == [] then Ok("")
    else
      match Concat(results[..|results| - 1])
      case Err(e) => Err(e)
      case Ok(front) =>
        match results[|results| - 1]
        case Err(e) => Err(e)
        case Ok(text) => Ok(front + text)
  }

  /** Each row formatted with wrapping. */
  function Formatted(ws: seq<int>, rows: seq<seq<string>>): (rs: seq<Result<string>>)
    requires NonNegative(ws)
    ensures |rs| == |rows|
  {
    seq(|rows|, i requires 0 <= i < |rows| => FormatLine(ws, rows[i]))
  }

  /** The rows after the header, in order; the first row that fails ends the table. */
  function Rows(ws: seq<int>, rows: seq<seq<string>>): Result<string>
    requires NonNegative(ws)
  {
    Concat(Formatted(ws, rows))
  }

  /** makeTable: the header row, the separator, then the other rows. An empty table, a row shorter
      than the first and a first row without cells (its template cannot lose its last bar) are
      index errors; a row too wide or a column fitted to width zero fails as FormatLineWithWrap
      does. */
  function TableText(table: seq<seq<string>>): Result<string> {
    if |table| == 0 || !Covers(table, |table[0]|) || |table[0]| == 0 then Err(IndexOutOfBounds)
    else Layout(TableWidths(table), table)
  }

  /** The text of a table once its widths are fixed. */
  function Layout(ws: seq<int>, table: seq<seq<string>>): Result<string>
    requires |table| > 0 && |ws| > 0 && NonNegative(ws)
  {
    match FormatLine(ws, table[0])
    case Err(e) => Err(e)
    case Ok(header) =>
      match Rows(ws, table[1..])
      case Err(e) => Err(e)
      case Ok(body) => Ok(header + Separator(ws) + body)
  }

  /** makeTable: measure, fit, then format the header, the dashes and every other row. */
  method MakeTable(table: seq<seq<string>>) returns (r: Result<string>)
    ensures r == TableText(table)
  {
    if |table| == 0 {
      return Err(IndexOutOfBounds);
    }
    var measured := MeasureColumns(table);
    if measured.Err? {
      return Err(measured.error);
    }
    var maxLengths := measured.value;
    FitWidths(maxLengths);
    if maxLengths.Length == 0 {
      return Err(IndexOutOfBounds);
    }
    var sum := SumInts(maxLengths);
    assert maxLengths[..] == TableWidths(table);
    r := LayOut(maxLengths[..], sum, table);
  }

  /** The second half of makeTable: the header row, a dash per character of a line but its break,
      then the other rows. */
  method LayOut(ws: seq<int>, sum: int, table: seq<seq<string>>) returns (r: Result<string>)
    requires |table| > 0 && |ws| == |table[0]| > 0 && NonNegative(ws) && Covers(table, |ws|)
    requires sum == Total(ws)
    ensures r == Layout(ws, table)
  {
    var header := FormatLineWithWrap(ws, table[0]);
    if header.Err? {
      return Err(header.error);
    }
    TotalNonNegative(ws);
    var formatted := AppendCopies(header.value, '-', sum + |ws| - 1);
    formatted := formatted + "\n";
    assert formatted == header.value + Separator(ws);
    assert Covers(table[1..], |ws|);
    r := AppendRows(ws, table[1..], formatted);
  }

  /** The last loop of makeTable: every row after the header, wrapped, appended to the text. */
  method AppendRows(ws: seq<int>, rows: seq<seq<string>>, text: string) returns (r: Result<string>)
    requires NonNegative(ws) && Covers(rows, |ws|)
    ensures r == match Rows(ws, rows) case Ok(body) => Ok(text + body) case Err(e) => Err(e)
  {
    var formatted := text;
    ghost var body := "";
    for i := 0 to |rows|
      invariant Rows(ws, rows[..i]) == Ok(body)
      invariant formatted == text + body
    {
      var line := FormatLineWithWrap(ws, rows[i]);
      if line.Err? {
        RowsStop(ws, rows, i);
        return Err(line.error);
      }
      RowsStep(ws, rows, i, body);
      formatted := formatted + line.value;
      body := body + line.value;
    }
    assert rows[..|rows|] == rows;
    return Ok(formatted);
  }

  lemma RowsStep(ws: seq<int>, rows: seq<seq<string>>, i: nat, body: string)
    requires NonNegative(ws) && i < |rows| && Rows(ws, rows[..i]) == Ok(body)
    requires FormatLine(ws, rows[i]).Ok?
    ensures Rows(ws, rows[..i + 1]) == Ok(body + FormatLine(ws, rows[i]).value)
  {
    var results := Formatted(ws, rows[..i + 1]);
    assert results[..i] == Formatted(ws, rows[..i]);
    ConcatStep(results, i, body);
    assert results[..i + 1] == results;
  }

  lemma RowsStop(ws: seq<int>, rows: seq<seq<string>>, i: nat)
    requires NonNegative(ws) && i < |rows| && Rows(ws, rows[..i]).Ok?
    requires FormatLine(ws, rows[i]).Err?
    ensures Rows(ws, rows) == Err(FormatLine(ws, rows[i]).error)
  {
    var results := Formatted(ws, rows);
    assert results[..i] == Formatted(ws, rows[..i]);
    ConcatStopAt(results, i + 1);
  }

  lemma ConcatStep(results: seq<Result<string>>, i: nat, body: string)
    requires i < |results| && Concat(results[..i]) == Ok(body) && results[i].Ok?
    ensures Concat(results[..i + 1]) == Ok(body + results[i].value)
  {
    assert results[..i + 1][..i] == results[..i];
  }

  /** A text that fails fails the whole concatenation. */
  lemma {:induction false} ConcatStopAt(results: seq<Result<string>>, k: nat)
    requires 0 < k <= |results| && Concat(results[..k - 1]).Ok? && results[k - 1].Err?
    ensures Concat(results) == Err(results[k - 1].error)
    decreases |results| - k
  {
    if k < |results| {
      var front := results[..|results| - 1];
      assert front[..k - 1] == results[..k - 1] && front[k - 1] == results[k - 1];
      ConcatStopAt(front, k);
    } else {
      assert results[..k - 1] == results[..|results| - 1];
    }
  }

  /** The length of every text line of a table with these widths, its break included. */
  function LineLength(ws: seq<int>): int {
    Total(ws) + |ws|
  }

  /** The number of text lines the rows take once wrapped. */
  function LineCount(ws: seq<int>, rows: seq<seq<string>>): nat
    requires Covers(rows, |ws|)
  {
    if rows == [] then 0
    else LineCount(ws, rows[..|rows| - 1]) + RowsNeeded(ws, rows[|rows| - 1][..|ws|])
  }

  /** Formatted rows are whole lines of the separator's width. */
  lemma {:induction false} RowsWidth(ws: seq<int>, rows: seq<seq<string>>)
    requires |ws| > 0 && NonNegative(ws) && Covers(rows, |ws|) && Rows(ws, rows).Ok?
    ensures |Rows(ws, rows).value| == LineCount(ws, rows) * LineLength(ws)
  {
    if rows != [] {
      var n := |rows| - 1;
      var front := rows[..n];
      var last := rows[n];
      RowsLast(ws, rows);
      assert Covers(front, |ws|);
      RowsWidth(ws, front);
      assert |last| == |ws| && last[..|ws|] == last;
      WrappedRowLength(ws, last);
      assert LineCount(ws, rows) == LineCount(ws, front) + RowsNeeded(ws, last);
      SumOfMultiples(|Rows(ws, rows).value|, |Rows(ws, front).value|, |FormatLine(ws, last).value|,
        LineCount(ws, rows), LineCount(ws, front), RowsNeeded(ws, last), LineLength(ws));
    } else {
      assert Formatted(ws, rows) == [];
    }
  }

  /** Rows that format are the earlier rows' text followed by the last row's. */
  lemma RowsLast(ws: seq<int>, rows: seq<seq<string>>)
    requires NonNegative(ws) && |rows| > 0 && Rows(ws, rows).Ok?
    ensures Rows(ws, rows[..|rows| - 1]).Ok? && FormatLine(ws, rows[|rows| - 1]).Ok?
    ensures Rows(ws, rows).value == Rows(ws, rows[..|rows| - 1]).value + FormatLine(ws, rows[|rows| - 1]).value
  {
    var results := Formatted(ws, rows);
    assert results[..|rows| - 1] == Formatted(ws, rows[..|rows| - 1]);
  }

  lemma SumOfMultiples(total: int, x: int, y: int, count: nat, a: nat, b: nat, m: int)
    requires x == a * m && y == b * m && total == x + y && count == a + b
    ensures total == count * m
  {
  }

  /** The table is rectangular: the fitted widths add up to at most TABLE_WIDTH, the separator has
      their sum plus one bar between each two columns, and the whole text is header, separator
      and rows in lines of exactly that width plus a break. */
  lemma TableShape(table: seq<seq<string>>)
    requires TableText(table).Ok?
    ensures |table| > 0 && Covers(table, |table[0]|) && |table[0]| > 0
    ensures Total(TableWidths(table)) <= TABLE_WIDTH
    ensures |Separator(TableWidths(table))| == Total(TableWidths(table)) + |table[0]|
    ensures LineLength(TableWidths(table)) == Total(TableWidths(table)) + |table[0]|
    ensures |TableText(table).value| == (RowsNeeded(TableWidths(table), table[0]) + 1
      + LineCount(TableWidths(table), table[1..])) * LineLength(TableWidths(table))
  {
    FittedMeaning(Widths(table, |table[0]|));
    LayoutShape(TableWidths(table), table);
  }

  lemma LayoutShape(ws: seq<int>, table: seq<seq<string>>)
    requires |table| > 0 && |ws| == |table[0]| > 0 && NonNegative(ws) && Covers(table, |ws|)
    requires Layout(ws, table).Ok?
    ensures |Layout(ws, table).value| == (RowsNeeded(ws, table[0]) + 1 + LineCount(ws, table[1..])) * LineLength(ws)
  {
    LayoutParts(ws, table);
    WrappedRowLength(ws, table[0]);
    assert Covers(table[1..], |ws|);
    RowsWidth(ws, table[1..]);
    LinesAround(|Layout(ws, table).value|, |FormatLine(ws, table[0]).value|, |Rows(ws, table[1..]).value|,
      RowsNeeded(ws, table[0]), LineCount(ws, table[1..]), LineLength(ws));
  }

  lemma LayoutParts(ws: seq<int>, table: seq<seq<string>>)
    requires |table| > 0 && |ws| > 0 && NonNegative(ws) && Layout(ws, table).Ok?
    ensures FormatLine(ws, table[0]).Ok? && Rows(ws, table[1..]).Ok?
    ensures |Layout(ws, table).value|
      == |FormatLine(ws, table[0]).value| + LineLength(ws) + |Rows(ws, table[1..]).value|
  {
    TotalNonNegative(ws);
  }

  /** A wrapped row is as many lines of the table's line length as its longest cell needs. */
  lemma WrappedRowLength(ws: seq<int>, header: seq<string>)
    requires |header| == |ws| > 0 && NonNegative(ws) && FormatLine(ws, header).Ok?
    ensures |FormatLine(ws, header).value| == RowsNeeded(ws, header) * LineLength(ws)
  {
    BlockWidth(ws, header, RowsNeeded(ws, header));
  }

  lemma LinesAround(total: int, x: int, y: int, a: nat, b: nat, m: int)
    requires x == a * m && y == b * m && total == x + m + y
    ensures total == (a + 1 + b) * m
  {
  }

  // ---------------------------------------------------------------------------------------------
  // When makeTable cannot fail

  /** Fitting never narrows a column to nothing when every column starts with some width and
      there are no more columns than TABLE_WIDTH: above the limit some column is at least two
      wide, and the first widest one is it. */
  lemma {:induction false} FittedPositive(ws: seq<int>)
    requires Positive(ws) && |ws| <= TABLE_WIDTH
    ensures NonNegative(ws) && Positive(Fitted(ws))
    decreases Total(ws)
  {
    if Total(ws) > TABLE_WIDTH {
      var w := Widest(ws);
      WidestIsFirstMaximum(ws);
      if ws[w] <= 1 {
        TotalAtMost(ws, 1);
      }
      FitStep(ws, w);
      FittedPositive(ws[w := ws[w] - 1]);
    }
  }

  /** A row no longer than the widths, all positive, always formats. */
  lemma FormatLineSucceeds(ws: seq<int>, items: seq<string>)
    requires Positive(ws) && |items| <= |ws|
    ensures NonNegative(ws) && FormatLine(ws, items).Ok?
  {
    RowsNeededFits(ws, items);
  }

  /** Texts that all succeed join without failure. */
  lemma {:induction false} ConcatSucceeds(results: seq<Result<string>>)
    requires forall i :: 0 <= i < |results| ==> results[i].Ok?
    ensures Concat(results).Ok?
  {
    if results != [] {
      ConcatSucceeds(results[..|results| - 1]);
    }
  }

  /** makeTable returns a table, and throws nothing, when every row has as many cells as the
      header, no header cell is empty and there are at most TABLE_WIDTH columns. */
  lemma TableSucceeds(table: seq<seq<string>>)
    requires |table| > 0 && 0 < |table[0]| <= TABLE_WIDTH
    requires forall r :: 0 <= r < |table| ==> |table[r]| == |table[0]|
    requires forall c :: 0 <= c < |table[0]| ==> |table[0][c]| > 0
    ensures TableText(table).Ok?
  {
    var cols := |table[0]|;
    var widths := Widths(table, cols);
    forall c | 0 <= c < cols
      ensures widths[c] > 0
    {
      ColumnWidthIsMaximum(table, c);
    }
    FittedPositive(widths);
    var ws := TableWidths(table);
    FormatLineSucceeds(ws, table[0]);
    var rows := table[1..];
    forall i | 0 <= i < |rows|
      ensures Formatted(ws, rows)[i].Ok?
    {
      FormatLineSucceeds(ws, rows[i]);
    }
    ConcatSucceeds(Formatted(ws, rows));
  }
}
