/** `calcDimensions` and `writeArea`: how an area is laid out on its sheet.
    The layout is a list of operations in the order the writer performs
    them: cell writes (handed to the cell writer with the style that acts
    as the row style), merged regions, column widths and the freeze pane.
    Every layout starts again from the area's base row, so writing an area
    twice lays out every header and row twice. */
module Layout {
  import opened Results
  import opened JavaText
  import opened FormatSpec
  import opened Areas

  datatype Op =
    | Put(row: int, col: int, fmt: Option<string>, text: string)
    | Region(row: int, first: int, last: int)
    | Width(col: int, width: int)
    | Freeze(row: int)

  /** The operations performed, and the exception that stopped the layout
      after them, if any. */
  datatype Laid = Laid(ops: seq<Op>, failure: Option<string>)

  /** What the layout needs to know of a cell text: the merge count its
      tag asks for, or the exception parsing it throws. */
  type Counter = string -> Result<nat>

  /** The counter the writer uses: the merge count `parseCellData` reads. */
  function MergeCount(s: string): (r: Result<nat>)
    ensures r.Ok? <==> ParseSpec(s).Ok?
    ensures r.Ok? ==> r.value == ParseSpec(s).value.merge
    // no tag, or a tag without digits: no merge
    ensures MatchTag(s).None? || MatchTag(s).value.mrg.None? ==> r == Ok(0)
    // digits led by `0`: the plain flag, and no merge
    ensures MatchTag(s).Some? && MatchTag(s).value.mrg.Some? && MatchTag(s).value.mrg.value[0] == '0' ==> r == Ok(0)
    // other digits: their value, when it fits an `int`
    ensures MatchTag(s).Some? && MatchTag(s).value.mrg.Some? && MatchTag(s).value.mrg.value[0] != '0' ==>
      var m := MatchTag(s).value.mrg.value;
      (r.Ok? <==> DigitsValue(m) <= INT_MAX) && (r.Ok? ==> r.value == DigitsValue(m) && r.value > 0)
  {
    match ParseSpec(s)
    case Ok(spec) => Ok(spec.merge)
    case Err(e) => Err(e)
  }

  /** A rendered specifier's merge count reads back unchanged. */
  lemma MergeCountRendered(c: CellSpec)
    requires WellFormedSpec(c)
    ensures MergeCount(RenderSpec(c)) == Ok(c.merge)
  {
    ParseRenderSpec(c);
  }

  /** Run `y` after `x` unless `x` failed. */
  function Then(x: Laid, y: Laid): (r: Laid)
    ensures x.failure.Some? ==> r == x
    ensures x.failure.None? ==> r.ops == x.ops + y.ops && r.failure == y.failure
  {
    if x.failure.Some? then x else Laid(x.ops + y.ops, y.failure)
  }

  /** The columns a merge count pushes the following cells to the right. */
  function Extra(merge: nat): nat {
    if merge > 0 then merge - 1 else 0
  }

  /** The columns a cell covers: its merge count, or one. */
  function Span(merge: nat): nat {
    if merge > 0 then merge else 1
  }

  // ------------------------------------------------------ column widths

  /** The text a data cell is measured by: when it starts with `{`,
      everything up to its last `}` is dropped. */
  function Visible(s: string): (r: string)
    ensures |r| <= |s|
    ensures r == s[|s| - |r|..]
    ensures !StartsWith(s, "{") || '}' !in s ==> r == s
    ensures StartsWith(s, "{") && '}' in s ==>
      |r| < |s| && s[|s| - |r| - 1] == '}' && '}' !in r
  {
    if StartsWith(s, "{") then
      match LastIndexOf(s, '}')
      case None => s
      case Some(k) => s[k + 1..]
    else s
  }

  /** What `calcDimensions` tracks for a column: a length in characters and
      the width per character. */
  datatype Sizing = Sizing(chars: nat, mult: nat)

  /** A header cell starts at its text length, at most ten, and 320. */
  function InitialSizing(h: HdrCol): (z: Sizing)
    ensures z.chars <= 10 && z.chars <= |h.text| && z.mult == 320
    ensures z.chars == 10 || z.chars == |h.text|
  {
    Sizing(if |h.text| < 10 then |h.text| else 10, 320)
  }

  /** The cell of a row at a column, missing past the row's end. */
  function CellAt(row: seq<Option<string>>, c: nat): Option<string> {
    if c < |row| then row[c] else None
  }

  /** A cell that holds some text. */
  predicate Shown(cell: Option<string>) {
    cell.Some? && |cell.value| > 0
  }

  /** A shown cell whose visible text is longer than the length tracked so
      far narrows the column to 280 per character and is tracked by its
      full length. */
  function SizeStep(z: Sizing, cell: Option<string>): Sizing {
    if Shown(cell) && |Visible(cell.value)| > z.chars then Sizing(|cell.value|, 280) else z
  }

  /** The data rows in order, for column `c`. */
  function Track(z: Sizing, rows: seq<seq<Option<string>>>, c: nat): Sizing
    decreases |rows|
  {
    if |rows| == 0 then z else Track(SizeStep(z, CellAt(rows[0], c)), rows[1..], c)
  }

  /** A shown cell of column `c` whose visible text is longer than `n`. */
  predicate Exceeds(rows: seq<seq<Option<string>>>, c: nat, i: int, n: nat) {
    0 <= i < |rows| && Shown(CellAt(rows[i], c)) && |Visible(CellAt(rows[i], c).value)| > n
  }

  /** The tracked length never shrinks and ends up at least the visible
      length of every shown cell of the column. */
  lemma TrackCovers(z: Sizing, rows: seq<seq<Option<string>>>, c: nat)
    ensures Track(z, rows, c).chars >= z.chars
    ensures forall i :: 0 <= i < |rows| && Shown(CellAt(rows[i], c)) ==>
      Track(z, rows, c).chars >= |Visible(CellAt(rows[i], c).value)|
  {
    TrackGrows(z, rows, c);
    forall i | 0 <= i < |rows| && Shown(CellAt(rows[i], c))
      ensures Track(z, rows, c).chars >= |Visible(CellAt(rows[i], c).value)|
    {
      TrackCoversAt(z, rows, c, i);
    }
  }

  lemma {:induction false} TrackGrows(z: Sizing, rows: seq<seq<Option<string>>>, c: nat)
    ensures Track(z, rows, c).chars >= z.chars
    decreases |rows|
  {
    if |rows| > 0 {
      TrackGrows(SizeStep(z, CellAt(rows[0], c)), rows[1..], c);
    }
  }

  lemma {:induction false} TrackCoversAt(z: Sizing, rows: seq<seq<Option<string>>>, c: nat, i: nat)
    requires i < |rows| && Shown(CellAt(rows[i], c))
    ensures Track(z, rows, c).chars >= |Visible(CellAt(rows[i], c).value)|
    decreases i
  {
    var z1 := SizeStep(z, CellAt(rows[0], c));
    assert Track(z, rows, c) == Track(z1, rows[1..], c);
    if i == 0 {
      TrackGrows(z1, rows[1..], c);
    } else {
      assert rows[1..][i - 1] == rows[i];
      TrackCoversAt(z1, rows[1..], c, i - 1);
    }
  }

  /** The tracked length stays where it started when no shown cell's
      visible text exceeds it. Otherwise it is the FULL length, tag
      included, of a shown cell whose visible text exceeded the start, and
      the width per character is 280. */
  lemma {:induction false} TrackValue(z: Sizing, rows: seq<seq<Option<string>>>, c: nat)
    ensures (forall i :: !Exceeds(rows, c, i, z.chars)) ==> Track(z, rows, c) == z
    ensures (exists i :: Exceeds(rows, c, i, z.chars)) ==>
      Track(z, rows, c).mult == 280
      && exists i :: Exceeds(rows, c, i, z.chars) && Track(z, rows, c).chars == |CellAt(rows[i], c).value|
    decreases |rows|
  {
    if |rows| > 0 {
      var z1 := SizeStep(z, CellAt(rows[0], c));
      var tail := rows[1..];
      assert forall i :: 0 <= i < |tail| ==> tail[i] == rows[i + 1];
      TrackValue(z1, tail, c);
      if z1 == z {
        if exists i :: Exceeds(rows, c, i, z.chars) {
          var i :| Exceeds(rows, c, i, z.chars);
          assert i > 0 && Exceeds(tail, c, i - 1, z.chars);
          var j :| Exceeds(tail, c, j, z.chars) && Track(z, tail, c).chars == |CellAt(tail[j], c).value|;
          assert Exceeds(rows, c, j + 1, z.chars);
        } else {
          forall i ensures !Exceeds(tail, c, i, z.chars) {
            if Exceeds(tail, c, i, z.chars) {
              assert Exceeds(rows, c, i + 1, z.chars);
            }
          }
        }
      } else {
        assert Exceeds(rows, c, 0, z.chars) && z1.mult == 280;
        TrackStaysNarrow(z1, tail, c);
        TrackGrows(z1, tail, c);
        if exists j :: Exceeds(tail, c, j, z1.chars) {
          var j :| Exceeds(tail, c, j, z1.chars) && Track(z1, tail, c).chars == |CellAt(tail[j], c).value|;
          assert Exceeds(rows, c, j + 1, z.chars);
        } else {
          assert Track(z, rows, c).chars == |CellAt(rows[0], c).value|;
        }
      }
    }
  }

  /** The raw length is what is kept: `{:x}abcdefghijk` is compared by its
      eleven visible characters but tracked as fifteen. */
  lemma TrackKeepsRawLength()
    ensures Track(Sizing(10, 320), [[Some("{:x}abcdefghijk")]], 0) == Sizing(15, 280)
  {
    var s := "{:x}abcdefghijk";
    assert StartsWith(s, "{");
    assert LastIndexOf(s, '}') == Some(3);
    assert |Visible(s)| == 11;
  }

  /** The column narrows to 280 exactly when some shown cell's visible
      text is longer than the length it started with. */
  lemma {:induction false} TrackNarrows(z: Sizing, rows: seq<seq<Option<string>>>, c: nat)
    requires z.mult == 320
    ensures Track(z, rows, c).mult == 280 <==> exists i :: Exceeds(rows, c, i, z.chars)
    ensures Track(z, rows, c).mult == 320 || Track(z, rows, c).mult == 280
    decreases |rows|
  {
    if |rows| > 0 {
      var z1 := SizeStep(z, CellAt(rows[0], c));
      if z1 == z {
        TrackNarrows(z, rows[1..], c);
        if exists i :: Exceeds(rows, c, i, z.chars) {
          var i :| Exceeds(rows, c, i, z.chars);
          assert i > 0;
          assert Exceeds(rows[1..], c, i - 1, z.chars) by { assert rows[1..][i - 1] == rows[i]; }
        }
        if exists i :: Exceeds(rows[1..], c, i, z.chars) {
          var i :| Exceeds(rows[1..], c, i, z.chars);
          assert Exceeds(rows, c, i + 1, z.chars) by { assert rows[1..][i] == rows[i + 1]; }
        }
      } else {
        assert Exceeds(rows, c, 0, z.chars);
        TrackStaysNarrow(z1, rows[1..], c);
      }
    }
  }

  lemma {:induction false} TrackStaysNarrow(z: Sizing, rows: seq<seq<Option<string>>>, c: nat)
    requires z.mult == 280
    ensures Track(z, rows, c).mult == 280
    decreases |rows|
  {
    if |rows| > 0 {
      TrackStaysNarrow(SizeStep(z, CellAt(rows[0], c)), rows[1..], c);
    }
  }

  /** The sizing of column `c` of the last header row over all data rows. */
  function ColumnSizing(a: Area, c: nat): Sizing
    requires |a.hdrs| > 0 && c < |a.hdrs[|a.hdrs| - 1]|
  {
    Track(InitialSizing(a.hdrs[|a.hdrs| - 1][c]), a.rows, c)
  }

  // -------------------------------------------------------- header rows

  predicate AnyMerge(hs: seq<HdrCol>) {
    exists k :: 0 <= k < |hs| && hs[k].merge != 0
  }

  /** The header cells of a header row from position `k` on, each written
      with its own style as the row style and pushed right by the merges
      before it. A text that does not parse stops the layout. */
  function HeaderPuts(hs: seq<HdrCol>, k: nat, row: int, base: int, bias: int, count: Counter): (r: Laid)
    requires k <= |hs|
    decreases |hs| - k
    ensures forall op :: op in r.ops ==> op.Put? && op.row == row
    ensures r.failure.None? ==> |r.ops| == |hs| - k
  {
    if k == |hs| then Laid([], None)
    else
      var h := hs[k];
      match count(h.text)
      case Err(e) => Laid([], Some(e))
      case Ok(_) =>
        var rest := HeaderPuts(hs, k + 1, row, base, bias + Extra(h.merge), count);
        Laid([Put(row, h.ix + base + bias, h.fmt, h.text)] + rest.ops, rest.failure)
  }

  /** The merged regions of a header row from position `k` on. */
  function HeaderRegions(hs: seq<HdrCol>, k: nat, row: int, base: int, bias: int): (r: seq<Op>)
    requires k <= |hs|
    decreases |hs| - k
    ensures forall op :: op in r ==> op.Region? && op.row == row && op.first <= op.last
  {
    if k == |hs| then []
    else
      var h := hs[k];
      var rest := HeaderRegions(hs, k + 1, row, base, bias + Extra(h.merge));
      if h.merge > 0 then [Region(row, h.ix + base + bias, h.ix + base + bias + h.merge - 1)] + rest
      else rest
  }

  /** The width the last header row sets for its cell `k`: the cell's
      column gets the tracked length times the width per character, which
      `HeaderWidthRule` spells out as the rule of `calcDimensions`. */
  function HeaderWidth(a: Area, k: nat): (r: Op)
    requires |a.hdrs| > 0 && k < |a.hdrs[|a.hdrs| - 1]|
    ensures r.Width? && r.col == a.hdrs[|a.hdrs| - 1][k].ix + a.baseCol
    ensures r.width == ColumnSizing(a, k).chars * ColumnSizing(a, k).mult
  {
    var z := ColumnSizing(a, k);
    Width(a.hdrs[|a.hdrs| - 1][k].ix + a.baseCol, z.chars * z.mult)
  }

  /** The two cases of the width: 320 per character of the header text,
      at most ten, unless some data cell's visible text is longer; then 280
      per character of such a cell's full text. */
  lemma HeaderWidthRule(a: Area, k: nat)
    requires |a.hdrs| > 0 && k < |a.hdrs[|a.hdrs| - 1]|
    ensures WidthRule(a.rows, k, InitialSizing(a.hdrs[|a.hdrs| - 1][k]).chars, HeaderWidth(a, k).width)
  {
    TrackValue(InitialSizing(a.hdrs[|a.hdrs| - 1][k]), a.rows, k);
  }

  /** Width `w` for column `k` whose header text starts the tracking at
      `start` characters: 320 per character when no data cell's visible
      text is longer, else 280 per character of such a cell's full text. */
  ghost predicate WidthRule(rows: seq<seq<Option<string>>>, k: nat, start: nat, w: int) {
    && ((forall i :: !Exceeds(rows, k, i, start)) ==> w == start * 320)
    && ((exists i :: Exceeds(rows, k, i, start)) ==>
          exists i :: Exceeds(rows, k, i, start) && w == |CellAt(rows[i], k).value| * 280)
  }

  /** The column widths the last header row sets, from position `k` on. */
  function HeaderWidths(a: Area, k: nat): (r: seq<Op>)
    requires |a.hdrs| > 0 && k <= |a.hdrs[|a.hdrs| - 1]|
    decreases |a.hdrs[|a.hdrs| - 1]| - k
    ensures |r| == |a.hdrs[|a.hdrs| - 1]| - k
    ensures forall j :: 0 <= j < |r| ==> r[j] == HeaderWidth(a, k + j)
  {
    if k == |a.hdrs[|a.hdrs| - 1]| then []
    else
      var rest := HeaderWidths(a, k + 1);
      WidthsCons(a, k, rest);
      [HeaderWidth(a, k)] + rest
  }

  lemma WidthsCons(a: Area, k: nat, rest: seq<Op>)
    requires |a.hdrs| > 0 && k < |a.hdrs[|a.hdrs| - 1]|
    requires |rest| == |a.hdrs[|a.hdrs| - 1]| - k - 1
    requires forall j :: 0 <= j < |rest| ==> rest[j] == HeaderWidth(a, k + 1 + j)
    ensures forall j :: 0 <= j < |rest| + 1 ==> ([HeaderWidth(a, k)] + rest)[j] == HeaderWidth(a, k + j)
  {
    var r := [HeaderWidth(a, k)] + rest;
    forall j | 0 <= j < |r| ensures r[j] == HeaderWidth(a, k + j) {
      if j > 0 {
        assert r[j] == rest[j - 1] && k + j == k + 1 + (j - 1);
      }
    }
  }

  /** Header row `i`, written at sheet row `baseRow + i`: its cells, then
      its merged regions when any cell merges, else the column widths when
      it is the last header row. */
  function HeaderRow(a: Area, i: nat, count: Counter): (r: Laid)
    requires i < |a.hdrs|
    ensures forall op :: op in r.ops ==> !op.Freeze?
    ensures forall op :: op in r.ops && op.Width? ==>
      i == |a.hdrs| - 1 && !AnyMerge(a.hdrs[i]) && op in HeaderWidths(a, 0)
  {
    var hs := a.hdrs[i];
    var row := a.baseRow + i;
    var puts := HeaderPuts(hs, 0, row, a.baseCol, 0, count);
    if puts.failure.Some? then puts
    else if AnyMerge(hs) then Laid(puts.ops + HeaderRegions(hs, 0, row, a.baseCol, 0), None)
    else if i == |a.hdrs| - 1 then Laid(puts.ops + HeaderWidths(a, 0), None)
    else puts
  }

  /** Header writes set no freeze pane, and widths only for the last
      header row when it merges nothing. */
  predicate HeaderOps(a: Area, ops: seq<Op>) {
    forall op :: op in ops ==>
      && !op.Freeze?
      && (op.Width? ==> |a.hdrs| > 0 && !AnyMerge(a.hdrs[|a.hdrs| - 1]) && op in HeaderWidths(a, 0))
  }

  lemma HeaderOpsJoin(a: Area, xs: seq<Op>, ys: seq<Op>)
    requires HeaderOps(a, xs) && HeaderOps(a, ys)
    ensures HeaderOps(a, xs + ys)
  {
  }

  /** The header rows from `i` on. */
  function HeaderRows(a: Area, i: nat, count: Counter): (r: Laid)
    requires i <= |a.hdrs|
    decreases |a.hdrs| - i
    ensures HeaderOps(a, r.ops)
  {
    if i == |a.hdrs| then Laid([], None)
    else
      var x := HeaderRow(a, i, count);
      var y := HeaderRows(a, i + 1, count);
      HeaderOpsJoin(a, x.ops, y.ops);
      Then(x, y)
  }

  // ---------------------------------------------------------- data rows

  /** A data cell as placed: its first column, its text and merge count. */
  datatype Placed = Placed(col: int, text: string, merge: nat)

  /** The text of a data cell; a missing cell is written as empty text. */
  function CellText(row: seq<Option<string>>, c: nat): string
    requires c < |row|
  {
    if row[c].Some? then row[c].value else ""
  }

  /** The merge count a cell's text asks for (none when it does not parse). */
  function MergeAt(row: seq<Option<string>>, c: nat, count: Counter): nat
    requires c < |row|
  {
    match count(CellText(row, c))
    case Ok(m) => m
    case Err(_) => 0
  }

  /** The columns the cells before position `c` push cell `c` to the
      right: the sum of their merge counts less one. */
  function Offset(row: seq<Option<string>>, c: nat, count: Counter): (r: nat)
    requires c <= |row|
  {
    if c == 0 then 0 else Offset(row, c - 1, count) + Extra(MergeAt(row, c - 1, count))
  }

  /** Place the cells of a data row from position `c` on, against the
      last header row: a cell is placed only while both the row and the
      header row reach its position. A text that does not parse stops the
      layout. */
  function PlaceCells(hs: seq<HdrCol>, row: seq<Option<string>>, c: nat, base: int, bias: int, count: Counter): (r: (seq<Placed>, Option<string>))
    decreases |row| - c
  {
    if c >= |hs| || c >= |row| then ([], None)
    else
      match count(CellText(row, c))
      case Err(e) => ([], Some(e))
      case Ok(m) =>
        var rest := PlaceCells(hs, row, c + 1, base, bias + Extra(m), count);
        ([Placed(base + hs[c].ix + bias, CellText(row, c), m)] + rest.0, rest.1)
  }

  /** The fill writes of a merged cell: empty text, no style, in the
      columns after its first, from `col + j` up to its span. */
  function Fills(row: int, col: int, j: nat, merge: nat): (r: seq<Op>)
    decreases merge - j
    ensures |r| == if j < merge then merge - j else 0
    ensures forall k :: 0 <= k < |r| ==> r[k] == Put(row, col + j + k, None, "")
  {
    if j >= merge then []
    else
      var rest := Fills(row, col, j + 1, merge);
      var r := [Put(row, col + j, None, "")] + rest;
      assert forall k :: 1 <= k < |r| ==> r[k] == rest[k - 1];
      r
  }

  /** The fill write `i` columns into a merged cell. */
  function FillPut(row: int, col: int, i: int): Op {
    Put(row, col + i, None, "")
  }

  /** A placed cell's writes: the cell with the row style, then its fills. */
  function CellOps(row: int, fmt: Option<string>, p: Placed): (r: seq<Op>)
    ensures |r| == Span(p.merge)
    ensures forall k :: 0 <= k < |r| ==> r[k].Put? && r[k].row == row && r[k].col == p.col + k
  {
    [Put(row, p.col, fmt, p.text)] + Fills(row, p.col, 1, p.merge)
  }

  function CellsOps(row: int, fmt: Option<string>, ps: seq<Placed>): (r: seq<Op>)
    ensures forall op :: op in r ==> op.Put? && op.row == row
  {
    if |ps| == 0 then [] else CellOps(row, fmt, ps[0]) + CellsOps(row, fmt, ps[1..])
  }

  /** The merged regions of a data row, last merge first (the source
      prepends each merge to its list). */
  function MergeRegions(row: int, ps: seq<Placed>): (r: seq<Op>)
    ensures forall op :: op in r ==> op.Region? && op.row == row && op.first <= op.last
  {
    if |ps| == 0 then []
    else MergeRegions(row, ps[1..]) + (if ps[0].merge > 0 then [Region(row, ps[0].col, ps[0].col + ps[0].merge - 1)] else [])
  }

  /** The placements of data row `j` against the last header row. */
  function RowPlacement(a: Area, j: nat, count: Counter): (seq<Placed>, Option<string>)
    requires |a.hdrs| > 0 && j < |a.rows|
  {
    PlaceCells(a.hdrs[|a.hdrs| - 1], a.rows[j], 0, a.baseCol, 0, count)
  }

  /** How many cells of data row `j` are placed: as many as both the row
      and the last header row reach. */
  function RowCells(a: Area, j: nat): nat
    requires |a.hdrs| > 0 && j < |a.rows|
  {
    Min(|a.hdrs[|a.hdrs| - 1]|, |a.rows[j]|)
  }

  /** Sheet row of data row `j`. */
  function DataSheetRow(a: Area, j: nat): int { a.baseRow + |a.hdrs| + j }

  /** Data row `j`, against the last header row: its cells and fills, then
      (when no cell failed) its merged regions. */
  function DataRowOps(a: Area, j: nat, count: Counter): (r: Laid)
    requires |a.hdrs| > 0 && j < |a.rows|
    ensures forall op :: op in r.ops ==> (op.Put? || op.Region?) && op.row == DataSheetRow(a, j)
  {
    var placed := RowPlacement(a, j, count);
    var row := DataSheetRow(a, j);
    var cells := CellsOps(row, RowFmt(a, j), placed.0);
    Laid(cells + (if placed.1.None? then MergeRegions(row, placed.0) else []), placed.1)
  }

  function DataRows(a: Area, j: nat, count: Counter): (r: Laid)
    requires |a.hdrs| > 0 && j <= |a.rows|
    decreases |a.rows| - j
    ensures forall op :: op in r.ops ==> op.Put? || op.Region?
  {
    if j == |a.rows| then Laid([], None)
    else Then(DataRowOps(a, j, count), DataRows(a, j + 1, count))
  }

  /** The data rows from `j` on write only on the sheet rows from data row
      `j` to the row before the area's next free row: `getDataRow` and
      `getAbsRow` bracket what `writeArea` writes below the headers. */
  lemma {:induction false} DataRowsSpan(a: Area, j: nat, count: Counter)
    requires |a.hdrs| > 0 && j <= |a.rows|
    ensures forall op :: op in DataRows(a, j, count).ops ==> DataRow(a) + j <= op.row < AbsRow(a)
    decreases |a.rows| - j
  {
    if j < |a.rows| {
      var x := DataRowOps(a, j, count);
      var rest := DataRows(a, j + 1, count);
      assert DataRows(a, j, count) == Then(x, rest);
      DataRowsSpan(a, j + 1, count);
      forall op | op in DataRows(a, j, count).ops
        ensures DataRow(a) + j <= op.row < AbsRow(a)
      {
        assert op in x.ops || op in rest.ops;
      }
    }
  }

  /** `writeArea`: the header rows from the base row down, the freeze pane
      below them when there is a header row, then the data rows. Data rows
      without a header row to place them against fail the way the source
      does, on a null header array. */
  function LayoutWith(a: Area, count: Counter): (r: Laid)
  {
    var heads := HeaderRows(a, 0, count);
    if heads.failure.Some? then heads
    else if |a.hdrs| == 0 then
      if |a.rows| > 0 then Laid([], Some("null dereference: no header row")) else Laid([], None)
    else Then(Laid(heads.ops + [Freeze(a.baseRow + |a.hdrs|)], None), DataRows(a, 0, count))
  }

  /** The layout `writeArea` performs. */
  function LayoutArea(a: Area): (r: Laid) {
    LayoutWith(a, MergeCount)
  }


  // ------------------------------------------------- placement lemmas

  function Min(x: int, y: int): int { if x < y then x else y }

  /** How far placing the cells of a data row from position `c` gets: to
      the last position both the row and the header row reach, unless a
      text fails to parse, which stops the placing at that cell. */
  lemma {:induction false} PlaceCellsSpec(hs: seq<HdrCol>, row: seq<Option<string>>, c: nat, base: int, bias: int, count: Counter)
    requires c <= |row|
    ensures var (ps, f) := PlaceCells(hs, row, c, base, bias, count);
      && (f.None? ==> c + |ps| == Min(|hs|, |row|) || (c >= |hs| && ps == []))
      && (f.Some? ==> c + |ps| < Min(|hs|, |row|) && count(CellText(row, c + |ps|)).Err?)
      && (c + |ps| <= |hs| || ps == []) && c + |ps| <= |row|
    decreases |row| - c
  {
    if c < |hs| && c < |row| && count(CellText(row, c)).Ok? {
      var m := count(CellText(row, c)).value;
      PlaceCellsSpec(hs, row, c + 1, base, bias + Extra(m), count);
    }
  }

  /** Each placement made from position `c` on is its header cell's column
      pushed right by the merges between `c` and it, with its text and
      merge count. */
  lemma {:induction false} PlaceCellsAt(hs: seq<HdrCol>, row: seq<Option<string>>, c: nat, base: int, bias: int, count: Counter, i: nat)
    requires c <= i < c + |PlaceCells(hs, row, c, base, bias, count).0|
    ensures i < |hs| && i < |row|
    ensures PlaceCells(hs, row, c, base, bias, count).0[i - c]
      == Placed(base + hs[i].ix + bias + Offset(row, i, count) - Offset(row, c, count), CellText(row, i), MergeAt(row, i, count))
    decreases i - c
  {
    assert c < |hs| && c < |row| && count(CellText(row, c)).Ok?;
    var m := count(CellText(row, c)).value;
    var rest := PlaceCells(hs, row, c + 1, base, bias + Extra(m), count);
    var ps := PlaceCells(hs, row, c, base, bias, count).0;
    assert ps == [Placed(base + hs[c].ix + bias, CellText(row, c), m)] + rest.0;
    if c < i {
      PlaceCellsAt(hs, row, c + 1, base, bias + Extra(m), count, i);
      assert Offset(row, c + 1, count) == Offset(row, c, count) + Extra(m);
      assert ps[i - c] == rest.0[i - (c + 1)];
    }
  }

  /** Consecutive placements: each starts where the previous one's span
      ends. */
  predicate Contiguous(ps: seq<Placed>) {
    forall k :: 0 <= k < |ps| - 1 ==> ps[k + 1].col == ps[k].col + Span(ps[k].merge)
  }

  /** The column after the last one the placements cover. */
  function EndCol(start: int, ps: seq<Placed>): int {
    if |ps| == 0 then start else ps[|ps| - 1].col + Span(ps[|ps| - 1].merge)
  }

  /** The writes of contiguous placements tile the columns from the first
      one on: the k-th write lands in column `start + k`. */
  lemma {:induction false} CellsOpsTile(row: int, fmt: Option<string>, ps: seq<Placed>, start: int)
    requires Contiguous(ps) && (|ps| > 0 ==> ps[0].col == start)
    ensures |CellsOps(row, fmt, ps)| == EndCol(start, ps) - start
    ensures forall k :: 0 <= k < |CellsOps(row, fmt, ps)| ==> CellsOps(row, fmt, ps)[k].col == start + k
  {
    if |ps| > 0 {
      var head := CellOps(row, fmt, ps[0]);
      var tail := ps[1..];
      var next := start + Span(ps[0].merge);
      assert Contiguous(tail) by {
        forall k | 0 <= k < |tail| - 1 ensures tail[k + 1].col == tail[k].col + Span(tail[k].merge) {
          assert tail[k] == ps[k + 1] && tail[k + 1] == ps[k + 2];
        }
      }
      assert |tail| > 0 ==> tail[0].col == next by {
        if |tail| > 0 { assert tail[0] == ps[1]; }
      }
      CellsOpsTile(row, fmt, tail, next);
      var rest := CellsOps(row, fmt, tail);
      assert EndCol(next, tail) == EndCol(start, ps) by {
        if |tail| > 0 { assert tail[|tail| - 1] == ps[|ps| - 1]; }
      }
      var all := CellsOps(row, fmt, ps);
      assert all == head + rest;
      forall k | 0 <= k < |all| ensures all[k].col == start + k {
        if k >= |head| {
          assert all[k] == rest[k - |head|];
        } else {
          assert all[k] == head[k];
        }
      }
    }
  }

  /** Every write of one placement is among the writes of the row. */
  lemma {:induction false} CellsOpsHas(row: int, fmt: Option<string>, ps: seq<Placed>, c: nat)
    requires c < |ps|
    ensures forall op :: op in CellOps(row, fmt, ps[c]) ==> op in CellsOps(row, fmt, ps)
  {
    if c > 0 {
      CellsOpsHas(row, fmt, ps[1..], c - 1);
      assert ps[1..][c - 1] == ps[c];
    }
  }

  /** Every merging placement has its region among the row's regions. */
  lemma {:induction false} MergeRegionsHas(row: int, ps: seq<Placed>, c: nat)
    requires c < |ps| && ps[c].merge > 0
    ensures Region(row, ps[c].col, ps[c].col + ps[c].merge - 1) in MergeRegions(row, ps)
  {
    if c > 0 {
      MergeRegionsHas(row, ps[1..], c - 1);
      assert ps[1..][c - 1] == ps[c];
    }
  }

  /** The placements of a data row when every header cell knows its
      position: cell `c` starts at the base column plus `c` plus the merges
      before it, and all cells both the row and the last header row reach
      are placed unless one fails to parse. */
  lemma RowPlacements(a: Area, j: nat, count: Counter)
    requires ValidArea(a) && |a.hdrs| > 0 && j < |a.rows|
    ensures var ps := RowPlacement(a, j, count).0;
      && (RowPlacement(a, j, count).1.None? ==> |ps| == RowCells(a, j))
      && |ps| <= RowCells(a, j)
      && forall c :: 0 <= c < |ps| ==> (ps[c].col == CellColumn(a, j, c, count)
        && ps[c].text == CellText(a.rows[j], c) && ps[c].merge == MergeAt(a.rows[j], c, count))
  {
    RowPlacementLength(a, j, count);
    var ps := RowPlacement(a, j, count).0;
    forall c | 0 <= c < |ps|
      ensures ps[c].col == CellColumn(a, j, c, count)
        && ps[c].text == CellText(a.rows[j], c) && ps[c].merge == MergeAt(a.rows[j], c, count)
    {
      RowPlacementAt(a, j, c, count);
    }
  }

  lemma RowPlacementLength(a: Area, j: nat, count: Counter)
    requires |a.hdrs| > 0 && j < |a.rows|
    ensures RowPlacement(a, j, count).1.None? ==> |RowPlacement(a, j, count).0| == RowCells(a, j)
    ensures |RowPlacement(a, j, count).0| <= RowCells(a, j)
  {
    PlaceCellsSpec(a.hdrs[|a.hdrs| - 1], a.rows[j], 0, a.baseCol, 0, count);
  }

  lemma RowPlacementAt(a: Area, j: nat, c: nat, count: Counter)
    requires ValidArea(a) && |a.hdrs| > 0 && j < |a.rows|
    requires c < |RowPlacement(a, j, count).0|
    ensures c < |a.rows[j]|
    ensures var p := RowPlacement(a, j, count).0[c];
      p.col == CellColumn(a, j, c, count) && p.text == CellText(a.rows[j], c) && p.merge == MergeAt(a.rows[j], c, count)
  {
    var hs := a.hdrs[|a.hdrs| - 1];
    PlaceCellsSpec(hs, a.rows[j], 0, a.baseCol, 0, count);
    PlaceCellsAt(hs, a.rows[j], 0, a.baseCol, 0, count, c);
    var t := CellText(a.rows[j], c);
    assert WellIndexed(hs);
    assert hs[c].ix == c;
  }

  /** Each placed cell of a data row starts where the previous one's span
      ends. */
  lemma RowContiguous(a: Area, j: nat, count: Counter)
    requires ValidArea(a) && |a.hdrs| > 0 && j < |a.rows|
    ensures Contiguous(RowPlacement(a, j, count).0)
  {
    RowPlacements(a, j, count);
    var ps := RowPlacement(a, j, count).0;
    var row := a.rows[j];
    forall k | 0 <= k < |ps| - 1 ensures ps[k + 1].col == ps[k].col + Span(ps[k].merge) {
      assert Offset(row, k + 1, count) == Offset(row, k, count) + Extra(MergeAt(row, k, count));
    }
  }

  /** The column cell `c` of data row `j` starts in: the base column plus
      `c` plus the columns the merges before it add. */
  function CellColumn(a: Area, j: nat, c: nat, count: Counter): int
    requires j < |a.rows| && c <= |a.rows[j]|
  {
    a.baseCol + c + Offset(a.rows[j], c, count)
  }

  /** Cell `c` of data row `j` (for `c` below both the row's length and the
      last header row's) is written at sheet row `baseRow + headers + j`,
      column `baseCol + c` plus the merges before it, with the row's style;
      a merge count `m` fills the next `m - 1` columns with empty text and
      merges the `m` columns into one region. */
  lemma DataCellPlaced(a: Area, j: nat, c: nat, count: Counter)
    requires ValidArea(a) && |a.hdrs| > 0 && j < |a.rows|
    requires DataRowOps(a, j, count).failure.None?
    requires c < |a.hdrs[|a.hdrs| - 1]| && c < |a.rows[j]|
    ensures CellWritten(DataRowOps(a, j, count).ops, DataSheetRow(a, j), CellColumn(a, j, c, count),
                        RowFmt(a, j), CellText(a.rows[j], c), MergeAt(a.rows[j], c, count))
  {
    var ps := RowPlacement(a, j, count).0;
    RowPlacements(a, j, count);
    var row := DataSheetRow(a, j);
    var all := CellsOps(row, RowFmt(a, j), ps) + MergeRegions(row, ps);
    PlacedWrites(row, RowFmt(a, j), ps, c);
    assert DataRowOps(a, j, count).ops == all;
  }

  /** A cell written at a position with its style, its fills after it and,
      when it merges, its region. */
  predicate CellWritten(ops: seq<Op>, row: int, col: int, fmt: Option<string>, text: string, m: nat) {
    && Put(row, col, fmt, text) in ops
    && (forall i :: 1 <= i < m ==> FillPut(row, col, i) in ops)
    && (m > 0 ==> Region(row, col, col + m - 1) in ops)
  }

  /** The writes and the region of one placement, among those of its row. */
  lemma PlacedWrites(row: int, fmt: Option<string>, ps: seq<Placed>, c: nat)
    requires c < |ps|
    ensures CellWritten(CellsOps(row, fmt, ps) + MergeRegions(row, ps), row, ps[c].col, fmt, ps[c].text, ps[c].merge)
  {
    var p := ps[c];
    var cells := CellsOps(row, fmt, ps);
    var regions := MergeRegions(row, ps);
    CellsOpsHas(row, fmt, ps, c);
    var own := CellOps(row, fmt, p);
    assert own[0] == Put(row, p.col, fmt, p.text);
    assert own[0] in cells;
    forall i | 1 <= i < p.merge ensures FillPut(row, p.col, i) in cells + regions {
      assert own[i] == Fills(row, p.col, 1, p.merge)[i - 1];
      assert own[i] in cells;
    }
    if p.merge > 0 {
      MergeRegionsHas(row, ps, c);
    }
  }

  /** The writes of a fully placed data row tile its sheet row: they come
      first, the k-th lands in column `baseCol + k`, and there are exactly as
      many as the placed cells span, so no column is skipped or written
      twice and nothing is written past the last placed cell. */
  lemma DataRowTiles(a: Area, j: nat, count: Counter)
    requires ValidArea(a) && |a.hdrs| > 0 && j < |a.rows|
    requires DataRowOps(a, j, count).failure.None?
    ensures var ops := DataRowOps(a, j, count).ops;
      && (forall k :: 0 <= k < |ops| ==> (ops[k].Put? <==> k < RowWidth(a, j, count)))
      && (forall k :: 0 <= k < |ops| && ops[k].Put? ==> ops[k].col == a.baseCol + k)
      && RowWidth(a, j, count) <= |ops|
  {
    var ps := RowPlacement(a, j, count).0;
    var r := DataSheetRow(a, j);
    RowContiguous(a, j, count);
    RowEnd(a, j, count);
    CellsOpsTile(r, RowFmt(a, j), ps, a.baseCol);
    var cells := CellsOps(r, RowFmt(a, j), ps);
    var regions := MergeRegions(r, ps);
    var ops := DataRowOps(a, j, count).ops;
    assert ops == cells + regions;
    forall k | 0 <= k < |ops| ensures ops[k].Put? <==> k < |cells| {
      if k < |cells| {
        assert ops[k] == cells[k] && cells[k] in cells;
      } else {
        assert ops[k] == regions[k - |cells|] && regions[k - |cells|] in regions;
      }
    }
    forall k | 0 <= k < |cells| ensures ops[k].col == a.baseCol + k {
      assert ops[k] == cells[k];
    }
  }

  /** The columns a fully placed data row covers: one per placed cell plus
      what their merges add. */
  function RowWidth(a: Area, j: nat, count: Counter): nat
    requires |a.hdrs| > 0 && j < |a.rows|
  {
    RowCells(a, j) + Offset(a.rows[j], RowCells(a, j), count)
  }

  lemma RowEnd(a: Area, j: nat, count: Counter)
    requires ValidArea(a) && |a.hdrs| > 0 && j < |a.rows|
    requires RowPlacement(a, j, count).1.None?
    ensures (|RowPlacement(a, j, count).0| > 0 ==> RowPlacement(a, j, count).0[0].col == a.baseCol)
    ensures EndCol(a.baseCol, RowPlacement(a, j, count).0) - a.baseCol == RowWidth(a, j, count)
  {
    RowPlacementLength(a, j, count);
    var n := RowCells(a, j);
    var row := a.rows[j];
    if n > 0 {
      RowPlacementAt(a, j, 0, count);
      RowPlacementAt(a, j, n - 1, count);
      assert Offset(row, n, count) == Offset(row, n - 1, count) + Extra(MergeAt(row, n - 1, count));
    }
  }

  // -------------------------------------------------- header lemmas

  /** The columns the header cells before position `k` push cell `k` to
      the right. */
  function HdrOffset(hs: seq<HdrCol>, k: nat): nat
    requires k <= |hs|
  {
    if k == 0 then 0 else HdrOffset(hs, k - 1) + Extra(hs[k - 1].merge)
  }

  /** The header cells written from position `k` on, when none fails: one
      per cell, in order, each at its own column pushed right by the merges
      between `k` and it. */
  lemma {:induction false} HeaderPutsAt(hs: seq<HdrCol>, k: nat, row: int, base: int, bias: int, count: Counter, i: nat)
    requires k <= i < |hs|
    requires HeaderPuts(hs, k, row, base, bias, count).failure.None?
    ensures var ops := HeaderPuts(hs, k, row, base, bias, count).ops;
      i - k < |ops| && ops[i - k] == Put(row, hs[i].ix + base + bias + HdrOffset(hs, i) - HdrOffset(hs, k), hs[i].fmt, hs[i].text)
    decreases i - k
  {
    var h := hs[k];
    var rest := HeaderPuts(hs, k + 1, row, base, bias + Extra(h.merge), count);
    var ops := HeaderPuts(hs, k, row, base, bias, count).ops;
    assert ops == [Put(row, h.ix + base + bias, h.fmt, h.text)] + rest.ops;
    if k < i {
      HeaderPutsAt(hs, k + 1, row, base, bias + Extra(h.merge), count, i);
      assert HdrOffset(hs, k + 1) == HdrOffset(hs, k) + Extra(h.merge);
      assert ops[i - k] == rest.ops[i - (k + 1)];
    }
  }

  /** Every merging header cell from position `k` on has its region. */
  lemma {:induction false} HeaderRegionsHas(hs: seq<HdrCol>, k: nat, row: int, base: int, bias: int, i: nat)
    requires k <= i < |hs| && hs[i].merge > 0
    ensures var col := hs[i].ix + base + bias + HdrOffset(hs, i) - HdrOffset(hs, k);
      Region(row, col, col + hs[i].merge - 1) in HeaderRegions(hs, k, row, base, bias)
    decreases i - k
  {
    if k < i {
      var h := hs[k];
      HeaderRegionsHas(hs, k + 1, row, base, bias + Extra(h.merge), i);
      assert HdrOffset(hs, k + 1) == HdrOffset(hs, k) + Extra(h.merge);
    }
  }

  /** The column header cell `k` of header row `i` starts in: the base
      column plus `k` plus the columns the merges before it add. */
  function HdrColumn(a: Area, i: nat, k: nat): int
    requires i < |a.hdrs| && k <= |a.hdrs[i]|
  {
    a.baseCol + k + HdrOffset(a.hdrs[i], k)
  }

  /** A header cell written at its position with its own style, and its
      region when it merges. */
  predicate HeaderWritten(ops: seq<Op>, row: int, col: int, h: HdrCol) {
    && Put(row, col, h.fmt, h.text) in ops
    && (h.merge > 0 ==> Region(row, col, col + h.merge - 1) in ops)
  }

  /** Header cell `k` of header row `i` is written at sheet row
      `baseRow + i`, in the base column plus `k` plus the merges before it,
      with its own style; a merging cell's columns become one region. */
  lemma HeaderCellPlaced(a: Area, i: nat, k: nat, count: Counter)
    requires ValidArea(a) && i < |a.hdrs| && k < |a.hdrs[i]|
    requires HeaderRow(a, i, count).failure.None?
    ensures HeaderWritten(HeaderRow(a, i, count).ops, a.baseRow + i, HdrColumn(a, i, k), a.hdrs[i][k])
  {
    var hs := a.hdrs[i];
    var row := a.baseRow + i;
    var puts := HeaderPuts(hs, 0, row, a.baseCol, 0, count);
    var regions := HeaderRegions(hs, 0, row, a.baseCol, 0);
    HeaderPutAt(a, i, k, count);
    assert puts.ops[k] in HeaderRow(a, i, count).ops;
    if hs[k].merge > 0 {
      assert AnyMerge(hs);
      HeaderRegionAt(a, i, k);
      assert HeaderRow(a, i, count).ops == puts.ops + regions;
    }
  }

  lemma HeaderPutAt(a: Area, i: nat, k: nat, count: Counter)
    requires ValidArea(a) && i < |a.hdrs| && k < |a.hdrs[i]|
    requires HeaderPuts(a.hdrs[i], 0, a.baseRow + i, a.baseCol, 0, count).failure.None?
    ensures var puts := HeaderPuts(a.hdrs[i], 0, a.baseRow + i, a.baseCol, 0, count).ops;
      k < |puts| && puts[k] == Put(a.baseRow + i, HdrColumn(a, i, k), a.hdrs[i][k].fmt, a.hdrs[i][k].text)
  {
    var hs := a.hdrs[i];
    assert WellIndexed(hs);
    assert hs[k].ix == k;
    HeaderPutsFromStart(hs, a.baseRow + i, a.baseCol, count, k);
  }

  lemma HeaderPutsFromStart(hs: seq<HdrCol>, row: int, base: int, count: Counter, k: nat)
    requires k < |hs| && HeaderPuts(hs, 0, row, base, 0, count).failure.None?
    ensures var puts := HeaderPuts(hs, 0, row, base, 0, count).ops;
      k < |puts| && puts[k] == Put(row, hs[k].ix + base + HdrOffset(hs, k), hs[k].fmt, hs[k].text)
  {
    HeaderPutsAt(hs, 0, row, base, 0, count, k);
    assert HdrOffset(hs, 0) == 0;
  }

  lemma HeaderRegionAt(a: Area, i: nat, k: nat)
    requires ValidArea(a) && i < |a.hdrs| && k < |a.hdrs[i]| && a.hdrs[i][k].merge > 0
    ensures Region(a.baseRow + i, HdrColumn(a, i, k), HdrColumn(a, i, k) + a.hdrs[i][k].merge - 1)
      in HeaderRegions(a.hdrs[i], 0, a.baseRow + i, a.baseCol, 0)
  {
    var hs := a.hdrs[i];
    assert WellIndexed(hs);
    assert hs[k].ix == k;
    HeaderRegionsHas(hs, 0, a.baseRow + i, a.baseCol, 0, k);
  }

  // -------------------------------------------------- the whole layout

  lemma {:induction false} HeaderRowsHas(a: Area, i0: nat, i: nat, count: Counter, op: Op)
    requires i0 <= i < |a.hdrs| && HeaderRows(a, i0, count).failure.None?
    ensures HeaderRow(a, i, count).failure.None?
    ensures op in HeaderRow(a, i, count).ops ==> op in HeaderRows(a, i0, count).ops
    decreases i - i0
  {
    var x := HeaderRow(a, i0, count);
    var rest := HeaderRows(a, i0 + 1, count);
    assert HeaderRows(a, i0, count) == Then(x, rest);
    if i0 < i {
      HeaderRowsHas(a, i0 + 1, i, count, op);
    }
  }

  lemma {:induction false} DataRowsHas(a: Area, j0: nat, j: nat, count: Counter, op: Op)
    requires |a.hdrs| > 0 && j0 <= j < |a.rows| && DataRows(a, j0, count).failure.None?
    ensures DataRowOps(a, j, count).failure.None?
    ensures op in DataRowOps(a, j, count).ops ==> op in DataRows(a, j0, count).ops
    decreases j - j0
  {
    var x := DataRowOps(a, j0, count);
    var rest := DataRows(a, j0 + 1, count);
    assert DataRows(a, j0, count) == Then(x, rest);
    if j0 < j {
      DataRowsHas(a, j0 + 1, j, count, op);
    }
  }

  /** A completed layout is the header rows, the freeze pane, then the
      data rows. */
  lemma LayoutParts(a: Area, count: Counter)
    requires LayoutWith(a, count).failure.None? && |a.hdrs| > 0
    ensures HeaderRows(a, 0, count).failure.None? && DataRows(a, 0, count).failure.None?
    ensures LayoutWith(a, count).ops
      == HeaderRows(a, 0, count).ops + [Freeze(a.baseRow + |a.hdrs|)] + DataRows(a, 0, count).ops
  {
  }

  /** A layout that completes performs every header row's writes. */
  lemma LayoutHasHeaderRow(a: Area, i: nat, count: Counter)
    requires i < |a.hdrs| && LayoutWith(a, count).failure.None?
    ensures HeaderRow(a, i, count).failure.None?
    ensures forall op :: op in HeaderRow(a, i, count).ops ==> op in LayoutWith(a, count).ops
  {
    LayoutParts(a, count);
    HeaderRowsHas(a, 0, i, count, Freeze(0));
    forall op | op in HeaderRow(a, i, count).ops ensures op in LayoutWith(a, count).ops {
      HeaderRowsHas(a, 0, i, count, op);
    }
  }

  /** A layout that completes has a header row whenever it has data rows,
      and performs every data row's writes. */
  lemma LayoutHasDataRow(a: Area, j: nat, count: Counter)
    requires j < |a.rows| && LayoutWith(a, count).failure.None?
    ensures |a.hdrs| > 0
    ensures DataRowOps(a, j, count).failure.None?
    ensures forall op :: op in DataRowOps(a, j, count).ops ==> op in LayoutWith(a, count).ops
  {
    LayoutParts(a, count);
    DataRowsHas(a, 0, j, count, Freeze(0));
    forall op | op in DataRowOps(a, j, count).ops ensures op in LayoutWith(a, count).ops {
      DataRowsHas(a, 0, j, count, op);
    }
  }

  /** The freeze pane is set below the header rows exactly when there is
      a header row (and the header rows were written); it is the only
      freeze the layout sets. */
  lemma LayoutFreeze(a: Area, count: Counter)
    ensures var r := LayoutWith(a, count);
      && (Freeze(a.baseRow + |a.hdrs|) in r.ops <==> |a.hdrs| > 0 && HeaderRows(a, 0, count).failure.None?)
      && forall op :: op in r.ops && op.Freeze? ==> op == Freeze(a.baseRow + |a.hdrs|)
  {
    var heads := HeaderRows(a, 0, count);
    if heads.failure.None? && |a.hdrs| > 0 {
      var data := DataRows(a, 0, count);
      var r := LayoutWith(a, count);
      assert r.ops == heads.ops + [Freeze(a.baseRow + |a.hdrs|)] + data.ops;
    }
  }

  /** A completed layout of an area with a header row sets the freeze pane. */
  lemma CleanLayoutFreezes(a: Area, count: Counter)
    requires LayoutWith(a, count).failure.None? && |a.hdrs| > 0
    ensures Freeze(a.baseRow + |a.hdrs|) in LayoutWith(a, count).ops
  {
    LayoutParts(a, count);
    var heads := HeaderRows(a, 0, count).ops;
    assert LayoutWith(a, count).ops[|heads|] == Freeze(a.baseRow + |a.hdrs|);
  }

  /** The width the layout gives column `k` of the last header row. */
  function ColumnWidth(a: Area, k: nat): Op
    requires |a.hdrs| > 0 && k < |a.hdrs[|a.hdrs| - 1]|
  {
    var z := ColumnSizing(a, k);
    Width(a.baseCol + k, z.chars * z.mult)
  }

  lemma HeaderWidthsAre(a: Area, k: nat)
    requires ValidArea(a) && |a.hdrs| > 0 && k < |a.hdrs[|a.hdrs| - 1]|
    ensures k < |HeaderWidths(a, 0)| && HeaderWidths(a, 0)[k] == ColumnWidth(a, k)
  {
    var hs := a.hdrs[|a.hdrs| - 1];
    assert WellIndexed(hs);
    assert hs[k].ix == k;
  }

  /** The writes of a layout, by how far it got. */
  lemma LayoutOps(a: Area, count: Counter)
    ensures var heads := HeaderRows(a, 0, count);
      && (heads.failure.Some? ==> LayoutWith(a, count).ops == heads.ops)
      && (heads.failure.None? && |a.hdrs| == 0 ==> LayoutWith(a, count).ops == [])
      && (heads.failure.None? && |a.hdrs| > 0 ==>
            LayoutWith(a, count).ops == heads.ops + [Freeze(a.baseRow + |a.hdrs|)] + DataRows(a, 0, count).ops)
  {
  }

  lemma WidthFromHeaders(a: Area, count: Counter, op: Op)
    requires op in LayoutWith(a, count).ops && op.Width?
    ensures op in HeaderRows(a, 0, count).ops
  {
    LayoutOps(a, count);
    var heads := HeaderRows(a, 0, count);
    if heads.failure.None? && |a.hdrs| > 0 {
      var data := DataRows(a, 0, count).ops;
      var ops := heads.ops + [Freeze(a.baseRow + |a.hdrs|)] + data;
      assert op !in data;
      assert op in ops;
    }
  }

  lemma WidthIsColumnWidth(a: Area, op: Op)
    requires ValidArea(a) && |a.hdrs| > 0 && op in HeaderWidths(a, 0)
    ensures exists k :: 0 <= k < |a.hdrs[|a.hdrs| - 1]| && op == ColumnWidth(a, k)
  {
    var ws := HeaderWidths(a, 0);
    var k :| 0 <= k < |ws| && ws[k] == op;
    HeaderWidthsAre(a, k);
  }

  lemma LayoutWidthFrom(a: Area, count: Counter, op: Op)
    requires ValidArea(a) && op in LayoutWith(a, count).ops && op.Width?
    ensures |a.hdrs| > 0 && !AnyMerge(a.hdrs[|a.hdrs| - 1])
    ensures exists k :: 0 <= k < |a.hdrs[|a.hdrs| - 1]| && op == ColumnWidth(a, k)
  {
    WidthFromHeaders(a, count, op);
    WidthIsColumnWidth(a, op);
  }

  lemma LayoutWidthSet(a: Area, count: Counter, k: nat)
    requires ValidArea(a) && LayoutWith(a, count).failure.None?
    requires |a.hdrs| > 0 && !AnyMerge(a.hdrs[|a.hdrs| - 1]) && k < |a.hdrs[|a.hdrs| - 1]|
    ensures ColumnWidth(a, k) in LayoutWith(a, count).ops
  {
    LayoutHasHeaderRow(a, |a.hdrs| - 1, count);
    WidthInLastRow(a, count, k);
  }

  lemma WidthInLastRow(a: Area, count: Counter, k: nat)
    requires ValidArea(a) && |a.hdrs| > 0 && !AnyMerge(a.hdrs[|a.hdrs| - 1]) && k < |a.hdrs[|a.hdrs| - 1]|
    requires HeaderRow(a, |a.hdrs| - 1, count).failure.None?
    ensures ColumnWidth(a, k) in HeaderRow(a, |a.hdrs| - 1, count).ops
  {
    var last := |a.hdrs| - 1;
    var puts := HeaderPuts(a.hdrs[last], 0, a.baseRow + last, a.baseCol, 0, count);
    var ws := HeaderWidths(a, 0);
    assert HeaderRow(a, last, count).ops == puts.ops + ws;
    HeaderWidthsAre(a, k);
    assert (puts.ops + ws)[|puts.ops| + k] == ws[k];
  }

  /** Column widths are set only when the last header row merges no cell,
      one per cell of that row at its column, each its tracked length
      times its width per character; a completed layout of such an area
      sets them all. */
  lemma LayoutWidths(a: Area, count: Counter)
    requires ValidArea(a)
    ensures var r := LayoutWith(a, count);
      forall op :: op in r.ops && op.Width? ==>
        && |a.hdrs| > 0 && !AnyMerge(a.hdrs[|a.hdrs| - 1])
        && exists k :: 0 <= k < |a.hdrs[|a.hdrs| - 1]| && op == ColumnWidth(a, k)
    ensures var r := LayoutWith(a, count);
      r.failure.None? && |a.hdrs| > 0 && !AnyMerge(a.hdrs[|a.hdrs| - 1]) ==>
        forall k :: 0 <= k < |a.hdrs[|a.hdrs| - 1]| ==> ColumnWidth(a, k) in r.ops
  {
    var r := LayoutWith(a, count);
    forall op | op in r.ops && op.Width?
      ensures |a.hdrs| > 0 && !AnyMerge(a.hdrs[|a.hdrs| - 1])
      ensures exists k :: 0 <= k < |a.hdrs[|a.hdrs| - 1]| && op == ColumnWidth(a, k)
    {
      LayoutWidthFrom(a, count, op);
    }
    if r.failure.None? && |a.hdrs| > 0 && !AnyMerge(a.hdrs[|a.hdrs| - 1]) {
      forall k | 0 <= k < |a.hdrs[|a.hdrs| - 1]| ensures ColumnWidth(a, k) in r.ops {
        LayoutWidthSet(a, count, k);
      }
    }
  }

  // ------------------------------------------------------- re-layout

  /** `b` is `a` with rows appended: same headers, position and styles of
      the existing rows. */
  predicate Extends(a: Area, b: Area) {
    && b.hdrs == a.hdrs && b.baseRow == a.baseRow && b.baseCol == a.baseCol
    && |a.rows| <= |b.rows| && b.rows[..|a.rows|] == a.rows
    && forall j :: 0 <= j < |a.rows| ==> RowFmt(b, j) == RowFmt(a, j)
  }

  lemma DataRowStable(a: Area, b: Area, j: nat, count: Counter)
    requires Extends(a, b) && |a.hdrs| > 0 && j < |a.rows|
    ensures DataRowOps(b, j, count) == DataRowOps(a, j, count)
  {
    assert b.rows[j] == b.rows[..|a.rows|][j];
  }

  /** `writeArea` lays the whole area out again on every call: after a
      row is appended, each earlier data row is written exactly as before. */
  lemma RelayoutAfterAddRow(a: Area, cells: seq<Option<string>>, fmt: Option<string>, j: nat, count: Counter)
    requires ValidArea(a) && |a.hdrs| > 0 && j < |a.rows|
    ensures DataRowOps(AddRow(a, cells), j, count) == DataRowOps(a, j, count)
    ensures DataRowOps(AddRowFmt(a, cells, fmt), j, count) == DataRowOps(a, j, count)
  {
    var b := AddRow(a, cells);
    assert b.rows[..|a.rows|] == a.rows;
    DataRowStable(a, b, j, count);
    var c := AddRowFmt(a, cells, fmt);
    assert c.rows[..|a.rows|] == a.rows;
    DataRowStable(a, c, j, count);
  }

  // ------------------------------------------------------ widest column

  /** `nMaxCol` after the writes `ops`, starting from `m`: a row's last
      cell number is one past its highest written column. */
  function MaxCol(m: int, ops: seq<Op>): (r: int)
    decreases |ops|
    ensures r >= m
    ensures forall op :: op in ops && op.Put? ==> op.col < r
    ensures r == m || exists op :: op in ops && op.Put? && r == op.col + 1
  {
    if |ops| == 0 then m
    else
      var m1 := if ops[0].Put? && ops[0].col + 1 > m then ops[0].col + 1 else m;
      var r := MaxCol(m1, ops[1..]);
      assert forall op :: op in ops[1..] ==> op in ops;
      assert ops[0] in ops;
      r
  }

  /** After a completed layout the widest column reaches past every cell
      of every data row. */
  lemma MaxColCoversRow(a: Area, j: nat, count: Counter, m: int)
    requires ValidArea(a) && LayoutWith(a, count).failure.None? && j < |a.rows|
    ensures |a.hdrs| > 0
    ensures RowWidth(a, j, count) > 0 ==> MaxCol(m, LayoutWith(a, count).ops) >= a.baseCol + RowWidth(a, j, count)
  {
    LayoutHasDataRow(a, j, count);
    var ops := DataRowOps(a, j, count).ops;
    var w := RowWidth(a, j, count);
    if w > 0 {
      DataRowTiles(a, j, count);
      assert ops[w - 1].Put? && ops[w - 1].col == a.baseCol + w - 1;
      assert ops[w - 1] in LayoutWith(a, count).ops;
    }
  }

  // ------------------------------------------------------ merge notes

  /** The note a merged data cell leaves for the region pass: its column
      and merge count as decimal text separated by a comma. */
  function MergeNote(col: int, merge: nat): (r: string) {
    IntToString(col) + "," + IntToString(merge)
  }

  /** How a merged cell's note is written. */
  type NoteWriter = (int, nat) -> string

  /** The notes of a row's merged cells, newest first (each is inserted at
      the front of the list). */
  function NotesBy(write: NoteWriter, ps: seq<Placed>): (r: seq<string>)
    ensures |r| <= |ps|
  {
    if |ps| == 0 then []
    else NotesBy(write, ps[1..]) + (if ps[0].merge > 0 then [write(ps[0].col, ps[0].merge)] else [])
  }

  function RowNotes(ps: seq<Placed>): (r: seq<string>) {
    NotesBy(MergeNote, ps)
  }

  /** The region a note describes: split on the comma, both halves read
      with `Integer.parseInt`, last column computed in `int` arithmetic. */
  function NoteRegion(row: int, note: string): (r: Result<Op>)
    ensures r.Ok? ==> r.value.Region? && r.value.row == row
  {
    var parts := JavaSplit(note, ',');
    if |parts| < 2 then Err("ArrayIndexOutOfBoundsException")
    else
      match ParseInt(parts[0])
      case Err(e) => Err(e)
      case Ok(c) =>
        match ParseInt(parts[1])
        case Err(e) => Err(e)
        case Ok(n) => Ok(Region(row, c, Wrap32(c + n - 1)))
  }

  /** How a note is read back into a region. */
  type NoteReader = string -> Result<Op>

  function ReadNoteAt(row: int): NoteReader {
    note => NoteRegion(row, note)
  }

  /** The regions of a row's notes, read in list order. */
  function NotedRegions(read: NoteReader, notes: seq<string>): (r: Result<seq<Op>>)
    ensures r.Ok? ==> |r.value| == |notes|
  {
    if |notes| == 0 then Ok([])
    else
      match read(notes[0])
      case Err(e) => Err(e)
      case Ok(op) =>
        match NotedRegions(read, notes[1..])
        case Err(e) => Err(e)
        case Ok(rest) => Ok([op] + rest)
  }

  lemma NoCommaInInt(n: int)
    ensures ',' !in IntToString(n)
  {
    var t := IntToString(n);
    forall k | 0 <= k < |t| ensures t[k] != ',' {
      if n < 0 && k > 0 {
        assert t[1..][k - 1] == t[k];
      }
    }
  }

  /** A note reads back as the region it was written for, whenever the
      column, the count and the last column are `int` values. */
  lemma NoteRoundTrip(row: int, col: int, merge: nat)
    requires INT_MIN <= col <= INT_MAX && 0 < merge <= INT_MAX && col + merge - 1 <= INT_MAX
    ensures NoteRegion(row, MergeNote(col, merge)) == Ok(Region(row, col, col + merge - 1))
  {
    var a := IntToString(col);
    var b := IntToString(merge);
    NoCommaInInt(col);
    NoCommaInInt(merge);
    JoinTwo(a, b, ',');
    assert MergeNote(col, merge) == Join([a, b], ',');
    SplitAllOfJoin([a, b], ',');
    assert ',' in MergeNote(col, merge) by {
      assert MergeNote(col, merge)[|a|] == ',';
    }
    assert JavaSplit(MergeNote(col, merge), ',') == [a, b];
    ParseIntToString(col);
    ParseIntToString(merge);
  }

  /** Placements whose notes stay within `int`. */
  predicate NotesFit(ps: seq<Placed>) {
    forall i :: 0 <= i < |ps| ==>
      INT_MIN <= ps[i].col <= INT_MAX && ps[i].merge <= INT_MAX && ps[i].col + ps[i].merge - 1 <= INT_MAX
  }

  lemma {:induction false} NotedRegionsAppend(read: NoteReader, xs: seq<string>, ys: seq<string>)
    requires NotedRegions(read, xs).Ok? && NotedRegions(read, ys).Ok?
    ensures NotedRegions(read, xs + ys) == Ok(NotedRegions(read, xs).value + NotedRegions(read, ys).value)
  {
    if |xs| > 0 {
      assert (xs + ys)[1..] == xs[1..] + ys;
      assert (xs + ys)[0] == xs[0];
      NotedRegionsAppend(read, xs[1..], ys);
      var op := read(xs[0]).value;
      var tail := NotedRegions(read, xs[1..]).value;
      assert NotedRegions(read, xs).value == [op] + tail;
      assert NotedRegions(read, xs + ys).Ok?;
      assert NotedRegions(read, xs + ys).value == [op] + (tail + NotedRegions(read, ys).value);
      assert [op] + (tail + NotedRegions(read, ys).value) == ([op] + tail) + NotedRegions(read, ys).value;
    } else {
      assert xs + ys == ys;
      assert [] + NotedRegions(read, ys).value == NotedRegions(read, ys).value;
    }
  }

  /** Writing merge notes and parsing them back gives the regions the
      layout records, in the same (reversed) order. */
  lemma ReadBack(row: int, col: int, merge: nat)
    requires INT_MIN <= col <= INT_MAX && 0 < merge <= INT_MAX && col + merge - 1 <= INT_MAX
    ensures ReadsNote(ReadNoteAt(row), MergeNote, row, col, merge)
  {
    NoteRoundTrip(row, col, merge);
  }

  predicate ReadsNote(read: NoteReader, write: NoteWriter, row: int, col: int, merge: nat) {
    read(write(col, merge)) == Ok(Region(row, col, col + merge - 1))
  }

  lemma ReadOne(read: NoteReader, note: string, op: Op)
    requires read(note) == Ok(op)
    ensures NotedRegions(read, [note]) == Ok([op])
  {
    assert [note][1..] == [];
    assert read([note][0]) == Ok(op);
    assert [op] + [] == [op];
  }

  /** `read` reads each merged placement's note, as `write` writes it,
      back as its region. */
  predicate ReadsNotes(read: NoteReader, write: NoteWriter, row: int, ps: seq<Placed>) {
    forall i :: 0 <= i < |ps| && ps[i].merge > 0 ==> ReadsNote(read, write, row, ps[i].col, ps[i].merge)
  }

  lemma NotesStep(read: NoteReader, write: NoteWriter, row: int, ps: seq<Placed>)
    requires |ps| > 0 && ReadsNotes(read, write, row, ps)
    requires NotedRegions(read, NotesBy(write, ps[1..])) == Ok(MergeRegions(row, ps[1..]))
    ensures NotedRegions(read, NotesBy(write, ps)) == Ok(MergeRegions(row, ps))
  {
    var rest := ps[1..];
    var p := ps[0];
    if p.merge > 0 {
      var note := write(p.col, p.merge);
      var op := Region(row, p.col, p.col + p.merge - 1);
      ReadOne(read, note, op);
      NotedRegionsAppend(read, NotesBy(write, rest), [note]);
      assert NotesBy(write, ps) == NotesBy(write, rest) + [note];
      assert MergeRegions(row, ps) == MergeRegions(row, rest) + [op];
    } else {
      assert NotesBy(write, ps) == NotesBy(write, rest) + [] == NotesBy(write, rest);
      assert MergeRegions(row, ps) == MergeRegions(row, rest) + [] == MergeRegions(row, rest);
    }
  }

  lemma {:induction false} NotesGiveRegionsWith(read: NoteReader, write: NoteWriter, row: int, ps: seq<Placed>)
    requires ReadsNotes(read, write, row, ps)
    ensures NotedRegions(read, NotesBy(write, ps)) == Ok(MergeRegions(row, ps))
  {
    if |ps| > 0 {
      var rest := ps[1..];
      assert ReadsNotes(read, write, row, rest) by {
        assert forall i :: 0 <= i < |rest| ==> rest[i] == ps[i + 1];
      }
      NotesGiveRegionsWith(read, write, row, rest);
      NotesStep(read, write, row, ps);
    }
  }

  /** Writing merge notes and parsing them back gives the regions the
      layout records, in the same (reversed) order, as long as the
      columns and counts are `int` values. */
  lemma NotesGiveRegions(row: int, ps: seq<Placed>)
    requires NotesFit(ps)
    ensures NotedRegions(ReadNoteAt(row), RowNotes(ps)) == Ok(MergeRegions(row, ps))
  {
    var read := ReadNoteAt(row);
    forall i | 0 <= i < |ps| && ps[i].merge > 0
      ensures ReadsNote(read, MergeNote, row, ps[i].col, ps[i].merge)
    {
      ReadBack(row, ps[i].col, ps[i].merge);
    }
    NotesGiveRegionsWith(read, MergeNote, row, ps);
  }
}
