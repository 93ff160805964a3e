/** An area: a block of header rows and data rows anchored at a base row
    and column of a sheet, built up by header and row calls before it is
    laid out. Rows hold raw cell texts (a missing cell is `None`); each row
    may carry a row style, kept in a list that only exists once some row
    has asked for a style. */
module Areas {
  import opened Results
  import opened JavaText
  import opened FormatSpec

  datatype Area = Area(
    sheet: string,
    baseRow: int,
    baseCol: int,
    hdrs: seq<seq<HdrCol>>,
    rows: seq<seq<Option<string>>>,
    colFmts: Option<seq<Option<string>>>,
    maxCol: int)

  /** The header style a header row gets when the call names none. */
  const HDR_STYLE: string := "#hdr"
  /** The row styles the stripe marks select. */
  const EVEN_STRIPE: string := "#evn"
  const ODD_STRIPE: string := "#odd"

  /** A fresh area at a sheet position, as `createArea` builds it. */
  function NewArea(sheet: string, row: int, col: int): (a: Area)
    ensures ValidArea(a) && |a.hdrs| == 0 && |a.rows| == 0 && a.colFmts.None?
  {
    Area(sheet, row, col, [], [], None, 0)
  }

  /** Every header cell knows its position in its header row. */
  predicate WellIndexed(hcs: seq<HdrCol>) {
    forall k :: 0 <= k < |hcs| ==> hcs[k].ix == k
  }

  /** The area invariant the mutators keep: header cells know their
      positions, and the row-style list never runs ahead of the rows. */
  predicate ValidArea(a: Area) {
    (forall i :: 0 <= i < |a.hdrs| ==> WellIndexed(a.hdrs[i]))
    && (a.colFmts.Some? ==> |a.colFmts.value| <= |a.rows|)
  }

  /** The row style the layout uses for data row `j`: the list entry when
      the list exists and reaches that far, else none. */
  function RowFmt(a: Area, j: int): Option<string> {
    if a.colFmts.Some? && 0 <= j < |a.colFmts.value| then a.colFmts.value[j] else None
  }

  // -------------------------------------------------------------- rows

  /** `cf` extended with missing entries up to length `n`. */
  function Pad(cf: seq<Option<string>>, n: int): (r: seq<Option<string>>)
    decreases n - |cf|
    ensures |r| == if |cf| < n then n else |cf|
    ensures r[..|cf|] == cf
    ensures forall i :: |cf| <= i < |r| ==> r[i].None?
  {
    if |cf| < n then Pad(cf + [None], n) else cf
  }

  /** `addColFmt`: record the style of the row just added. Nothing happens
      when there is no style and no list yet; otherwise the list is created
      if needed, padded with missing entries up to the row before the last,
      and the style appended. */
  function AddColFmt(a: Area, fmt: Option<string>): (r: Area)
    ensures r == a.(colFmts := r.colFmts)
    ensures fmt.None? && a.colFmts.None? ==> r == a
  {
    if fmt.None? && a.colFmts.None? then a
    else
      var cf := if a.colFmts.Some? then a.colFmts.value else [];
      a.(colFmts := Some(Pad(cf, |a.rows| - 1) + [fmt]))
  }

  /** `addStripe`: a non-zero stripe selects the even or odd background by
      its parity (only whether the remainder is zero matters, so Java's
      truncating `%` and Dafny's agree); zero records "no style" when the
      list exists and nothing otherwise. */
  function AddStripe(a: Area, stripe: int): (r: Area)
    ensures r == a.(colFmts := r.colFmts)
  {
    if stripe != 0 then AddColFmt(a, Some(if stripe % 2 == 0 then EVEN_STRIPE else ODD_STRIPE))
    else if a.colFmts.Some? then AddColFmt(a, None)
    else a
  }

  /** The style a stripe mark selects. */
  function StripeStyle(stripe: int): Option<string> {
    if stripe == 0 then None else if stripe % 2 == 0 then Some(EVEN_STRIPE) else Some(ODD_STRIPE)
  }

  /** `addRow` without a style: the row is appended and the styles of the
      earlier rows stay as they were. */
  function AddRow(a: Area, cells: seq<Option<string>>): (r: Area)
    requires ValidArea(a)
    ensures ValidArea(r)
    ensures r.rows == a.rows + [cells] && r.hdrs == a.hdrs
    ensures r.sheet == a.sheet && r.baseRow == a.baseRow && r.baseCol == a.baseCol && r.maxCol == a.maxCol
    ensures RowFmt(r, |a.rows|).None?
    ensures forall j :: 0 <= j < |a.rows| ==> RowFmt(r, j) == RowFmt(a, j)
  {
    a.(rows := a.rows + [cells])
  }

  /** `addRow` with a row style: the style applies to exactly the new row. */
  function AddRowFmt(a: Area, cells: seq<Option<string>>, fmt: Option<string>): (r: Area)
    requires ValidArea(a)
    ensures ValidArea(r)
    ensures r.rows == a.rows + [cells] && r.hdrs == a.hdrs
    ensures r.sheet == a.sheet && r.baseRow == a.baseRow && r.baseCol == a.baseCol && r.maxCol == a.maxCol
    ensures RowFmt(r, |a.rows|) == fmt
    ensures forall j :: 0 <= j < |a.rows| ==> RowFmt(r, j) == RowFmt(a, j)
  {
    var a1 := AddRow(a, cells);
    var r := AddColFmt(a1, fmt);
    RowStyleLands(a1, fmt);
    r
  }

  /** `addRow` with a stripe mark: odd stripes get the odd background, even
      non-zero ones the even background, zero none. */
  function AddRowStripe(a: Area, cells: seq<Option<string>>, stripe: int): (r: Area)
    requires ValidArea(a)
    ensures ValidArea(r)
    ensures r.rows == a.rows + [cells] && r.hdrs == a.hdrs
    ensures r.sheet == a.sheet && r.baseRow == a.baseRow && r.baseCol == a.baseCol && r.maxCol == a.maxCol
    ensures RowFmt(r, |a.rows|) == StripeStyle(stripe)
    ensures forall j :: 0 <= j < |a.rows| ==> RowFmt(r, j) == RowFmt(a, j)
  {
    var a1 := AddRow(a, cells);
    var r := AddStripe(a1, stripe);
    assert r == AddColFmt(a1, StripeStyle(stripe));
    RowStyleLands(a1, StripeStyle(stripe));
    r
  }

  /** After a row is appended, recording a style puts it at that row's
      index and leaves every earlier row's style alone. */
  lemma RowStyleLands(a1: Area, fmt: Option<string>)
    requires |a1.rows| > 0 && ValidArea(a1.(rows := a1.rows[..|a1.rows| - 1]))
    ensures var r := AddColFmt(a1, fmt);
      ValidArea(r) && RowFmt(r, |a1.rows| - 1) == fmt
      && forall j :: 0 <= j < |a1.rows| - 1 ==> RowFmt(r, j) == RowFmt(a1, j)
  {
    var r := AddColFmt(a1, fmt);
    if !(fmt.None? && a1.colFmts.None?) {
      var cf := if a1.colFmts.Some? then a1.colFmts.value else [];
      var p := Pad(cf, |a1.rows| - 1);
      assert |p| == |a1.rows| - 1;
      assert r.colFmts.value == p + [fmt];
      forall j | 0 <= j < |a1.rows| - 1 ensures RowFmt(r, j) == RowFmt(a1, j) {
        assert r.colFmts.value[j] == p[j];
        if j < |cf| {
          assert p[j] == p[..|cf|][j];
        }
      }
    }
  }

  // ----------------------------------------------------------- headers

  /** `header`: parse the `/`-separated texts and append them as a header
      row; a tag-less column gets `defaultFmt` (`#hdr` for the one-argument
      call, the caller's style otherwise). A bad merge count fails. */
  function AddHeader(a: Area, cols: string, defaultFmt: Option<string>): (r: Result<Area>)
    requires ValidArea(a)
    ensures r.Ok? <==> ParseHeader(cols, defaultFmt).Ok?
    ensures r.Ok? ==> ValidArea(r.value) && r.value == a.(hdrs := a.hdrs + [ParseHeader(cols, defaultFmt).value])
  {
    var h :- ParseHeader(cols, defaultFmt);
    var r := a.(hdrs := a.hdrs + [h]);
    assert WellIndexed(h);
    assert forall i :: 0 <= i < |a.hdrs| ==> r.hdrs[i] == a.hdrs[i];
    Ok(r)
  }

  // -------------------------------------------------------------- zaps

  /** `zapColText`: replace one raw cell. Positions at or past the end of
      the rows or of the row are ignored; negative ones throw. */
  function ZapColText(a: Area, row: int, col: int, text: Option<string>): (r: Result<Area>)
    ensures r.Err? <==> row < |a.rows| && (row < 0 || (col < |a.rows[row]| && col < 0))
    ensures r.Ok? ==> r.value == a.(rows := r.value.rows) && |r.value.rows| == |a.rows|
    ensures r.Ok? ==> forall i :: 0 <= i < |a.rows| ==> |r.value.rows[i]| == |a.rows[i]|
    ensures r.Ok? ==> forall i, j :: 0 <= i < |a.rows| && 0 <= j < |a.rows[i]| ==>
      r.value.rows[i][j] == (if i == row && j == col then text else a.rows[i][j])
  {
    if row >= |a.rows| then Ok(a)
    else if row < 0 then Err("IndexOutOfBoundsException: " + IntToString(row))
    else if col >= |a.rows[row]| then Ok(a)
    else if col < 0 then Err("ArrayIndexOutOfBoundsException: " + IntToString(col))
    else Ok(a.(rows := a.rows[row := a.rows[row][col := text]]))
  }

  /** `getHdrCol`: the header cell at a position, if it exists; indexes
      past the end give none and negative ones throw. */
  function HdrAt(a: Area, hdr: int, col: int): (r: Result<Option<HdrCol>>)
    ensures r.Err? <==> hdr < |a.hdrs| && (hdr < 0 || (col < |a.hdrs[hdr]| && col < 0))
    ensures r.Ok? && r.value.Some? <==> 0 <= hdr < |a.hdrs| && 0 <= col < |a.hdrs[hdr]|
    ensures r.Ok? && r.value.Some? ==> r.value.value == a.hdrs[hdr][col]
  {
    if hdr >= |a.hdrs| then Ok(None)
    else if hdr < 0 then Err("IndexOutOfBoundsException: " + IntToString(hdr))
    else if col >= |a.hdrs[hdr]| then Ok(None)
    else if col < 0 then Err("ArrayIndexOutOfBoundsException: " + IntToString(col))
    else Ok(Some(a.hdrs[hdr][col]))
  }

  /** Replace the header cell at a position that `HdrAt` found. */
  function SetHdr(a: Area, hdr: nat, col: nat, h: HdrCol): (r: Area)
    requires hdr < |a.hdrs| && col < |a.hdrs[hdr]|
  {
    a.(hdrs := a.hdrs[hdr := a.hdrs[hdr][col := h]])
  }

  /** `zapHdrFmt`: change the style of one header cell. */
  function ZapHdrFmt(a: Area, hdr: int, col: int, fmt: Option<string>): (r: Result<Area>)
    requires ValidArea(a)
    ensures r.Ok? <==> HdrAt(a, hdr, col).Ok?
    ensures r.Ok? ==> ValidArea(r.value) && r.value == a.(hdrs := r.value.hdrs)
    ensures r.Ok? ==> SameShape(a.hdrs, r.value.hdrs)
    ensures r.Ok? ==> forall i, j :: 0 <= i < |a.hdrs| && 0 <= j < |a.hdrs[i]| ==>
      r.value.hdrs[i][j] == (if i == hdr && j == col then a.hdrs[i][j].(fmt := fmt) else a.hdrs[i][j])
  {
    var h :- HdrAt(a, hdr, col);
    if h.None? then Ok(a)
    else
      var r := SetHdr(a, hdr as nat, col as nat, h.value.(fmt := fmt));
      assert ValidArea(r) by {
        assert forall i :: 0 <= i < |a.hdrs| && i != hdr ==> r.hdrs[i] == a.hdrs[i];
      }
      Ok(r)
  }

  /** `zapHdrText`: change the text of one header cell. */
  function ZapHdrText(a: Area, hdr: int, col: int, text: string): (r: Result<Area>)
    requires ValidArea(a)
    ensures r.Ok? <==> HdrAt(a, hdr, col).Ok?
    ensures r.Ok? ==> ValidArea(r.value) && r.value == a.(hdrs := r.value.hdrs)
    ensures r.Ok? ==> SameShape(a.hdrs, r.value.hdrs)
    ensures r.Ok? ==> forall i, j :: 0 <= i < |a.hdrs| && 0 <= j < |a.hdrs[i]| ==>
      r.value.hdrs[i][j] == (if i == hdr && j == col then a.hdrs[i][j].(text := text) else a.hdrs[i][j])
  {
    var h :- HdrAt(a, hdr, col);
    if h.None? then Ok(a)
    else
      var r := SetHdr(a, hdr as nat, col as nat, h.value.(text := text));
      assert ValidArea(r) by {
        assert forall i :: 0 <= i < |a.hdrs| && i != hdr ==> r.hdrs[i] == a.hdrs[i];
      }
      Ok(r)
  }

  predicate SameShape(x: seq<seq<HdrCol>>, y: seq<seq<HdrCol>>) {
    |x| == |y| && forall i :: 0 <= i < |x| ==> |x[i]| == |y[i]|
  }

  // ----------------------------------------------------------- getters

  /** First sheet row after the area as it stands: the next free row. */
  function AbsRow(a: Area): int { |a.rows| + |a.hdrs| + a.baseRow }

  /** Sheet row of the first data row. */
  function DataRow(a: Area): int { a.baseRow + |a.hdrs| }

  // ------------------------------------------------------ column widths

  /** `colWidth` for one column: the absolute column (area-relative
      position plus the base column, in 32-bit arithmetic) gets
      `chars * 256` (also 32-bit) unless it is negative. */
  function ColWidth(a: Area, col: Int32, chars: Int32): (r: Option<(int, int)>)
    ensures r.Some? <==> Wrap32(col + a.baseCol) >= 0
    ensures r.Some? ==> r.value.0 == Wrap32(col + a.baseCol) && r.value.1 == Wrap32(chars * 256)
    ensures r.Some? && 0 <= col + a.baseCol <= INT_MAX ==> r.value.0 == col + a.baseCol
    ensures r.Some? && 0 <= chars < 0x80_0000 ==> r.value.1 == chars * 256
  {
    var abs := Wrap32(col + a.baseCol);
    if abs >= 0 then Some((abs, Wrap32(chars * 256))) else None
  }

  /** `colWidth` over an inclusive range of area columns: the widths set,
      in column order. The range is the one the loop is meant to visit;
      as written the loop's 32-bit index never passes `Integer.MAX_VALUE`
      (see `AsWrittenColumns`). */
  function ColWidths(a: Area, first: Int32, last: Int32, chars: Int32): (r: seq<(int, int)>)
    decreases last - first + 1
    ensures |r| <= if first <= last then last - first + 1 else 0
  {
    if first > last then []
    else
      var w := ColWidth(a, first, chars);
      var tail := if first == last then [] else ColWidths(a, first + 1, last, chars);
      if w.Some? then [w.value] + tail else tail
  }

  /** Every width `ColWidths` sets is the width of a column in the range,
      and every column of the range that has a width is set. */
  lemma {:induction false} ColWidthsCover(a: Area, first: Int32, last: Int32, chars: Int32)
    decreases last - first + 1
    ensures var r := ColWidths(a, first, last, chars);
      && (forall k :: 0 <= k < |r| ==> exists i :: first <= i <= last && ColWidth(a, i, chars) == Some(r[k]))
      && (forall i :: first <= i <= last && ColWidth(a, i, chars).Some? ==> ColWidth(a, i, chars).value in r)
  {
    var r := ColWidths(a, first, last, chars);
    forall k | 0 <= k < |r|
      ensures exists i :: first <= i <= last && ColWidth(a, i, chars) == Some(r[k])
    {
      var i := ColWidthSource(a, first, last, chars, k);
    }
    forall i | first <= i <= last && ColWidth(a, i, chars).Some? {
      ColWidthSet(a, first, last, chars, i);
    }
  }

  /** The column an entry of `ColWidths` comes from. */
  lemma {:induction false} ColWidthSource(a: Area, first: Int32, last: Int32, chars: Int32, k: nat) returns (i: Int32)
    requires k < |ColWidths(a, first, last, chars)|
    decreases last - first + 1
    ensures first <= i <= last && ColWidth(a, i, chars) == Some(ColWidths(a, first, last, chars)[k])
  {
    var w := ColWidth(a, first, chars);
    if first == last {
      i := first;
    } else {
      var next: Int32 := first + 1;
      var tail := ColWidths(a, next, last, chars);
      if w.Some? && k == 0 {
        i := first;
      } else if w.Some? {
        i := ColWidthSource(a, next, last, chars, k - 1);
      } else {
        i := ColWidthSource(a, next, last, chars, k);
      }
    }
  }

  /** A column of the range that has a width is among `ColWidths`. */
  lemma {:induction false} ColWidthSet(a: Area, first: Int32, last: Int32, chars: Int32, i: Int32)
    requires first <= i <= last && ColWidth(a, i, chars).Some?
    decreases i - first
    ensures ColWidth(a, i, chars).value in ColWidths(a, first, last, chars)
  {
    if i > first {
      var next: Int32 := first + 1;
      ColWidthSet(a, next, last, chars, i);
    }
  }

  /** One step of `ColWidths` over a column that fits: its width comes
      first. */
  lemma ColWidthsHead(a: Area, first: Int32, last: Int32, chars: Int32)
    requires first <= last && 0 <= first + a.baseCol <= INT_MAX
    ensures ColWidths(a, first, last, chars)
      == [(first + a.baseCol, Wrap32(chars * 256))] + (if first == last then [] else ColWidths(a, first + 1, last, chars))
  {
    assert Wrap32(first + a.baseCol) == first + a.baseCol;
    var w := ColWidth(a, first, chars);
    assert w == Some((first + a.baseCol, Wrap32(chars * 256)));
  }

  /** Over a range whose sheet columns all fit an `int`, every column gets
      the width, one entry per column, in column order. */
  lemma {:induction false} ColWidthsInOrder(a: Area, first: Int32, last: Int32, chars: Int32, k: nat)
    requires first <= last && 0 <= first + a.baseCol && last + a.baseCol <= INT_MAX
    requires k <= last - first
    decreases last - first
    ensures |ColWidths(a, first, last, chars)| == last - first + 1
    ensures ColWidths(a, first, last, chars)[k] == (first + a.baseCol + k, Wrap32(chars * 256))
  {
    ColWidthsHead(a, first, last, chars);
    if first < last {
      var next: Int32 := first + 1;
      var tail := ColWidths(a, next, last, chars);
      if k > 0 {
        ColWidthsInOrder(a, next, last, chars, k - 1);
        assert tail[k - 1] == (next + a.baseCol + (k - 1), Wrap32(chars * 256));
      } else {
        ColWidthsInOrder(a, next, last, chars, 0);
      }
    }
  }

  /** The integers from `first` to `last`. */
  function Range(first: int, last: int): (r: seq<int>)
    ensures |r| == if first <= last then last - first + 1 else 0
    ensures forall k :: 0 <= k < |r| ==> r[k] == first + k
  {
    if first <= last then seq(last - first + 1, k => first + k) else []
  }

  /** The indices the range form of `colWidth` visits as written, in at
      most `fuel` rounds: `i++` on a 32-bit index while `i <= last`;
      `None` when the loop has not ended by then. */
  function AsWrittenColumns(i: Int32, last: Int32, fuel: nat): (r: Option<seq<int>>)
    decreases fuel
  {
    if i > last then Some([])
    else if fuel == 0 then None
    else
      match AsWrittenColumns(Wrap32(i + 1), last, fuel - 1)
      case None => None
      case Some(rest) => Some([i] + rest)
  }

  /** With the last column at `Integer.MAX_VALUE` the loop as written
      never ends: every index passes the guard and `i++` wraps around to
      the smallest `int`. */
  lemma {:induction false} AsWrittenColumnsNeverEnd(i: Int32, fuel: nat)
    decreases fuel
    ensures AsWrittenColumns(i, INT_MAX, fuel).None?
  {
    if fuel > 0 {
      AsWrittenColumnsNeverEnd(Wrap32(i + 1), fuel - 1);
    }
  }

  /** Below `Integer.MAX_VALUE` the loop as written visits exactly the
      columns of the range, given enough rounds. */
  lemma {:induction false} AsWrittenColumnsAgree(i: Int32, last: Int32, fuel: nat)
    requires last < INT_MAX && i <= last + 1 && fuel > last - i
    decreases fuel
    ensures AsWrittenColumns(i, last, fuel) == Some(Range(i, last))
  {
    if i <= last {
      assert Wrap32(i + 1) == i + 1;
      AsWrittenColumnsAgree(i + 1, last, fuel - 1);
      assert Range(i, last) == [i] + Range(i + 1, last);
    }
  }

  // -------------------------------------------------------- filter line

  /** `addDataFilterLine`: the columns of sheet row 0, below the area's
      widest written row, that get an empty cell because they had none. */
  function FilterLine(a: Area, present: set<int>): (r: seq<int>)
    ensures forall i :: 0 <= i < |r| ==> 0 <= r[i] < a.maxCol && r[i] !in present
    ensures forall c :: 0 <= c < a.maxCol && c !in present ==> c in r
    ensures forall i, j :: 0 <= i < j < |r| ==> r[i] < r[j]
  {
    FilterFrom(0, a.maxCol, present)
  }

  function FilterFrom(from: int, to: int, present: set<int>): (r: seq<int>)
    decreases to - from
    ensures forall i :: 0 <= i < |r| ==> from <= r[i] < to && r[i] !in present
    ensures forall c :: from <= c < to && c !in present ==> c in r
    ensures forall i, j :: 0 <= i < j < |r| ==> r[i] < r[j]
  {
    if from >= to then []
    else
      var tail := FilterFrom(from + 1, to, present);
      if from in present then tail else [from] + tail
  }
}
