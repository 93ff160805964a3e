/** `writeArea` carried out against the session: the layout's writes are
    performed in order, each cell through `setCellContent`, so that the
    style definitions and the style cache thread from one cell to the
    next; merged regions, column widths and the freeze pane are recorded
    as they come. */
module Writer {
  import opened Results
  import opened FormatSpec
  import opened DataFormats
  import opened Areas
  import opened Session
  import opened Layout

  /** What one write left in the sheet. */
  datatype Emitted =
    | Wrote(row: int, col: int, text: string, spec: CellSpec, value: CellValue, style: Option<nat>)
    | Merged(row: int, first: int, last: int)
    | Sized(col: int, width: int)
    | Froze(row: int)

  /** `e` is what performing `op` leaves, at the same place. */
  predicate Performs(op: Op, e: Emitted) {
    match op
    case Put(row, col, _, text) => e.Wrote? && e.row == row && e.col == col && e.text == text
    case Region(row, first, last) => e == Merged(row, first, last)
    case Width(col, width) => e == Sized(col, width)
    case Freeze(row) => e == Froze(row)
  }

  /** Only the style definitions and the style cache change. */
  predicate SameSettings(b: Book, b1: Book) {
    b1 == b.(defs := b1.defs, cache := b1.cache)
  }

  /** A cell holds what `setCellContent` makes of its text: the parsed
      format specifier. */
  predicate Coherent(e: Emitted) {
    e.Wrote? ==> ParseSpec(e.text) == Ok(e.spec)
  }

  /** One write. Only a cell can fail, when its text does not parse or no
      rule classifies it. */
  function Step(b: Book, op: Op, find: (string, string) -> bool): (r: Result<(Book, Emitted)>)
    requires ValidBook(b)
    ensures r.Ok? ==> ValidBook(r.value.0) && SameSettings(b, r.value.0)
    ensures r.Ok? ==> Performs(op, r.value.1) && Coherent(r.value.1)
    ensures !op.Put? ==> r.Ok? && r.value.0 == b
    ensures op.Put? ==> (r.Ok? <==> SetCellContent(b, op.fmt, op.text, find).Ok?)
  {
    match op
    case Put(row, col, fmt, text) =>
      var s :- SetCellContent(b, fmt, text, find);
      Ok((s.book, Wrote(row, col, text, s.spec, s.value, s.style)))
    case Region(row, first, last) => Ok((b, Merged(row, first, last)))
    case Width(col, width) => Ok((b, Sized(col, width)))
    case Freeze(row) => Ok((b, Froze(row)))
  }

  /** The writes `ops` in order, stopping at the first that fails. */
  function Run(b: Book, ops: seq<Op>, find: (string, string) -> bool): (r: Result<(Book, seq<Emitted>)>)
    requires ValidBook(b)
    decreases |ops|
    ensures r.Ok? ==> ValidBook(r.value.0) && SameSettings(b, r.value.0)
    ensures r.Ok? ==> |r.value.1| == |ops|
    ensures r.Ok? ==> forall k :: 0 <= k < |ops| ==> Performs(ops[k], r.value.1[k]) && Coherent(r.value.1[k])
    ensures r.Err? ==> exists k :: 0 <= k < |ops| && ops[k].Put?
  {
    if |ops| == 0 then Ok((b, []))
    else
      match Step(b, ops[0], find)
      case Err(e) => Err(e)
      case Ok((b1, e)) =>
        match Run(b1, ops[1..], find)
        case Err(e) =>
          assert forall k :: 0 <= k < |ops| - 1 ==> ops[1..][k] == ops[k + 1];
          Err(e)
        case Ok((b2, es)) =>
          var r := [e] + es;
          assert forall k :: 1 <= k < |ops| ==> r[k] == es[k - 1] && ops[k] == ops[1..][k - 1];
          Ok((b2, r))
  }

  /** A session whose writes cannot fail: no cell texts at all. */
  lemma RunWithoutCells(b: Book, ops: seq<Op>, find: (string, string) -> bool)
    requires ValidBook(b) && forall k :: 0 <= k < |ops| ==> !ops[k].Put?
    ensures Run(b, ops, find).Ok? && Run(b, ops, find).value.0 == b
    decreases |ops|
  {
    if |ops| > 0 {
      assert forall k :: 0 <= k < |ops| - 1 ==> ops[1..][k] == ops[k + 1];
      RunWithoutCells(b, ops[1..], find);
    }
  }

  /** `writeArea`: lay the area out, perform the writes, and record the
      widest column written. A failing cell or a layout failure is an
      error. */
  function WriteArea(b: Book, a: Area, find: (string, string) -> bool): (r: Result<(Book, Area, seq<Emitted>)>)
    requires ValidBook(b)
    ensures LayoutArea(a).failure.Some? ==> r.Err?
    ensures r.Ok? ==> ValidBook(r.value.0) && SameSettings(b, r.value.0)
    ensures r.Ok? ==> PerformedAll(LayoutArea(a).ops, r.value.2)
    ensures r.Ok? ==> forall k :: 0 <= k < |r.value.2| ==> Coherent(r.value.2[k])
    ensures r.Ok? ==> r.value.1 == a.(maxCol := r.value.1.maxCol)
    ensures r.Ok? ==> (r.value.1.maxCol >= a.maxCol
      && forall op :: op in LayoutArea(a).ops && op.Put? ==> op.col < r.value.1.maxCol)
  {
    var laid := LayoutArea(a);
    match Run(b, laid.ops, find)
    case Err(e) => Err(e)
    case Ok((b1, es)) =>
      if laid.failure.Some? then Err(laid.failure.value)
      else Ok((b1, a.(maxCol := MaxCol(a.maxCol, laid.ops)), es))
  }

  /** What performed `ops` left, one entry per write. */
  predicate PerformedAll(ops: seq<Op>, es: seq<Emitted>) {
    |es| == |ops| && forall k :: 0 <= k < |ops| ==> Performs(ops[k], es[k])
  }

  lemma PutPerformed(ops: seq<Op>, es: seq<Emitted>, op: Op)
    requires PerformedAll(ops, es) && op in ops && op.Put?
    ensures exists k :: 0 <= k < |es| && es[k].Wrote? && es[k].row == op.row && es[k].col == op.col && es[k].text == op.text
  {
    var k :| 0 <= k < |ops| && ops[k] == op;
    assert Performs(ops[k], es[k]);
  }

  lemma FreezePerformed(ops: seq<Op>, es: seq<Emitted>, row: int)
    requires PerformedAll(ops, es) && Freeze(row) in ops
    ensures Froze(row) in es
  {
    var k :| 0 <= k < |ops| && ops[k] == Freeze(row);
    assert Performs(ops[k], es[k]);
  }

  /** After `writeArea` each data cell of each row is in the sheet at its
      row and column, holding the row's cell text. */
  lemma WriteAreaCell(b: Book, a: Area, find: (string, string) -> bool, j: nat, c: nat)
    requires ValidBook(b) && ValidArea(a) && WriteArea(b, a, find).Ok?
    requires j < |a.rows| && c < |a.rows[j]|
    requires |a.hdrs| == 0 || c < |a.hdrs[|a.hdrs| - 1]|
    ensures |a.hdrs| > 0
    ensures exists k :: (0 <= k < |WriteArea(b, a, find).value.2|
      && WriteArea(b, a, find).value.2[k].Wrote?
      && WriteArea(b, a, find).value.2[k].row == DataSheetRow(a, j)
      && WriteArea(b, a, find).value.2[k].col == CellColumn(a, j, c, MergeCount)
      && WriteArea(b, a, find).value.2[k].text == CellText(a.rows[j], c))
  {
    var ops := LayoutArea(a).ops;
    LayoutHasDataRow(a, j, MergeCount);
    DataCellPlaced(a, j, c, MergeCount);
    var op := Put(DataSheetRow(a, j), CellColumn(a, j, c, MergeCount), RowFmt(a, j), CellText(a.rows[j], c));
    assert op in DataRowOps(a, j, MergeCount).ops;
    PutPerformed(ops, WriteArea(b, a, find).value.2, op);
  }

  /** Once the writes of a completed layout of an area with a header row
      are performed (as a successful `writeArea` performs them), the sheet
      is frozen below the header rows. */
  lemma PerformedLayoutFreezes(a: Area, es: seq<Emitted>)
    requires LayoutArea(a).failure.None? && PerformedAll(LayoutArea(a).ops, es) && |a.hdrs| > 0
    ensures Froze(a.baseRow + |a.hdrs|) in es
  {
    CleanLayoutFreezes(a, MergeCount);
    FreezePerformed(LayoutArea(a).ops, es, a.baseRow + |a.hdrs|);
  }
}
