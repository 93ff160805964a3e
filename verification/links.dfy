/** The addresses of the hyperlinks between sheets: `'sheet'!` followed by
    a cell reference (column letters then the one-based row number), and
    for a link that selects several rows `:` and the reference of the
    last row selected.

    The source picks the column letter from a 25-letter table that skips
    `W`; `AsWritten*` model that table, the other members the column names
    spreadsheets use (as `CellAddress` produces them elsewhere in the
    writer). */
module Links {
  import opened Results
  import opened JavaText

  // ------------------------------------------------------- as written

  /** The column-letter table of the source. */
  const AS_WRITTEN_LETTERS: string := "ABCDEFGHIJKLMNOPQRSTUVXYZ"

  /** `substring(col, col + 1)` of the table: one letter, or the exception
      `substring` throws outside the table. */
  function AsWrittenLetter(col: int): (r: Result<string>)
    ensures r.Ok? <==> 0 <= col < |AS_WRITTEN_LETTERS|
    ensures r.Ok? ==> r.value == [AS_WRITTEN_LETTERS[col]]
  {
    if 0 <= col < |AS_WRITTEN_LETTERS| then Ok([AS_WRITTEN_LETTERS[col]])
    else Err("StringIndexOutOfBoundsException")
  }

  /** The address of a target cell: `'sheet'!`, the letter, then the row
      number plus one in `int` arithmetic. */
  function AsWrittenAddress(sheet: string, row: Int32, col: Int32): (r: Result<string>)
    ensures r.Ok? <==> 0 <= col < |AS_WRITTEN_LETTERS|
    ensures r.Ok? ==> r.value == "'" + sheet + "'!" + [AS_WRITTEN_LETTERS[col]] + IntToString(Wrap32(row + 1))
  {
    var letter :- AsWrittenLetter(col);
    Ok("'" + sheet + "'!" + letter + IntToString(Wrap32(row + 1)))
  }

  /** The address `makeUniLink` sets: more than one row selected adds the
      reference of the last row, `row + rows`. */
  function AsWrittenRangeAddress(sheet: string, row: Int32, col: Int32, rows: Int32): (r: Result<string>)
    ensures r.Ok? <==> 0 <= col < |AS_WRITTEN_LETTERS|
    ensures r.Ok? && rows <= 1 ==> r == AsWrittenAddress(sheet, row, col)
    ensures r.Ok? && rows > 1 ==>
      r.value == AsWrittenAddress(sheet, row, col).value + ":" + [AS_WRITTEN_LETTERS[col]] + IntToString(Wrap32(row + rows))
  {
    var letter :- AsWrittenLetter(col);
    var addr := "'" + sheet + "'!" + letter + IntToString(Wrap32(row + 1));
    if rows > 1 then Ok(addr + ":" + letter + IntToString(Wrap32(row + rows)))
    else Ok(addr)
  }

  // ---------------------------------------------------- column names

  predicate IsUpper(c: char) { 'A' <= c <= 'Z' }

  predicate AllUpper(s: string) {
    forall i :: 0 <= i < |s| ==> IsUpper(s[i])
  }

  function Letter(d: nat): (r: char)
    requires d < 26
    ensures IsUpper(r) && r as int - 'A' as int == d
  {
    ('A' as int + d) as char
  }

  /** The spreadsheet name of column `col` (0-based): A..Z, then AA..AZ,
      BA.., like digits in base 26 without a zero. */
  function ColumnName(col: nat): (r: string)
    ensures |r| > 0 && AllUpper(r)
    decreases col
  {
    if col < 26 then [Letter(col)]
    else
      var p := ColumnName(col / 26 - 1);
      var r := p + [Letter(col % 26)];
      assert forall i :: 0 <= i < |p| ==> r[i] == p[i];
      r
  }

  /** The column a name denotes. */
  function ColumnIndex(s: string): (r: nat)
    requires |s| > 0 && AllUpper(s)
    ensures |s| == 1 ==> r < 26
    ensures |s| > 1 ==> r >= 26
  {
    var d := s[|s| - 1] as int - 'A' as int;
    if |s| == 1 then d
    else
      var init := s[..|s| - 1];
      assert AllUpper(init) by {
        assert forall i :: 0 <= i < |init| ==> init[i] == s[i];
      }
      (ColumnIndex(init) + 1) * 26 + d
  }

  /** Reading a column name back gives the column. */
  lemma {:induction false} ColumnIndexOfName(col: nat)
    ensures ColumnIndex(ColumnName(col)) == col
    decreases col
  {
    if col >= 26 {
      var p := ColumnName(col / 26 - 1);
      ColumnIndexOfName(col / 26 - 1);
      var r := ColumnName(col);
      assert r[..|r| - 1] == p;
      assert r[|r| - 1] == Letter(col % 26);
    }
  }

  lemma Base26(q: nat, d: nat)
    requires d < 26
    ensures ((q + 1) * 26 + d) / 26 - 1 == q && ((q + 1) * 26 + d) % 26 == d
  {
  }

  /** Every name of upper-case letters is the name of exactly the column
      it denotes. */
  lemma {:induction false} ColumnNameOfIndex(s: string)
    requires |s| > 0 && AllUpper(s)
    ensures ColumnName(ColumnIndex(s)) == s
    decreases |s|
  {
    var d := s[|s| - 1] as int - 'A' as int;
    assert IsUpper(s[|s| - 1]);
    if |s| > 1 {
      var init := s[..|s| - 1];
      assert AllUpper(init) by {
        assert forall i :: 0 <= i < |init| ==> init[i] == s[i];
      }
      var q := ColumnIndex(init);
      ColumnNameOfIndex(init);
      Base26(q, d);
      assert Letter(d) == s[|s| - 1];
      assert s == init + [s[|s| - 1]];
    } else {
      assert s == [s[0]];
    }
  }

  /** The as-written table agrees with the column names up to column V and
      is off from there: column W gets `X`, and Z's column has no letter. */
  lemma AsWrittenUpToV(col: nat)
    requires col < 22
    ensures AsWrittenLetter(col) == Ok(ColumnName(col))
  {
    assert AS_WRITTEN_LETTERS[col] == Letter(col);
  }

  lemma AsWrittenSkipsW()
    ensures ColumnName(22) == "W" && AsWrittenLetter(22) == Ok("X")
    ensures ColumnName(25) == "Z" && AsWrittenLetter(25).Err?
  {
    assert [Letter(22)] == "W";
    assert [Letter(25)] == "Z";
  }

  // ------------------------------------------------- cell references

  /** A cell reference: the column name, then the one-based row number. */
  function CellRef(row: nat, col: nat): (r: string)
    ensures |r| > 0
  {
    ColumnName(col) + NatToString(row + 1)
  }

  /** How many leading upper-case letters `s` has. */
  function UpperRun(s: string): (r: nat)
    ensures r <= |s| && AllUpper(s[..r])
    ensures r < |s| ==> !IsUpper(s[r])
  {
    if |s| == 0 || !IsUpper(s[0]) then 0
    else
      var n := UpperRun(s[1..]);
      assert forall i :: 0 <= i < n ==> s[..n + 1][i + 1] == s[1..][..n][i];
      n + 1
  }

  /** A cell reference read back: letters then a row number of at least
      one, nothing else. */
  function ReadCellRef(s: string): (r: Option<(nat, nat)>)
  {
    var n := UpperRun(s);
    var digits := s[n..];
    if n == 0 || |digits| == 0 || !AllDigits(digits) || DigitsValue(digits) == 0 then None
    else Some((DigitsValue(digits) - 1, ColumnIndex(s[..n])))
  }

  lemma {:induction false} UpperRunOfJoin(p: string, q: string)
    requires AllUpper(p) && (|q| == 0 || !IsUpper(q[0]))
    ensures UpperRun(p + q) == |p|
    decreases |p|
  {
    if |p| > 0 {
      assert (p + q)[1..] == p[1..] + q;
      assert AllUpper(p[1..]) by {
        assert forall i :: 0 <= i < |p| - 1 ==> p[1..][i] == p[i + 1];
      }
      UpperRunOfJoin(p[1..], q);
      assert IsUpper((p + q)[0]);
    } else {
      assert p + q == q;
    }
  }

  /** Reading a cell reference gives back its row and column. */
  lemma ReadCellRefOfRef(row: nat, col: nat)
    ensures ReadCellRef(CellRef(row, col)) == Some((row, col))
  {
    var name := ColumnName(col);
    var num := NatToString(row + 1);
    var s := CellRef(row, col);
    assert IsDigit(num[0]);
    UpperRunOfJoin(name, num);
    assert s[|name|..] == num;
    assert s[..|name|] == name;
    ColumnIndexOfName(col);
  }

  /** The address of a target cell, with proper column names. */
  function Address(sheet: string, row: nat, col: nat): (r: string)
    ensures r == "'" + sheet + "'!" + CellRef(row, col)
  {
    "'" + sheet + "'!" + CellRef(row, col)
  }

  /** The address of a link selecting `rows` rows from the target cell. */
  function RangeAddress(sheet: string, row: nat, col: nat, rows: int): (r: string)
    ensures rows <= 1 ==> r == Address(sheet, row, col)
    ensures rows > 1 ==> r == Address(sheet, row, col) + ":" + CellRef(row + rows - 1, col)
  {
    if rows > 1 then Address(sheet, row, col) + ":" + CellRef(row + rows - 1, col)
    else Address(sheet, row, col)
  }

  lemma RowNumberText(n: int)
    requires 0 <= n <= INT_MAX
    ensures IntToString(Wrap32(n)) == NatToString(n)
  {
  }

  /** Where the table has the right letter, the source's addresses are the
      corrected ones. */
  lemma AsWrittenAddressAgrees(sheet: string, row: nat, col: nat)
    requires col < 22 && row < INT_MAX
    ensures AsWrittenAddress(sheet, row, col) == Ok(Address(sheet, row, col))
  {
    AsWrittenUpToV(col);
    RowNumberText(row + 1);
    var name := ColumnName(col);
    var num := NatToString(row + 1);
    assert [AS_WRITTEN_LETTERS[col]] == name;
    assert "'" + sheet + "'!" + name + num == "'" + sheet + "'!" + (name + num);
  }

  lemma AsWrittenAgrees(sheet: string, row: nat, col: nat, rows: nat)
    requires col < 22 && row < INT_MAX && row + rows <= INT_MAX
    ensures AsWrittenRangeAddress(sheet, row, col, rows) == Ok(RangeAddress(sheet, row, col, rows))
  {
    AsWrittenAddressAgrees(sheet, row, col);
    if rows > 1 {
      AsWrittenUpToV(col);
      RowNumberText(row + rows);
      var x := Address(sheet, row, col);
      var name := ColumnName(col);
      var last := NatToString(row + rows);
      assert [AS_WRITTEN_LETTERS[col]] == name;
      assert CellRef(row + rows - 1, col) == name + last;
      assert x + ":" + name + last == x + ":" + (name + last);
    }
  }
}
