/** The format tag `{[digits][.]style}text` that may lead any cell or header
    text: an optional merge count (a leading `0` makes the cell "plain"),
    an optional separating `.`, a style name, and after the closing brace the
    text that is actually written. */
module FormatSpec {
  import opened Results
  import opened JavaText
  import opened StyleOrders

  // ------------------------------------------------------------ the tag

  /** The groups of a matched tag: the merge digits, whether a `.` followed
      them, the style text up to the first `}` (possibly empty) and the rest
      of the line after that brace. */
  datatype Tag = Tag(mrg: Option<string>, dot: bool, fmt: string, rest: string)

  /** Length of the run of digits that starts `s`. */
  function DigitRun(s: string): (n: nat)
    ensures n <= |s| && AllDigits(s[..n])
    ensures n < |s| ==> !IsDigit(s[n])
  {
    if |s| == 0 || !IsDigit(s[0]) then 0
    else
      var n := 1 + DigitRun(s[1..]);
      assert s[..n] == [s[0]] + s[1..][..n - 1];
      n
  }

  /** What the regex `.` can span from the start of `s`: everything up to
      the first line terminator. */
  function LineHead(s: string): (r: string)
    ensures r <= s
    ensures forall i :: 0 <= i < |r| ==> !IsLineTerminator(r[i])
    ensures |r| < |s| ==> IsLineTerminator(s[|r|])
  {
    if |s| == 0 || IsLineTerminator(s[0]) then ""
    else [s[0]] + LineHead(s[1..])
  }

  predicate NoTerminator(s: string) {
    forall i :: 0 <= i < |s| ==> !IsLineTerminator(s[i])
  }

  /** The tag pattern anchored at the start of the text: `{`, greedy digits,
      an optional `.`, anything but `}`, then `}`; the rest group takes what
      follows up to the end of the line. */
  function MatchTag(s: string): (r: Option<Tag>)
    ensures r.Some? <==> |s| > 0 && s[0] == '{' && '}' in s
    ensures r.Some? && r.value.mrg.Some? ==> |r.value.mrg.value| > 0 && AllDigits(r.value.mrg.value)
  {
    if |s| == 0 || s[0] != '{' then None
    else
      match IndexOfFrom(s, '}', 1)
      case None => None
      case Some(k) => Some(InnerTag(s[1..k], LineHead(s[k + 1..])))
  }

  /** The groups inside the braces: greedy digits, then a `.` if one
      follows them, then the style text. */
  function InnerTag(inner: string, rest: string): (t: Tag)
    ensures t.rest == rest
    ensures t.mrg.Some? ==> |t.mrg.value| > 0 && AllDigits(t.mrg.value)
  {
    var d := DigitRun(inner);
    var dot := d < |inner| && inner[d] == '.';
    Tag(if d > 0 then Some(inner[..d]) else None, dot, inner[if dot then d + 1 else d..], rest)
  }

  /** Tag groups that the pattern reads back unchanged: the style text cannot
      be split differently between the merge digits, the dot and the name. */
  predicate WellFormedTag(t: Tag) {
    (t.mrg.Some? ==> |t.mrg.value| > 0 && AllDigits(t.mrg.value))
    && '}' !in t.fmt
    && (!t.dot && |t.fmt| > 0 ==> !IsDigit(t.fmt[0]) && t.fmt[0] != '.')
    && NoTerminator(t.rest)
  }

  function RenderTag(t: Tag): (s: string) {
    "{" + t.mrg.GetOr("") + (if t.dot then "." else "") + t.fmt + "}" + t.rest
  }

  lemma RenderTagShape(t: Tag)
    requires WellFormedTag(t)
    ensures var s := RenderTag(t);
      var inner := t.mrg.GetOr("") + (if t.dot then "." else "") + t.fmt;
      s == "{" + inner + "}" + t.rest && '}' !in inner
  {
    var m := t.mrg.GetOr("");
    assert forall i :: 0 <= i < |m| ==> IsDigit(m[i]);
  }

  /** Rendering a well-formed tag and matching it gives the tag back. */
  lemma MatchRenderTag(t: Tag)
    requires WellFormedTag(t)
    ensures MatchTag(RenderTag(t)) == Some(t)
  {
    var inner := t.mrg.GetOr("") + (if t.dot then "." else "") + t.fmt;
    RenderTagShape(t);
    BraceAt(inner, t.rest);
    InnerGroups(t);
    LineHeadClean(t.rest);
  }

  /** The first `}` after the opening brace closes the tag. */
  lemma BraceAt(inner: string, rest: string)
    requires '}' !in inner
    ensures var s := "{" + inner + "}" + rest;
      IndexOfFrom(s, '}', 1) == Some(|inner| + 1)
      && s[1..|inner| + 1] == inner && s[|inner| + 2..] == rest
  {
    var s := "{" + inner + "}" + rest;
    assert s[1..|inner| + 1] == inner;
    NoDelimIndex(s, '}', 1, |inner| + 1);
  }

  /** The digits, the dot and the name fall into their own groups. */
  lemma InnerGroups(t: Tag)
    requires WellFormedTag(t)
    ensures InnerTag(t.mrg.GetOr("") + (if t.dot then "." else "") + t.fmt, t.rest) == t
  {
    var m := t.mrg.GetOr("");
    assert t.mrg == (if |m| > 0 then Some(m) else None);
    if t.dot {
      assert m + "." + t.fmt == m + (if t.dot then "." else "") + t.fmt;
      InnerGroupsDot(m, t.fmt, t.rest);
    } else {
      assert m + t.fmt == m + (if t.dot then "." else "") + t.fmt;
      InnerGroupsNoDot(m, t.fmt, t.rest);
    }
  }

  lemma InnerGroupsDot(m: string, f: string, rest: string)
    requires AllDigits(m)
    ensures InnerTag(m + "." + f, rest) == Tag(if |m| > 0 then Some(m) else None, true, f, rest)
  {
    var inner := m + "." + f;
    DigitRunOf(m, "." + f);
    assert inner == m + ("." + f);
    assert inner[..|m|] == m;
    assert inner[|m|] == '.';
    assert inner[|m| + 1..] == f;
  }

  lemma InnerGroupsNoDot(m: string, f: string, rest: string)
    requires AllDigits(m)
    requires |f| > 0 ==> !IsDigit(f[0]) && f[0] != '.'
    ensures InnerTag(m + f, rest) == Tag(if |m| > 0 then Some(m) else None, false, f, rest)
  {
    var inner := m + f;
    DigitRunOf(m, f);
    assert inner[..|m|] == m;
    assert inner[|m|..] == f;
  }

  lemma DigitRunOf(m: string, tail: string)
    requires AllDigits(m)
    requires |tail| > 0 ==> !IsDigit(tail[0])
    ensures DigitRun(m + tail) == |m|
    decreases |m|
  {
    if |m| == 0 {
      assert m + tail == tail;
    } else {
      assert (m + tail)[1..] == m[1..] + tail;
      DigitRunOf(m[1..], tail);
    }
  }

  lemma LineHeadClean(s: string)
    requires NoTerminator(s)
    ensures LineHead(s) == s
  {
  }

  /** A matched tag always comes from the front of the text: the text is the
      rendered tag followed by nothing or by a line break and whatever comes
      after it. */
  lemma MatchTagIsPrefix(s: string)
    requires MatchTag(s).Some?
    ensures WellFormedTag(MatchTag(s).value)
    ensures var t := MatchTag(s).value;
      RenderTag(t) <= s
      && (|RenderTag(t)| < |s| ==> IsLineTerminator(s[|RenderTag(t)|]))
  {
    var k := IndexOfFrom(s, '}', 1).value;
    var inner := s[1..k];
    var after := s[k + 1..];
    var t := InnerTag(inner, LineHead(after));
    assert MatchTag(s) == Some(t);
    BraceSplit(s, k);
    InnerTagParts(inner, LineHead(after));
    RenderParts(t, inner);
    PrefixExtend("{" + inner + "}", LineHead(after), after);
  }

  lemma BraceSplit(s: string, k: nat)
    requires 0 < k < |s| && s[0] == '{' && s[k] == '}'
    requires forall i :: 1 <= i < k ==> s[i] != '}'
    ensures s == "{" + s[1..k] + "}" + s[k + 1..] && '}' !in s[1..k]
  {
  }

  lemma RenderParts(t: Tag, inner: string)
    requires t.mrg.GetOr("") + (if t.dot then "." else "") + t.fmt == inner
    ensures RenderTag(t) == "{" + inner + "}" + t.rest
  {
  }

  lemma PrefixExtend(p: string, a: string, b: string)
    requires a <= b
    ensures p + a <= p + b
    ensures |a| < |b| ==> (p + b)[|p + a|] == b[|a|]
  {
    assert (p + b)[..|p + a|] == p + b[..|a|];
  }

  /** The groups read from the text inside the braces put it back together
      and are themselves well-formed. */
  lemma InnerTagParts(inner: string, rest: string)
    requires '}' !in inner && NoTerminator(rest)
    ensures var t := InnerTag(inner, rest);
      t.mrg.GetOr("") + (if t.dot then "." else "") + t.fmt == inner && WellFormedTag(t)
  {
    InnerTagRebuilds(inner, rest);
    var t := InnerTag(inner, rest);
    assert forall c :: c in t.fmt ==> c in inner;
  }

  lemma InnerTagRebuilds(inner: string, rest: string)
    ensures var t := InnerTag(inner, rest);
      t.mrg.GetOr("") + (if t.dot then "." else "") + t.fmt == inner
  {
    var t := InnerTag(inner, rest);
    var d := DigitRun(inner);
    assert t.mrg.GetOr("") == inner[..d];
    if t.dot {
      assert inner == inner[..d] + "." + inner[d + 1..];
    } else {
      assert inner == inner[..d] + inner[d..];
    }
  }

  // ------------------------------------------------------- cell specs

  /** What a cell's text asks for: style name, merge count, the inline
      style orders of a `:` name, the text to write, and the plain flag. */
  datatype CellSpec = CellSpec(name: Option<string>, merge: nat, anon: Option<string>, data: string, plain: bool)

  /** The merge count a tag's digits stand for. */
  function MergeOf(mrg: Option<string>): (r: Result<(nat, bool)>)
    ensures r.Ok? ==> (r.value.1 <==> mrg.Some? && |mrg.value| > 0 && mrg.value[0] == '0')
    ensures r.Ok? && r.value.1 ==> r.value.0 == 0
    ensures mrg.None? ==> r == Ok((0, false))
    ensures mrg.Some? && |mrg.value| > 0 && AllDigits(mrg.value) && mrg.value[0] != '0' ==>
      (r.Ok? <==> DigitsValue(mrg.value) <= INT_MAX)
      && (r.Ok? ==> r.value.0 == DigitsValue(mrg.value) && r.value.0 > 0)
  {
    match mrg
    case None => Ok((0, false))
    case Some(m) =>
      if StartsWith(m, "0") then Ok((0, true))
      else
        LeadingNonZero(m);
        var n :- ParseDigits(m);
        Ok((n, false))
  }

  lemma LeadingNonZero(m: string)
    ensures |m| > 0 && AllDigits(m) && m[0] != '0' ==> DigitsValue(m) > 0
  {
    if |m| > 0 && AllDigits(m) && m[0] != '0' {
      LeadingDigitBound(m);
    }
  }

  lemma {:induction false} LeadingDigitBound(m: string)
    requires |m| > 0 && AllDigits(m)
    ensures DigitsValue(m) >= m[0] as int - '0' as int
  {
    if |m| > 1 {
      assert m[..|m| - 1][0] == m[0];
      LeadingDigitBound(m[..|m| - 1]);
    }
  }

  /** Parse a cell's text. Text without a tag is written as it is. With a
      tag, the merge digits and the style name are read from it, a `:` name
      carries its own orders, and only the text after the brace (to the end
      of the line) is kept. The only failure is a merge count past
      `Integer.MAX_VALUE`. */
  function ParseSpec(s: string): (r: Result<CellSpec>)
    ensures MatchTag(s).None? ==> r == Ok(CellSpec(None, 0, None, s, false))
    ensures MatchTag(s).Some? && r.Ok? ==> r.value.data == MatchTag(s).value.rest
    ensures r.Ok? ==> (r.value.anon.Some? <==> r.value.name.Some? && StartsWith(r.value.name.value, ":"))
    ensures r.Ok? && r.value.anon.Some? ==> r.value.anon.value == r.value.name.value[1..]
    ensures r.Ok? && r.value.name.Some? ==> |r.value.name.value| > 0 && '}' !in r.value.name.value
    ensures r.Ok? && r.value.plain ==> r.value.merge == 0
    ensures r.Ok? ==> r.value.merge <= INT_MAX
  {
    match MatchTag(s)
    case None => Ok(CellSpec(None, 0, None, s, false))
    case Some(t) =>
      var mp :- MergeOf(t.mrg);
      var name := if |t.fmt| > 0 then Some(t.fmt) else None;
      var anon := if |t.fmt| > 0 && StartsWith(t.fmt, ":") then Some(t.fmt[1..]) else None;
      TagFmtNoBrace(s);
      Ok(CellSpec(name, mp.0, anon, t.rest, mp.1))
  }

  lemma TagFmtNoBrace(s: string)
    requires MatchTag(s).Some?
    ensures '}' !in MatchTag(s).value.fmt
  {
    MatchTagIsPrefix(s);
  }

  /** Cell specs that some text stands for: the anonymous orders agree with
      the name, and a plain cell never merges. */
  predicate WellFormedSpec(c: CellSpec) {
    (c.name.Some? ==> |c.name.value| > 0 && '}' !in c.name.value)
    && c.anon == (if c.name.Some? && StartsWith(c.name.value, ":") then Some(c.name.value[1..]) else None)
    && (c.plain ==> c.merge == 0)
    && c.merge <= INT_MAX
    && NoTerminator(c.data)
  }

  /** The tag text that stands for a spec: digits only for a merge count,
      `0` for plain, and the name after a `.` so no name can run into the
      digits. */
  function RenderSpec(c: CellSpec): (s: string) {
    RenderTag(SpecTag(c))
  }

  function SpecTag(c: CellSpec): Tag {
    Tag(if c.plain then Some("0") else if c.merge > 0 then Some(NatToString(c.merge)) else None,
        c.name.Some?, c.name.GetOr(""), c.data)
  }

  /** Every well-formed spec survives rendering and parsing. */
  lemma ParseRenderSpec(c: CellSpec)
    requires WellFormedSpec(c)
    ensures ParseSpec(RenderSpec(c)) == Ok(c)
  {
    var t := SpecTag(c);
    SpecTagWellFormed(c);
    MatchRenderTag(t);
    MergeOfSpec(c);
  }

  lemma SpecTagWellFormed(c: CellSpec)
    requires WellFormedSpec(c)
    ensures WellFormedTag(SpecTag(c))
  {
    if c.plain {
      assert AllDigits("0") by { assert "0"[0] == '0'; }
    }
  }

  /** The digits of a spec's tag read back as its merge count and plain
      flag. */
  lemma MergeOfSpec(c: CellSpec)
    requires WellFormedSpec(c)
    ensures MergeOf(SpecTag(c).mrg) == Ok((c.merge, c.plain))
  {
    if c.plain {
      assert AllDigits("0") by { assert "0"[0] == '0'; }
    }
  }

  // --------------------------------------------------- cell data parse

  /** `parseCellData`: parse the text and, the first time an inline `:`
      style is seen, register it under its full name (colon included) with
      the orders that follow the colon. */
  function ParseCellData(defs: Registry, s: string): (r: Result<(CellSpec, Registry)>)
    ensures r.Ok? ==> ParseSpec(s) == Ok(r.value.0)
    ensures ParseSpec(s).Ok? && !NeedsInline(defs, ParseSpec(s).value) ==> r == Ok((ParseSpec(s).value, defs))
    ensures ParseSpec(s).Ok? && NeedsInline(defs, ParseSpec(s).value) ==>
      (r.Ok? <==> ParseStyleAttrs(ParseSpec(s).value.anon.value).Ok?)
    ensures r.Ok? && NeedsInline(defs, r.value.0) ==> Inlined(defs, r.value.0, r.value.1)
  {
    var spec :- ParseSpec(s);
    if NeedsInline(defs, spec) then
      var defs' :- InsertStyleDef(defs, spec.name.value, spec.anon.value);
      Ok((spec, defs'))
    else Ok((spec, defs))
  }

  /** The spec names an inline style the registry does not hold yet. */
  predicate NeedsInline(defs: Registry, c: CellSpec) {
    c.anon.Some? && c.name.Some? && c.name.value !in defs
  }

  /** `after` is `defs` plus the inline style of `c`, filed under its full
      name with the orders that follow the colon; nothing else changed. */
  predicate Inlined(defs: Registry, c: CellSpec, after: Registry)
    requires c.anon.Some? && c.name.Some?
  {
    var n := c.name.value;
    n in after && after[n].name == n && after[n].orders == c.anon.value
    && ParseStyleAttrs(c.anon.value) == Ok(after[n].attrs)
    && after == defs[n := after[n]]
  }

  /** An inline style is registered once: parsing the same text again, with
      the registry the first parse left, changes nothing. */
  lemma InlineStyleRegisteredOnce(defs: Registry, s: string)
    requires ParseCellData(defs, s).Ok?
    ensures var r := ParseCellData(defs, s).value;
      ParseCellData(r.1, s) == Ok((r.0, r.1))
  {
  }

  /** A later parse never replaces a definition the registry already holds,
      whatever the inline orders are. */
  lemma ExistingStyleKept(defs: Registry, s: string, n: string)
    requires ParseCellData(defs, s).Ok? && n in defs
    ensures var r := ParseCellData(defs, s).value.1;
      n in r && r[n] == defs[n]
  {
  }

  // ------------------------------------------------------------ headers

  /** One header cell: its position in the header row, text, style name
      (the area's header style unless the tag names one), merge count and
      plain flag. */
  datatype HdrCol = HdrCol(ix: nat, text: string, fmt: Option<string>, merge: nat, plain: bool)

  /** The header of one column text, for `parseHeader`: like a cell, but a
      tag without a name keeps the default style and no inline style is
      registered. */
  function HeaderOf(ix: nat, col: string, defaultFmt: Option<string>): (r: Result<HdrCol>)
    ensures r.Ok? <==> ParseSpec(col).Ok?
    ensures r.Ok? ==> (r.value.ix == ix && r.value.text == ParseSpec(col).value.data
      && r.value.merge == ParseSpec(col).value.merge && r.value.plain == ParseSpec(col).value.plain
      && r.value.fmt == (if ParseSpec(col).value.name.Some? then ParseSpec(col).value.name else defaultFmt))
    // a column without a specifier is its own text in the header style
    ensures MatchTag(col).None? ==> r == Ok(HdrCol(ix, col, defaultFmt, 0, false))
  {
    var spec :- ParseSpec(col);
    Ok(HdrCol(ix, spec.data, if spec.name.Some? then spec.name else defaultFmt, spec.merge, spec.plain))
  }

  /** The header read back from a rendered specifier carries the spec's
      text, merge count and plain flag, and its style name or else the
      header style. */
  lemma HeaderOfRendered(ix: nat, c: CellSpec, defaultFmt: Option<string>)
    requires WellFormedSpec(c)
    ensures HeaderOf(ix, RenderSpec(c), defaultFmt)
      == Ok(HdrCol(ix, c.data, if c.name.Some? then c.name else defaultFmt, c.merge, c.plain))
  {
    ParseRenderSpec(c);
  }

  /** Parse a header row: the text is split at every `/` (trailing empty
      columns dropped, as `String.split` does) and each column is read as a
      header cell in turn. */
  function ParseHeader(cols: string, defaultFmt: Option<string>): (r: Result<seq<HdrCol>>)
    ensures r.Ok? ==> |r.value| == |JavaSplit(cols, '/')|
    ensures r.Ok? ==> forall i :: 0 <= i < |r.value| ==> HeaderOf(i, JavaSplit(cols, '/')[i], defaultFmt) == Ok(r.value[i])
    ensures r.Err? ==> exists i :: 0 <= i < |JavaSplit(cols, '/')| && ParseSpec(JavaSplit(cols, '/')[i]).Err?
  {
    HeadersFrom(JavaSplit(cols, '/'), 0, defaultFmt)
  }

  function HeadersFrom(parts: seq<string>, from: nat, defaultFmt: Option<string>): (r: Result<seq<HdrCol>>)
    requires from <= |parts|
    decreases |parts| - from
    ensures r.Ok? ==> |r.value| == |parts| - from
    ensures r.Ok? ==> forall i :: 0 <= i < |r.value| ==> HeaderOf(from + i, parts[from + i], defaultFmt) == Ok(r.value[i])
    ensures r.Err? ==> exists i :: from <= i < |parts| && ParseSpec(parts[i]).Err?
  {
    if from == |parts| then Ok([])
    else
      match HeaderOf(from, parts[from], defaultFmt)
      case Err(e) => Err(e)
      case Ok(h) =>
        match HeadersFrom(parts, from + 1, defaultFmt)
        case Err(e) => Err(e)
        case Ok(tail) =>
          HeadersCons(parts, from, defaultFmt, h, tail);
          Ok([h] + tail)
  }

  lemma HeadersCons(parts: seq<string>, from: nat, defaultFmt: Option<string>, h: HdrCol, tail: seq<HdrCol>)
    requires from < |parts| && HeaderOf(from, parts[from], defaultFmt) == Ok(h)
    requires |tail| == |parts| - from - 1
    requires forall i :: 0 <= i < |tail| ==> HeaderOf(from + 1 + i, parts[from + 1 + i], defaultFmt) == Ok(tail[i])
    ensures forall i :: 0 <= i < |[h] + tail| ==> HeaderOf(from + i, parts[from + i], defaultFmt) == Ok(([h] + tail)[i])
  {
    var r := [h] + tail;
    forall i | 0 <= i < |r| ensures HeaderOf(from + i, parts[from + i], defaultFmt) == Ok(r[i]) {
      if i > 0 {
        assert r[i] == tail[i - 1] && from + i == from + 1 + (i - 1);
      }
    }
  }

  /** A header row without any tag reads as its `/`-separated texts, each
      with the default style and no merge. */
  lemma PlainHeaderTexts(cols: string, defaultFmt: Option<string>)
    requires '{' !in cols
    ensures ParseHeader(cols, defaultFmt).Ok?
    ensures var hs := ParseHeader(cols, defaultFmt).value;
      forall i :: 0 <= i < |hs| ==> hs[i] == HdrCol(i, JavaSplit(cols, '/')[i], defaultFmt, 0, false)
  {
    var parts := JavaSplit(cols, '/');
    JavaSplitWithin(cols, '/');
    forall i | 0 <= i < |parts| ensures MatchTag(parts[i]).None? {
      assert '{' !in parts[i];
    }
  }
}
