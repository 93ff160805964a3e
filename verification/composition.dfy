/** Style composition: the cache key a cell's style is filed under, the
    realized style built from a named style, a row style and a data-format
    rule, and the cache from keys to created styles. */
module Composition {
  import opened Results
  import opened JavaText
  import opened StyleOrders
  import opened DataFormats

  // ------------------------------------------------------ realized style

  datatype FontColor = DefaultColor | LinkBlue | Colored(c: Color)

  datatype Font = Font(
    family: Option<string>,
    bold: bool,
    italic: bool,
    strike: bool,
    points: Option<string>,
    underline: bool,
    color: FontColor)

  datatype Border = NoBorder | Medium | Double

  /** A created cell style, recorded by the settings made on it. The
      alignments hold `L`/`C`/`R` and `T`/`M`/`B`. */
  datatype Realized = Realized(
    dataFormat: Option<string>,
    font: Option<Font>,
    fill: Option<Color>,
    hAlign: Option<char>,
    vAlign: Option<char>,
    borderTop: Border,
    borderBottom: Border,
    exit: Option<string>)

  /** A point size the font receives: its value as a `double` must be
      non-zero, that is, some digit of it is not `0`. */
  function PointsOf(points: Option<string>): (r: Option<string>)
    ensures r.Some? <==> points.Some? && exists i :: 0 <= i < |points.value| && IsDigit(points.value[i]) && points.value[i] != '0'
  {
    match points
    case None => None
    case Some(p) => if exists i :: 0 <= i < |p| && IsDigit(p[i]) && p[i] != '0' then Some(p) else None
  }

  /** A run of digits stands for a non-zero number exactly when one of its
      digits is not `0`. */
  lemma {:induction false} DigitsNonZero(s: string)
    requires AllDigits(s)
    ensures DigitsValue(s) > 0 <==> exists i :: 0 <= i < |s| && s[i] != '0'
  {
    if |s| > 0 {
      var pre := s[..|s| - 1];
      assert AllDigits(pre) by {
        assert forall i :: 0 <= i < |pre| ==> pre[i] == s[i];
      }
      DigitsNonZero(pre);
      if DigitsValue(s) > 0 && DigitsValue(pre) > 0 {
        var i :| 0 <= i < |pre| && pre[i] != '0';
        assert s[i] == pre[i];
      }
      if exists i :: 0 <= i < |s| && s[i] != '0' {
        var i :| 0 <= i < |s| && s[i] != '0';
        if i < |pre| {
          assert pre[i] == s[i];
        }
      }
    }
  }

  /** The point sizes the points order accepts, `[0-9]+` or
      `[0-9]+.[0-9]+`, reach the font exactly when the number they spell
      (scaled by the power of ten of the fraction's length) is not zero. */
  lemma PointsOfNumber(a: string, b: string)
    requires |a| > 0 && AllDigits(a) && AllDigits(b)
    ensures PointsOf(Some(a)).Some? <==> DigitsValue(a) > 0
    ensures |b| > 0 ==>
      (PointsOf(Some(a + "." + b)).Some? <==> DigitsValue(a) * Pow10(|b|) + DigitsValue(b) > 0)
  {
    DigitsNonZero(a);
    DigitsNonZero(b);
    NonZeroDigitOfFraction(a, b);
    var p := Pow10(|b|);
    assert DigitsValue(a) * p + DigitsValue(b) > 0 <==> DigitsValue(a) > 0 || DigitsValue(b) > 0 by {
      if DigitsValue(a) > 0 {
        PositiveProduct(DigitsValue(a), p);
      }
    }
  }

  lemma PositiveProduct(x: int, y: int)
    requires x > 0 && y > 0
    ensures x * y > 0
  {
  }

  /** A non-zero digit of `a.b` is one of `a` or of `b`. */
  lemma NonZeroDigitOfFraction(a: string, b: string)
    requires AllDigits(a) && AllDigits(b)
    ensures var s := a + "." + b;
      (exists i :: 0 <= i < |s| && IsDigit(s[i]) && s[i] != '0') <==>
      (exists i :: 0 <= i < |a| && a[i] != '0') || (exists i :: 0 <= i < |b| && b[i] != '0')
  {
    var s := a + "." + b;
    if exists i :: 0 <= i < |s| && IsDigit(s[i]) && s[i] != '0' {
      var i :| 0 <= i < |s| && IsDigit(s[i]) && s[i] != '0';
      if i < |a| {
        assert a[i] == s[i];
      } else {
        assert b[i - |a| - 1] == s[i];
      }
    }
    if exists i :: 0 <= i < |a| && a[i] != '0' {
      var i :| 0 <= i < |a| && a[i] != '0';
      assert s[i] == a[i] && IsDigit(a[i]);
    }
    if exists i :: 0 <= i < |b| && b[i] != '0' {
      var i :| 0 <= i < |b| && b[i] != '0';
      assert s[|a| + 1 + i] == b[i] && IsDigit(b[i]);
    }
  }

  /** The font a style's attributes ask for. A link without a foreground
      colour is underlined in blue. */
  function FontOf(a: StyleAttrs): (f: Font)
    ensures f.family == a.fontFamily && f.bold == a.bold && f.italic == a.italic && f.strike == a.strike
    ensures f.points == PointsOf(a.points)
    ensures f.underline <==> a.link && a.fore.None?
    ensures a.fore.Some? ==> f.color == Colored(a.fore.value)
    ensures a.fore.None? ==> f.color == (if a.link then LinkBlue else DefaultColor)
  {
    Font(a.fontFamily, a.bold, a.italic, a.strike, PointsOf(a.points),
         a.link && a.fore.None?,
         if a.fore.Some? then Colored(a.fore.value) else if a.link then LinkBlue else DefaultColor)
  }

  /** The top border a total order draws. */
  function TopBorder(tot: Option<char>): Border {
    if tot == Some('-') then Medium else if tot == Some('~') || tot == Some('=') then Double else NoBorder
  }

  /** `performStyleMerge`. Without a named style the row style becomes the
      primary one. The primary style gives the font (when it needs one),
      fill, horizontal alignment, borders and exit; a data format defaults
      the horizontal alignment to right and, when the primary style has no
      vertical alignment, the vertical one to centre. The vertical orders
      themselves never arrive: the source dispatches the vertical switch on
      the horizontal character. A background-only row style fills the cell
      when the primary style has no fill of its own. */
  function PerformStyleMerge(sd: Option<StyleDef>, rowSd: Option<StyleDef>, rule: Rule): (r: Realized)
    ensures r.dataFormat == rule.fmt
    ensures var p := if sd.Some? then sd else rowSd;
      && (p.None? ==> r == Realized(rule.fmt, None, None, None, None, NoBorder, NoBorder, None))
      && (p.Some? ==> (r.font.Some? <==> p.value.attrs.needFont))
      && (p.Some? ==> r.exit == p.value.attrs.custExit)
      && (p.Some? && p.value.attrs.back.Some? ==> r.fill == p.value.attrs.back)
    // the primary style's font, alignments and total borders
    ensures var p := if sd.Some? then sd else rowSd;
      p.Some? ==> var a := p.value.attrs;
        && r.font == (if a.needFont then Some(FontOf(a)) else None)
        && r.hAlign == (if a.hAlign.Some? then a.hAlign else if rule.fmt.Some? then Some('R') else None)
        && r.vAlign == (if rule.fmt.Some? && a.vAlign.None? then Some('M') else None)
        && (a.tot == Some('-') ==> r.borderTop == Medium && r.borderBottom == NoBorder)
        && (a.tot == Some('~') ==> r.borderTop == Double && r.borderBottom == NoBorder)
        && (a.tot == Some('=') ==> r.borderTop == Double && r.borderBottom == Double)
        && (a.tot.None? ==> r.borderTop == NoBorder && r.borderBottom == NoBorder)
    ensures sd.Some? && sd.value.attrs.back.None? ==>
      r.fill == (if rowSd.Some? && rowSd.value.attrs.backOnly then rowSd.value.attrs.back else None)
    ensures r.vAlign.Some? ==> r.vAlign == Some('M') && rule.fmt.Some?
    ensures rule.fmt.Some? && (sd.Some? || rowSd.Some?) ==> r.hAlign.Some?
  {
    var (p, row) := if sd.None? then (rowSd, None) else (sd, rowSd);
    match p
    case None => Realized(rule.fmt, None, None, None, None, NoBorder, NoBorder, None)
    case Some(d) =>
      var a := d.attrs;
      var withFormat := rule.fmt.Some?;
      var fill := if a.back.Some? then a.back
        else if row.Some? && row.value.attrs.backOnly then row.value.attrs.back
        else None;
      Realized(
        dataFormat := rule.fmt,
        font := if a.needFont then Some(FontOf(a)) else None,
        fill := fill,
        hAlign := if withFormat && a.hAlign.None? then Some('R') else a.hAlign,
        vAlign := if withFormat && a.vAlign.None? then Some('M') else None,
        borderTop := TopBorder(a.tot),
        borderBottom := if a.tot == Some('=') then Double else NoBorder,
        exit := a.custExit)
  }

  /** The vertical orders `T`, `M` and `B` have no effect on the realized
      style: two attribute records that differ only there compose to the
      same style. */
  lemma VerticalOrdersIgnored(d: StyleDef, v: Option<char>, rowSd: Option<StyleDef>, rule: Rule)
    requires d.attrs.vAlign.Some? && v.Some?
    ensures var d' := d.(attrs := d.attrs.(vAlign := v));
      PerformStyleMerge(Some(d'), rowSd, rule) == PerformStyleMerge(Some(d), rowSd, rule)
  {
  }

  // -------------------------------------------------------- style key

  /** What `chooseStyle` settles on before consulting the cache. */
  datatype Choice =
    | NoStyle
    | DataOnly(key: string)
    | Merged(key: string, sd: Option<StyleDef>, rowSd: Option<StyleDef>)

  /** `chooseStyle` up to the cache lookup. No row style, no name and a
      catch-all rule mean no style. With neither row style nor name the key
      is the rule name alone. Otherwise a defined named style adds `/name`;
      a defined row style adds `/row` when no named style resolved, or when
      the named style has no fill and the row style is background-only; in
      every other case the row style is dropped. */
  function Choose(defs: Registry, name: Option<string>, rowFmt: Option<string>, rule: Rule): (c: Choice)
    ensures c.NoStyle? <==> rowFmt.None? && rule.pattern.None? && name.None?
    ensures c.DataOnly? <==> rowFmt.None? && name.None? && rule.pattern.Some?
    ensures c.DataOnly? ==> c.key == rule.name
    ensures c.Merged? ==> (c.sd.Some? <==> name.Some? && name.value in defs)
    ensures c.Merged? && c.sd.Some? ==> c.sd.value == defs[name.value]
    ensures c.Merged? && c.rowSd.Some? ==> rowFmt.Some? && rowFmt.value in defs && c.rowSd.value == defs[rowFmt.value]
    ensures c.Merged? && rowFmt.Some? && rowFmt.value in defs ==>
      (c.rowSd.Some? <==> c.sd.None? || (c.sd.value.attrs.back.None? && defs[rowFmt.value].attrs.backOnly))
    ensures c.Merged? ==> StartsWith(c.key, rule.name)
  {
    if rowFmt.None? && rule.pattern.None? && name.None? then NoStyle
    else if rowFmt.None? && name.None? then DataOnly(rule.name)
    else
      var sd := if name.Some? && name.value in defs then Some(defs[name.value]) else None;
      var key1 := if sd.Some? then rule.name + "/" + name.value else rule.name;
      var rowSd := if rowFmt.Some? && rowFmt.value in defs then Some(defs[rowFmt.value]) else None;
      var useRow := rowSd.Some? && (sd.None? || (sd.value.attrs.back.None? && rowSd.value.attrs.backOnly));
      var key := if useRow then key1 + "/" + rowFmt.value else key1;
      Merged(key, sd, if useRow then rowSd else None)
  }

  /** The key spells out what was chosen: split at `/` it lists the rule
      name, then the named style if one resolved, then the row style if it
      was applied (names without `/` assumed). */
  lemma KeyListsChoice(defs: Registry, name: Option<string>, rowFmt: Option<string>, rule: Rule)
    requires '/' !in rule.name
    requires name.Some? ==> '/' !in name.value
    requires rowFmt.Some? ==> '/' !in rowFmt.value
    requires Choose(defs, name, rowFmt, rule).Merged?
    ensures var c := Choose(defs, name, rowFmt, rule);
      SplitAll(c.key, '/') == [rule.name]
        + (if c.sd.Some? then [name.value] else [])
        + (if c.rowSd.Some? then [rowFmt.value] else [])
  {
    var c := Choose(defs, name, rowFmt, rule);
    var parts := [rule.name] + (if c.sd.Some? then [name.value] else []) + (if c.rowSd.Some? then [rowFmt.value] else []);
    assert forall k :: 0 <= k < |parts| ==> '/' !in parts[k];
    SplitAllOfJoin(parts, '/');
    if c.sd.Some? && c.rowSd.Some? {
      JoinThree(rule.name, name.value, rowFmt.value, '/');
    } else if c.sd.Some? {
      JoinTwo(rule.name, name.value, '/');
    } else if c.rowSd.Some? {
      JoinTwo(rule.name, rowFmt.value, '/');
    }
  }

  /** A named style with its own fill always wins over a row style. */
  lemma FilledNameBeatsRow(defs: Registry, name: string, rowFmt: string, rule: Rule)
    requires name in defs && defs[name].attrs.back.Some?
    ensures var c := Choose(defs, Some(name), Some(rowFmt), rule);
      c.Merged? && c.rowSd.None? && c.key == rule.name + "/" + name
  {
  }

  // --------------------------------------------------------------- cache

  /** Created styles, in creation order, and the key each was filed under
      (a handle is a position in `styles`). */
  datatype StyleCache = StyleCache(keys: map<string, nat>, styles: seq<Realized>)

  predicate ValidCache(c: StyleCache) {
    forall k :: k in c.keys ==> c.keys[k] < |c.styles|
  }

  const EMPTY_CACHE := StyleCache(map[], [])

  /** `registerStyle` behind a cache lookup: an equal key returns the handle
      filed under it; a miss creates exactly one style and files it. */
  function Lookup(c: StyleCache, key: string, make: Realized): (r: (nat, StyleCache))
    requires ValidCache(c)
    ensures ValidCache(r.1)
    ensures key in r.1.keys && r.1.keys[key] == r.0 && r.0 < |r.1.styles|
    ensures key in c.keys ==> r == (c.keys[key], c)
    ensures key !in c.keys ==>
      r.1.styles == c.styles + [make] && r.0 == |c.styles| && r.1.keys == c.keys[key := r.0]
  {
    if key in c.keys then (c.keys[key], c)
    else
      var h := |c.styles|;
      (h, StyleCache(c.keys[key := h], c.styles + [make]))
  }

  /** A lookup never disturbs what earlier handles refer to. */
  lemma LookupKeepsHandles(c: StyleCache, key: string, make: Realized, k: string)
    requires ValidCache(c) && k in c.keys
    ensures var r := Lookup(c, key, make).1;
      k in r.keys && r.keys[k] == c.keys[k] && r.styles[c.keys[k]] == c.styles[c.keys[k]]
  {
  }

  /** `chooseStyle` with the cache: the handle of the style a cell gets, if
      any, and the cache afterwards. */
  function ChooseStyle(c: StyleCache, defs: Registry, name: Option<string>, rowFmt: Option<string>, rule: Rule): (r: (Option<nat>, StyleCache))
    requires ValidCache(c)
    ensures ValidCache(r.1)
    ensures r.0.None? <==> rowFmt.None? && rule.pattern.None? && name.None?
    ensures r.0.None? ==> r.1 == c
    ensures r.0.Some? ==> r.0.value < |r.1.styles|
    ensures |c.styles| <= |r.1.styles| <= |c.styles| + 1 && r.1.styles[..|c.styles|] == c.styles
  {
    match Choose(defs, name, rowFmt, rule)
    case NoStyle => (None, c)
    case DataOnly(key) =>
      var (h, c') := Lookup(c, key, Realized(rule.fmt, None, None, None, None, NoBorder, NoBorder, None));
      (Some(h), c')
    case Merged(key, sd, rowSd) =>
      var (h, c') := Lookup(c, key, PerformStyleMerge(sd, rowSd, rule));
      (Some(h), c')
  }

  /** Asking twice for the same style gives the same handle and creates
      nothing the second time. */
  lemma ChooseStyleIdempotent(c: StyleCache, defs: Registry, name: Option<string>, rowFmt: Option<string>, rule: Rule)
    requires ValidCache(c)
    ensures var (h, c1) := ChooseStyle(c, defs, name, rowFmt, rule);
      ChooseStyle(c1, defs, name, rowFmt, rule) == (h, c1)
  {
  }

  /** A style created on a miss is the merge of what was chosen. */
  lemma MissCreatesMerge(c: StyleCache, defs: Registry, name: Option<string>, rowFmt: Option<string>, rule: Rule)
    requires ValidCache(c)
    requires Choose(defs, name, rowFmt, rule).Merged?
    requires Choose(defs, name, rowFmt, rule).key !in c.keys
    ensures var ch := Choose(defs, name, rowFmt, rule);
      var (h, c1) := ChooseStyle(c, defs, name, rowFmt, rule);
      h == Some(|c.styles|) && c1.styles == c.styles + [PerformStyleMerge(ch.sd, ch.rowSd, rule)]
  {
  }
}
