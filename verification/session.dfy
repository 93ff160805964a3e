/** The writer's session: the negative-number policy, the style
    definitions, the data-format rules in registration order and the cache
    of created styles, threaded through every call that can change them.
    The standard styles and the builtin rules are set up by the first
    `createArea`, once. */
module Session {
  import opened Results
  import opened JavaText
  import opened StyleOrders
  import opened FormatSpec
  import opened DataFormats
  import opened Composition
  import opened Areas

  datatype Book = Book(
    neg: NegPolicy,
    initialized: bool,
    defs: Registry,
    rules: seq<Rule>,
    cache: StyleCache)

  /** A writer as constructed: no policy, nothing registered. */
  const NEW_BOOK: Book := Book(NegPolicy(false, None), false, map[], [], EMPTY_CACHE)

  predicate ValidBook(b: Book) { ValidCache(b.cache) }

  // ------------------------------------------------------ registration

  /** `setNegativeFormat`: the policy applies to the rules registered
      after it; rules already registered keep their formats. */
  function SetNegativeFormat(b: Book, red: bool, fmt: Option<string>): (r: Book)
    ensures r.neg == NegPolicy(red, fmt)
    ensures r.rules == b.rules && r.defs == b.defs && r.cache == b.cache && r.initialized == b.initialized
  {
    b.(neg := NegPolicy(red, fmt))
  }

  /** `addDataFormat`: append a rule with a user pattern (or a catch-all
      when there is none) under the policy now in force. */
  function AddDataFormat(b: Book, name: string, regex: Option<string>, fmt: Option<string>): (r: Result<Book>)
    ensures var pattern := if regex.Some? then Some(User(regex.value)) else None;
      && (r.Ok? <==> CreateDataFormat(b.neg, name, pattern, fmt).Ok?)
      && (r.Ok? ==> r.value == b.(rules := b.rules + [CreateDataFormat(b.neg, name, pattern, fmt).value]))
  {
    var pattern := if regex.Some? then Some(User(regex.value)) else None;
    var rule :- CreateDataFormat(b.neg, name, pattern, fmt);
    Ok(b.(rules := b.rules + [rule]))
  }

  /** `addStyleDefn`: file a named style, replacing any definition of the
      name. */
  function AddStyleDefn(b: Book, name: string, orders: string): (r: Result<Book>)
    ensures r.Ok? <==> ParseStyleAttrs(orders).Ok?
    ensures r.Ok? ==> r.value == b.(defs := r.value.defs)
    ensures r.Ok? ==> Defines(r.value.defs, name, orders)
    ensures r.Ok? ==> r.value.defs == b.defs[name := r.value.defs[name]]
  {
    AddStyleDefnFiles(b.defs, name, orders);
    match InsertStyleDef(b.defs, name, orders)
    case Err(e) => Err(e)
    case Ok(defs) => Ok(b.(defs := defs))
  }

  lemma AddStyleDefnFiles(defs: Registry, name: string, orders: string)
    ensures InsertStyleDef(defs, name, orders).Ok? <==> ParseStyleAttrs(orders).Ok?
    ensures InsertStyleDef(defs, name, orders).Ok? ==> Defines(InsertStyleDef(defs, name, orders).value, name, orders)
  {
  }

  // ---------------------------------------------------- standard styles

  /** The header styles, the common variations and the background fills
      set up with the builtin rules, in registration order. */
  const HDR_EXTRAS: seq<(string, string)> :=
    [("#hdr", "bC"), ("#title", "b16C"), ("#hdrBlue", "bCBG(pale-blue)")]
  const STD_EXTRAS: seq<(string, string)> :=
    [("#sub", "-"), ("#tot", "~"), ("#fin", "="), ("#lnk", "l"), ("#lkc", "lC")]

  /** The background fills: name and the three components of its colour. */
  const FILLS: seq<(string, string, string, string)> := [
    ("#evn", "245", "255", "245"), ("#odd", "245", "245", "255"),
    ("#qtr", "255", "200", "145"), ("#TOT", "255", "168", "80")]

  function FillOrders(f: (string, string, string, string)): string {
    "BG(" + f.1 + "," + f.2 + "," + f.3 + ")"
  }

  function FillPairs(fills: seq<(string, string, string, string)>): (r: seq<(string, string)>)
    ensures |r| == |fills|
    ensures forall k :: 0 <= k < |r| ==> r[k] == (fills[k].0, FillOrders(fills[k]))
  {
    if |fills| == 0 then [] else [(fills[0].0, FillOrders(fills[0]))] + FillPairs(fills[1..])
  }

  /** Every standard style, in the order the first `createArea` files them. */
  function StandardStyles(): (r: seq<(string, string)>)
    ensures |r| == 12
  {
    HDR_EXTRAS + STD_EXTRAS + FillPairs(FILLS)
  }

  /** Every order string of the list parses under `parse`. */
  predicate AllParse(pairs: seq<(string, string)>, parse: string -> Result<StyleAttrs>) {
    forall k :: 0 <= k < |pairs| ==> parse(pairs[k].1).Ok?
  }

  lemma AllParseSplit(pairs: seq<(string, string)>, parse: string -> Result<StyleAttrs>)
    requires |pairs| > 0
    ensures AllParse(pairs, parse) <==> parse(pairs[0].1).Ok? && AllParse(pairs[1..], parse)
  {
    if parse(pairs[0].1).Ok? && AllParse(pairs[1..], parse) {
      forall k | 0 <= k < |pairs| ensures parse(pairs[k].1).Ok? {
        if k > 0 { assert pairs[k] == pairs[1..][k - 1]; }
      }
    }
  }

  /** File each pair in turn, later ones replacing earlier ones; `parse`
      stands for the order parser, which the filing does not depend on
      (the session passes `ParseStyleAttrs`). */
  function FileAll(defs: Registry, pairs: seq<(string, string)>, parse: string -> Result<StyleAttrs>): (r: Result<Registry>)
    decreases |pairs|
    ensures r.Ok? <==> AllParse(pairs, parse)
  {
    if |pairs| == 0 then Ok(defs)
    else
      AllParseSplit(pairs, parse);
      match FileStyle(defs, pairs[0].0, pairs[0].1, parse(pairs[0].1))
      case Err(e) => Err(e)
      case Ok(d1) => FileAll(d1, pairs[1..], parse)
  }

  /** No later pair files the same name as pair `k`. */
  predicate LastNamed(pairs: seq<(string, string)>, k: int)
    requires 0 <= k < |pairs|
  {
    forall j :: k < j < |pairs| ==> pairs[j].0 != pairs[k].0
  }

  predicate Names(pairs: seq<(string, string)>, n: string) {
    exists k :: 0 <= k < |pairs| && pairs[k].0 == n
  }

  /** A name the list does not file keeps its definition. */
  lemma {:induction false} FileAllKeeps(defs: Registry, pairs: seq<(string, string)>, parse: string -> Result<StyleAttrs>, n: string)
    requires AllParse(pairs, parse) && n in defs && !Names(pairs, n)
    decreases |pairs|
    ensures FileAll(defs, pairs, parse).Ok?
    ensures n in FileAll(defs, pairs, parse).value && FileAll(defs, pairs, parse).value[n] == defs[n]
  {
    if |pairs| > 0 {
      AllParseSplit(pairs, parse);
      var d1 := FileStyle(defs, pairs[0].0, pairs[0].1, parse(pairs[0].1)).value;
      var tail := pairs[1..];
      assert pairs[0].0 != n;
      FileAllKeeps(d1, tail, parse, n);
    }
  }

  /** The last pair filing a name decides its definition. */
  lemma {:induction false} FileAllDefines(defs: Registry, pairs: seq<(string, string)>, parse: string -> Result<StyleAttrs>, k: nat)
    requires AllParse(pairs, parse) && k < |pairs| && LastNamed(pairs, k)
    decreases |pairs|
    ensures FileAll(defs, pairs, parse).Ok?
    ensures var r := FileAll(defs, pairs, parse).value;
      pairs[k].0 in r && r[pairs[k].0] == StyleDef(pairs[k].0, pairs[k].1, parse(pairs[k].1).value)
  {
    AllParseSplit(pairs, parse);
    var d1 := FileStyle(defs, pairs[0].0, pairs[0].1, parse(pairs[0].1)).value;
    var tail := pairs[1..];
    if k == 0 {
      assert !Names(tail, pairs[0].0) by {
        forall j | 0 <= j < |tail| ensures tail[j].0 != pairs[0].0 {
          assert tail[j] == pairs[j + 1];
        }
      }
      FileAllKeeps(d1, tail, parse, pairs[0].0);
    } else {
      assert tail[k - 1] == pairs[k];
      assert LastNamed(tail, k - 1) by {
        forall j | k - 1 < j < |tail| ensures tail[j].0 != tail[k - 1].0 {
          assert tail[j] == pairs[j + 1];
        }
      }
      FileAllDefines(d1, tail, parse, k - 1);
    }
  }

  /** A background order naming an RGB triple of short digit strings. */
  predicate FillShaped(f: (string, string, string, string)) {
    && 0 < |f.1| <= 9 && 0 < |f.2| <= 9 && 0 < |f.3| <= 9
    && AllDigits(f.1) && AllDigits(f.2) && AllDigits(f.3)
  }

  /** A fill of that shape parses to a background-only style of its
      colour, each component reduced to a byte. */
  lemma FillIsBackOnly(f: (string, string, string, string))
    requires FillShaped(f)
    ensures var p := ParseStyleAttrs(FillOrders(f));
      p.Ok? && p.value.backOnly
      && p.value.back == Some(Rgb(DigitsValue(f.1) % 256, DigitsValue(f.2) % 256, DigitsValue(f.3) % 256))
  {
    ShortDigitsFit(f.1);
    ShortDigitsFit(f.2);
    ShortDigitsFit(f.3);
    BackgroundTripleIsBackOnly(f.1, f.2, f.3);
  }

  lemma FillParses(f: (string, string, string, string))
    requires FillShaped(f)
    ensures ParseStyleAttrs(FillOrders(f)).Ok?
  {
    FillIsBackOnly(f);
  }

  lemma CommaFreeParse(pairs: seq<(string, string)>)
    requires forall k :: 0 <= k < |pairs| ==> ',' !in pairs[k].1
    ensures AllParse(pairs, ParseStyleAttrs)
  {
    forall k | 0 <= k < |pairs| ensures ParseStyleAttrs(pairs[k].1).Ok? {
      NoCommaParses(pairs[k].1);
    }
  }

  lemma FillsParse(fills: seq<(string, string, string, string)>)
    requires forall i :: 0 <= i < |fills| ==> FillShaped(fills[i])
    ensures AllParse(FillPairs(fills), ParseStyleAttrs)
  {
    EachFillParses(fills);
    FillPairsParse(fills, ParseStyleAttrs);
  }

  /** Each fill's background order parses under `parse`. */
  predicate FillsParseBy(fills: seq<(string, string, string, string)>, parse: string -> Result<StyleAttrs>) {
    forall i :: 0 <= i < |fills| ==> parse(FillOrders(fills[i])).Ok?
  }

  lemma EachFillParses(fills: seq<(string, string, string, string)>)
    requires forall i :: 0 <= i < |fills| ==> FillShaped(fills[i])
    ensures FillsParseBy(fills, ParseStyleAttrs)
  {
    forall i | 0 <= i < |fills| ensures ParseStyleAttrs(FillOrders(fills[i])).Ok? {
      FillParses(fills[i]);
    }
  }

  lemma FillPairsParse(fills: seq<(string, string, string, string)>, parse: string -> Result<StyleAttrs>)
    requires FillsParseBy(fills, parse)
    ensures AllParse(FillPairs(fills), parse)
  {
  }

  lemma AllParseConcat(a: seq<(string, string)>, b: seq<(string, string)>, parse: string -> Result<StyleAttrs>)
    requires AllParse(a, parse) && AllParse(b, parse)
    ensures AllParse(a + b, parse)
  {
    forall k | 0 <= k < |a + b| ensures parse((a + b)[k].1).Ok? {
      if k >= |a| { assert (a + b)[k] == b[k - |a|]; }
    }
  }

  lemma StandardShapes()
    ensures forall k :: 0 <= k < |HDR_EXTRAS + STD_EXTRAS| ==> ',' !in (HDR_EXTRAS + STD_EXTRAS)[k].1
    ensures forall i :: 0 <= i < |FILLS| ==> FillShaped(FILLS[i])
  {
  }

  /** Every standard order string parses: none but the fills has a comma,
      and the fills' components are short digit strings. */
  lemma StandardStylesParse()
    ensures AllParse(StandardStyles(), ParseStyleAttrs)
  {
    StandardShapes();
    CommaFreeParse(HDR_EXTRAS + STD_EXTRAS);
    FillsParse(FILLS);
    AllParseConcat(HDR_EXTRAS + STD_EXTRAS, FillPairs(FILLS), ParseStyleAttrs);
  }

  /** The standard names are all different. */
  lemma StandardNamesDistinct()
    ensures forall k :: 0 <= k < 12 ==> LastNamed(StandardStyles(), k)
  {
  }

  /** The setup of the first `createArea`: the builtin rules go after the
      rules registered so far, and the standard styles are filed over
      whatever the registry holds. Only an unknown negative policy makes
      it fail, and then nothing is registered. */
  function Initialize(b: Book): (r: Result<Book>)
    ensures r.Ok? <==> KnownPolicy(b.neg)
    ensures r.Ok? ==> r.value.rules == b.rules + Builtins(b.neg).value
    ensures r.Ok? ==> r.value.neg == b.neg && r.value.initialized == b.initialized && r.value.cache == b.cache
  {
    match AddBuiltins(b)
    case Err(e) => Err(e)
    case Ok(b1) =>
      StandardStylesParse();
      FileStandardStyles(b1)
  }

  /** The builtin rules, registered under the policy in force after the
      rules already there. */
  function AddBuiltins(b: Book): (r: Result<Book>)
    ensures r.Ok? <==> KnownPolicy(b.neg)
    ensures r.Ok? ==> r.value == b.(rules := b.rules + Builtins(b.neg).value)
  {
    match Builtins(b.neg)
    case Err(e) => Err(e)
    case Ok(builtins) => Ok(b.(rules := b.rules + builtins))
  }

  /** The standard styles, filed in order over the registry. */
  function FileStandardStyles(b: Book): (r: Result<Book>)
    ensures r.Ok? <==> AllParse(StandardStyles(), ParseStyleAttrs)
    ensures r.Ok? ==> r.value == b.(defs := r.value.defs)
  {
    match FileAll(b.defs, StandardStyles(), ParseStyleAttrs)
    case Err(e) => Err(e)
    case Ok(defs) => Ok(b.(defs := defs))
  }

  /** After setting up, every standard style is defined by its standard
      orders; a definition the caller made earlier under a standard name
      has been replaced. */
  lemma InitializeDefines(b: Book, k: nat)
    requires KnownPolicy(b.neg) && k < 12
    ensures Initialize(b).Ok?
    ensures Defines(Initialize(b).value.defs, StandardStyles()[k].0, StandardStyles()[k].1)
  {
    StandardStylesParse();
    StandardNamesDistinct();
    FileAllDefines(b.defs, StandardStyles(), ParseStyleAttrs, k);
  }

  /** Setting up leaves every other name's definition alone. */
  lemma InitializeKeeps(b: Book, n: string)
    requires KnownPolicy(b.neg) && n in b.defs && !Names(StandardStyles(), n)
    ensures Initialize(b).Ok?
    ensures n in Initialize(b).value.defs && Initialize(b).value.defs[n] == b.defs[n]
  {
    StandardStylesParse();
    FileAllKeeps(b.defs, StandardStyles(), ParseStyleAttrs, n);
  }

  /** After setting up, each fill is a background-only style in its
      colour. */
  lemma InitializeFills(b: Book, i: nat)
    requires KnownPolicy(b.neg) && i < |FILLS|
    ensures Initialize(b).Ok? && FillShaped(FILLS[i])
    ensures var d := Initialize(b).value.defs; var f := FILLS[i];
      && f.0 in d && d[f.0].attrs.backOnly
      && d[f.0].attrs.back == Some(Rgb(DigitsValue(f.1) % 256, DigitsValue(f.2) % 256, DigitsValue(f.3) % 256))
  {
    StandardShapes();
    InitializeDefines(b, 8 + i);
    assert StandardStyles()[8 + i] == (FILLS[i].0, FillOrders(FILLS[i]));
    FillDefined(Initialize(b).value.defs, FILLS[i]);
  }

  /** A registry filing a fill holds a background-only style in its
      colour. */
  lemma FillDefined(d: Registry, f: (string, string, string, string))
    requires FillShaped(f) && Defines(d, f.0, FillOrders(f))
    ensures d[f.0].attrs.backOnly
    ensures d[f.0].attrs.back == Some(Rgb(DigitsValue(f.1) % 256, DigitsValue(f.2) % 256, DigitsValue(f.3) % 256))
  {
    FillIsBackOnly(f);
  }

  /** `createArea`: the first call sets the session up (and marks it set up
      even when that fails, so the setup is never tried again); every call
      hands back a fresh area at the given position. */
  function CreateArea(b: Book, sheet: string, row: int, col: int): (r: (Book, Result<Area>))
    ensures r.0.initialized
    ensures b.initialized ==> r == (b, Ok(NewArea(sheet, row, col)))
    ensures !b.initialized ==> (r.1.Ok? <==> KnownPolicy(b.neg))
    ensures r.1.Ok? ==> r.1.value == NewArea(sheet, row, col)
    ensures r.1.Err? ==> r.0 == b.(initialized := true)
  {
    if b.initialized then (b, Ok(NewArea(sheet, row, col)))
    else
      var b1 := b.(initialized := true);
      match Initialize(b1)
      case Err(e) => (b1, Err(e))
      case Ok(b2) => (b2, Ok(NewArea(sheet, row, col)))
  }

  // ------------------------------------------------------ cell content

  /** What storing one cell produced: the session afterwards, the parsed
      format specifier, the value stored, the rule that decided it and the
      style handle, if any. */
  datatype Stored = Stored(book: Book, spec: CellSpec, value: CellValue, rule: nat, style: Option<nat>)

  /** `setCellContent`: parse the cell text (registering an inline style
      the first time), classify the text after the tag by the first rule
      that applies, and choose the cell's style with the row style. */
  function SetCellContent(b: Book, rowFmt: Option<string>, data: string, find: (string, string) -> bool): (r: Result<Stored>)
    requires ValidBook(b)
    ensures r.Ok? ==> ValidBook(r.value.book)
    ensures r.Ok? ==> ParseSpec(data) == Ok(r.value.spec)
    ensures r.Ok? ==> r.value.book == b.(defs := r.value.book.defs, cache := r.value.book.cache)
    ensures r.Ok? ==> ParseCellData(b.defs, data) == Ok((r.value.spec, r.value.book.defs))
    ensures r.Ok? ==> (IsFirstApplicable(b.rules, r.value.spec.data, find, r.value.rule)
      && Convert(b.rules[r.value.rule], r.value.spec.data) == Ok(r.value.value))
    ensures r.Ok? ==> (r.value.style.None? <==>
      rowFmt.None? && r.value.spec.name.None? && b.rules[r.value.rule].pattern.None?)
    ensures ParseCellData(b.defs, data).Ok? ==>
      (r.Ok? <==> Classify(b.rules, ParseCellData(b.defs, data).value.0.data, find).Ok?)
    ensures ParseCellData(b.defs, data).Err? ==> r.Err?
  {
    var (spec, defs) :- ParseCellData(b.defs, data);
    var (v, k) :- Classify(b.rules, spec.data, find);
    var (h, cache) := ChooseStyle(b.cache, defs, spec.name, rowFmt, b.rules[k]);
    Ok(Stored(b.(defs := defs, cache := cache), spec, v, k, h))
  }

  /** The first catch-all rule, as `getDefaultFmt` finds it. */
  function DefaultRule(rules: seq<Rule>): (r: Option<nat>)
    ensures r.Some? ==> (r.value < |rules| && rules[r.value].pattern.None?
      && forall j :: 0 <= j < r.value ==> rules[j].pattern.Some?)
    ensures r.None? ==> forall j :: 0 <= j < |rules| ==> rules[j].pattern.Some?
  {
    if |rules| == 0 then None
    else if rules[0].pattern.None? then Some(0)
    else match DefaultRule(rules[1..])
      case None => None
      case Some(k) => Some(k + 1)
  }

  /** `useLinkStyle`: the style of a link cell is chosen with the catch-all
      rule and the link style (`#lkc` unless another is given) as the row
      style. Without a catch-all rule the source dereferences null. */
  function LinkStyle(b: Book, data: string, linkSty: Option<string>): (r: Result<(Book, nat)>)
    requires ValidBook(b)
    ensures r.Ok? <==> ParseCellData(b.defs, data).Ok? && DefaultRule(b.rules).Some?
    ensures r.Ok? ==> ValidBook(r.value.0) && r.value.0 == b.(defs := r.value.0.defs, cache := r.value.0.cache)
    ensures r.Ok? ==> r.value.1 < |r.value.0.cache.styles|
  {
    var sty := if linkSty.Some? then linkSty.value else "#lkc";
    var (spec, defs) :- ParseCellData(b.defs, data);
    if DefaultRule(b.rules).None? then Err("null dereference: no catch-all data format")
    else
      var rule := b.rules[DefaultRule(b.rules).value];
      var (h, cache) := ChooseStyle(b.cache, defs, spec.name, Some(sty), rule);
      Ok((b.(defs := defs, cache := cache), h.value))
  }

  /** Once the builtins are registered a catch-all rule is always there,
      so after setting up a link style never fails on a well-formed cell
      text. */
  lemma CatchAllAfterBuiltins(user: seq<Rule>, p: NegPolicy)
    requires KnownPolicy(p)
    ensures DefaultRule(user + Builtins(p).value).Some?
  {
    var rules := user + Builtins(p).value;
    assert rules[|user| + 5].pattern.None?;
  }
}
