/** Cell style orders (`bCBG(pale-blue)`, `:b16C`, `FG(255,0,0)~`, ...) and
    the style-definition registry they feed.

    The order string is scanned by a fixed sequence of sub-patterns; each
    one removes its leftmost match from what is left, and what it matched
    sets one attribute. Anything left at the end is only reported in the
    log. The registry maps a style name to its definition; inserting a name
    that is present replaces the definition. */
module StyleOrders {
  import opened Results
  import opened JavaText

  /** A colour order: a literal RGB triple, each component reduced to a
      byte, or a symbolic colour name looked up elsewhere. */
  datatype Color = Rgb(r: int, g: int, b: int) | Named(name: string)

  /** The parsed form of one order string. `Option` fields are the Java
      nulls and zero characters of the source record. */
  datatype StyleAttrs = StyleAttrs(
    backOnly: bool,
    needFont: bool,
    fontFamily: Option<string>,
    custExit: Option<string>,
    bold: bool,
    italic: bool,
    strike: bool,
    points: Option<string>,
    link: bool,
    fore: Option<Color>,
    back: Option<Color>,
    hAlign: Option<char>,
    vAlign: Option<char>,
    tot: Option<char>)

  /** The family the `f` order selects. */
  const FIXED_FONT: string := "Courier New"

  /** The sub-patterns the order string is scanned with. */
  datatype Matcher =
    | Letter(c: char)          // one literal character, such as `b` or `C`
    | ColorOrder(head: char)   // `FG(...)` when head is 'F', `BG(...)` when 'B'
    | ExitOrder                // `CE(name)`
    | FontOrder                // `FF(anything but a parenthesis)`
    | PointSize                // digits, optionally `.` and more digits

  /** The scanning sequence, in the order the parser applies it. */
  const ORDERS: seq<Matcher> := [
    ColorOrder('F'), ColorOrder('B'), ExitOrder, FontOrder,
    Letter('f'), Letter('b'), Letter('i'), Letter('s'), Letter('l'), PointSize,
    Letter('L'), Letter('C'), Letter('R'),
    Letter('T'), Letter('M'), Letter('B'),
    Letter('='), Letter('-'), Letter('~')]

  // Positions in ORDERS.
  const FG := 0
  const BG := 1
  const CE := 2
  const FF := 3
  const FIX := 4
  const BOLD := 5
  const ITALIC := 6
  const STRIKE := 7
  const LINK := 8
  const POINTS := 9
  const H_L := 10
  const H_C := 11
  const H_R := 12
  const V_T := 13
  const V_M := 14
  const V_B := 15
  const T_TOT := 16
  const T_SUB := 17
  const T_FIN := 18

  /** Characters allowed in a colour or exit name after its first one. */
  predicate IsNameChar(c: char) {
    IsAsciiAlnum(c) || c == '-' || c == '_'
  }

  /** End of the run of digits starting at `j`. */
  function DigitSpan(s: string, j: nat): (e: nat)
    requires j <= |s|
    decreases |s| - j
    ensures j <= e <= |s|
    ensures forall i :: j <= i < e ==> IsDigit(s[i])
    ensures e == |s| || !IsDigit(s[e])
  {
    if j < |s| && IsDigit(s[j]) then DigitSpan(s, j + 1) else j
  }

  /** End of the run of name characters starting at `j`. */
  function NameSpan(s: string, j: nat): (e: nat)
    requires j <= |s|
    decreases |s| - j
    ensures j <= e <= |s|
    ensures forall i :: j <= i < e ==> IsNameChar(s[i])
    ensures e == |s| || !IsNameChar(s[e])
  {
    if j < |s| && IsNameChar(s[j]) then NameSpan(s, j + 1) else j
  }

  /** Whether `s` holds the three characters `a b c` at `i`. */
  predicate HasAt3(s: string, i: nat, a: char, b: char, c: char) {
    i + 3 <= |s| && s[i] == a && s[i + 1] == b && s[i + 2] == c
  }

  /** `d+,d+,d+)` starting at `j`: the position just past the `)`. */
  function TripleEnd(s: string, j: nat): (r: Option<nat>)
    requires j <= |s|
    ensures r.Some? ==> j < r.value <= |s| && s[r.value - 1] == ')'
  {
    var e1 := DigitSpan(s, j);
    if e1 == j || e1 >= |s| || s[e1] != ',' then None
    else
      var e2 := DigitSpan(s, e1 + 1);
      if e2 == e1 + 1 || e2 >= |s| || s[e2] != ',' then None
      else
        var e3 := DigitSpan(s, e2 + 1);
        if e3 == e2 + 1 || e3 >= |s| || s[e3] != ')' then None
        else Some(e3 + 1)
  }

  /** The length of the match of `m` that starts at `i`, if one does. Each
      pattern is greedy with a single way to succeed, so this is the match
      the regex engine reports at that position. */
  function MatchLen(m: Matcher, s: string, i: nat): (r: Option<nat>)
    requires i <= |s|
    ensures r.Some? ==> 0 < r.value && i + r.value <= |s|
  {
    match m
    case Letter(c) =>
      if i < |s| && s[i] == c then Some(1) else None
    case ColorOrder(h) =>
      if !HasAt3(s, i, h, 'G', '(') then None
      else
        var j := i + 3;
        if j < |s| && IsAsciiLetter(s[j]) then
          var e := NameSpan(s, j + 1);
          if e > j + 1 && e < |s| && s[e] == ')' then Some(e + 1 - i) else None
        else if j < |s| && IsDigit(s[j]) then
          (match TripleEnd(s, j)
           case Some(e) => Some(e - i)
           case None => None)
        else None
    case ExitOrder =>
      if !HasAt3(s, i, 'C', 'E', '(') then None
      else
        var e := NameSpan(s, i + 3);
        if e > i + 3 && e < |s| && s[e] == ')' then Some(e + 1 - i) else None
    case FontOrder =>
      if !HasAt3(s, i, 'F', 'F', '(') then None
      else
        (match IndexOfFrom(s, ')', i + 3)
         case Some(k) => if k > i + 3 then Some(k + 1 - i) else None
         case None => None)
    case PointSize =>
      if i < |s| && IsDigit(s[i]) then
        var e := DigitSpan(s, i);
        if e + 1 < |s| && s[e] == '.' && IsDigit(s[e + 1]) then Some(DigitSpan(s, e + 1) - i)
        else Some(e - i)
      else None
  }

  predicate MatchesAt(m: Matcher, s: string, i: nat) {
    i <= |s| && MatchLen(m, s, i).Some?
  }

  /** The leftmost position at or after `from` where `m` matches. */
  function FindFrom(m: Matcher, s: string, from: nat): (r: Option<nat>)
    requires from <= |s|
    decreases |s| - from
    ensures r.Some? ==> from <= r.value <= |s| && MatchesAt(m, s, r.value)
    ensures r.Some? ==> forall i :: from <= i < r.value ==> !MatchesAt(m, s, i)
    ensures r.None? ==> forall i :: from <= i <= |s| ==> !MatchesAt(m, s, i)
  {
    if MatchesAt(m, s, from) then Some(from)
    else if from == |s| then None
    else FindFrom(m, s, from + 1)
  }

  /** What a sub-pattern hands back: the group the parser reads for the
      colour orders (the text inside the parentheses), the name inside
      `CE(...)`, and the whole match for every other pattern. */
  function Payload(m: Matcher, whole: string): string {
    match m
    case ColorOrder(_) => if |whole| >= 4 then whole[3..|whole| - 1] else whole
    case ExitOrder => if |whole| >= 4 then whole[3..|whole| - 1] else whole
    case _ => whole
  }

  datatype Stripped = Stripped(rest: string, hit: Option<string>)

  /** `m` matches at `i` and nowhere before it, and `r` is `s` without that
      match, carrying the match's payload. */
  predicate StrippedAt(m: Matcher, s: string, i: nat, r: Stripped)
  {
    i <= |s| && MatchLen(m, s, i).Some?
    && (forall j :: 0 <= j < i ==> !MatchesAt(m, s, j))
    && var n := MatchLen(m, s, i).value;
       r.rest == s[..i] + s[i + n..] && r.hit == Some(Payload(m, s[i..i + n]))
  }

  /** Find the leftmost match of `m`, return its payload and remove it. */
  function Strip(s: string, m: Matcher): (r: Stripped)
    ensures r.hit.None? <==> forall i :: 0 <= i <= |s| ==> !MatchesAt(m, s, i)
    ensures r.hit.None? ==> r.rest == s
    ensures r.hit.Some? ==> exists i :: StrippedAt(m, s, i, r)
  {
    match FindFrom(m, s, 0)
    case None => Stripped(s, None)
    case Some(i) =>
      var n := MatchLen(m, s, i).value;
      var r := Stripped(s[..i] + s[i + n..], Some(Payload(m, s[i..i + n])));
      assert StrippedAt(m, s, i, r);
      r
  }

  /** Apply the matchers in turn; the result lists each one's payload. */
  function StripAll(s: string, ms: seq<Matcher>): (r: (string, seq<Option<string>>))
    decreases |ms|
    ensures |r.1| == |ms|
  {
    if |ms| == 0 then (s, [])
    else
      var st := Strip(s, ms[0]);
      var tail := StripAll(st.rest, ms[1..]);
      (tail.0, [st.hit] + tail.1)
  }

  /** The colour an FG or BG payload names. A payload with commas is the
      RGB triple; each component goes through `Integer.parseInt` (which
      fails past 2^31-1) and a byte cast. */
  function ColorOf(payload: string): (r: Result<Color>)
    ensures ',' !in payload ==> r == Ok(Named(payload))
    ensures r.Ok? && r.value.Rgb? ==> 0 <= r.value.r < 256 && 0 <= r.value.g < 256 && 0 <= r.value.b < 256
  {
    if ',' !in payload then Ok(Named(payload))
    else
      var parts := SplitAll(payload, ',');
      if |parts| != 3 then Ok(Named(payload))
      else
        var r :- ParseDigits(parts[0]);
        var g :- ParseDigits(parts[1]);
        var b :- ParseDigits(parts[2]);
        Ok(Rgb(r % 256, g % 256, b % 256))
  }

  function OptColor(hit: Option<string>): (r: Result<Option<Color>>)
    ensures hit.None? ==> r == Ok(None)
    ensures r.Ok? ==> (r.value.Some? <==> hit.Some?)
  {
    match hit
    case None => Ok(None)
    case Some(p) =>
      var c :- ColorOf(p);
      Ok(Some(c))
  }

  /** The vertical alignment a style that is not background-only gets:
      the one ordered, or `M`. */
  function DefaultVertical(v: Option<char>): Option<char> {
    if v.None? then Some('M') else v
  }

  /** The last of up to three one-character orders present wins. */
  function LastOf3(hits: seq<Option<string>>, k: nat, a: char, b: char, c: char): Option<char>
    requires k + 3 <= |hits|
  {
    if hits[k + 2].Some? then Some(c)
    else if hits[k + 1].Some? then Some(b)
    else if hits[k].Some? then Some(a)
    else None
  }

  /** The payload each matcher of the scanning sequence took from the
      order string, in sequence order. A leading `:` (the mark of an inline
      style) is skipped first. */
  function Scan(orders: string): (hits: seq<Option<string>>)
    ensures |hits| == |ORDERS|
  {
    var s0 := if StartsWith(orders, ":") then orders[1..] else orders;
    StripAll(s0, ORDERS).1
  }

  /** The attributes the scan results stand for. The only failure is an
      RGB component too large for `Integer.parseInt`. */
  function AttrsOf(hits: seq<Option<string>>): (r: Result<StyleAttrs>)
    requires |hits| == |ORDERS|
    ensures (hits[FG].None? || ',' !in hits[FG].value) && (hits[BG].None? || ',' !in hits[BG].value) ==> r.Ok?
    ensures r.Ok? ==> (r.value.backOnly ==> r.value.back.Some? && !r.value.needFont)
    ensures r.Ok? ==> (r.value.backOnly <==> r.value.vAlign.None?)
    // background-only: a BG hit and no other order (an exit aside)
    ensures r.Ok? ==> (r.value.backOnly <==>
      hits[BG].Some? && forall k :: 0 <= k < |ORDERS| && k != BG && k != CE ==> hits[k].None?)
    // every other style gets the last vertical order, or `M`
    ensures r.Ok? && !r.value.backOnly ==>
      r.value.vAlign == DefaultVertical(LastOf3(hits, V_T, 'T', 'M', 'B'))
    ensures r.Ok? && r.value.hAlign.Some? ==> r.value.hAlign.value in "LCR"
    ensures r.Ok? && r.value.tot.Some? ==> r.value.tot.value in "=-~" && r.value.needFont
    // the payloads: `f` wins over the whole `FF(...)` match; the exit name
    ensures r.Ok? ==> r.value.fontFamily == (if hits[FIX].Some? then Some(FIXED_FONT) else hits[FF])
    ensures r.Ok? ==> r.value.custExit == hits[CE]
  {
    var fore :- OptColor(hits[FG]);
    var back :- OptColor(hits[BG]);
    var needFont := hits[FG].Some? || hits[FF].Some? || hits[FIX].Some? || hits[BOLD].Some?
      || hits[ITALIC].Some? || hits[STRIKE].Some? || hits[LINK].Some? || hits[POINTS].Some?
      || hits[T_TOT].Some? || hits[T_SUB].Some? || hits[T_FIN].Some?;
    var h := LastOf3(hits, H_L, 'L', 'C', 'R');
    var v := LastOf3(hits, V_T, 'T', 'M', 'B');
    var backOnly := !needFont && v.None? && h.None? && fore.None? && back.Some?;
    Ok(StyleAttrs(
      backOnly := backOnly,
      needFont := needFont,
      fontFamily := if hits[FIX].Some? then Some(FIXED_FONT) else hits[FF],
      custExit := hits[CE],
      bold := hits[BOLD].Some?,
      italic := hits[ITALIC].Some?,
      strike := hits[STRIKE].Some?,
      points := hits[POINTS],
      link := hits[LINK].Some?,
      fore := fore,
      back := back,
      hAlign := h,
      vAlign := if backOnly then None else if v.None? then Some('M') else v,
      tot := LastOf3(hits, T_TOT, '=', '-', '~')))
  }

  /** Parse an order string into its attributes: a background-only style
      has a fill and nothing else that needs a font or an alignment, and
      every other style is given vertical alignment `M` when none was
      ordered. Unknown characters are left over and ignored. */
  function ParseStyleAttrs(orders: string): (r: Result<StyleAttrs>)
    ensures '(' !in orders ==> r.Ok?
    ensures r.Ok? ==> (r.value.backOnly ==> r.value.back.Some? && !r.value.needFont)
    ensures r.Ok? ==> (r.value.backOnly <==> r.value.vAlign.None?)
    ensures r.Ok? ==> (r.value.backOnly <==>
      Scan(orders)[BG].Some? && forall k :: 0 <= k < |ORDERS| && k != BG && k != CE ==> Scan(orders)[k].None?)
    ensures r.Ok? && !r.value.backOnly ==>
      r.value.vAlign == DefaultVertical(LastOf3(Scan(orders), V_T, 'T', 'M', 'B'))
  {
    var hits := Scan(orders);
    NoParenScan(orders);
    AttrsOf(hits)
  }

  /** Only an RGB triple can make an order string fail, so one without a
      comma always parses. */
  lemma NoCommaParses(orders: string)
    requires ',' !in orders
    ensures ParseStyleAttrs(orders).Ok?
  {
    var s0 := if StartsWith(orders, ":") then orders[1..] else orders;
    MarkWithin(orders, ',');
    var hits := Scan(orders);
    assert hits == StripAll(s0, ORDERS).1;
    StripAllAbsent(s0, ORDERS, ',');
    CommaFreeHits(hits);
  }

  lemma CommaFreeHits(hits: seq<Option<string>>)
    requires |hits| == |ORDERS|
    requires forall k :: 0 <= k < |hits| && hits[k].Some? ==> ',' !in hits[k].value
    ensures AttrsOf(hits).Ok?
  {
    assert hits[FG].None? || ',' !in hits[FG].value;
    assert hits[BG].None? || ',' !in hits[BG].value;
  }

  /** A character absent from the input is absent from what a matcher
      leaves and from what it takes. */
  lemma StripAbsent(s: string, m: Matcher, c: char)
    requires c !in s
    ensures c !in Strip(s, m).rest
    ensures Strip(s, m).hit.Some? ==> c !in Strip(s, m).hit.value
  {
    var r := Strip(s, m);
    if r.hit.Some? {
      var i: nat :| StrippedAt(m, s, i, r);
      StrippedAbsent(m, s, i, r, c);
    }
  }

  lemma StrippedAbsent(m: Matcher, s: string, i: nat, r: Stripped, c: char)
    requires StrippedAt(m, s, i, r) && c !in s
    ensures c !in r.rest && r.hit.Some? && c !in r.hit.value
  {
    var n := MatchLen(m, s, i).value;
    CutAbsent(s, i, n, c);
    PayloadAbsent(m, s[i..i + n], c);
  }

  lemma CutAbsent(s: string, i: nat, n: nat, c: char)
    requires c !in s && i + n <= |s|
    ensures c !in s[..i] + s[i + n..] && c !in s[i..i + n]
  {
    var rest := s[..i] + s[i + n..];
    assert forall k :: 0 <= k < |rest| ==> rest[k] == (if k < i then s[k] else s[k + n]);
    var w := s[i..i + n];
    assert forall k :: 0 <= k < |w| ==> w[k] == s[i + k];
  }

  lemma PayloadAbsent(m: Matcher, w: string, c: char)
    requires c !in w
    ensures c !in Payload(m, w)
  {
    if |w| >= 4 {
      var p := w[3..|w| - 1];
      assert forall k :: 0 <= k < |p| ==> p[k] == w[k + 3];
    }
  }

  lemma {:induction false} StripAllAbsent(s: string, ms: seq<Matcher>, c: char)
    requires c !in s
    decreases |ms|
    ensures forall k :: 0 <= k < |ms| && StripAll(s, ms).1[k].Some? ==> c !in StripAll(s, ms).1[k].value
  {
    if |ms| > 0 {
      var st := Strip(s, ms[0]);
      StripAbsent(s, ms[0], c);
      StripAllAbsent(st.rest, ms[1..], c);
      var r := StripAll(s, ms).1;
      assert r == [st.hit] + StripAll(st.rest, ms[1..]).1;
      forall k | 0 <= k < |ms| && r[k].Some? ensures c !in r[k].value {
        if k > 0 {
          assert r[k] == StripAll(st.rest, ms[1..]).1[k - 1];
        }
      }
    }
  }

  /** Without a parenthesis there is no colour order to fail on. */
  lemma NoParenScan(orders: string)
    ensures '(' !in orders ==> Scan(orders)[FG].None? && Scan(orders)[BG].None?
  {
    if '(' !in orders {
      var s0 := if StartsWith(orders, ":") then orders[1..] else orders;
      MarkWithin(orders, '(');
      NoParenFirstTwo(s0);
      assert Scan(orders) == StripAll(s0, ORDERS).1;
    }
  }

  /** Skipping the inline-style mark brings no new character. */
  lemma MarkWithin(orders: string, c: char)
    requires c !in orders
    ensures c !in (if StartsWith(orders, ":") then orders[1..] else orders)
  {
    if StartsWith(orders, ":") {
      var s0 := orders[1..];
      assert forall k :: 0 <= k < |s0| ==> s0[k] == orders[k + 1];
    }
  }

  lemma NoParenFirstTwo(s0: string)
    requires '(' !in s0
    ensures StripAll(s0, ORDERS).1[FG].None? && StripAll(s0, ORDERS).1[BG].None?
  {
    var st := Strip(s0, ORDERS[0]);
    NoParenNoColor(s0, 'F');
    NoParenStrip(s0, ColorOrder('F'));
    var tail := ORDERS[1..];
    var st2 := Strip(st.rest, tail[0]);
    NoParenNoColor(st.rest, 'B');
    assert StripAll(s0, ORDERS).1 == [st.hit] + StripAll(st.rest, tail).1;
    assert StripAll(st.rest, tail).1 == [st2.hit] + StripAll(st2.rest, tail[1..]).1;
  }

  lemma NoParenStrip(s: string, m: Matcher)
    requires '(' !in s
    ensures '(' !in Strip(s, m).rest
  {
    StripAbsent(s, m, '(');
  }

  lemma NoParenNoColor(s: string, h: char)
    requires '(' !in s
    ensures Strip(s, ColorOrder(h)).hit.None?
  {
    forall i | 0 <= i <= |s|
      ensures !MatchesAt(ColorOrder(h), s, i)
    {
    }
  }

  // ----------------------------------------------------------- registry

  /** A named style: its order string and the attributes parsed from it. */
  datatype StyleDef = StyleDef(name: string, orders: string, attrs: StyleAttrs)

  type Registry = map<string, StyleDef>

  /** Parse `orders` and file it under `name`, replacing any previous
      definition of that name. */
  function InsertStyleDef(defs: Registry, name: string, orders: string): (r: Result<Registry>)
    ensures r.Ok? <==> ParseStyleAttrs(orders).Ok?
    ensures r.Ok? ==> Defines(r.value, name, orders)
    ensures r.Ok? ==> r.value == defs[name := r.value[name]]
  {
    FileStyle(defs, name, orders, ParseStyleAttrs(orders))
  }

  /** File the outcome of parsing `orders` under `name`: a failed parse
      files nothing. */
  function FileStyle(defs: Registry, name: string, orders: string, parsed: Result<StyleAttrs>): (r: Result<Registry>)
    ensures r.Ok? <==> parsed.Ok?
    ensures r.Ok? ==> name in r.value && r.value[name] == StyleDef(name, orders, parsed.value)
    ensures r.Ok? ==> forall n :: n in defs && n != name ==> n in r.value && r.value[n] == defs[n]
    ensures r.Ok? ==> r.value.Keys == defs.Keys + {name}
  {
    match parsed
    case Err(e) => Err(e)
    case Ok(attrs) => Ok(defs[name := StyleDef(name, orders, attrs)])
  }

  /** `defs` files `name` with these orders and the attributes they parse
      to. */
  predicate Defines(defs: Registry, name: string, orders: string) {
    name in defs && defs[name].name == name && defs[name].orders == orders
    && ParseStyleAttrs(orders) == Ok(defs[name].attrs)
  }

  // ------------------------------------------- orders of single letters

  /** Order strings made only of one-character orders (and other letters
      or symbols that no order uses): no parenthesis and no digit, so none
      of FG, BG, CE, FF or a point size can match. */
  predicate LettersOnly(s: string) {
    forall i :: 0 <= i < |s| ==> s[i] != '(' && !IsDigit(s[i])
  }

  /** The attributes a letters-only order string stands for, read off from
      which order characters occur in it, independent of their order and
      repetition. Within each group the later pattern of the scanning
      sequence wins: R over C over L, B over M over T, `~` over `-` over `=`. */
  function AttrsByMembership(s: string): StyleAttrs {
    var h := if 'R' in s then Some('R') else if 'C' in s then Some('C') else if 'L' in s then Some('L') else None;
    var v := if 'B' in s then Some('B') else if 'M' in s then Some('M') else if 'T' in s then Some('T') else None;
    StyleAttrs(
      backOnly := false,
      needFont := 'f' in s || 'b' in s || 'i' in s || 's' in s || 'l' in s
        || '=' in s || '-' in s || '~' in s,
      fontFamily := if 'f' in s then Some(FIXED_FONT) else None,
      custExit := None,
      bold := 'b' in s,
      italic := 'i' in s,
      strike := 's' in s,
      points := None,
      link := 'l' in s,
      fore := None,
      back := None,
      hAlign := h,
      vAlign := if v.None? then Some('M') else v,
      tot := if '~' in s then Some('~') else if '-' in s then Some('-') else if '=' in s then Some('=') else None)
  }

  lemma LetterStrip(s: string, c: char)
    ensures Strip(s, Letter(c)).hit.Some? <==> c in s
    ensures Strip(s, Letter(c)).hit.Some? ==> Strip(s, Letter(c)).hit == Some([c])
    ensures forall x :: x != c ==> (x in Strip(s, Letter(c)).rest <==> x in s)
    ensures LettersOnly(s) ==> LettersOnly(Strip(s, Letter(c)).rest)
  {
    var r := Strip(s, Letter(c));
    if c in s {
      var k :| 0 <= k < |s| && s[k] == c;
      assert MatchesAt(Letter(c), s, k);
      var i: nat :| StrippedAt(Letter(c), s, i, r);
      LetterStripped(s, c, i, r);
    } else {
      forall i | 0 <= i <= |s| ensures !MatchesAt(Letter(c), s, i) {
      }
    }
  }

  lemma LetterStripped(s: string, c: char, i: nat, r: Stripped)
    requires StrippedAt(Letter(c), s, i, r)
    ensures r.hit == Some([c])
    ensures forall x :: x != c ==> (x in r.rest <==> x in s)
    ensures LettersOnly(s) ==> LettersOnly(r.rest)
  {
    assert i < |s| && s[i] == c;
    assert s[i..i + 1] == [c];
    RemoveOne(s, i);
  }

  /** Dropping position `i` keeps every other character value. */
  lemma RemoveOne(s: string, i: nat)
    requires i < |s|
    ensures forall x :: x != s[i] ==> (x in s[..i] + s[i + 1..] <==> x in s)
    ensures LettersOnly(s) ==> LettersOnly(s[..i] + s[i + 1..])
  {
    var t := s[..i] + s[i + 1..];
    assert forall k :: 0 <= k < |t| ==> t[k] == (if k < i then s[k] else s[k + 1]);
    forall x | x != s[i] && x in s ensures x in t {
      var j :| 0 <= j < |s| && s[j] == x;
      if j < i {
        assert t[j] == x;
      } else {
        assert t[j - 1] == x;
      }
    }
  }

  lemma NoMatchInLetters(s: string, m: Matcher)
    requires LettersOnly(s) && !m.Letter?
    ensures Strip(s, m).hit.None?
  {
    forall i | 0 <= i <= |s| ensures !MatchesAt(m, s, i) {
      match m
      case ColorOrder(h) =>
      case ExitOrder =>
      case FontOrder =>
      case PointSize =>
    }
  }

  /** The payload a matcher takes from a letters-only string. */
  function LetterHit(m: Matcher, s: string): Option<string> {
    if m.Letter? && m.c in s then Some([m.c]) else None
  }

  /** No two one-character matchers look for the same character. */
  predicate DistinctLetters(ms: seq<Matcher>) {
    forall a, b :: 0 <= a < b < |ms| && ms[a].Letter? && ms[b].Letter? ==> ms[a].c != ms[b].c
  }

  /** Over a letters-only string each one-character order hits exactly when
      its character occurs in the input, and the others never hit. */
  lemma {:induction false} StripAllLetters(s: string, ms: seq<Matcher>)
    requires LettersOnly(s) && DistinctLetters(ms)
    decreases |ms|
    ensures forall k :: 0 <= k < |ms| ==> StripAll(s, ms).1[k] == LetterHit(ms[k], s)
  {
    if |ms| > 0 {
      var st := Strip(s, ms[0]);
      var tail := ms[1..];
      if ms[0].Letter? {
        LetterStrip(s, ms[0].c);
      } else {
        NoMatchInLetters(s, ms[0]);
      }
      assert DistinctLetters(tail) by {
        forall a, b | 0 <= a < b < |tail| && tail[a].Letter? && tail[b].Letter?
          ensures tail[a].c != tail[b].c
        {
          assert tail[a] == ms[a + 1] && tail[b] == ms[b + 1];
        }
      }
      StripAllLetters(st.rest, tail);
      assert StripAll(s, ms).1 == [st.hit] + StripAll(st.rest, tail).1;
      forall k | 1 <= k < |ms|
        ensures StripAll(s, ms).1[k] == LetterHit(ms[k], s)
      {
        assert tail[k - 1] == ms[k];
        if ms[k].Letter? && ms[0].Letter? {
          assert ms[0].c != ms[k].c;
        }
      }
    }
  }

  lemma OrdersDistinct()
    ensures DistinctLetters(ORDERS)
  {
    forall k | 0 <= k < |ORDERS| && ORDERS[k].Letter?
      ensures LetterSlot(ORDERS[k].c) == k
    {
    }
  }

  /** The position of each one-character order in ORDERS. */
  function LetterSlot(c: char): (k: int)
    ensures 0 <= k < |ORDERS| ==> ORDERS[k] == Letter(c)
  {
    match c
    case 'f' => FIX
    case 'b' => BOLD
    case 'i' => ITALIC
    case 's' => STRIKE
    case 'l' => LINK
    case 'L' => H_L
    case 'C' => H_C
    case 'R' => H_R
    case 'T' => V_T
    case 'M' => V_M
    case 'B' => V_B
    case '=' => T_TOT
    case '-' => T_SUB
    case '~' => T_FIN
    case _ => -1
  }

  /** A letters-only order string parses to exactly the attributes its
      characters stand for: the fixed scanning sequence makes the parse
      independent of how the letters are ordered. */
  lemma LettersParseByMembership(orders: string)
    requires LettersOnly(orders)
    ensures ParseStyleAttrs(orders) == Ok(AttrsByMembership(orders))
  {
    var s0 := if StartsWith(orders, ":") then orders[1..] else orders;
    assert LettersOnly(s0);
    OrdersDistinct();
    StripAllLetters(s0, ORDERS);
    var hits := Scan(orders);
    assert ParseStyleAttrs(orders) == AttrsOf(hits);
    AttrsOfLetterHits(hits, s0);
    SameLettersSameAttrs(s0, orders);
  }

  lemma AttrsOfLetterHits(hits: seq<Option<string>>, s: string)
    requires |hits| == |ORDERS|
    requires forall k :: 0 <= k < |ORDERS| ==> hits[k] == LetterHit(ORDERS[k], s)
    ensures AttrsOf(hits) == Ok(AttrsByMembership(s))
  {
    assert hits[FG] == None && hits[BG] == None && hits[CE] == None && hits[FF] == None;
    assert hits[POINTS] == None;
    assert hits[FIX].Some? <==> 'f' in s;
    assert hits[BOLD].Some? <==> 'b' in s;
    assert hits[ITALIC].Some? <==> 'i' in s;
    assert hits[STRIKE].Some? <==> 's' in s;
    assert hits[LINK].Some? <==> 'l' in s;
    assert hits[H_L].Some? <==> 'L' in s;
    assert hits[H_C].Some? <==> 'C' in s;
    assert hits[H_R].Some? <==> 'R' in s;
    assert hits[V_T].Some? <==> 'T' in s;
    assert hits[V_M].Some? <==> 'M' in s;
    assert hits[V_B].Some? <==> 'B' in s;
    assert hits[T_TOT].Some? <==> '=' in s;
    assert hits[T_SUB].Some? <==> '-' in s;
    assert hits[T_FIN].Some? <==> '~' in s;
  }

  lemma SameLettersSameAttrs(s0: string, orders: string)
    requires s0 == if StartsWith(orders, ":") then orders[1..] else orders
    ensures AttrsByMembership(s0) == AttrsByMembership(orders)
  {
    if StartsWith(orders, ":") {
      assert orders == [':'] + s0;
      assert forall x :: x != ':' ==> (x in s0 <==> x in orders);
    }
  }

  /** Within a group the later order wins, wherever the letters stand:
      `L` with `R` aligns right, and `=` with `~` gives the double top
      border order `~`. */
  lemma LaterOrderWins(orders: string)
    requires LettersOnly(orders)
    ensures 'L' in orders && 'R' in orders ==> ParseStyleAttrs(orders).value.hAlign == Some('R')
    ensures '=' in orders && '~' in orders ==> ParseStyleAttrs(orders).value.tot == Some('~')
    ensures 'T' in orders && 'B' in orders ==> ParseStyleAttrs(orders).value.vAlign == Some('B')
  {
    LettersParseByMembership(orders);
  }

  // ----------------------------------------------- background-only fills

  /** Over a string from which every order has been removed, nothing hits. */
  lemma {:induction false} StripAllEmpty(ms: seq<Matcher>)
    decreases |ms|
    ensures StripAll("", ms).0 == ""
    ensures forall k :: 0 <= k < |ms| ==> StripAll("", ms).1[k].None?
  {
    if |ms| > 0 {
      assert !MatchesAt(ms[0], "", 0);
      StripAllEmpty(ms[1..]);
    }
  }

  /** `BG(r,g,b)` on its own is a background-only style whose fill is the
      triple, each component reduced to a byte: the shape of the builtin
      stripe and totals fills. */
  lemma BackgroundTripleIsBackOnly(r: string, g: string, b: string)
    requires |r| > 0 && |g| > 0 && |b| > 0 && AllDigits(r) && AllDigits(g) && AllDigits(b)
    requires DigitsValue(r) <= INT_MAX && DigitsValue(g) <= INT_MAX && DigitsValue(b) <= INT_MAX
    ensures var p := ParseStyleAttrs("BG(" + r + "," + g + "," + b + ")");
      p.Ok? && p.value.backOnly
      && p.value.back == Some(Rgb(DigitsValue(r) % 256, DigitsValue(g) % 256, DigitsValue(b) % 256))
  {
    var s := "BG(" + r + "," + g + "," + b + ")";
    ScanOfBackground(r, g, b);
    TripleColor(r, g, b);
    BackOnlyParse(s, r + "," + g + "," + b);
  }

  lemma BackOnlyParse(s: string, p: string)
    requires Scan(s)[BG] == Some(p) && ColorOf(p).Ok?
    requires forall k :: 0 <= k < |ORDERS| && k != BG ==> Scan(s)[k].None?
    ensures ParseStyleAttrs(s).Ok? && ParseStyleAttrs(s).value.backOnly
    ensures ParseStyleAttrs(s).value.back == Some(ColorOf(p).value)
  {
    AttrsOfBackOnly(Scan(s));
  }

  /** Scan results where only BG hit, with a readable colour, describe a
      background-only style filled with that colour. */
  lemma AttrsOfBackOnly(hits: seq<Option<string>>)
    requires |hits| == |ORDERS| && hits[BG].Some? && ColorOf(hits[BG].value).Ok?
    requires forall k :: 0 <= k < |ORDERS| && k != BG ==> hits[k].None?
    ensures AttrsOf(hits).Ok? && AttrsOf(hits).value.backOnly
    ensures AttrsOf(hits).value.back == Some(ColorOf(hits[BG].value).value)
  {
    assert hits[FG].None? && hits[FF].None? && hits[FIX].None? && hits[BOLD].None?;
    assert hits[ITALIC].None? && hits[STRIKE].None? && hits[LINK].None? && hits[POINTS].None?;
    assert hits[T_TOT].None? && hits[T_SUB].None? && hits[T_FIN].None?;
    assert hits[H_L].None? && hits[H_C].None? && hits[H_R].None?;
    assert hits[V_T].None? && hits[V_M].None? && hits[V_B].None?;
  }

  /** The scan of `BG(payload)`: only the BG matcher hits. */
  lemma ScanOfBackground(r: string, g: string, b: string)
    requires |r| > 0 && |g| > 0 && |b| > 0 && AllDigits(r) && AllDigits(g) && AllDigits(b)
    ensures var hits := Scan("BG(" + r + "," + g + "," + b + ")");
      hits[BG] == Some(r + "," + g + "," + b)
      && forall k :: 0 <= k < |ORDERS| && k != BG ==> hits[k].None?
  {
    var payload := r + "," + g + "," + b;
    var s := "BG(" + r + "," + g + "," + b + ")";
    BackgroundShape(r, g, b);
    NoHeadNoColor(s, 'F');
    BackgroundMatch(r, g, b);
    StripWhole(s, ColorOrder('B'));
    ScanOfWholeBackground(s, payload);
  }

  /** When FG finds nothing and BG takes the whole string, BG is the only hit. */
  lemma ScanOfWholeBackground(s: string, p: string)
    requires !StartsWith(s, ":")
    requires Strip(s, ColorOrder('F')).hit.None?
    requires Strip(s, ColorOrder('B')) == Stripped("", Some(p))
    ensures Scan(s)[BG] == Some(p)
    ensures forall k :: 0 <= k < |ORDERS| && k != BG ==> Scan(s)[k].None?
  {
    var ms := ORDERS;
    assert ms[0] == ColorOrder('F') && ms[1] == ColorOrder('B');
    StripAllSecondWhole(s, ms, p);
    StripAllEmpty(ms[2..]);
    OnlySecond(StripAll(s, ms).1, StripAll("", ms[2..]).1, p);
  }

  lemma OnlySecond(hits: seq<Option<string>>, tail: seq<Option<string>>, p: string)
    requires hits == [None, Some(p)] + tail
    requires forall k :: 0 <= k < |tail| ==> tail[k].None?
    ensures hits[1] == Some(p)
    ensures forall k :: 0 <= k < |hits| && k != 1 ==> hits[k].None?
  {
    forall k | 0 <= k < |hits| && k != 1 ensures hits[k].None? {
      if k >= 2 {
        assert hits[k] == tail[k - 2];
      }
    }
  }

  lemma StripAllSecondWhole(s: string, ms: seq<Matcher>, p: string)
    requires |ms| >= 2
    requires Strip(s, ms[0]).hit.None?
    requires Strip(s, ms[1]) == Stripped("", Some(p))
    ensures StripAll(s, ms).1 == [None, Some(p)] + StripAll("", ms[2..]).1
  {
    assert ms[1..][0] == ms[1] && ms[1..][1..] == ms[2..];
  }

  lemma BackgroundShape(r: string, g: string, b: string)
    requires AllDigits(r) && AllDigits(g) && AllDigits(b)
    ensures var s := "BG(" + r + "," + g + "," + b + ")";
      !StartsWith(s, ":") && |s| >= 4 && s[..3] == "BG(" && s[3..|s| - 1] == r + "," + g + "," + b
      && forall i :: 3 <= i < |s| ==> s[i] != 'G'
  {
    var s := "BG(" + r + "," + g + "," + b + ")";
    assert s[..1][0] == 'B';
    assert s == "BG(" + (r + "," + g + "," + b) + ")";
  }

  // --------------------------------------------- font family and exit

  /** `FF(name)` stores the whole match, `FF(` and `)` included, as the
      font family. */
  lemma FontFamilyWholeMatch(name: string)
    requires |name| > 0 && '(' !in name && ')' !in name
    ensures var r := ParseStyleAttrs("FF(" + name + ")");
      r.Ok? && r.value.fontFamily == Some("FF(" + name + ")") && r.value.needFont
  {
    var s := "FF(" + name + ")";
    FontScan(name);
    AttrsOfSoleHit(Scan(s), FF, s);
  }

  lemma FontScan(name: string)
    requires |name| > 0 && '(' !in name && ')' !in name
    ensures var s := "FF(" + name + ")";
      Scan(s)[FF] == Some(s) && forall j :: 0 <= j < |ORDERS| && j != FF ==> Scan(s)[j].None?
  {
    var s := "FF(" + name + ")";
    ParenOnlyAt2(s, name);
    NoOtherParenNoMatch(s, ColorOrder('F'));
    NoOtherParenNoMatch(s, ColorOrder('B'));
    NoOtherParenNoMatch(s, ExitOrder);
    FontMatchWhole(s, name);
    StripWhole(s, FontOrder);
    ScanFourth(s, s);
  }

  lemma ParenOnlyAt2(s: string, name: string)
    requires (s == "FF(" + name + ")" || s == "CE(" + name + ")") && '(' !in name
    ensures |s| >= 3 && forall i :: 0 <= i < |s| && i != 2 ==> s[i] != '('
  {
    assert forall i :: 3 <= i < |s| - 1 ==> s[i] == name[i - 3];
    ParenAt2(s, name);
  }

  lemma ScanFourth(s: string, p: string)
    requires !StartsWith(s, ":")
    requires Strip(s, ColorOrder('F')) == Stripped(s, None) && Strip(s, ColorOrder('B')) == Stripped(s, None)
    requires Strip(s, ExitOrder) == Stripped(s, None) && Strip(s, FontOrder) == Stripped("", Some(p))
    ensures Scan(s)[FF] == Some(p) && forall j :: 0 <= j < |ORDERS| && j != FF ==> Scan(s)[j].None?
  {
    ShapeFourth(s, p, ORDERS);
  }

  lemma ShapeFourth(s: string, p: string, ms: seq<Matcher>)
    requires ms == ORDERS
    requires Strip(s, ColorOrder('F')) == Stripped(s, None) && Strip(s, ColorOrder('B')) == Stripped(s, None)
    requires Strip(s, ExitOrder) == Stripped(s, None) && Strip(s, FontOrder) == Stripped("", Some(p))
    ensures StripAll(s, ms).1[3] == Some(p) && forall j :: 0 <= j < |ms| && j != 3 ==> StripAll(s, ms).1[j].None?
  {
    var pre: seq<Option<string>> := [None, None, None];
    assert forall k :: 0 <= k < |pre| ==> pre[k].None?;
    assert ms[0] == ColorOrder('F') && ms[1] == ColorOrder('B') && ms[2] == ExitOrder && ms[3] == FontOrder;
    FirstFourThenRest(s, ms, "", Some(p));
    StripAllEmpty(ms[4..]);
    OnlyAt(StripAll(s, ms).1, pre, p, StripAll("", ms[4..]).1);
  }

  lemma ScanThird(s: string, p: string)
    requires !StartsWith(s, ":")
    requires Strip(s, ColorOrder('F')) == Stripped(s, None) && Strip(s, ColorOrder('B')) == Stripped(s, None)
    requires Strip(s, ExitOrder) == Stripped("", Some(p))
    ensures Scan(s)[CE] == Some(p) && forall j :: 0 <= j < |ORDERS| && j != CE ==> Scan(s)[j].None?
  {
    ShapeThird(s, p, ORDERS);
  }

  lemma ShapeThird(s: string, p: string, ms: seq<Matcher>)
    requires ms == ORDERS
    requires Strip(s, ColorOrder('F')) == Stripped(s, None) && Strip(s, ColorOrder('B')) == Stripped(s, None)
    requires Strip(s, ExitOrder) == Stripped("", Some(p))
    ensures StripAll(s, ms).1[2] == Some(p) && forall j :: 0 <= j < |ms| && j != 2 ==> StripAll(s, ms).1[j].None?
  {
    var pre: seq<Option<string>> := [None, None];
    assert forall k :: 0 <= k < |pre| ==> pre[k].None?;
    assert ms[0] == ColorOrder('F') && ms[1] == ColorOrder('B') && ms[2] == ExitOrder;
    FirstThreeThenRest(s, ms, "", Some(p));
    StripAllEmpty(ms[3..]);
    OnlyAt(StripAll(s, ms).1, pre, p, StripAll("", ms[3..]).1);
  }

  lemma FirstThreeThenRest(s: string, ms: seq<Matcher>, rest: string, hit: Option<string>)
    requires |ms| >= 3
    requires Strip(s, ms[0]) == Stripped(s, None) && Strip(s, ms[1]) == Stripped(s, None)
    requires Strip(s, ms[2]) == Stripped(rest, hit)
    ensures StripAll(s, ms).1 == [None, None] + [hit] + StripAll(rest, ms[3..]).1
  {
    var m1 := ms[1..];
    var m2 := m1[1..];
    assert m1[0] == ms[1] && m2[0] == ms[2] && m2[1..] == ms[3..];
    var tail := StripAll(rest, ms[3..]).1;
    StripAllSkipOne(s, ms);
    StripAllSkipOne(s, m1);
    StripAllHead(s, m2, rest, hit);
    SeqNoneShift2(hit, tail);
  }

  lemma StripAllHead(s: string, ms: seq<Matcher>, rest: string, hit: Option<string>)
    requires |ms| > 0 && Strip(s, ms[0]) == Stripped(rest, hit)
    ensures StripAll(s, ms).1 == [hit] + StripAll(rest, ms[1..]).1
  {
  }

  lemma SeqNoneShift2(hit: Option<string>, tail: seq<Option<string>>)
    ensures [None] + ([None] + ([hit] + tail)) == [None, None] + [hit] + tail
  {
  }

  /** A scan with nothing but the hit `p` at the end of `pre`. */
  lemma OnlyAt(hits: seq<Option<string>>, pre: seq<Option<string>>, p: string, tail: seq<Option<string>>)
    requires hits == pre + [Some(p)] + tail
    requires forall k :: 0 <= k < |pre| ==> pre[k].None?
    requires forall k :: 0 <= k < |tail| ==> tail[k].None?
    ensures hits[|pre|] == Some(p)
    ensures forall k :: 0 <= k < |hits| && k != |pre| ==> hits[k].None?
  {
    forall k | 0 <= k < |hits| && k != |pre| ensures hits[k].None? {
      if k > |pre| {
        assert hits[k] == tail[k - |pre| - 1];
      } else {
        assert hits[k] == pre[k];
      }
    }
  }

  lemma FontMatchWhole(s: string, name: string)
    requires s == "FF(" + name + ")" && |name| > 0 && ')' !in name
    ensures MatchLen(FontOrder, s, 0) == Some(|s|)
  {
    assert forall i :: 3 <= i < |s| - 1 ==> s[i] == name[i - 3];
    assert HasAt3(s, 0, 'F', 'F', '(');
    assert s[|s| - 1] == ')';
    assert IndexOfFrom(s, ')', 3) == Some(|s| - 1);
  }

  /** `CE(name)` records the name between the parentheses as the exit. */
  lemma ExitName(name: string)
    requires |name| > 0 && forall i :: 0 <= i < |name| ==> IsNameChar(name[i])
    ensures var r := ParseStyleAttrs("CE(" + name + ")");
      r.Ok? && r.value.custExit == Some(name) && !r.value.needFont
  {
    var s := "CE(" + name + ")";
    ExitScan(name);
    AttrsOfSoleHit(Scan(s), CE, name);
  }

  lemma ExitScan(name: string)
    requires |name| > 0 && forall i :: 0 <= i < |name| ==> IsNameChar(name[i])
    ensures var s := "CE(" + name + ")";
      Scan(s)[CE] == Some(name) && forall j :: 0 <= j < |ORDERS| && j != CE ==> Scan(s)[j].None?
  {
    var s := "CE(" + name + ")";
    NameCharsNoParen(name);
    ParenOnlyAt2(s, name);
    NoOtherParenNoMatch(s, ColorOrder('F'));
    NoOtherParenNoMatch(s, ColorOrder('B'));
    ExitStripWhole(s, name);
    ScanThird(s, name);
  }

  lemma NameCharsNoParen(name: string)
    requires forall i :: 0 <= i < |name| ==> IsNameChar(name[i])
    ensures '(' !in name
  {
    assert forall i :: 0 <= i < |name| ==> name[i] != '(' by {
      assert forall i :: 0 <= i < |name| ==> IsNameChar(name[i]);
    }
  }

  lemma ExitStripWhole(s: string, name: string)
    requires s == "CE(" + name + ")" && |name| > 0
    requires forall i :: 0 <= i < |name| ==> IsNameChar(name[i])
    ensures Strip(s, ExitOrder) == Stripped("", Some(name))
  {
    ExitMatchWhole(s, name);
    StripWhole(s, ExitOrder);
    assert s[3..|s| - 1] == name;
  }

  lemma ExitMatchWhole(s: string, name: string)
    requires s == "CE(" + name + ")" && |name| > 0
    requires forall i :: 0 <= i < |name| ==> IsNameChar(name[i])
    ensures MatchLen(ExitOrder, s, 0) == Some(|s|)
  {
    assert forall i :: 3 <= i < |s| - 1 ==> s[i] == name[i - 3];
    assert HasAt3(s, 0, 'C', 'E', '(');
    assert !IsNameChar(s[|s| - 1]);
    assert NameSpan(s, 3) == |s| - 1;
  }

  /** The attributes of a scan in which only the family or only the exit
      matcher hit. */
  lemma AttrsOfSoleHit(hits: seq<Option<string>>, k: nat, p: string)
    requires |hits| == |ORDERS| && (k == FF || k == CE)
    requires hits[k] == Some(p) && forall j :: 0 <= j < |ORDERS| && j != k ==> hits[j].None?
    ensures AttrsOf(hits).Ok?
    ensures k == FF ==> AttrsOf(hits).value.fontFamily == Some(p) && AttrsOf(hits).value.needFont
    ensures k == CE ==> AttrsOf(hits).value.custExit == Some(p) && !AttrsOf(hits).value.needFont
  {
    assert hits[FG].None? && hits[BG].None? && hits[FIX].None? && hits[BOLD].None?;
    assert hits[ITALIC].None? && hits[STRIKE].None? && hits[LINK].None? && hits[POINTS].None?;
    assert hits[T_TOT].None? && hits[T_SUB].None? && hits[T_FIN].None?;
  }

  /** `f` overrides a family named by `FF(...)`: "fFF(x)" is set in the
      fixed font. */
  lemma FixedFontWins()
    ensures var r := ParseStyleAttrs("fFF(x)");
      r.Ok? && r.value.fontFamily == Some(FIXED_FONT)
  {
    var s := "fFF(x)";
    FixedFontScan(s);
    var hits := Scan(s);
    assert hits[FIX] == Some("f") && hits[FG].None? && hits[BG].None?;
  }

  lemma FixedFontScan(s: string)
    requires s == "fFF(x)"
    ensures Scan(s)[FIX] == Some("f") && Scan(s)[FG].None? && Scan(s)[BG].None?
  {
    NoOtherParenNoMatch2(s, ColorOrder('F'));
    NoOtherParenNoMatch2(s, ColorOrder('B'));
    NoOtherParenNoMatch2(s, ExitOrder);
    FamilyAfterF();
    FixedAfterFamily();
    FixedShape(s, ORDERS, "f", Some("FF(x)"));
  }

  lemma FixedShape(s: string, ms: seq<Matcher>, rest: string, hit: Option<string>)
    requires ms == ORDERS
    requires Strip(s, ColorOrder('F')) == Stripped(s, None) && Strip(s, ColorOrder('B')) == Stripped(s, None)
    requires Strip(s, ExitOrder) == Stripped(s, None) && Strip(s, FontOrder) == Stripped(rest, hit)
    ensures StripAll(s, ms).1[4] == StripAll(rest, ms[4..]).1[0]
    ensures StripAll(s, ms).1[0].None? && StripAll(s, ms).1[1].None?
  {
    assert ms[0] == ColorOrder('F') && ms[1] == ColorOrder('B') && ms[2] == ExitOrder && ms[3] == FontOrder;
    FirstFourThenRest(s, ms, rest, hit);
  }

  lemma FixedAfterFamily()
    ensures StripAll("f", ORDERS[4..]).1[0] == Some("f")
  {
    var tail := ORDERS[4..];
    assert tail[0] == Letter('f');
    StripWhole("f", Letter('f'));
    StripAllSkipThenWhole("f", tail, 0, "f");
  }

  /** Unfolding the scan four matchers deep. */
  lemma FirstFourThenRest(s: string, ms: seq<Matcher>, rest: string, hit: Option<string>)
    requires |ms| >= 4
    requires Strip(s, ms[0]) == Stripped(s, None) && Strip(s, ms[1]) == Stripped(s, None)
    requires Strip(s, ms[2]) == Stripped(s, None) && Strip(s, ms[3]) == Stripped(rest, hit)
    ensures StripAll(s, ms).1 == [None, None, None] + [hit] + StripAll(rest, ms[4..]).1
  {
    var m1 := ms[1..];
    assert m1[0] == ms[1] && m1[1] == ms[2] && m1[2] == ms[3] && m1[3..] == ms[4..];
    var tail := StripAll(rest, ms[4..]).1;
    StripAllSkipOne(s, ms);
    FirstThreeThenRest(s, m1, rest, hit);
    SeqNoneShift(hit, tail);
  }

  lemma SeqNoneShift(hit: Option<string>, tail: seq<Option<string>>)
    ensures [None] + ([None, None] + [hit] + tail) == [None, None, None] + [hit] + tail
  {
  }

  lemma StripAllSkipOne(s: string, ms: seq<Matcher>)
    requires |ms| > 0 && Strip(s, ms[0]) == Stripped(s, None)
    ensures StripAll(s, ms).1 == [None] + StripAll(s, ms[1..]).1
  {
  }

  lemma FamilyAfterF()
    ensures Strip("fFF(x)", FontOrder) == Stripped("f", Some("FF(x)"))
  {
    var s := "fFF(x)";
    assert !MatchesAt(FontOrder, s, 0);
    assert IndexOfFrom(s, ')', 4) == Some(5);
    assert MatchLen(FontOrder, s, 1) == Some(5);
    assert FindFrom(FontOrder, s, 0) == Some(1);
    assert s[..1] + s[6..] == "f" && s[1..6] == "FF(x)";
  }

  lemma ParenAt2(s: string, name: string)
    requires |s| == |name| + 4 && s[2] == '(' && s[|s| - 1] == ')' && '(' !in name
    requires s[0] != '(' && s[1] != '('
    requires forall i :: 3 <= i < |s| - 1 ==> s[i] == name[i - 3]
    ensures forall i :: 0 <= i < |s| && i != 2 ==> s[i] != '('
  {
    forall i | 3 <= i < |s| - 1 ensures s[i] != '(' {
      assert s[i] == name[i - 3];
    }
  }

  /** With its only `(` at position 2 and a head that is not the matcher's,
      a colour or exit matcher finds nothing. */
  lemma NoOtherParenNoMatch(s: string, m: Matcher)
    requires m.ColorOrder? || m.ExitOrder?
    requires |s| >= 3 && forall i :: 0 <= i < |s| && i != 2 ==> s[i] != '('
    requires m.ColorOrder? ==> !(s[0] == m.head && s[1] == 'G')
    requires m.ExitOrder? ==> !(s[0] == 'C' && s[1] == 'E')
    ensures Strip(s, m) == Stripped(s, None)
  {
    forall i | 0 <= i <= |s| ensures !MatchesAt(m, s, i) {
      if i + 3 <= |s| && i != 0 {
        assert s[i + 2] != '(';
      }
    }
  }

  /** The same for "fFF(x)", whose only `(` is at position 3. */
  lemma NoOtherParenNoMatch2(s: string, m: Matcher)
    requires s == "fFF(x)" && (m == ColorOrder('F') || m == ColorOrder('B') || m == ExitOrder)
    ensures Strip(s, m) == Stripped(s, None)
  {
    forall i | 0 <= i <= |s| ensures !MatchesAt(m, s, i) {
      if i + 3 <= |s| && i != 1 {
        assert s[i + 2] != '(';
      }
    }
  }

  /** The matchers before `k` find nothing, and matcher `k` takes the
      whole string: only position `k` holds a payload. */
  lemma {:induction false} StripAllSkipThenWhole(s: string, ms: seq<Matcher>, k: nat, p: string)
    requires k < |ms|
    requires forall j :: 0 <= j < k ==> Strip(s, ms[j]) == Stripped(s, None)
    requires Strip(s, ms[k]) == Stripped("", Some(p))
    ensures StripAll(s, ms).1[k] == Some(p)
    ensures forall j :: 0 <= j < |ms| && j != k ==> StripAll(s, ms).1[j].None?
    decreases k
  {
    var r := StripAll(s, ms).1;
    if k == 0 {
      StripAllEmpty(ms[1..]);
      assert r == [Some(p)] + StripAll("", ms[1..]).1;
      assert forall j :: 1 <= j < |ms| ==> r[j] == StripAll("", ms[1..]).1[j - 1];
    } else {
      var tail := ms[1..];
      assert forall j :: 0 <= j < k - 1 ==> tail[j] == ms[j + 1];
      StripAllSkipThenWhole(s, tail, k - 1, p);
      assert r == [None] + StripAll(s, tail).1;
      assert forall j :: 1 <= j < |ms| ==> r[j] == StripAll(s, tail).1[j - 1];
    }
  }

  lemma ScanSkipThenWhole(s: string, k: nat, p: string)
    requires k < |ORDERS| && !StartsWith(s, ":")
    requires forall j :: 0 <= j < k ==> Strip(s, ORDERS[j]) == Stripped(s, None)
    requires Strip(s, ORDERS[k]) == Stripped("", Some(p))
    ensures Scan(s)[k] == Some(p)
    ensures forall j :: 0 <= j < |ORDERS| && j != k ==> Scan(s)[j].None?
  {
    StripAllSkipThenWhole(s, ORDERS, k, p);
  }

  /** A match that spans the whole input leaves nothing behind. */
  lemma StripWhole(s: string, m: Matcher)
    requires MatchLen(m, s, 0) == Some(|s|)
    ensures Strip(s, m) == Stripped("", Some(Payload(m, s)))
  {
    assert MatchesAt(m, s, 0);
    assert s[0..|s|] == s;
  }

  lemma NoHeadNoColor(s: string, h: char)
    requires |s| >= 3 && s[..3] == "BG(" && h != 'B'
    requires forall i :: 3 <= i < |s| ==> s[i] != 'G'
    ensures Strip(s, ColorOrder(h)).hit.None?
  {
    forall i | 0 <= i <= |s| ensures !MatchesAt(ColorOrder(h), s, i) {
      assert !HasAt3(s, i, h, 'G', '(') by {
        if i == 1 {
          assert s[2] == '(';
        } else if i > 1 && i + 3 <= |s| {
          assert s[i + 1] != 'G';
        }
      }
    }
  }

  lemma BackgroundMatch(r: string, g: string, b: string)
    requires |r| > 0 && |g| > 0 && |b| > 0 && AllDigits(r) && AllDigits(g) && AllDigits(b)
    ensures var s := "BG(" + r + "," + g + "," + b + ")";
      MatchLen(ColorOrder('B'), s, 0) == Some(|s|)
  {
    var s := "BG(" + r + "," + g + "," + b + ")";
    assert HasAt3(s, 0, 'B', 'G', '(');
    assert IsDigit(s[3]);
    DigitSpanOver(s, 3, |r|);
    DigitSpanOver(s, 4 + |r|, |g|);
    DigitSpanOver(s, 5 + |r| + |g|, |b|);
    assert TripleEnd(s, 3) == Some(|s|);
  }

  /** A digit triple payload names the RGB colour of its components. */
  lemma TripleColor(r: string, g: string, b: string)
    requires |r| > 0 && |g| > 0 && |b| > 0 && AllDigits(r) && AllDigits(g) && AllDigits(b)
    requires DigitsValue(r) <= INT_MAX && DigitsValue(g) <= INT_MAX && DigitsValue(b) <= INT_MAX
    ensures ColorOf(r + "," + g + "," + b)
      == Ok(Rgb(DigitsValue(r) % 256, DigitsValue(g) % 256, DigitsValue(b) % 256))
  {
    var payload := r + "," + g + "," + b;
    assert payload[|r|] == ',';
    TripleSplit(r, g, b);
  }

  lemma TripleSplit(r: string, g: string, b: string)
    requires AllDigits(r) && AllDigits(g) && AllDigits(b)
    ensures SplitAll(r + "," + g + "," + b, ',') == [r, g, b]
  {
    var parts := [r, g, b];
    assert ',' !in r && ',' !in g && ',' !in b by {
      NoCommaInDigits(r);
      NoCommaInDigits(g);
      NoCommaInDigits(b);
    }
    assert forall k :: 0 <= k < |parts| ==> ',' !in parts[k];
    SplitAllOfJoin(parts, ',');
    assert Join(parts, ',') == r + "," + g + "," + b by {
      assert parts[1..] == [g, b];
      assert [g, b][1..] == [b];
      assert Join([b], ',') == b;
      assert Join([g, b], ',') == g + [','] + b;
      assert Join(parts, ',') == r + [','] + (g + [','] + b);
    }
  }

  lemma NoCommaInDigits(s: string)
    requires AllDigits(s)
    ensures ',' !in s
  {
  }

  lemma DigitSpanOver(s: string, j: nat, n: nat)
    requires j + n <= |s|
    requires forall i :: j <= i < j + n ==> IsDigit(s[i])
    requires j + n == |s| || !IsDigit(s[j + n])
    ensures DigitSpan(s, j) == j + n
    decreases n
  {
    if n > 0 {
      DigitSpanOver(s, j + 1, n - 1);
    }
  }
}
