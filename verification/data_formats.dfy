/** Data-format rules: a rule pairs a value pattern with the display format
    stored with the cell style, and the first rule whose pattern finds the
    cell text decides how the text is stored (verbatim, as a `long` or as a
    `double`). */
module DataFormats {
  import opened Results
  import opened JavaText

  /** A rule's pattern: one of the builtin numeric shapes (digits with a
      fixed number of decimal places) or a user-supplied regex. */
  datatype Pattern = Builtin(places: nat) | User(regex: string)

  /** `pattern == None` marks a catch-all rule; `fmt` is the display format
      after the negative clause has been added. */
  datatype Rule = Rule(name: string, pattern: Option<Pattern>, fmt: Option<string>, isInteger: bool)

  /** How negative numbers are shown: in red or not, and which of the
      policies "", "-" or "()" (or none) is in force. */
  datatype NegPolicy = NegPolicy(red: bool, fmt: Option<string>)

  const POLICIES: seq<string> := ["", "-", "()"]

  predicate KnownPolicy(p: NegPolicy) {
    p.fmt.None? || p.fmt.value in POLICIES
  }

  // --------------------------------------------------------- registration

  /** The negative section appended to a display format `f` under policy
      `p`, `;` included. */
  function NegativeSection(f: string, p: NegPolicy): (r: Result<string>)
    requires p.fmt.Some?
    ensures r.Ok? <==> p.fmt.value in POLICIES
    ensures r.Ok? ==> StartsWith(r.value, ";")
  {
    var red := if p.red then "[Red]" else "";
    if p.fmt.value in POLICIES then Ok(";" + (red + NegativeBody(f, p.fmt.value)))
    else Err("Negative format of " + p.fmt.value + " not implemented")
  }

  /** How a negative number is written under one of the policies: bare,
      with a minus sign, or in parentheses. */
  function NegativeBody(f: string, policy: string): string {
    if policy == "" then f else if policy == "-" then "-" + f else "(" + f + ")"
  }

  /** `createDataFormat`: the rule is an integer rule iff its display format
      has no `.`; a format that has no section separator gets a negative
      section when a policy is set; an unknown policy fails. */
  function CreateDataFormat(p: NegPolicy, name: string, pattern: Option<Pattern>, fmt: Option<string>): (r: Result<Rule>)
    ensures r.Ok? ==> r.value.name == name && r.value.pattern == pattern
    ensures r.Ok? ==> (r.value.isInteger <==> fmt.Some? && '.' !in fmt.value)
    ensures r.Ok? ==> (r.value.fmt.Some? <==> fmt.Some?)
    ensures r.Err? <==> fmt.Some? && ';' !in fmt.value && p.fmt.Some? && p.fmt.value !in POLICIES
    ensures r.Ok? && fmt.Some? && (';' in fmt.value || p.fmt.None?) ==> r.value.fmt == fmt
    ensures r.Ok? && fmt.Some? && ';' !in fmt.value && p.fmt.Some? ==>
      StartsWith(r.value.fmt.value, fmt.value + ";")
  {
    match fmt
    case None => Ok(Rule(name, pattern, None, false))
    case Some(f) =>
      var isInteger := '.' !in f;
      if ';' !in f && (p.red || p.fmt.Some?) && p.fmt.Some? then
        var neg :- NegativeSection(f, p);
        Ok(Rule(name, pattern, Some(f + neg), isInteger))
      else Ok(Rule(name, pattern, Some(f), isInteger))
  }

  /** The synthesised format keeps the original as its positive section:
      splitting at `;` gives the original first and the negative section
      (the original again, possibly red, signed or in parentheses) second. */
  lemma NegativeSectionsSplit(p: NegPolicy, f: string)
    requires ';' !in f && p.fmt.Some? && p.fmt.value in POLICIES
    ensures var g := CreateDataFormat(p, "", None, Some(f)).value.fmt.value;
      var red := if p.red then "[Red]" else "";
      var body := if p.fmt.value == "" then f else if p.fmt.value == "-" then "-" + f else "(" + f + ")";
      SplitAll(g, ';') == [f, red + body]
  {
    var red := if p.red then "[Red]" else "";
    var neg := red + NegativeBody(f, p.fmt.value);
    NegativeBodyClean(red, f, p.fmt.value);
    TwoSections(f, neg);
  }

  lemma NegativeBodyClean(red: string, f: string, policy: string)
    requires red == "" || red == "[Red]"
    requires ';' !in f
    ensures ';' !in red + NegativeBody(f, policy)
  {
    var neg := red + NegativeBody(f, policy);
    assert forall c :: c in neg ==> c in red || c in f || c in "-()";
  }

  lemma TwoSections(f: string, neg: string)
    requires ';' !in f && ';' !in neg
    ensures SplitAll(f + (";" + neg), ';') == [f, neg]
  {
    SplitAllOfJoin([f, neg], ';');
    JoinTwo(f, neg, ';');
    assert f + [';'] + neg == f + (";" + neg);
  }

  /** With the red flag on but no policy, nothing is appended. */
  lemma RedWithoutPolicyKeepsFormat(f: string, name: string, pattern: Option<Pattern>)
    ensures CreateDataFormat(NegPolicy(true, None), name, pattern, Some(f)).Ok?
    ensures CreateDataFormat(NegPolicy(true, None), name, pattern, Some(f)).value.fmt == Some(f)
  {
  }

  // ------------------------------------------------------------ builtins

  /** The builtin numeric rules: name, display format and decimal places. */
  const BUILTIN_NAMES: seq<string> := ["@int", "@nm1", "@num", "@nm3", "@nm4"]
  const BUILTIN_FORMATS: seq<string> := ["0", "0.0", "0.00", "0.000", "0.0000"]
  const CATCH_ALL: string := "@str"

  /** The builtin rules registered under the policy in force: the five
      numeric shapes in order, then the catch-all. */
  function Builtins(p: NegPolicy): (r: Result<seq<Rule>>)
    ensures r.Ok? <==> KnownPolicy(p)
    ensures r.Ok? ==> |r.value| == 6
    ensures r.Ok? ==> forall k :: 0 <= k < 5 ==> (r.value[k].name == BUILTIN_NAMES[k]
      && r.value[k].pattern == Some(Builtin(k)) && (r.value[k].isInteger <==> k == 0))
    ensures r.Ok? ==> r.value[5] == Rule(CATCH_ALL, None, None, false)
  {
    if !KnownPolicy(p) then Err("Negative format of " + p.fmt.value + " not implemented")
    else
      assert '.' in "0.0" && '.' in "0.00" && '.' in "0.000" && '.' in "0.0000" by {
        assert "0.0"[1] == '.' && "0.00"[1] == '.' && "0.000"[1] == '.' && "0.0000"[1] == '.';
      }
      Ok([Register(p, "@int", Some(Builtin(0)), Some("0")),
          Register(p, "@nm1", Some(Builtin(1)), Some("0.0")),
          Register(p, "@num", Some(Builtin(2)), Some("0.00")),
          Register(p, "@nm3", Some(Builtin(3)), Some("0.000")),
          Register(p, "@nm4", Some(Builtin(4)), Some("0.0000")),
          Register(p, CATCH_ALL, None, None)])
  }

  /** A registration that cannot fail: the policy is one of the known ones. */
  function Register(p: NegPolicy, name: string, pattern: Option<Pattern>, fmt: Option<string>): (r: Rule)
    requires KnownPolicy(p)
    ensures CreateDataFormat(p, name, pattern, fmt) == Ok(r)
  {
    CreateDataFormat(p, name, pattern, fmt).value
  }

  // ------------------------------------------------------- classification

  /** The builtin shape with `places` decimals, anchored at both ends:
      an optional `-`, digits, and for places > 0 a `.` and exactly that
      many digits. */
  predicate NumberShape(t: string, places: nat) {
    var u := if |t| > 0 && t[0] == '-' then t[1..] else t;
    if places == 0 then |u| > 0 && AllDigits(u)
    else (|u| >= places + 2 && u[|u| - places - 1] == '.'
      && AllDigits(u[..|u| - places - 1]) && AllDigits(u[|u| - places..]))
  }

  /** `find` of a builtin pattern: the shape, followed by the end of the
      text or by one final line terminator (`$` matches before it). */
  predicate BuiltinFinds(places: nat, s: string) {
    NumberShape(s, places)
    || (|s| > 0 && IsLineTerminator(s[|s| - 1]) && NumberShape(s[..|s| - 1], places))
    || (|s| > 1 && s[|s| - 2..] == "\r\n" && NumberShape(s[..|s| - 2], places))
  }

  /** A rule applies to a text when it is a catch-all or its pattern finds
      the text; user regexes are decided by the `find` oracle. */
  predicate Applies(rule: Rule, s: string, find: (string, string) -> bool) {
    match rule.pattern
    case None => true
    case Some(Builtin(n)) => BuiltinFinds(n, s)
    case Some(User(rx)) => find(rx, s)
  }

  predicate IsNumericChar(c: char) { IsDigit(c) || c == '.' || c == '-' }

  /** The text with every character other than digits, `.` and `-`
      removed. */
  function KeepNumeric(s: string): (r: string)
    ensures forall i :: 0 <= i < |r| ==> IsNumericChar(r[i])
    ensures |r| <= |s|
    ensures (forall i :: 0 <= i < |s| ==> IsNumericChar(s[i])) ==> r == s
    ensures |s| == 1 ==> r == (if IsNumericChar(s[0]) then s else "")
  {
    if |s| == 0 then ""
    else if IsNumericChar(s[0]) then [s[0]] + KeepNumeric(s[1..])
    else KeepNumeric(s[1..])
  }

  /** Stripping works piece by piece: together with the one-character
      case of its contract, every numeric character is kept, in order, and
      every other one is dropped. */
  lemma {:induction false} KeepNumericAppend(a: string, b: string)
    ensures KeepNumeric(a + b) == KeepNumeric(a) + KeepNumeric(b)
  {
    if |a| > 0 {
      assert (a + b)[0] == a[0];
      assert (a + b)[1..] == a[1..] + b;
      KeepNumericAppend(a[1..], b);
    } else {
      assert a + b == b;
    }
  }

  /** What a cell receives: the text itself, a `long`, or the text of a
      `double` (its value is not modelled). */
  datatype CellValue = Text(text: string) | Integer(n: int) | Decimal(text: string)

  /** The value a rule gives a text it applies to. */
  function Convert(rule: Rule, s: string): (r: Result<CellValue>)
    ensures rule.pattern.None? ==> r == Ok(Text(s))
    ensures r.Ok? && rule.pattern.Some? && rule.isInteger ==>
      r.value.Integer? && LONG_MIN <= r.value.n <= LONG_MAX
    ensures r.Ok? && rule.pattern.Some? && !rule.isInteger ==>
      r.value.Decimal? && DecimalValid(r.value.text)
    // an integer rule stores `Long.decode` of the stripped text
    ensures rule.pattern.Some? && rule.isInteger ==>
      (r.Ok? <==> DecodeLong(KeepNumeric(s)).Ok?)
      && (r.Ok? ==> DecodeLong(KeepNumeric(s)) == Ok(r.value.n))
    // a decimal rule stores the stripped text, when `parseDouble` reads it
    ensures rule.pattern.Some? && !rule.isInteger ==>
      (r.Ok? <==> DecimalValid(KeepNumeric(s)))
      && (r.Ok? ==> r.value.text == KeepNumeric(s))
  {
    if rule.pattern.None? then Ok(Text(s))
    else
      var pure := KeepNumeric(s);
      if rule.isInteger then
        var n :- DecodeLong(pure);
        Ok(Integer(n))
      else if DecimalValid(pure) then Ok(Decimal(pure))
      else Err("NumberFormatException: " + pure)
  }

  /** Whatever surrounds the digits, an integer rule stores the number its
      numeric characters spell. */
  lemma ConvertStoresNumber(rule: Rule, s: string, n: int)
    requires rule.pattern.Some? && rule.isInteger
    requires LONG_MIN <= n <= LONG_MAX && KeepNumeric(s) == IntToString(n)
    ensures Convert(rule, s) == Ok(Integer(n))
  {
    DecodeIntToString(n);
  }

  /** For example, "$1,234" is stored as 1234. */
  lemma PunctuatedInteger(rule: Rule)
    requires rule.pattern.Some? && rule.isInteger
    ensures Convert(rule, "$1,234") == Ok(Integer(1234))
  {
    StripDollars();
    DecimalText1234();
    ConvertStoresNumber(rule, "$1,234", 1234);
  }

  lemma StripDollars()
    ensures KeepNumeric("$1,234") == "1234"
  {
    var s := "$1,234";
    assert s[1..] == "1,234" && s[1..][1..] == ",234";
    assert KeepNumeric(s) == "1" + KeepNumeric(",234");
    assert ",234"[1..] == "234";
    assert KeepNumeric(",234") == KeepNumeric("234");
  }

  lemma DecimalText1234()
    ensures IntToString(1234) == "1234"
  {
    assert NatToString(1) == "1";
    assert NatToString(12) == "12";
    assert NatToString(123) == "123";
  }

  /** The index of the first rule that applies to `s`. */
  function FirstApplicable(rules: seq<Rule>, s: string, find: (string, string) -> bool, from: nat): (r: Option<nat>)
    requires from <= |rules|
    decreases |rules| - from
    ensures r.Some? ==> from <= r.value < |rules| && Applies(rules[r.value], s, find)
    ensures r.Some? ==> forall j :: from <= j < r.value ==> !Applies(rules[j], s, find)
    ensures r.None? ==> forall j :: from <= j < |rules| ==> !Applies(rules[j], s, find)
  {
    if from == |rules| then None
    else if Applies(rules[from], s, find) then Some(from)
    else FirstApplicable(rules, s, find, from + 1)
  }

  predicate IsFirstApplicable(rules: seq<Rule>, s: string, find: (string, string) -> bool, k: int) {
    0 <= k < |rules| && Applies(rules[k], s, find) && forall j :: 0 <= j < k ==> !Applies(rules[j], s, find)
  }

  /** The classifier of `setCellContent`: rules are tried in order, the
      first that applies decides, and its conversion may fail. No
      applicable rule at all is the "cannot happen" failure. */
  function Classify(rules: seq<Rule>, s: string, find: (string, string) -> bool): (r: Result<(CellValue, nat)>)
    ensures r.Ok? ==> r.value.1 < |rules| && Applies(rules[r.value.1], s, find)
    ensures r.Ok? ==> forall j :: 0 <= j < r.value.1 ==> !Applies(rules[j], s, find)
    ensures r.Ok? ==> Convert(rules[r.value.1], s) == Ok(r.value.0)
    ensures r.Err? <==>
      ((forall j :: 0 <= j < |rules| ==> !Applies(rules[j], s, find))
       || (exists k :: IsFirstApplicable(rules, s, find, k) && Convert(rules[k], s).Err?))
  {
    match FirstApplicable(rules, s, find, 0)
    case None => Err("cannot happen " + s)
    case Some(k) =>
      var v :- Convert(rules[k], s);
      Ok((v, k))
  }

  // ------------------------------------------------ classification facts

  /** With only the builtins, the decimal text of any `long` is stored as
      that integer by `@int`. */
  lemma IntegersRoundTrip(p: NegPolicy, n: int, find: (string, string) -> bool)
    requires KnownPolicy(p) && LONG_MIN <= n <= LONG_MAX
    ensures Classify(Builtins(p).value, IntToString(n), find) == Ok((Integer(n), 0))
  {
    var t := IntToString(n);
    var rules := Builtins(p).value;
    assert NumberShape(t, 0) by {
      if n < 0 {
        assert t[1..] == NatToString(-n);
      }
    }
    assert Applies(rules[0], t, find);
    assert KeepNumeric(t) == t by {
      assert forall i :: 0 <= i < |t| ==> IsNumericChar(t[i]) by {
        if n < 0 {
          assert forall i :: 1 <= i < |t| ==> t[i] == t[1..][i - 1];
        }
      }
    }
    DecodeIntToString(n);
  }

  /** `@int` matches a text with a leading zero, and `Long.decode` then
      reads it as octal: "010" is stored as eight and "09" throws. */
  lemma LeadingZeroOctal(p: NegPolicy, find: (string, string) -> bool)
    requires KnownPolicy(p)
    ensures Classify(Builtins(p).value, "010", find) == Ok((Integer(8), 0))
    ensures Classify(Builtins(p).value, "09", find).Err?
  {
    var rules := Builtins(p).value;
    assert NumberShape("010", 0) && NumberShape("09", 0);
    assert Applies(rules[0], "010", find) && Applies(rules[0], "09", find);
    assert KeepNumeric("010") == "010";
    assert KeepNumeric("09") == "09";
    DecodeLeadingZero();
    assert IsFirstApplicable(rules, "09", find, 0);
  }

  /** A text the builtin table cannot read as a number (it has no digit) is
      stored as it is by the catch-all. */
  lemma NonNumericIsText(p: NegPolicy, s: string, find: (string, string) -> bool)
    requires KnownPolicy(p)
    requires forall i :: 0 <= i < |s| ==> !IsDigit(s[i])
    ensures Classify(Builtins(p).value, s, find) == Ok((Text(s), 5))
  {
    var rules := Builtins(p).value;
    forall k | 0 <= k < 5 ensures !Applies(rules[k], s, find) {
      NoDigitNoShape(s, k);
    }
  }

  lemma NoDigitNoShape(s: string, places: nat)
    requires forall i :: 0 <= i < |s| ==> !IsDigit(s[i])
    ensures !BuiltinFinds(places, s)
  {
    NoDigitShape(s, places);
    if |s| > 0 {
      NoDigitShape(s[..|s| - 1], places);
    }
    if |s| > 1 {
      NoDigitShape(s[..|s| - 2], places);
    }
  }

  lemma NoDigitShape(t: string, places: nat)
    requires forall i :: 0 <= i < |t| ==> !IsDigit(t[i])
    ensures !NumberShape(t, places)
  {
    if |t| > 1 && t[0] == '-' {
      assert !IsDigit(t[1..][0]);
    } else if |t| > 0 {
      assert !IsDigit(t[0]);
    }
  }

  /** User rules placed before the builtins take every text they find,
      whatever the builtins would have done. */
  lemma UserRulesFirst(user: seq<Rule>, builtins: seq<Rule>, s: string, find: (string, string) -> bool, k: nat)
    requires k < |user| && Applies(user[k], s, find)
    requires forall j :: 0 <= j < k ==> !Applies(user[j], s, find)
    ensures Classify(user + builtins, s, find).Ok? ==> Classify(user + builtins, s, find).value.1 == k
    ensures Classify(user + builtins, s, find).Err? <==> Convert(user[k], s).Err?
  {
    var rules := user + builtins;
    assert rules[k] == user[k];
    assert forall j :: 0 <= j < k ==> rules[j] == user[j];
    var r := FirstApplicable(rules, s, find, 0);
    assert r == Some(k);
  }
}
