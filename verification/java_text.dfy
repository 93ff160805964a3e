/** The parts of java.lang.String, Integer and Long that the report engine
    leans on, written out over `seq<char>`: character classes, `trim`,
    `indexOf`, `split` on a one-character literal, `Integer.parseInt` on a
    digit run, `Long.decode` and the decimal grammar `Double.parseDouble`
    accepts over the alphabet [0-9.-]. */
module JavaText {
  import opened Results

  const INT_MAX: int := 0x7FFF_FFFF
  const INT_MIN: int := -0x8000_0000
  const LONG_MAX: int := 0x7FFF_FFFF_FFFF_FFFF
  const LONG_MIN: int := -0x8000_0000_0000_0000

  /** A value of Java's `int` type. */
  type Int32 = x: int | INT_MIN <= x <= INT_MAX

  /** Java `int` addition wraps modulo 2^32. */
  function Wrap32(x: int): (r: Int32)
    ensures INT_MIN <= x <= INT_MAX ==> r == x
    ensures (r - x) % 0x1_0000_0000 == 0
  {
    ((x - INT_MIN) % 0x1_0000_0000) + INT_MIN
  }

  predicate IsDigit(c: char) { '0' <= c <= '9' }

  predicate IsOctalDigit(c: char) { '0' <= c <= '7' }

  predicate IsAsciiLetter(c: char) { 'a' <= c <= 'z' || 'A' <= c <= 'Z' }

  predicate IsAsciiAlnum(c: char) { IsAsciiLetter(c) || IsDigit(c) }

  /** The characters a regex `.` refuses and a `$` may stand before. */
  predicate IsLineTerminator(c: char) {
    c == '\n' || c == '\r' || c == '\U{85}' || c == '\U{2028}' || c == '\U{2029}'
  }

  /** `String.trim` removes every character not above the space. */
  predicate IsTrimmable(c: char) { c <= ' ' }

  predicate AllDigits(s: string) {
    forall i :: 0 <= i < |s| ==> IsDigit(s[i])
  }

  predicate StartsWith(s: string, p: string) {
    |p| <= |s| && s[..|p|] == p
  }

  predicate EndsWith(s: string, p: string) {
    |p| <= |s| && s[|s| - |p|..] == p
  }

  // ---------------------------------------------------------------- trim

  /** The first index from `i` on that holds no trimmable character, or
      the length when there is none. */
  function TrimFrom(s: string, i: nat): (r: nat)
    requires i <= |s|
    decreases |s| - i
    ensures i <= r <= |s| && (forall k :: i <= k < r ==> IsTrimmable(s[k]))
    ensures r < |s| ==> !IsTrimmable(s[r])
  {
    if i < |s| && IsTrimmable(s[i]) then TrimFrom(s, i + 1) else i
  }

  /** Going back from `j`, no further than `lo`: the end after the
      trailing trimmable characters. */
  function TrimBack(s: string, lo: nat, j: nat): (r: nat)
    requires lo <= j <= |s|
    decreases j
    ensures lo <= r <= j && (forall k :: r <= k < j ==> IsTrimmable(s[k]))
    ensures r > lo ==> !IsTrimmable(s[r - 1])
  {
    if j > lo && IsTrimmable(s[j - 1]) then TrimBack(s, lo, j - 1) else j
  }

  /** `r` sits in `s` at offset `k`, and everything around it is trimmable. */
  predicate TrimmedAt(r: string, s: string, k: int) {
    0 <= k && k + |r| <= |s| && r == s[k..k + |r|]
    && (forall i :: 0 <= i < k ==> IsTrimmable(s[i]))
    && (forall i :: k + |r| <= i < |s| ==> IsTrimmable(s[i]))
  }

  /** Where the trimmed text starts: after the leading trimmable run. */
  function TrimOffset(s: string): (r: nat)
    ensures r <= |s|
  {
    TrimFrom(s, 0)
  }

  /** `String.trim`: the infix left after removing every leading and every
      trailing character at or below the space. */
  function Trim(s: string): (r: string)
    ensures TrimmedAt(r, s, TrimOffset(s))
    ensures |r| > 0 ==> !IsTrimmable(r[0]) && !IsTrimmable(r[|r| - 1])
  {
    var lo := TrimFrom(s, 0);
    s[lo..TrimBack(s, lo, |s|)]
  }

  predicate IsTrimmed(s: string) {
    |s| > 0 ==> !IsTrimmable(s[0]) && !IsTrimmable(s[|s| - 1])
  }

  lemma TrimOfTrimmed(s: string)
    requires IsTrimmed(s)
    ensures Trim(s) == s
  {
  }

  // ------------------------------------------------------------- indexOf

  /** `indexOf(c, from)`: the first position at or after `from` holding `c`. */
  function IndexOfFrom(s: string, c: char, from: nat): (r: Option<nat>)
    decreases |s| - from
    ensures r.Some? ==> from <= r.value < |s| && s[r.value] == c
    ensures r.Some? ==> forall i :: from <= i < r.value ==> s[i] != c
    ensures r.None? ==> forall i :: from <= i < |s| ==> s[i] != c
  {
    if from >= |s| then None
    else if s[from] == c then Some(from)
    else IndexOfFrom(s, c, from + 1)
  }

  /** `lastIndexOf(c)`. */
  function LastIndexOf(s: string, c: char): (r: Option<nat>)
    ensures r.Some? ==> r.value < |s| && s[r.value] == c
    ensures r.Some? ==> forall i :: r.value < i < |s| ==> s[i] != c
    ensures r.None? ==> c !in s
  {
    if |s| == 0 then None
    else if s[|s| - 1] == c then Some(|s| - 1)
    else LastIndexOf(s[..|s| - 1], c)
  }

  // --------------------------------------------------------------- split

  /** Every piece between occurrences of `d`, empty pieces included: the
      tokens of a split that keeps trailing empties. */
  function SplitAll(s: string, d: char): (r: seq<string>)
    ensures |r| >= 1
  {
    SplitFrom(s, d, 0)
  }

  function SplitFrom(s: string, d: char, from: nat): (r: seq<string>)
    requires from <= |s|
    decreases |s| - from
    ensures |r| >= 1
  {
    match IndexOfFrom(s, d, from)
    case None => [s[from..]]
    case Some(n) => [s[from..n]] + SplitFrom(s, d, n + 1)
  }

  /** The tokens glued back with `d` between them. */
  function Join(parts: seq<string>, d: char): (r: string)
    decreases |parts|
  {
    if |parts| == 0 then ""
    else if |parts| == 1 then parts[0]
    else parts[0] + [d] + Join(parts[1..], d)
  }

  /** How many times `c` occurs in `s`. */
  function Count(s: string, c: char): (r: nat)
    ensures r <= |s|
    ensures r == 0 <==> c !in s
  {
    if |s| == 0 then 0
    else (if s[0] == c then 1 else 0) + Count(s[1..], c)
  }

  /** `String.split` with a one-character literal separator and no limit:
      no occurrence gives the whole input; otherwise trailing empty pieces
      are dropped. */
  function JavaSplit(s: string, d: char): (r: seq<string>)
    ensures d !in s ==> r == [s]
    ensures d in s ==> |r| == 0 || r[|r| - 1] != ""
  {
    if d !in s then [s] else DropTrailingEmpty(SplitAll(s, d))
  }

  function DropTrailingEmpty(p: seq<string>): (r: seq<string>)
    ensures |r| <= |p| && r == p[..|r|]
    ensures |r| == 0 || r[|r| - 1] != ""
    ensures forall i :: |r| <= i < |p| ==> p[i] == ""
  {
    if |p| == 0 || p[|p| - 1] != "" then p else DropTrailingEmpty(p[..|p| - 1])
  }

  // ----------------------------------------------------- split / join facts

  lemma {:induction false} SplitFromNoDelim(s: string, d: char, from: nat)
    requires from <= |s|
    decreases |s| - from
    ensures forall k :: 0 <= k < |SplitFrom(s, d, from)| ==> d !in SplitFrom(s, d, from)[k]
  {
    match IndexOfFrom(s, d, from)
    case None =>
      assert forall i :: from <= i < |s| ==> s[i] != d;
    case Some(n) =>
      SplitFromNoDelim(s, d, n + 1);
      var head := s[from..n];
      assert forall i :: 0 <= i < |head| ==> head[i] == s[from + i];
  }

  /** No token contains the delimiter. */
  lemma SplitAllNoDelim(s: string, d: char)
    ensures forall k :: 0 <= k < |SplitAll(s, d)| ==> d !in SplitAll(s, d)[k]
  {
    SplitFromNoDelim(s, d, 0);
  }

  lemma {:induction false} SplitFromJoin(s: string, d: char, from: nat)
    requires from <= |s|
    decreases |s| - from
    ensures Join(SplitFrom(s, d, from), d) == s[from..]
  {
    match IndexOfFrom(s, d, from)
    case None =>
    case Some(n) =>
      SplitFromJoin(s, d, n + 1);
      var tail := SplitFrom(s, d, n + 1);
      var parts := SplitFrom(s, d, from);
      assert parts == [s[from..n]] + tail;
      assert parts[1..] == tail;
      assert s[from..] == s[from..n] + [d] + s[n + 1..];
  }

  /** Joining the tokens with the delimiter gives the input back. */
  lemma JoinSplitAll(s: string, d: char)
    ensures Join(SplitAll(s, d), d) == s
  {
    SplitFromJoin(s, d, 0);
  }

  lemma {:induction false} SplitFromCount(s: string, d: char, from: nat)
    requires from <= |s|
    decreases |s| - from
    ensures |SplitFrom(s, d, from)| == Count(s[from..], d) + 1
  {
    match IndexOfFrom(s, d, from)
    case None =>
      CountSkip(s, d, from, |s|);
    case Some(n) =>
      SplitFromCount(s, d, n + 1);
      CountSkip(s, d, from, n);
      assert s[n..][1..] == s[n + 1..];
  }

  /** Skipping a delimiter-free stretch does not change the count. */
  lemma {:induction false} CountSkip(s: string, d: char, from: nat, stop: nat)
    requires from <= stop <= |s|
    requires forall i :: from <= i < stop ==> s[i] != d
    decreases stop - from
    ensures Count(s[from..], d) == Count(s[stop..], d)
  {
    if from < stop {
      assert s[from..][1..] == s[from + 1..];
      CountSkip(s, d, from + 1, stop);
    }
  }

  /** A split yields one more token than there are delimiters. */
  lemma SplitAllCount(s: string, d: char)
    ensures |SplitAll(s, d)| == Count(s, d) + 1
  {
    SplitFromCount(s, d, 0);
    assert s[0..] == s;
  }

  lemma {:induction false} SplitFromOfJoin(parts: seq<string>, d: char, pre: string)
    requires |parts| >= 1
    requires forall k :: 0 <= k < |parts| ==> d !in parts[k]
    decreases |parts|
    ensures SplitFrom(pre + Join(parts, d), d, |pre|) == parts
  {
    if |parts| == 1 {
      LastPiece(parts[0], d, pre);
    } else {
      var p0 := parts[0];
      var tail := parts[1..];
      var rest := Join(tail, d);
      assert forall k :: 0 <= k < |tail| ==> tail[k] == parts[k + 1];
      SplitFromOfJoin(tail, d, pre + p0 + [d]);
      FirstPiece(p0, d, pre, rest);
      assert Join(parts, d) == p0 + [d] + rest;
      assert parts == [p0] + tail;
    }
  }

  lemma LastPiece(p: string, d: char, pre: string)
    requires d !in p
    ensures SplitFrom(pre + p, d, |pre|) == [p]
  {
    var s := pre + p;
    assert s[|pre|..] == p;
    NoDelimIndex(s, d, |pre|, |s|);
  }

  /** Splitting at the first delimiter after a delimiter-free piece. */
  lemma FirstPiece(p: string, d: char, pre: string, rest: string)
    requires d !in p
    ensures SplitFrom(pre + (p + [d] + rest), d, |pre|)
      == [p] + SplitFrom(pre + p + [d] + rest, d, |pre| + |p| + 1)
  {
    var s := pre + (p + [d] + rest);
    assert s == pre + p + [d] + rest;
    assert s[|pre|..|pre| + |p|] == p;
    assert s[|pre| + |p|] == d;
    NoDelimIndex(s, d, |pre|, |pre| + |p|);
  }

  lemma NoDelimIndex(s: string, d: char, from: nat, to: nat)
    requires from <= to <= |s|
    requires d !in s[from..to]
    ensures to == |s| ==> IndexOfFrom(s, d, from) == None
    ensures to < |s| && s[to] == d ==> IndexOfFrom(s, d, from) == Some(to)
  {
    assert forall i :: from <= i < to ==> s[i] == s[from..to][i - from];
  }

  /** Every character of a token comes from the input. */
  lemma {:induction false} SplitFromWithin(s: string, d: char, from: nat)
    requires from <= |s|
    decreases |s| - from
    ensures forall k, c :: 0 <= k < |SplitFrom(s, d, from)| && c in SplitFrom(s, d, from)[k] ==> c in s
  {
    match IndexOfFrom(s, d, from)
    case None =>
      assert forall c :: c in s[from..] ==> c in s;
    case Some(n) =>
      SplitFromWithin(s, d, n + 1);
      assert forall c :: c in s[from..n] ==> c in s;
  }

  lemma JavaSplitWithin(s: string, d: char)
    ensures forall k, c :: 0 <= k < |JavaSplit(s, d)| && c in JavaSplit(s, d)[k] ==> c in s
  {
    if d in s {
      SplitFromWithin(s, d, 0);
      var all := SplitAll(s, d);
      var r := JavaSplit(s, d);
      assert forall k :: 0 <= k < |r| ==> r[k] == all[k];
    }
  }

  lemma JoinTwo(a: string, b: string, d: char)
    ensures Join([a, b], d) == a + [d] + b
  {
    assert [a, b][1..] == [b];
  }

  lemma JoinThree(a: string, b: string, c: string, d: char)
    ensures Join([a, b, c], d) == a + [d] + b + [d] + c
  {
    assert [a, b, c][1..] == [b, c];
    JoinTwo(b, c, d);
  }

  /** Splitting a join of delimiter-free tokens gives the tokens back. */
  lemma SplitAllOfJoin(parts: seq<string>, d: char)
    requires |parts| >= 1
    requires forall k :: 0 <= k < |parts| ==> d !in parts[k]
    ensures SplitAll(Join(parts, d), d) == parts
  {
    SplitFromOfJoin(parts, d, "");
    assert "" + Join(parts, d) == Join(parts, d);
  }

  // ---------------------------------------------------- integers as text

  /** The value of a run of decimal digits (no sign, no range check). */
  function DigitsValue(s: string): (r: nat)
    requires AllDigits(s)
  {
    if |s| == 0 then 0
    else DigitsValue(s[..|s| - 1]) * 10 + (s[|s| - 1] as int - '0' as int)
  }

  function Pow10(n: nat): (r: nat)
    ensures r > 0
  {
    if n == 0 then 1 else 10 * Pow10(n - 1)
  }

  /** A run of `n` digits is worth less than 10^n. */
  lemma {:induction false} DigitsBelow(s: string)
    requires AllDigits(s)
    ensures DigitsValue(s) < Pow10(|s|)
  {
    if |s| > 0 {
      var init := s[..|s| - 1];
      assert AllDigits(init) by {
        assert forall i :: 0 <= i < |init| ==> init[i] == s[i];
      }
      DigitsBelow(init);
      assert IsDigit(s[|s| - 1]);
    }
  }

  /** Up to nine digits always fit in an `int`. */
  lemma ShortDigitsFit(s: string)
    requires AllDigits(s) && |s| <= 9
    ensures DigitsValue(s) <= INT_MAX
  {
    DigitsBelow(s);
    Pow10Mono(|s|, 9);
  }

  lemma {:induction false} Pow10Mono(a: nat, b: nat)
    requires a <= b
    ensures Pow10(a) <= Pow10(b)
  {
    if a < b {
      Pow10Mono(a, b - 1);
    }
  }

  predicate AllOctal(s: string) {
    forall i :: 0 <= i < |s| ==> IsOctalDigit(s[i])
  }

  /** The value of a run of octal digits. */
  function OctalValue(s: string): (r: nat)
    requires AllOctal(s)
  {
    if |s| == 0 then 0
    else
      assert IsOctalDigit(s[|s| - 1]);
      OctalValue(s[..|s| - 1]) * 8 + (s[|s| - 1] as int - '0' as int)
  }

  /** `Integer.parseInt` applied to a string that a regex has already
      confirmed to be a digit run: it fails only when the value does not
      fit in an `int`. */
  function ParseDigits(s: string): (r: Result<nat>)
    ensures r.Ok? <==> |s| > 0 && AllDigits(s) && DigitsValue(s) <= INT_MAX
    ensures r.Ok? ==> r.value == DigitsValue(s)
  {
    if |s| > 0 && AllDigits(s) && DigitsValue(s) <= INT_MAX then Ok(DigitsValue(s))
    else Err("NumberFormatException: " + s)
  }

  /** Decimal text of a natural number. */
  function NatToString(n: nat): (r: string)
    ensures |r| > 0 && AllDigits(r)
    ensures DigitsValue(r) == n
    ensures |r| > 1 ==> r[0] != '0'
    ensures n > 0 ==> r[0] != '0'
  {
    if n < 10 then [('0' as int + n) as char]
    else
      var p := NatToString(n / 10);
      var r := p + [('0' as int + n % 10) as char];
      assert r[..|r| - 1] == p && r[0] == p[0];
      r
  }

  /** Decimal text of an integer, `Integer.toString` style. */
  function IntToString(n: int): (r: string)
    ensures |r| > 0
    ensures n >= 0 ==> AllDigits(r) && DigitsValue(r) == n
    ensures n < 0 ==> r[0] == '-' && AllDigits(r[1..]) && DigitsValue(r[1..]) == -n
  {
    if n >= 0 then NatToString(n) else "-" + NatToString(-n)
  }

  /** `Integer.parseInt` in radix 10: an optional `-` or `+`, then at
      least one decimal digit, and the signed value must fit in an `int`. */
  function ParseInt(s: string): (r: Result<int>)
    ensures r.Ok? ==> INT_MIN <= r.value <= INT_MAX
    ensures |s| == 0 ==> r.Err?
    ensures AllDigits(s) && |s| > 0 ==> (r.Ok? <==> DigitsValue(s) <= INT_MAX)
    ensures AllDigits(s) && r.Ok? ==> r.value == DigitsValue(s)
    ensures |s| > 0 && s[0] == '-' && r.Ok? ==> AllDigits(s[1..]) && r.value == 0 - DigitsValue(s[1..]) as int
  {
    var signed := |s| > 0 && (s[0] == '-' || s[0] == '+');
    var digits := if signed then s[1..] else s;
    if |digits| == 0 || !AllDigits(digits) then Err("NumberFormatException: For input string: " + s)
    else
      var d: int := DigitsValue(digits);
      var v := if |s| > 0 && s[0] == '-' then -d else d;
      if INT_MIN <= v <= INT_MAX then Ok(v) else Err("NumberFormatException: For input string: " + s)
  }

  /** `Integer.parseInt` reads back the decimal text of any `int`. */
  lemma ParseIntToString(n: int)
    requires INT_MIN <= n <= INT_MAX
    ensures ParseInt(IntToString(n)) == Ok(n)
  {
    var t := IntToString(n);
    if n < 0 {
      assert t == "-" + NatToString(-n);
      assert t[1..] == NatToString(-n);
    } else {
      assert t[0] != '-' && t[0] != '+' by { assert IsDigit(t[0]); }
    }
  }

  /** `Long.decode` over text that holds only digits, `.` and `-` (the
      characters the classifier keeps): an optional leading `-`, then a
      leading `0` followed by more characters selects octal, and the value
      must fit in a `long`. */
  function DecodeLong(t: string): (r: Result<int>)
    ensures r.Ok? ==> LONG_MIN <= r.value <= LONG_MAX
    ensures r.Ok? ==> |t| > 0
    // plain decimal: no leading zero unless the digit stands alone
    ensures AllDigits(t) && |t| > 0 && (|t| == 1 || t[0] != '0') ==>
      (r.Ok? <==> DigitsValue(t) <= LONG_MAX) && (r.Ok? ==> r.value == DigitsValue(t))
    // a leading zero followed by more characters selects octal
    ensures |t| > 1 && t[0] == '0' ==>
      (r.Ok? <==> AllOctal(t[1..]) && OctalValue(t[1..]) <= LONG_MAX)
    ensures |t| > 1 && t[0] == '0' && r.Ok? ==> AllOctal(t[1..]) && r.value == OctalValue(t[1..])
    // a second sign is in the wrong position
    ensures |t| > 1 && t[0] == '-' && t[1] == '-' ==> r.Err?
  {
    var neg := |t| > 0 && t[0] == '-';
    var i := if neg then 1 else 0;
    if |t| == i then Err("NumberFormatException: zero length")
    else
      var octal := t[i] == '0' && |t| > i + 1;
      var rest := t[if octal then i + 1 else i..];
      if rest[0] == '-' then Err("NumberFormatException: sign in wrong position")
      else if octal then
        if AllOctal(rest) then
          SignedInLong(neg, OctalValue(rest))
        else Err("NumberFormatException: not octal " + t)
      else if AllDigits(rest) then SignedInLong(neg, DigitsValue(rest))
      else Err("NumberFormatException: not decimal " + t)
  }

  function SignedInLong(neg: bool, v: nat): (r: Result<int>)
    ensures r.Ok? <==> (if neg then -(v as int) >= LONG_MIN else v <= LONG_MAX)
    ensures r.Ok? ==> r.value == (if neg then -(v as int) else v)
  {
    var x: int := if neg then -(v as int) else v;
    if LONG_MIN <= x <= LONG_MAX then Ok(x) else Err("NumberFormatException: out of range")
  }

  /** A leading `-` negates whatever the rest decodes to; only the
      magnitude 2^63, which fits only when negated, decodes with the sign
      and not without it. */
  lemma DecodeNegated(t: string)
    requires |t| > 0 && t[0] != '-'
    ensures DecodeLong(t).Ok? ==> DecodeLong("-" + t) == Ok(-DecodeLong(t).value)
    ensures DecodeLong("-" + t).Ok? && DecodeLong("-" + t).value != LONG_MIN ==>
      DecodeLong(t) == Ok(-DecodeLong("-" + t).value)
  {
    var u := "-" + t;
    assert u[1..] == t;
    assert u[1] == t[0];
    var octal := t[0] == '0' && |t| > 1;
    assert u[if octal then 2 else 1..] == t[if octal then 1 else 0..];
  }

  /** The octal quirk: "010" decodes to eight, and "09", which is no octal
      number, does not decode at all. */
  lemma DecodeLeadingZero()
    ensures DecodeLong("010") == Ok(8)
    ensures DecodeLong("09").Err?
  {
    assert "010"[1..] == "10";
    assert "10"[..1] == "1" && "1"[..0] == "";
    assert !IsOctalDigit("09"[1..][0]);
  }

  /** `Long.decode` reads back the decimal text of any `long`. */
  lemma DecodeIntToString(n: int)
    requires LONG_MIN <= n <= LONG_MAX
    ensures DecodeLong(IntToString(n)) == Ok(n)
  {
    var t := IntToString(n);
    if n >= 0 {
      assert t[0] != '-';
      assert AllDigits(t[0..]) by { assert t[0..] == t; }
    } else {
      var u := NatToString(-n);
      assert t == "-" + u;
      assert t[1..] == u;
      assert |u| == 1 ==> u[0] != '0' by {
        if |u| == 1 {
          assert u[..0] == "";
          assert DigitsValue(u) == u[0] as int - '0' as int;
        }
      }
    }
  }

  /** The texts over [0-9.-] that `Double.parseDouble` accepts: an optional
      `-`, then digits with at most one `.`, at least one digit in all. */
  predicate DecimalValid(t: string) {
    var u := if |t| > 0 && t[0] == '-' then t[1..] else t;
    (exists k :: 0 <= k < |u| && IsDigit(u[k]))
    && (forall k :: 0 <= k < |u| ==> IsDigit(u[k]) || u[k] == '.')
    && Count(u, '.') <= 1
  }
}
