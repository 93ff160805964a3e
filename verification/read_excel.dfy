/** The text utilities of the spreadsheet reader: the token splitter, the
    column-map specifications it splits, and `dequote`. */
module ReadExcel {
  import opened Results
  import opened JavaText

  // ------------------------------------------------------------ tokens

  /** The tokens of `s` between occurrences of `d`: none for empty text,
      otherwise every piece, empty ones included. */
  function Tokens(s: string, d: char): (r: seq<string>)
  {
    if |s| == 0 then [] else SplitAll(s, d)
  }

  /** `makeTokenArray`: a first pass counts the tokens, a second fills
      them in, the last being what follows the last delimiter. */
  method MakeTokenArray(s: string, d: char) returns (r: seq<string>)
    ensures r == Tokens(s, d)
    ensures |s| == 0 ==> r == []
    ensures |s| > 0 ==> |r| == Count(s, d) + 1
    ensures forall k :: 0 <= k < |r| ==> d !in r[k]
    ensures |s| > 0 ==> Join(r, d) == s
  {
    if |s| == 0 {
      return [];
    }
    var rows := CountTokens(s, d);
    SplitAllCount(s, d);
    r := FillTokens(s, d, rows);
    JoinSplitAll(s, d);
    SplitAllNoDelim(s, d);
  }

  /** The first pass: one token more than there are delimiters. */
  method CountTokens(s: string, d: char) returns (rows: nat)
    ensures rows == Count(s, d) + 1
  {
    var at := 0;
    rows := 1;
    assert s[0..] == s;
    while at < |s|
      invariant 0 <= at <= |s|
      invariant rows + Count(s[at..], d) == Count(s, d) + 1
      decreases |s| - at
    {
      var n := IndexOfFrom(s, d, at);
      if n.None? {
        CountNone(s, d, at);
        return;
      }
      CountNext(s, d, at, n.value);
      at := n.value + 1;
      rows := rows + 1;
    }
  }

  /** No delimiter from `at` on: none left to count. */
  lemma CountNone(s: string, d: char, at: nat)
    requires at <= |s| && IndexOfFrom(s, d, at).None?
    ensures Count(s[at..], d) == 0
  {
    CountSkip(s, d, at, |s|);
    assert s[|s|..] == [];
  }

  /** The next delimiter from `at` is at `n`: one fewer left after it. */
  lemma CountNext(s: string, d: char, at: nat, n: nat)
    requires at <= |s| && IndexOfFrom(s, d, at) == Some(n)
    ensures n < |s| && Count(s[at..], d) == 1 + Count(s[n + 1..], d)
  {
    CountSkip(s, d, at, n);
    assert s[n..][1..] == s[n + 1..];
  }

  /** The second pass, into an array of `rows` tokens. */
  method FillTokens(s: string, d: char, rows: nat) returns (r: seq<string>)
    requires rows == |SplitAll(s, d)|
    ensures r == SplitAll(s, d)
  {
    var toks := seq(rows, _ => "");
    var at := 0;
    var k := 0;
    assert toks[..0] + SplitFrom(s, d, 0) == SplitAll(s, d);
    while at < |s|
      invariant 0 <= at <= |s| && |toks| == rows
      invariant k + |SplitFrom(s, d, at)| == rows
      invariant toks[..k] + SplitFrom(s, d, at) == SplitAll(s, d)
      decreases |s| - at
    {
      var n := IndexOfFrom(s, d, at);
      if n.None? {
        break;
      }
      assert SplitFrom(s, d, at) == [s[at..n.value]] + SplitFrom(s, d, n.value + 1);
      SetNext(toks, k, s[at..n.value], SplitFrom(s, d, n.value + 1));
      toks := toks[k := s[at..n.value]];
      k := k + 1;
      at := n.value + 1;
    }
    assert SplitFrom(s, d, at) == [s[at..]];
    SetLast(toks, k, s[at..]);
    r := toks[k := s[at..]];
  }

  /** Filling slot `k` moves one token from the pending ones to the filled
      ones. */
  lemma SetNext<T>(xs: seq<T>, k: nat, x: T, rest: seq<T>)
    requires k < |xs|
    ensures xs[k := x][..k + 1] + rest == xs[..k] + ([x] + rest)
  {
    assert xs[k := x][..k + 1] == xs[..k] + [x];
  }

  /** Filling the last slot completes the array. */
  lemma SetLast<T>(xs: seq<T>, k: nat, x: T)
    requires k + 1 == |xs|
    ensures xs[k := x] == xs[..k] + [x]
  {
  }

  /** The last token is what follows the last delimiter: empty when the
      text ends with one. */
  lemma {:induction false} LastTokenIsTail(s: string, d: char, from: nat)
    requires from <= |s|
    decreases |s| - from
    ensures var r := SplitFrom(s, d, from); |r[|r| - 1]| <= |s| - from && r[|r| - 1] == s[|s| - |r[|r| - 1]|..]
  {
    match IndexOfFrom(s, d, from)
    case None =>
    case Some(n) =>
      LastTokenIsTail(s, d, n + 1);
      var tail := SplitFrom(s, d, n + 1);
      assert SplitFrom(s, d, from) == [s[from..n]] + tail;
  }

  lemma TrailingDelimiterGivesEmpty(s: string, d: char)
    requires |s| > 0 && s[|s| - 1] == d
    ensures Tokens(s, d)[|Tokens(s, d)| - 1] == ""
  {
    var r := Tokens(s, d);
    var last := r[|r| - 1];
    assert r == SplitFrom(s, d, 0);
    LastTokenIsTail(s, d, 0);
    SplitAllNoDelim(s, d);
  }

  // -------------------------------------------------------- column maps

  /** Which column a field is read from. */
  datatype ColMap = ColMap(col: int, name: string)

  /** `[a-zA-Z][a-zA-Z0-9]+`: a letter and at least one more letter or
      digit. */
  predicate IsIdentifier(t: string) {
    |t| >= 2 && IsAsciiLetter(t[0]) && forall i :: 1 <= i < |t| ==> IsAsciiAlnum(t[i])
  }

  /** How many decimal digits `s` starts with. */
  function DigitRun(s: string): (r: nat)
    ensures r <= |s| && AllDigits(s[..r])
    ensures r < |s| ==> !IsDigit(s[r])
  {
    if |s| == 0 || !IsDigit(s[0]) then 0
    else
      var n := DigitRun(s[1..]);
      assert forall i :: 0 <= i < n ==> s[..n + 1][i + 1] == s[1..][..n][i];
      n + 1
  }

  function NoLineTerminator(s: string): bool {
    forall i :: 0 <= i < |s| ==> !IsLineTerminator(s[i])
  }

  /** One token of a column map at position `pos`: an identifier names the
      field read from the column at its own position; `digits=name` names
      the field read from that column; anything else is an error. */
  function ParseColToken(tok: string, pos: nat): (r: Result<ColMap>)
    ensures IsIdentifier(tok) ==> r == Ok(ColMap(pos, tok))
    ensures r.Ok? && !IsIdentifier(tok) ==> var n := DigitRun(tok);
      && 0 < n < |tok| && tok[n] == '=' && NoLineTerminator(tok[n + 1..])
      && r.value == ColMap(DigitsValue(tok[..n]), tok[n + 1..]) && r.value.col <= INT_MAX
    ensures !IsIdentifier(tok) ==> var n := DigitRun(tok);
      (r.Ok? <==> 0 < n < |tok| && tok[n] == '=' && NoLineTerminator(tok[n + 1..])
                  && DigitsValue(tok[..n]) <= INT_MAX)
  {
    if IsIdentifier(tok) then Ok(ColMap(pos, tok))
    else
      var n := DigitRun(tok);
      if n == 0 || n == |tok| || tok[n] != '=' || !NoLineTerminator(tok[n + 1..]) then Err("Blew up at " + tok)
      else
        var col :- ParseDigits(tok[..n]);
        Ok(ColMap(col, tok[n + 1..]))
  }

  /** The tokens from `pos` on, each at its own position. */
  function ParseColTokens(toks: seq<string>, pos: nat): (r: Result<seq<ColMap>>)
    requires pos <= |toks|
    decreases |toks| - pos
    ensures r.Ok? ==> |r.value| == |toks| - pos
    ensures r.Ok? ==> forall i :: pos <= i < |toks| ==> ParseColToken(toks[i], i) == Ok(r.value[i - pos])
    ensures r.Ok? <==> forall i :: pos <= i < |toks| ==> ParseColToken(toks[i], i).Ok?
  {
    if pos == |toks| then Ok([])
    else
      match ParseColToken(toks[pos], pos)
      case Err(e) => Err(e)
      case Ok(c) =>
        match ParseColTokens(toks, pos + 1)
        case Err(e) => Err(e)
        case Ok(rest) =>
          var r := [c] + rest;
          assert forall j :: 1 <= j < |r| ==> r[j] == rest[j - 1];
          Ok(r)
  }

  /** One column-map specification: its `;`-separated tokens, in order. */
  function ColMapOf(spec: string): (r: Result<seq<ColMap>>)
    ensures r.Ok? ==> |r.value| == |Tokens(spec, ';')|
  {
    ParseColTokens(Tokens(spec, ';'), 0)
  }

  /** Any digit run, leading zeros allowed, followed by `=` and a name is
      read from the column `parseInt` gives the digits: "01=ab" maps
      column 1. */
  lemma ColTokenOfDigits(digits: string, name: string, pos: nat)
    requires |digits| > 0 && AllDigits(digits) && DigitsValue(digits) <= INT_MAX
    requires NoLineTerminator(name)
    ensures ParseColToken(digits + "=" + name, pos) == Ok(ColMap(DigitsValue(digits), name))
  {
    FieldTokenSplits(digits, name);
  }

  /** A field written as `digits=name` is read from that column. */
  lemma ColTokenOfField(col: nat, name: string, pos: nat)
    requires col <= INT_MAX && NoLineTerminator(name)
    ensures ParseColToken(NatToString(col) + "=" + name, pos) == Ok(ColMap(col, name))
  {
    ColTokenOfDigits(NatToString(col), name, pos);
  }

  /** A run of digits, `=` and a name: the digit run is the column, the
      rest after the `=` the name, and the whole is no identifier. */
  lemma FieldTokenSplits(digits: string, name: string)
    requires |digits| > 0 && AllDigits(digits)
    ensures var tok := digits + "=" + name;
      && DigitRun(tok) == |digits| && |digits| < |tok| && tok[|digits|] == '='
      && tok[..|digits|] == digits && tok[|digits| + 1..] == name && !IsIdentifier(tok)
  {
    var tok := digits + "=" + name;
    assert tok[0] == digits[0];
    assert tok[..|digits|] == digits;
    assert tok[|digits| + 1..] == name;
    DigitRunOfDigits(digits, "=" + name);
    assert tok == digits + ("=" + name);
  }

  lemma {:induction false} DigitRunOfDigits(p: string, q: string)
    requires AllDigits(p) && (|q| == 0 || !IsDigit(q[0]))
    ensures DigitRun(p + q) == |p|
    decreases |p|
  {
    if |p| > 0 {
      assert (p + q)[1..] == p[1..] + q;
      assert AllDigits(p[1..]) by {
        assert forall i :: 0 <= i < |p| - 1 ==> p[1..][i] == p[i + 1];
      }
      DigitRunOfDigits(p[1..], q);
      assert IsDigit((p + q)[0]);
    } else {
      assert p + q == q;
    }
  }

  /** The token a column map is written with: the bare name when the field
      is read from its own position and the name is an identifier,
      `column=name` otherwise. */
  function ColToken(c: ColMap, pos: nat): (r: string)
    requires 0 <= c.col
    ensures |r| > 0
  {
    if c.col == pos && IsIdentifier(c.name) then c.name else NatToString(c.col) + "=" + c.name
  }

  /** The tokens of `cs`, the first at position `pos`. */
  function ColTokensFrom(cs: seq<ColMap>, pos: nat): (r: seq<string>)
    requires forall i :: 0 <= i < |cs| ==> 0 <= cs[i].col
    ensures |r| == |cs|
    ensures forall i :: 0 <= i < |cs| ==> r[i] == ColToken(cs[i], pos + i)
  {
    seq(|cs|, i requires 0 <= i < |cs| => ColToken(cs[i], pos + i))
  }

  /** A column map as a specification. */
  function ColMapText(cs: seq<ColMap>): (r: string)
    requires forall i :: 0 <= i < |cs| ==> 0 <= cs[i].col
  {
    Join(ColTokensFrom(cs, 0), ';')
  }

  /** What a column map must be to be written as a specification: columns
      an `int` holds, names with neither a `;` nor a line break. */
  predicate Writable(cs: seq<ColMap>) {
    forall i :: 0 <= i < |cs| ==> (0 <= cs[i].col <= INT_MAX && ';' !in cs[i].name && NoLineTerminator(cs[i].name))
  }

  lemma ColTokenRoundTrip(c: ColMap, pos: nat)
    requires 0 <= c.col <= INT_MAX && NoLineTerminator(c.name)
    ensures ParseColToken(ColToken(c, pos), pos) == Ok(c)
  {
    if !(c.col == pos && IsIdentifier(c.name)) {
      var tok := NatToString(c.col) + "=" + c.name;
      assert tok[0] == NatToString(c.col)[0];
      assert !IsIdentifier(tok);
      ColTokenOfField(c.col, c.name, pos);
    }
  }

  /** Reading a written column map gives it back. */
  lemma ColMapRoundTrip(cs: seq<ColMap>)
    requires Writable(cs)
    ensures ColMapOf(ColMapText(cs)) == Ok(cs)
  {
    var toks := ColTokensFrom(cs, 0);
    if |cs| == 0 {
      assert ColMapText(cs) == "";
    } else {
      forall k | 0 <= k < |toks|
        ensures ';' !in toks[k]
      {
        var c := cs[k];
        if !(c.col == k && IsIdentifier(c.name)) {
          var digits := NatToString(c.col);
          assert toks[k] == digits + "=" + c.name;
          assert ';' !in digits by {
            assert forall i :: 0 <= i < |digits| ==> IsDigit(digits[i]);
          }
        }
      }
      SplitAllOfJoin(toks, ';');
      assert |ColMapText(cs)| > 0 by {
        JoinNonEmpty(toks, ';');
      }
      forall i | 0 <= i < |toks|
        ensures ParseColToken(toks[i], i) == Ok(cs[i])
      {
        ColTokenRoundTrip(cs[i], i);
      }
      var r := ColMapOf(ColMapText(cs));
      assert r.Ok?;
      assert r.value == cs;
    }
  }

  lemma JoinNonEmpty(parts: seq<string>, d: char)
    requires |parts| >= 1 && |parts[0]| > 0
    ensures |Join(parts, d)| > 0
  {
  }

  // ------------------------------------------------------------ dequote

  /** The first index from `i` on that does not hold `c`, or the length
      when there is none. */
  function SkipFrom(s: string, c: char, i: nat): (r: nat)
    requires i <= |s|
    decreases |s| - i
    ensures i <= r <= |s| && (forall k :: i <= k < r ==> s[k] == c)
    ensures r < |s| ==> s[r] != c
  {
    if i < |s| && s[i] == c then SkipFrom(s, c, i + 1) else i
  }

  /** Going back from `j`, no further than `lo`: the end after the
      trailing run of `c`. */
  function SkipBack(s: string, c: char, lo: nat, j: nat): (r: nat)
    requires lo <= j <= |s|
    decreases j
    ensures lo <= r <= j && (forall k :: r <= k < j ==> s[k] == c)
    ensures r > lo ==> s[r - 1] != c
  {
    if j > lo && s[j - 1] == c then SkipBack(s, c, lo, j - 1) else j
  }

  /** `t` occurs in `s` at offset `k`. */
  predicate InfixAt(t: string, s: string, k: int) {
    0 <= k && k + |t| <= |s| && s[k..k + |t|] == t
  }

  predicate IsInfix(t: string, s: string) {
    exists k :: 0 <= k <= |s| && InfixAt(t, s, k)
  }

  lemma InfixOfInfix(t: string, u: string, s: string, j: int, k: int)
    requires InfixAt(t, u, j) && InfixAt(u, s, k)
    ensures InfixAt(t, s, k + j)
  {
    assert forall i :: 0 <= i < |t| ==> s[k + j + i] == u[j + i] == t[i];
  }

  /** Where the text left by `Unquote` starts: after the leading quotes. */
  function UnquoteOffset(s: string): (r: nat)
    ensures r <= |s|
  {
    SkipFrom(s, '"', 0)
  }

  /** The leading quotes removed, then the trailing ones: what is left
      neither starts nor ends with a quote, and all around it is quotes. */
  function Unquote(s: string): (r: string)
    ensures InfixAt(r, s, UnquoteOffset(s))
    ensures forall k :: 0 <= k < UnquoteOffset(s) ==> s[k] == '"'
    ensures forall k :: UnquoteOffset(s) + |r| <= k < |s| ==> s[k] == '"'
    ensures |r| > 0 ==> r[0] != '"' && r[|r| - 1] != '"'
  {
    var lo := SkipFrom(s, '"', 0);
    s[lo..SkipBack(s, '"', lo, |s|)]
  }

  /** `dequote`: trimmed, stripped of leading then trailing quotes, trimmed
      again; nothing left is no value. */
  function Dequote(s: string): (r: Option<string>)
    ensures r.Some? ==> |r.value| > 0 && IsTrimmed(r.value)
  {
    var t := Trim(Unquote(Trim(s)));
    if |t| == 0 then None else Some(t)
  }

  /** A value is part of the input. */
  lemma DequoteWithin(s: string)
    ensures Dequote(s).Some? ==> IsInfix(Dequote(s).value, s)
  {
    var a := Trim(s);
    var c := Unquote(a);
    var k := TrimOffset(s) + UnquoteOffset(a);
    InfixOfInfix(c, a, s, UnquoteOffset(a), TrimOffset(s));
    InfixOfInfix(Trim(c), c, s, TrimOffset(c), k);
    assert InfixAt(Trim(c), s, k + TrimOffset(c));
  }

  /** `n` quotes. */
  function Quotes(n: nat): (r: string)
    ensures |r| == n && forall i :: 0 <= i < n ==> r[i] == '"'
  {
    seq(n, _ => '"')
  }

  /** Quotes around a value that neither starts nor ends with one are
      exactly what `Unquote` removes. */
  lemma UnquoteQuoted(lead: nat, x: string, trail: nat)
    requires |x| > 0 && x[0] != '"' && x[|x| - 1] != '"'
    ensures Unquote(Quotes(lead) + x + Quotes(trail)) == x
  {
    var s := Quotes(lead) + x + Quotes(trail);
    assert s[lead] == x[0] && s[lead + |x| - 1] == x[|x| - 1];
    assert forall k :: 0 <= k < lead ==> s[k] == '"';
    assert forall k :: lead + |x| <= k < |s| ==> s[k] == Quotes(trail)[k - lead - |x|];
    assert SkipFrom(s, '"', 0) == lead;
    assert SkipBack(s, '"', lead, |s|) == lead + |x|;
    assert s[lead..lead + |x|] == x;
  }

  /** A value in any number of quotes on either side is read back as
      itself. */
  lemma DequoteQuoted(lead: nat, x: string, trail: nat)
    requires |x| > 0 && IsTrimmed(x) && x[0] != '"' && x[|x| - 1] != '"'
    ensures Dequote(Quotes(lead) + x + Quotes(trail)) == Some(x)
  {
    var s := Quotes(lead) + x + Quotes(trail);
    assert s[0] == if lead > 0 then '"' else x[0];
    assert s[|s| - 1] == if trail > 0 then '"' else x[|x| - 1];
    TrimOfTrimmed(s);
    UnquoteQuoted(lead, x, trail);
    TrimOfTrimmed(x);
  }
}
