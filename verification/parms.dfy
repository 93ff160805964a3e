/** The table-driven command-line parser: an ordered table of options, a
    left-to-right scan of the arguments in which the first matching entry
    wins, the check for mandatory options, the `key=value` property store
    and the help listing.

    What an entry's setter does with its value is the caller's business;
    the model records each call as a `Setting`: which entry, with which
    value. */
module Parms {
  import opened Results
  import opened JavaText

  /** A table entry once constructed: its flag character (a digit already
      decoded to 0..9), the key, the kind of value it takes (none for a
      switch) and its description. */
  datatype Parm = Parm(flag: int, parm: string, extra: Option<string>, desc: string)

  /** One call of an entry's setter. */
  datatype Setting = Setting(entry: nat, value: Option<string>)

  const MANDATORY: int := 'm' as int

  /** The constructor: the flag is the first character of its string; a
      digit is decoded to its value (`&= 0x0F`). An empty flag string has
      no first character. */
  function MakeParm(flag: string, parm: string, extra: Option<string>, desc: string): (r: Result<Parm>)
    ensures r.Ok? <==> |flag| > 0
    ensures r.Ok? ==> r.value.parm == parm && r.value.extra == extra && r.value.desc == desc
    ensures r.Ok? && IsDigit(flag[0]) ==> 0 <= r.value.flag <= 9 && r.value.flag == flag[0] as int - '0' as int
    ensures r.Ok? && !IsDigit(flag[0]) ==> r.value.flag == flag[0] as int
  {
    if |flag| == 0 then Err("StringIndexOutOfBoundsException")
    else
      var c := flag[0] as int;
      Ok(Parm(if IsDigit(flag[0]) then c % 16 else c, parm, extra, desc))
  }

  /** An entry matched by a key prefix of that many characters rather than
      by the whole key. */
  predicate IsPrefixEntry(p: Parm) { 0 < p.flag <= 9 }

  // ------------------------------------------------- one argument

  function NoDataMessage(key: string): string {
    key + " requires data (no space after). Use -h to see format"
  }

  function NoValueMessage(extra: string, parm: string): string {
    "Expect " + extra + " parm after " + parm
  }

  /** What entry `p` makes of the argument at the front of `args`: no
      match, a match with the setter's value and the arguments used, or an
      exception. */
  function TryEntry(p: Parm, args: seq<string>): (r: Result<Option<(Option<string>, nat)>>)
    requires |args| > 0
    ensures r.Ok? && r.value.Some? ==> 1 <= r.value.value.1 <= |args|
    ensures r.Ok? && r.value.Some? ==> (r.value.value.0.None? <==> !IsPrefixEntry(p) && p.extra.None?)
    ensures r.Ok? && r.value.Some? ==> (r.value.value.1 == 2 <==> !IsPrefixEntry(p) && p.extra.Some?)
  {
    var arg := args[0];
    if IsPrefixEntry(p) then
      if |p.parm| < p.flag then Err("StringIndexOutOfBoundsException")
      else
        var key := p.parm[..p.flag];
        if !StartsWith(arg, key) then Ok(None)
        else if |arg| == p.flag then Err(NoDataMessage(key))
        else Ok(Some((Some(arg[p.flag..]), 1)))
    else if p.parm != arg then Ok(None)
    else if p.extra.None? then Ok(Some((None, 1)))
    else if |args| == 1 then Err(NoValueMessage(p.extra.value, p.parm))
    else Ok(Some((Some(args[1]), 2)))
  }

  /** No entry from `i` to before `k` takes the front argument. */
  predicate NoneTakes(table: seq<Parm>, i: nat, k: nat, args: seq<string>)
    requires i <= k <= |table| && |args| > 0
  {
    forall j :: i <= j < k ==> TryEntry(table[j], args) == Ok(None)
  }

  /** A prefix entry takes an argument that starts with the first `flag`
      characters of its key and goes on after them, its value being the
      rest; the key alone is an error, and so is a key shorter than the
      prefix. */
  lemma PrefixEntryTakes(p: Parm, args: seq<string>)
    requires |args| > 0 && IsPrefixEntry(p)
    ensures |p.parm| < p.flag ==> TryEntry(p, args).Err?
    ensures |p.parm| >= p.flag ==>
      && (!StartsWith(args[0], p.parm[..p.flag]) <==> TryEntry(p, args) == Ok(None))
      && (StartsWith(args[0], p.parm[..p.flag]) && |args[0]| == p.flag <==> TryEntry(p, args).Err?)
      && (StartsWith(args[0], p.parm[..p.flag]) && |args[0]| > p.flag ==>
            TryEntry(p, args) == Ok(Some((Some(args[0][p.flag..]), 1))))
  {
  }

  /** Any other entry takes only its key itself; with a value type it also
      takes the next argument as its value, and is an error when there is
      none. */
  lemma ExactEntryTakes(p: Parm, args: seq<string>)
    requires |args| > 0 && !IsPrefixEntry(p)
    ensures args[0] != p.parm ==> TryEntry(p, args) == Ok(None)
    ensures args[0] == p.parm && p.extra.None? ==> TryEntry(p, args) == Ok(Some((None, 1)))
    ensures args[0] == p.parm && p.extra.Some? ==>
      if |args| == 1 then TryEntry(p, args).Err? else TryEntry(p, args) == Ok(Some((Some(args[1]), 2)))
  {
  }

  /** The entry that takes the argument at the front of `args`, scanning
      the table from `i`: the first that matches, with its value and the
      arguments it uses. An entry that throws ends the scan. */
  function FindEntry(table: seq<Parm>, i: nat, args: seq<string>): (r: Result<Option<(nat, Option<string>, nat)>>)
    requires i <= |table| && |args| > 0
    decreases |table| - i
    ensures r.Ok? && r.value.Some? ==> var (k, v, used) := r.value.value;
      i <= k < |table| && TryEntry(table[k], args) == Ok(Some((v, used)))
  {
    if i == |table| then Ok(None)
    else
      match TryEntry(table[i], args)
      case Err(e) => Err(e)
      case Ok(Some((v, used))) => Ok(Some((i, v, used)))
      case Ok(None) => FindEntry(table, i + 1, args)
  }

  /** The entry found is the first from `i` that does not pass the
      argument by: no entry found means every entry passes it by, and an
      error is the first entry that does not pass it by throwing. */
  lemma {:induction false} FindEntryFirst(table: seq<Parm>, i: nat, args: seq<string>)
    requires i <= |table| && |args| > 0
    decreases |table| - i
    ensures var r := FindEntry(table, i, args);
      && (r.Ok? && r.value.Some? ==> NoneTakes(table, i, r.value.value.0, args))
      && (r == Ok(None) <==> NoneTakes(table, i, |table|, args))
      && (r.Err? ==> exists k :: i <= k < |table| && TryEntry(table[k], args).Err? && NoneTakes(table, i, k, args))
  {
    if i < |table| && TryEntry(table[i], args) == Ok(None) {
      FindEntryFirst(table, i + 1, args);
    }
  }

  // ---------------------------------------------- all the arguments

  /** Each setting names an entry of the table, and comes with a value
      exactly when that entry takes one: a prefix entry or an entry with a
      value type. */
  predicate Settled(table: seq<Parm>, settings: seq<Setting>) {
    forall s :: s in settings ==> (s.entry < |table|
      && (s.value.None? <==> !IsPrefixEntry(table[s.entry]) && table[s.entry].extra.None?))
  }

  function UnknownMessage(arg: string): string {
    "Parm " + arg + " not known, use -h to see parm requirements"
  }

  /** `processArguments` from argument `n` on, with the settings `acc`
      made before it: every argument, left to right, is taken by the first
      entry that matches it (an entry with a value type also takes the
      next argument); an argument no entry matches is an error. */
  function ProcessFrom(table: seq<Parm>, args: seq<string>, n: nat, acc: seq<Setting>): (r: Result<seq<Setting>>)
    requires n <= |args|
    decreases |args| - n
    ensures r.Ok? ==> |acc| <= |r.value| <= |acc| + |args| - n && r.value[..|acc|] == acc
    ensures r.Ok? && Settled(table, acc) ==> Settled(table, r.value)
  {
    if n == |args| then assert acc[..|acc|] == acc; Ok(acc)
    else
      match FindEntry(table, 0, args[n..])
      case Err(e) => Err(e)
      case Ok(None) => Err(UnknownMessage(args[n]))
      case Ok(Some((k, v, used))) =>
        var r := ProcessFrom(table, args, n + used, acc + [Setting(k, v)]);
        assert r.Ok? ==> r.value[..|acc|] == (acc + [Setting(k, v)])[..|acc|];
        r
  }

  /** All the arguments. */
  function ProcessArguments(table: seq<Parm>, args: seq<string>): (r: Result<seq<Setting>>)
    ensures r.Ok? ==> |r.value| <= |args| && Settled(table, r.value)
  {
    ProcessFrom(table, args, 0, [])
  }

  /** The front argument decides the first setting: it comes from the
      first entry that takes the argument, with the value that entry
      takes; an argument that no entry takes, or on which an entry throws,
      ends the parse. */
  lemma ProcessFront(table: seq<Parm>, args: seq<string>)
    requires |args| > 0
    ensures FindEntry(table, 0, args).Err? ==> ProcessArguments(table, args) == Err(FindEntry(table, 0, args).msg)
    ensures FindEntry(table, 0, args) == Ok(None) ==> ProcessArguments(table, args) == Err(UnknownMessage(args[0]))
    ensures ProcessArguments(table, args).Ok? ==> (|ProcessArguments(table, args).value| > 0
      && var s := ProcessArguments(table, args).value[0];
         && s.entry < |table| && NoneTakes(table, 0, s.entry, args)
         && TryEntry(table[s.entry], args).Ok? && TryEntry(table[s.entry], args).value.Some?
         && TryEntry(table[s.entry], args).value.value.0 == s.value)
  {
    assert args[0..] == args;
    FindEntryFirst(table, 0, args);
    var found := FindEntry(table, 0, args);
    if found.Ok? && found.value.Some? {
      var (k, v, used) := found.value.value;
      var r := ProcessFrom(table, args, used, [Setting(k, v)]);
      assert [] + [Setting(k, v)] == [Setting(k, v)];
      assert ProcessArguments(table, args) == r;
      if r.Ok? {
        assert r.value[..1] == [Setting(k, v)];
        assert r.value[0] == Setting(k, v);
      }
    }
  }

  /** Without entries that take a separate value, each argument gives
      exactly one setting. */
  lemma {:induction false} OneSettingEach(table: seq<Parm>, args: seq<string>, n: nat, acc: seq<Setting>)
    requires n <= |args|
    requires forall k :: 0 <= k < |table| ==> IsPrefixEntry(table[k]) || table[k].extra.None?
    ensures ProcessFrom(table, args, n, acc).Ok? ==> |ProcessFrom(table, args, n, acc).value| == |acc| + |args| - n
    decreases |args| - n
  {
    if n < |args| {
      var found := FindEntry(table, 0, args[n..]);
      if found.Ok? && found.value.Some? {
        var (k, v, used) := found.value.value;
        assert used == 1;
        OneSettingEach(table, args, n + used, acc + [Setting(k, v)]);
      }
    }
  }

  /** Setting `s` is what the scan makes of the argument at `p`: the
      first entry that takes it, with its value, the next argument to scan
      being at `q`. */
  predicate StepAt(table: seq<Parm>, args: seq<string>, p: nat, q: nat, s: Setting) {
    p < q <= |args| && FindEntry(table, 0, args[p..]) == Ok(Some((s.entry, s.value, q - p)))
  }

  /** A run of the scan: the k-th setting comes from the argument at
      `pos[k]`, and the next argument scanned is at `pos[k + 1]`. */
  predicate Run(table: seq<Parm>, args: seq<string>, pos: seq<nat>, settings: seq<Setting>) {
    && |pos| == |settings| + 1
    && (forall k :: 0 <= k < |pos| ==> pos[k] <= |args|)
    && forall k :: 0 <= k < |settings| ==> StepAt(table, args, pos[k], pos[k + 1], settings[k])
  }

  /** The argument at `p` is one the scan cannot take: no entry matches
      it, or an entry throws on it. */
  predicate Stuck(table: seq<Parm>, args: seq<string>, p: nat)
    requires p < |args|
  {
    FindEntry(table, 0, args[p..]).Err? || FindEntry(table, 0, args[p..]) == Ok(None)
  }

  /** What the scan throws at an argument it cannot take. */
  function StopMessage(table: seq<Parm>, args: seq<string>, p: nat): string
    requires p < |args|
  {
    var found := FindEntry(table, 0, args[p..]);
    if found.Err? then found.msg else UnknownMessage(args[p])
  }

  /** One step of the scan: an argument an entry takes adds that entry's
      setting, and the scan goes on past the arguments it used. */
  lemma ProcessFromAt(table: seq<Parm>, args: seq<string>, p: nat, q: nat, s: Setting, acc: seq<Setting>)
    requires StepAt(table, args, p, q, s)
    ensures ProcessFrom(table, args, p, acc) == ProcessFrom(table, args, q, acc + [s])
  {
  }

  /** Where the scan stops: an argument it cannot take ends it with what
      that argument throws. */
  lemma ProcessFromStuck(table: seq<Parm>, args: seq<string>, n: nat, acc: seq<Setting>)
    requires n < |args| && Stuck(table, args, n)
    ensures ProcessFrom(table, args, n, acc) == Err(StopMessage(table, args, n))
  {
  }

  /** Any other argument is taken: some step leaves from it. */
  lemma TakenStep(table: seq<Parm>, args: seq<string>, n: nat) returns (q: nat, s: Setting)
    requires n < |args| && !Stuck(table, args, n)
    ensures StepAt(table, args, n, q, s)
  {
    var t := FindEntry(table, 0, args[n..]).value.value;
    q, s := n + t.2, Setting(t.0, t.1);
  }

  /** A step in front of a run is a run, ending where that run ends and
      making its setting first. */
  lemma RunCons(table: seq<Parm>, args: seq<string>, p: nat, s: Setting, pos': seq<nat>, settings': seq<Setting>, acc: seq<Setting>)
    returns (pos: seq<nat>, settings: seq<Setting>)
    requires Run(table, args, pos', settings') && StepAt(table, args, p, pos'[0], s)
    ensures Run(table, args, pos, settings) && pos[0] == p && pos[|settings|] == pos'[|settings'|]
    ensures acc + [s] + settings' == acc + settings
  {
    pos, settings := [p] + pos', [s] + settings';
    forall k | 1 <= k < |settings|
      ensures StepAt(table, args, pos[k], pos[k + 1], settings[k])
    {
      assert pos[k] == pos'[k - 1] && pos[k + 1] == pos'[k] && settings[k] == settings'[k - 1];
    }
  }

  /** A scan that goes on from an argument has taken it. */
  lemma NextStep(table: seq<Parm>, args: seq<string>, n: nat, acc: seq<Setting>) returns (q: nat, s: Setting)
    requires n < |args| && !ProcessFrom(table, args, n, acc).Err?
    ensures StepAt(table, args, n, q, s)
    ensures ProcessFrom(table, args, n, acc) == ProcessFrom(table, args, q, acc + [s])
  {
    if Stuck(table, args, n) {
      ProcessFromStuck(table, args, n, acc);
      assert false;
    }
    q, s := TakenStep(table, args, n);
    ProcessFromAt(table, args, n, q, s, acc);
  }

  /** A run that makes a setting is a step followed by a run. */
  lemma RunTail(table: seq<Parm>, args: seq<string>, pos: seq<nat>, settings: seq<Setting>)
    requires Run(table, args, pos, settings) && |settings| > 0
    ensures StepAt(table, args, pos[0], pos[1], settings[0])
    ensures Run(table, args, pos[1..], settings[1..]) && pos[1..][|settings| - 1] == pos[|settings|]
  {
    forall k | 0 <= k < |settings| - 1
      ensures StepAt(table, args, pos[1..][k], pos[1..][k + 1], settings[1..][k])
    {
      assert pos[1..][k] == pos[k + 1] && pos[1..][k + 1] == pos[k + 2] && settings[1..][k] == settings[k + 1];
    }
  }

  /** A completed scan from argument `n` is a run from `n` to the end. */
  lemma {:induction false} ProcessFromRun(table: seq<Parm>, args: seq<string>, n: nat, acc: seq<Setting>)
    returns (pos: seq<nat>, settings: seq<Setting>)
    requires n <= |args| && ProcessFrom(table, args, n, acc).Ok?
    decreases |args| - n
    ensures ProcessFrom(table, args, n, acc) == Ok(acc + settings)
    ensures Run(table, args, pos, settings) && pos[0] == n && pos[|settings|] == |args|
  {
    if n == |args| {
      pos, settings := [n], [];
      assert acc + settings == acc;
    } else {
      var q, s := NextStep(table, args, n, acc);
      var pos', settings' := ProcessFromRun(table, args, q, acc + [s]);
      pos, settings := RunCons(table, args, n, s, pos', settings', acc);
    }
  }

  /** A run from `pos[0]` to the end is what the scan makes from there. */
  lemma {:induction false} RunProcessFrom(table: seq<Parm>, args: seq<string>, pos: seq<nat>, settings: seq<Setting>, acc: seq<Setting>)
    requires Run(table, args, pos, settings) && pos[|settings|] == |args|
    decreases |settings|
    ensures ProcessFrom(table, args, pos[0], acc) == Ok(acc + settings)
  {
    if |settings| == 0 {
      assert acc + settings == acc;
    } else {
      RunTail(table, args, pos, settings);
      ProcessFromAt(table, args, pos[0], pos[1], settings[0], acc);
      RunProcessFrom(table, args, pos[1..], settings[1..], acc + [settings[0]]);
      assert acc + [settings[0]] + settings[1..] == acc + settings;
    }
  }

  /** A failed scan from argument `n` is a run from `n` to an argument it
      cannot take, and fails with what that argument throws. */
  lemma {:induction false} ProcessFromStop(table: seq<Parm>, args: seq<string>, n: nat, acc: seq<Setting>)
    returns (pos: seq<nat>, settings: seq<Setting>)
    requires n <= |args| && ProcessFrom(table, args, n, acc).Err?
    decreases |args| - n
    ensures Run(table, args, pos, settings) && pos[0] == n && pos[|settings|] < |args|
    ensures Stuck(table, args, pos[|settings|])
    ensures ProcessFrom(table, args, n, acc).msg == StopMessage(table, args, pos[|settings|])
  {
    if Stuck(table, args, n) {
      ProcessFromStuck(table, args, n, acc);
      pos, settings := [n], [];
    } else {
      var q, s := TakenStep(table, args, n);
      ProcessFromAt(table, args, n, q, s, acc);
      var pos', settings' := ProcessFromStop(table, args, q, acc + [s]);
      pos, settings := RunCons(table, args, n, s, pos', settings', acc);
    }
  }

  /** A run from `pos[0]` to an argument the scan cannot take fails with
      what that argument throws. */
  lemma {:induction false} RunStops(table: seq<Parm>, args: seq<string>, pos: seq<nat>, settings: seq<Setting>, acc: seq<Setting>)
    requires Run(table, args, pos, settings) && pos[|settings|] < |args|
    requires Stuck(table, args, pos[|settings|])
    decreases |settings|
    ensures ProcessFrom(table, args, pos[0], acc) == Err(StopMessage(table, args, pos[|settings|]))
  {
    if |settings| == 0 {
      ProcessFromStuck(table, args, pos[0], acc);
    } else {
      RunTail(table, args, pos, settings);
      ProcessFromAt(table, args, pos[0], pos[1], settings[0], acc);
      RunStops(table, args, pos[1..], settings[1..], acc + [settings[0]]);
    }
  }

  /** `processArguments` gives `settings` exactly when a run through all
      the arguments makes them: each setting is the first entry that takes
      the argument at its position, and the next position is past the
      arguments that entry used. */
  lemma ProcessArgumentsRun(table: seq<Parm>, args: seq<string>, settings: seq<Setting>)
    ensures ProcessArguments(table, args) == Ok(settings) <==>
      exists pos :: Run(table, args, pos, settings) && pos[0] == 0 && pos[|settings|] == |args|
  {
    if ProcessArguments(table, args) == Ok(settings) {
      var pos, rest := ProcessFromRun(table, args, 0, []);
      assert [] + rest == rest;
    }
    if exists pos :: Run(table, args, pos, settings) && pos[0] == 0 && pos[|settings|] == |args| {
      var pos :| Run(table, args, pos, settings) && pos[0] == 0 && pos[|settings|] == |args|;
      RunProcessFrom(table, args, pos, settings, []);
      assert [] + settings == settings;
    }
  }

  /** `processArguments` fails with `e` exactly when a run from the first
      argument reaches one the scan cannot take, and `e` is what that
      argument throws. */
  lemma ProcessArgumentsStops(table: seq<Parm>, args: seq<string>, e: string)
    ensures ProcessArguments(table, args) == Err(e) <==>
      exists pos, settings :: (Run(table, args, pos, settings) && pos[0] == 0 && pos[|settings|] < |args|
        && Stuck(table, args, pos[|settings|]) && e == StopMessage(table, args, pos[|settings|]))
  {
    if ProcessArguments(table, args) == Err(e) {
      var pos, settings := ProcessFromStop(table, args, 0, []);
    }
    if exists pos, settings :: (Run(table, args, pos, settings) && pos[0] == 0 && pos[|settings|] < |args|
        && Stuck(table, args, pos[|settings|]) && e == StopMessage(table, args, pos[|settings|])) {
      var pos, settings :| (Run(table, args, pos, settings) && pos[0] == 0 && pos[|settings|] < |args|
        && Stuck(table, args, pos[|settings|]) && e == StopMessage(table, args, pos[|settings|]));
      RunStops(table, args, pos, settings, []);
    }
  }

  /** The scan of the table for one argument, stopping at the first entry
      that takes it or throws. */
  method FindFirst(table: seq<Parm>, args: seq<string>) returns (r: Result<Option<(nat, Option<string>, nat)>>)
    requires |args| > 0
    ensures r == FindEntry(table, 0, args)
  {
    var i := 0;
    while i < |table|
      invariant 0 <= i <= |table|
      invariant FindEntry(table, 0, args) == FindEntry(table, i, args)
      decreases |table| - i
    {
      var t := TryEntry(table[i], args);
      if t.Err? {
        return Err(t.msg);
      }
      if t.value.Some? {
        return Ok(Some((i, t.value.value.0, t.value.value.1)));
      }
      i := i + 1;
    }
    return Ok(None);
  }

  // ------------------------------------------------ mandatory entries

  predicate Mandatory(p: Parm) { p.flag == MANDATORY }

  /** The entries whose setter was called. */
  function Seen(settings: seq<Setting>): set<nat> {
    set s | s in settings :: s.entry
  }

  function MissingMessage(parm: string): string {
    parm + " parameter not specified and is required"
  }

  const PARM_ERROR: string := "Terminated due to parm error. Use -h to see parm requirements"

  /** What `checkParms` leaves: the lines it printed and what it threw. */
  datatype Check = Check(printed: seq<string>, result: Result<()>)

  /** `checkParms`, from entry `i` on: the first mandatory entry that was
      never given is reported by its key, and the run is then terminated. */
  function CheckParms(table: seq<Parm>, have: set<nat>, i: nat): (r: Check)
    requires i <= |table|
    decreases |table| - i
    ensures r.result.Ok? <==> forall k :: i <= k < |table| && Mandatory(table[k]) ==> k in have
    ensures r.result.Ok? ==> r.printed == []
    ensures r.result.Err? ==> r.result.msg == PARM_ERROR
    ensures r.result.Err? ==> exists k :: (i <= k < |table| && Mandatory(table[k]) && k !in have
      && r.printed == [MissingMessage(table[k].parm)]
      && forall j :: i <= j < k && Mandatory(table[j]) ==> j in have)
  {
    if i == |table| then Check([], Ok(()))
    else if Mandatory(table[i]) && i !in have then Check([MissingMessage(table[i].parm)], Err(PARM_ERROR))
    else CheckParms(table, have, i + 1)
  }

  /** The arguments parsed and the mandatory entries checked, as the
      standard start-up runs the two. */
  function Parse(table: seq<Parm>, args: seq<string>): (r: Result<seq<Setting>>)
    ensures r.Ok? ==> r == ProcessArguments(table, args)
    ensures r.Ok? <==> (ProcessArguments(table, args).Ok?
      && forall k :: 0 <= k < |table| && Mandatory(table[k]) ==>
           exists s :: s in ProcessArguments(table, args).value && s.entry == k)
    ensures ProcessArguments(table, args).Err? ==> r == ProcessArguments(table, args)
    ensures ProcessArguments(table, args).Ok? && r.Err? ==> r.msg == PARM_ERROR
  {
    match ProcessArguments(table, args)
    case Err(e) => Err(e)
    case Ok(settings) =>
      match CheckParms(table, Seen(settings), 0).result
      case Err(e) => Err(e)
      case Ok(_) => Ok(settings)
  }

  // ------------------------------------------------------- properties

  type Props = map<string, string>

  /** `addProp`: split at the first `=`; the left part is the key, all the
      rest (further `=` included) the value. No `=`, or one in front, leaves
      the properties as they were. */
  function AddProp(props: Props, s: string): (r: Props)
    ensures '=' !in s || s[0] == '=' ==> r == props
    ensures '=' in s && s[0] != '=' ==> exists k :: (0 < k < |s| && s[k] == '=' && '=' !in s[..k]
      && r == props[s[..k] := s[k + 1..]])
  {
    match IndexOfFrom(s, '=', 0)
    case None => props
    case Some(ix) =>
      if ix == 0 then props
      else
        assert '=' !in s[..ix] by {
          assert forall i :: 0 <= i < ix ==> s[..ix][i] == s[i];
        }
        props[s[..ix] := s[ix + 1..]]
  }

  /** `getProp(key, def)`. */
  function GetProp(props: Props, key: string, def: string): (r: string)
    ensures key in props ==> r == props[key]
    ensures key !in props ==> r == def
  {
    if key in props then props[key] else def
  }

  /** A property written as `key=value` is read back under its key, with
      all of its value; the other keys keep their values, so a later
      definition of a key replaces an earlier one. */
  lemma AddPropRoundTrip(props: Props, key: string, value: string)
    requires |key| > 0 && '=' !in key
    ensures AddProp(props, key + "=" + value) == props[key := value]
    ensures GetProp(AddProp(props, key + "=" + value), key, "") == value
    ensures forall other :: other != key ==> GetProp(AddProp(props, key + "=" + value), other, "") == GetProp(props, other, "")
  {
    KeyValueSplits(key, value);
  }

  /** In `key=value` the first `=` is the one after the key. */
  lemma KeyValueSplits(key: string, value: string)
    requires |key| > 0 && '=' !in key
    ensures var s := key + "=" + value;
      && IndexOfFrom(s, '=', 0) == Some(|key|) && s[..|key|] == key && s[|key| + 1..] == value
  {
    var s := key + "=" + value;
    assert s[|key|] == '=';
    assert s[..|key|] == key;
    assert s[|key| + 1..] == value;
    assert forall i :: 0 <= i < |key| ==> s[i] == key[i];
  }

  /** The characters whose upper-case form starts with `T` or `Y`: the two
      letters in either case, and `ẗ` and `ẙ`, whose upper-case forms are
      the letter followed by a combining mark. */
  predicate UpperStartsTY(c: char) {
    c == 't' || c == 'T' || c == 'y' || c == 'Y' || c == 'ẗ' || c == 'ẙ'
  }

  /** `isTrue`: the property, `"f"` when absent, upper-cased starts with
      `T` or `Y`. */
  function IsTrue(props: Props, key: string): (r: bool)
    ensures key !in props ==> !r
    ensures key in props ==> (r <==> |props[key]| > 0 && UpperStartsTY(props[key][0]))
  {
    var v := GetProp(props, key, "f");
    |v| > 0 && UpperStartsTY(v[0])
  }

  /** A property set from `key=value` reads as true exactly when the
      value's upper-case form starts with `T` or `Y`, whatever the key held
      before. */
  lemma IsTrueOfAdded(props: Props, key: string, value: string)
    requires |key| > 0 && '=' !in key
    ensures IsTrue(AddProp(props, key + "=" + value), key) <==> |value| > 0 && UpperStartsTY(value[0])
  {
    AddPropRoundTrip(props, key, value);
  }

  /** The words the property store is meant to read as true and false. */
  lemma IsTrueWords(props: Props, key: string)
    ensures IsTrue(props[key := "true"], key) && IsTrue(props[key := "Yes"], key) && IsTrue(props[key := "y"], key)
    ensures !IsTrue(props[key := "false"], key) && !IsTrue(props[key := "no"], key) && !IsTrue(props[key := ""], key)
    ensures key !in props ==> !IsTrue(props, key)
  {
  }

  // -------------------------------------------------------------- help

  const HELP_PAD: string := "                             "
  const MANDATORY_NOTE: string := " (mandatory)"

  /** The key and its value type, as the help line starts. */
  function HelpKey(p: Parm): string {
    p.parm + " " + p.extra.GetOr("")
  }

  /** One line of the help listing: the key and value type padded or cut
      to 15 characters, a blank, the description, and the mandatory note. */
  function HelpLine(p: Parm): (r: string)
    ensures |r| == 16 + |p.desc| + (if Mandatory(p) then |MANDATORY_NOTE| else 0)
    ensures forall i :: 0 <= i < 15 ==> r[i] == if i < |HelpKey(p)| then HelpKey(p)[i] else ' '
    ensures r[15] == ' ' && r[16..16 + |p.desc|] == p.desc
    ensures Mandatory(p) ==> r[16 + |p.desc|..] == MANDATORY_NOTE
  {
    var s := HelpKey(p) + HELP_PAD;
    assert forall i :: 0 <= i < 15 ==> s[i] == if i < |HelpKey(p)| then HelpKey(p)[i] else ' ';
    var line := s[..15] + " " + p.desc;
    if Mandatory(p) then line + MANDATORY_NOTE else line
  }

  /** The description read back from a help line. */
  function HelpDescription(line: string, mandatory: bool): (r: Option<string>)
  {
    var tail := if mandatory then |MANDATORY_NOTE| else 0;
    if |line| < 16 + tail then None else Some(line[16..|line| - tail])
  }

  /** The key read back from a help line: everything before the first
      blank. */
  function HelpParm(line: string): (r: string)
  {
    match IndexOfFrom(line, ' ', 0)
    case None => line
    case Some(ix) => line[..ix]
  }

  /** A help line shows the whole description, and the whole key when the
      key is short and has no blank. */
  lemma HelpLineRoundTrip(p: Parm)
    ensures HelpDescription(HelpLine(p), Mandatory(p)) == Some(p.desc)
    ensures |p.parm| < 15 && ' ' !in p.parm ==> HelpParm(HelpLine(p)) == p.parm
  {
    var line := HelpLine(p);
    if |p.parm| < 15 && ' ' !in p.parm {
      var n := |p.parm|;
      assert line[n] == ' ';
      assert forall i :: 0 <= i < n ==> line[i] == p.parm[i];
      NoDelimIndex(line, ' ', 0, n);
      assert line[..n] == p.parm;
    }
  }

  /** `printHelp`: the title line, then one line per entry in table order. */
  method PrintHelp(table: seq<Parm>, title: string) returns (lines: seq<string>)
    ensures |lines| == |table| + 1
    ensures lines[0] == title + " Parameters:"
    ensures forall i :: 0 <= i < |table| ==> lines[i + 1] == HelpLine(table[i])
  {
    lines := [title + " Parameters:"];
    var i := 0;
    while i < |table|
      invariant 0 <= i <= |table|
      invariant |lines| == i + 1 && lines[0] == title + " Parameters:"
      invariant forall j :: 0 <= j < i ==> lines[j + 1] == HelpLine(table[j])
    {
      lines := lines + [HelpLine(table[i])];
      i := i + 1;
    }
  }
}
