/**
  Option scanning without moving anything: what one call of getopt reports and
  where it leaves the scan, as a function of the arguments in their original
  order.
*/
module GetoptSpec {
  import opened Wrappers

  datatype ArgKind = NoArgument | RequiredArgument | OptionalArgument

  /** flag names the variable that is set to val, if there is one. */
  datatype LongOption = LongOption(name: string, hasArg: ArgKind, flag: Option<int>, val: int)

  datatype Ordering = REQUIRE_ORDER | PERMUTE | RETURN_IN_ORDER

  /** What stays the same during a run. */
  datatype Config = Config(optstring: string, longopts: Option<seq<LongOption>>, longOnly: bool, posixlyCorrect: bool)

  /** Under getopt_long_only the value -1 of process_long_option says that there
      is no such long option, and the argument, which has not been used up, is to
      be read as short options.  An option that returns its value has another. */
  predicate Sensible(cfg: Config) {
    cfg.longOnly && cfg.longopts.Some? ==>
      forall i | 0 <= i < |cfg.longopts.value| :: cfg.longopts.value[i].flag.None? ==> cfg.longopts.value[i].val != -1
  }

  const QUESTION := '?' as int
  const COLON := ':' as int

  /** The result of a call: the value returned, optarg, optopt if it is set, the
      index of the long option found, and the flag variable set. */
  datatype Report = Report(code: int, optarg: Option<string>, optopt: Option<int>, longind: Option<nat>, flag: Option<(int, int)>)

  /** Where the scan stands: the argument to look at next, and what is left of a
      cluster of short options. */
  datatype Cursor = Cursor(optind: nat, nextchar: Option<string>)

  /** The next call either ends the scan at some argument (which is "--" or not),
      or reports an option that starts at `from`. */
  datatype Step = Stop(at: nat, dashdash: bool) | Emit(from: nat, report: Report, next: Cursor)

  function CharAt(s: string, i: nat): char {
    if i < |s| then s[i] else '\0'
  }

  function Opts(cfg: Config): string {
    if cfg.optstring != "" && (cfg.optstring[0] == '-' || cfg.optstring[0] == '+') then cfg.optstring[1..]
    else cfg.optstring
  }

  function OrderingOf(cfg: Config): Ordering {
    if CharAt(cfg.optstring, 0) == '-' then RETURN_IN_ORDER
    else if CharAt(cfg.optstring, 0) == '+' || cfg.posixlyCorrect then REQUIRE_ORDER
    else PERMUTE
  }

  predicate NonOption(arg: string) {
    CharAt(arg, 0) != '-' || |arg| == 1
  }

  /** strchr, the length of the string standing for NULL. */
  function IndexOf(s: string, c: char, i: nat := 0): (k: nat)
    requires i <= |s|
    ensures i <= k <= |s| && (k < |s| ==> s[k] == c) && forall x | i <= x < k :: s[x] != c
    decreases |s| - i
  {
    if i == |s| || s[i] == c then i else IndexOf(s, c, i + 1)
  }

  /** The value for a missing argument. */
  function Miss(cfg: Config): int {
    if CharAt(Opts(cfg), 0) == ':' then COLON else QUESTION
  }

  // ---------------------------------------------------------------------
  // Long options

  predicate SameOption(p: LongOption, q: LongOption) {
    p.hasArg == q.hasArg && p.flag == q.flag && p.val == q.val
  }

  datatype Choice = Unique(index: nat) | Ambiguous | NotFound

  /** A name stands for the option of that name; failing that, for the option it
      abbreviates, unless it abbreviates two that differ. */
  ghost predicate Chosen(opts: seq<LongOption>, name: string, longOnly: bool, choice: Choice) {
    if exists i | 0 <= i < |opts| :: opts[i].name == name then
      && choice.Unique? && choice.index < |opts| && opts[choice.index].name == name
      && forall j | 0 <= j < choice.index :: opts[j].name != name
    else if exists i | 0 <= i < |opts| :: name <= opts[i].name then
      exists i | 0 <= i < |opts| ::
        && Abbreviates(opts, name, i)
        && choice == if Clash(opts, name, longOnly, i) then Ambiguous else Unique(i)
    else choice == NotFound
  }

  ghost predicate Clash(opts: seq<LongOption>, name: string, longOnly: bool, i: nat)
    requires i < |opts|
  {
    exists j | i < j < |opts| :: name <= opts[j].name && (longOnly || !SameOption(opts[i], opts[j]))
  }

  /** The option that a name abbreviates first. */
  predicate Abbreviates(opts: seq<LongOption>, name: string, i: nat) {
    i < |opts| && name <= opts[i].name && forall j | 0 <= j < i :: !(name <= opts[j].name)
  }

  lemma FirstIsUnique(opts: seq<LongOption>, name: string, i: nat, k: nat)
    requires Abbreviates(opts, name, i) && Abbreviates(opts, name, k)
    ensures i == k
  {
  }

  /** Chosen picks exactly one choice. */
  lemma ChosenIsUnique(opts: seq<LongOption>, name: string, longOnly: bool, c: Choice, d: Choice)
    requires Chosen(opts, name, longOnly, c) && Chosen(opts, name, longOnly, d)
    ensures c == d
  {
    if exists i | 0 <= i < |opts| :: opts[i].name == name {
      assert c.index == d.index;
    } else if exists i | 0 <= i < |opts| :: name <= opts[i].name {
      var i :| Abbreviates(opts, name, i) && c == if Clash(opts, name, longOnly, i) then Ambiguous else Unique(i);
      var k :| Abbreviates(opts, name, k) && d == if Clash(opts, name, longOnly, k) then Ambiguous else Unique(k);
      FirstIsUnique(opts, name, i, k);
    }
  }

  lemma ChosenExists(opts: seq<LongOption>, name: string, longOnly: bool)
    ensures exists c :: Chosen(opts, name, longOnly, c)
  {
    var c;
    if exists i | 0 <= i < |opts| :: opts[i].name == name {
      var i := 0;
      while opts[i].name != name
        invariant i < |opts| && forall j | 0 <= j < i :: opts[j].name != name
        decreases |opts| - i
      {
        i := i + 1;
      }
      c := Unique(i);
    } else if exists i | 0 <= i < |opts| :: name <= opts[i].name {
      var i := 0;
      while !(name <= opts[i].name)
        invariant i < |opts| && forall j | 0 <= j < i :: !(name <= opts[j].name)
        decreases |opts| - i
      {
        i := i + 1;
      }
      c := if Clash(opts, name, longOnly, i) then Ambiguous else Unique(i);
    } else {
      c := NotFound;
    }
    assert Chosen(opts, name, longOnly, c);
  }

  ghost function Choose(opts: seq<LongOption>, name: string, longOnly: bool): (c: Choice)
    ensures Chosen(opts, name, longOnly, c)
  {
    ChosenExists(opts, name, longOnly);
    var c :| Chosen(opts, name, longOnly, c);
    c
  }

  function NameLen(text: string): nat {
    IndexOf(text, '=')
  }

  /** The option opts[i] is found in text, which is the argument at optind or part
      of it. */
  function TakeLong(cfg: Config, opts: seq<LongOption>, args: seq<string>, optind: nat, text: string, i: nat): (Report, Cursor)
    requires i < |opts| && optind < |args|
  {
    var p, n, after := opts[i], NameLen(text), optind + 1;
    if n < |text| && p.hasArg == NoArgument then
      (Report(QUESTION, None, Some(p.val), None, None), Cursor(after, None))
    else if n == |text| && p.hasArg == RequiredArgument && after >= |args| then
      (Report(Miss(cfg), None, Some(p.val), None, None), Cursor(after, None))
    else
      var takesNext := n == |text| && p.hasArg == RequiredArgument;
      var optarg := if n < |text| then Some(text[n + 1..]) else if takesNext then Some(args[after]) else None;
      var flag := if p.flag.Some? then Some((p.flag.value, p.val)) else None;
      (Report(if p.flag.Some? then 0 else p.val, optarg, None, Some(i), flag),
       Cursor(if takesNext then after + 1 else after, None))
  }

  /** process_long_option; None when the argument is to be read as short options. */
  ghost function LongStep(cfg: Config, args: seq<string>, optind: nat, text: string, longOnly: bool): (r: Option<(Report, Cursor)>)
    requires cfg.longopts.Some? && optind < |args| && (longOnly ==> text != "")
    ensures r.None? ==> longOnly
  {
    var opts := cfg.longopts.value;
    match Choose(opts, text[..NameLen(text)], longOnly)
    case Ambiguous => Some((Report(QUESTION, None, Some(0), None, None), Cursor(optind + 1, Some(""))))
    case NotFound =>
      if !longOnly || CharAt(args[optind], 1) == '-' || IndexOf(Opts(cfg), text[0]) == |Opts(cfg)| then
        Some((Report(QUESTION, None, Some(0), None, None), Cursor(optind + 1, None)))
      else None
    case Unique(i) => Some(TakeLong(cfg, opts, args, optind, text, i))
  }

  // ---------------------------------------------------------------------
  // Short options

  /** The argument of the option character c, the k-th of optstring: what is left
      of the cluster, or the argument of the program that comes next. */
  ghost function ShortArgument(cfg: Config, args: seq<string>, next: nat, c: char, k: nat, rest: string): (Report, Cursor)
    requires next <= |args|
  {
    var opts := Opts(cfg);
    if CharAt(opts, k + 1) != ':' then
      (Report(c as int, None, None, None, None), Cursor(next, Some(rest)))
    else if rest != "" then
      (Report(c as int, Some(rest), None, None, None), Cursor(next + 1, None))
    else if CharAt(opts, k + 2) == ':' then
      (Report(c as int, None, None, None, None), Cursor(next, None))
    else if next == |args| then
      (Report(Miss(cfg), None, Some(c as int), None, None), Cursor(next, None))
    else
      (Report(c as int, Some(args[next]), None, None, None), Cursor(next + 1, None))
  }

  /** -W with a long option behind it, in the cluster or in the next argument. */
  ghost function LongBehindW(cfg: Config, args: seq<string>, next: nat, rest: string): (Report, Cursor)
    requires cfg.longopts.Some? && next <= |args| && (rest != "" ==> next < |args|)
  {
    if rest != "" then LongStep(cfg, args, next, rest, false).value
    else if next == |args| then (Report(Miss(cfg), None, Some('W' as int), None, None), Cursor(next, Some(rest)))
    else LongStep(cfg, args, next, args[next], false).value
  }

  /** The option character c, with rest behind it in its cluster; next is where
      the arguments behind the cluster begin, or the cluster itself. */
  ghost function CharacterStep(cfg: Config, args: seq<string>, next: nat, c: char, rest: string): (Report, Cursor)
    requires next <= |args| && (rest != "" ==> next < |args|)
  {
    var opts := Opts(cfg);
    var k := IndexOf(opts, c);
    if k == |opts| || c == ':' || c == ';' then
      (Report(QUESTION, None, Some(c as int), None, None), Cursor(next, Some(rest)))
    else if c == 'W' && CharAt(opts, k + 1) == ';' && cfg.longopts.Some? then LongBehindW(cfg, args, next, rest)
    else ShortArgument(cfg, args, next, c, k, rest)
  }

  /** The option character text[0], in the argument at optind. */
  ghost function ShortStep(cfg: Config, args: seq<string>, optind: nat, text: string): (Report, Cursor)
    requires text != "" && optind < |args|
  {
    CharacterStep(cfg, args, if text[1..] == "" then optind + 1 else optind, text[0], text[1..])
  }

  // ---------------------------------------------------------------------
  // The scan

  function SkipNonOptions(args: seq<string>, i: nat): (j: nat)
    requires i <= |args|
    ensures i <= j <= |args| && (j < |args| ==> !NonOption(args[j])) && forall x | i <= x < j :: NonOption(args[x])
    decreases |args| - i
  {
    if i < |args| && NonOption(args[i]) then SkipNonOptions(args, i + 1) else i
  }

  /** Behind two dashes, text can only be the name of a long option. */
  lemma NotShort(cfg: Config, args: seq<string>, i: nat, text: string)
    requires cfg.longopts.Some? && i < |args| && CharAt(args[i], 1) == '-' && text != ""
    ensures LongStep(cfg, args, i, text, cfg.longOnly).Some?
  {
  }

  /** An argument that is an option. */
  ghost function OptionStep(cfg: Config, args: seq<string>, i: nat): (Report, Cursor)
    requires i < |args| && !NonOption(args[i]) && args[i] != "--"
  {
    var arg := args[i];
    if cfg.longopts.Some? && CharAt(arg, 1) == '-' then
      NotShort(cfg, args, i, arg[2..]);
      LongStep(cfg, args, i, arg[2..], cfg.longOnly).value
    else if cfg.longopts.Some? && cfg.longOnly && (|arg| > 2 || IndexOf(Opts(cfg), arg[1]) == |Opts(cfg)|)
            && LongStep(cfg, args, i, arg[1..], true).Some? then
      LongStep(cfg, args, i, arg[1..], true).value
    else
      ShortStep(cfg, args, i, arg[1..])
  }

  /** An argument that is looked at and does not end the scan. */
  ghost function ArgumentStep(cfg: Config, args: seq<string>, i: nat, nextchar: Option<string>): (Report, Cursor)
    requires i < |args| && args[i] != "--"
  {
    if NonOption(args[i]) then (Report(1, Some(args[i]), None, None, None), Cursor(i + 1, nextchar))
    else OptionStep(cfg, args, i)
  }

  predicate CursorOk(args: seq<string>, cur: Cursor) {
    && cur.optind <= |args|
    && (cur.nextchar.Some? && cur.nextchar.value != "" ==> cur.optind < |args|)
  }

  predicate InCluster(cur: Cursor) {
    cur.nextchar.Some? && cur.nextchar.value != ""
  }

  function Weight(args: seq<string>, cur: Cursor): nat {
    if InCluster(cur) then |cur.nextchar.value| else if cur.optind < |args| then |args[cur.optind]| else 0
  }

  lemma LongMovesOn(cfg: Config, args: seq<string>, optind: nat, text: string, longOnly: bool)
    requires cfg.longopts.Some? && optind < |args| && (longOnly ==> text != "")
    ensures var r := LongStep(cfg, args, optind, text, longOnly);
            r.Some? ==> CursorOk(args, r.value.1) && optind < r.value.1.optind && !InCluster(r.value.1)
  {
  }

  lemma ShortMovesOn(cfg: Config, args: seq<string>, optind: nat, text: string)
    requires text != "" && optind < |args|
    ensures var (report, next) := ShortStep(cfg, args, optind, text);
            && CursorOk(args, next) && optind <= next.optind
            && (next.optind == optind ==> InCluster(next) && |next.nextchar.value| == |text| - 1)
  {
    var opts, c, rest := Opts(cfg), text[0], text[1..];
    var k := IndexOf(opts, c);
    if k < |opts| && c == 'W' && CharAt(opts, k + 1) == ';' && cfg.longopts.Some? {
      if rest != "" {
        LongMovesOn(cfg, args, optind, rest, false);
      } else if optind + 1 < |args| {
        LongMovesOn(cfg, args, optind + 1, args[optind + 1], false);
      }
    }
  }

  lemma ArgumentMovesOn(cfg: Config, args: seq<string>, i: nat, nextchar: Option<string>)
    requires i < |args| && args[i] != "--" && !InCluster(Cursor(i, nextchar))
    ensures var (report, next) := ArgumentStep(cfg, args, i, nextchar);
            && CursorOk(args, next) && i <= next.optind
            && (next.optind == i ==> Weight(args, next) < |args[i]|)
  {
    if !NonOption(args[i]) {
      var arg := args[i];
      ShortMovesOn(cfg, args, i, arg[1..]);
      if cfg.longopts.Some? {
        LongMovesOn(cfg, args, i, arg[1..], true);
        if |arg| > 2 {
          LongMovesOn(cfg, args, i, arg[2..], cfg.longOnly);
        }
      }
    }
  }

  /** The argument that is looked at next. */
  function NextLookedAt(cfg: Config, args: seq<string>, optind: nat): (i: nat)
    requires optind <= |args|
    ensures optind <= i <= |args|
  {
    if OrderingOf(cfg) == PERMUTE then SkipNonOptions(args, optind) else optind
  }

  /** Whether the scan ends at argument i, other than at "--". */
  predicate EndsAt(cfg: Config, args: seq<string>, i: nat)
    requires i <= |args|
  {
    i == |args| || (NonOption(args[i]) && OrderingOf(cfg) == REQUIRE_ORDER)
  }

  /** What the next call does.  Every call that does not end the scan makes progress. */
  ghost function NextStep(cfg: Config, args: seq<string>, cur: Cursor): (s: Step)
    requires CursorOk(args, cur)
    ensures s.Stop? ==> cur.optind <= s.at <= |args| && (s.dashdash ==> s.at < |args|)
    ensures s.Emit? ==> cur.optind <= s.from <= s.next.optind && CursorOk(args, s.next)
    ensures s.Emit? ==> s.next.optind > cur.optind || Weight(args, s.next) < Weight(args, cur)
  {
    if InCluster(cur) then
      ShortMovesOn(cfg, args, cur.optind, cur.nextchar.value);
      var r := ShortStep(cfg, args, cur.optind, cur.nextchar.value);
      Emit(cur.optind, r.0, r.1)
    else
      var i := NextLookedAt(cfg, args, cur.optind);
      if i < |args| && args[i] == "--" then Stop(i, true)
      else if EndsAt(cfg, args, i) then Stop(i, false)
      else
        ArgumentMovesOn(cfg, args, i, cur.nextchar);
        var r := ArgumentStep(cfg, args, i, cur.nextchar);
        Emit(i, r.0, r.1)
  }

  /** A whole scan: the reports, the arguments used up (options, their arguments,
      "--") and the others, each in the original order. */
  datatype Parse = Parse(reports: seq<Report>, options: seq<string>, operands: seq<string>)

  ghost function Scan(cfg: Config, args: seq<string>, cur: Cursor): Parse
    requires CursorOk(args, cur)
    decreases |args| - cur.optind, Weight(args, cur)
  {
    match NextStep(cfg, args, cur)
    case Stop(at, dashdash) =>
      if dashdash then Parse([], ["--"], args[cur.optind..at] + args[at + 1..])
      else Parse([], [], args[cur.optind..])
    case Emit(from, report, next) =>
      var rest := Scan(cfg, args, next);
      Parse([report] + rest.reports, args[from..next.optind] + rest.options, args[cur.optind..from] + rest.operands)
  }
}
