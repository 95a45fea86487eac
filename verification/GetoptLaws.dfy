/**
  What getopt finds in a command line, told by the way its options are spelled:
  for every list of options that optstring and longopts allow, in every
  spelling, the scan reports exactly these options with these arguments.
*/
module GetoptLaws {
  import opened Wrappers
  import opened GetoptSpec

  // ---------------------------------------------------------------------
  // What optstring says

  /** optstring is a sign and the option characters; sign and environment give the
      order in which the arguments are taken. */
  predicate Settings(cfg: Config, sign: string, opts: string, order: Ordering) {
    && cfg.optstring == sign + opts
    && (|| (sign == "-" && order == RETURN_IN_ORDER)
        || (sign == "+" && order == REQUIRE_ORDER)
        || (sign == "" && (opts != "" ==> opts[0] != '-' && opts[0] != '+')
            && order == if cfg.posixlyCorrect then REQUIRE_ORDER else PERMUTE))
  }

  /** The first c in opts is the k-th character. */
  predicate FirstAt(opts: string, c: char, k: nat) {
    k < |opts| && opts[k] == c && forall j | 0 <= j < k :: opts[j] != c
  }

  /** One colon behind an option character means an argument, two an optional one. */
  function KindAt(opts: string, k: nat): ArgKind
    requires k < |opts|
  {
    if k + 1 < |opts| && opts[k + 1] == ':' then
      if k + 2 < |opts| && opts[k + 2] == ':' then OptionalArgument else RequiredArgument
    else NoArgument
  }

  ghost predicate Takes(opts: string, c: char, kind: ArgKind) {
    c != ':' && c != ';' && exists k: nat :: FirstAt(opts, c, k) && KindAt(opts, k) == kind
  }

  /** "W;" in opts: the argument of -W is a long option. */
  ghost predicate LongAfterW(cfg: Config, opts: string) {
    cfg.longopts.Some? && exists k: nat :: FirstAt(opts, 'W', k) && k + 1 < |opts| && opts[k + 1] == ';'
  }

  predicate Unknown(opts: string, c: char) {
    c !in opts || c == ':' || c == ';'
  }

  /** An option character that has no argument, or is not known. */
  ghost predicate IsFlag(cfg: Config, opts: string, c: char) {
    Unknown(opts, c) || (Takes(opts, c, NoArgument) && !(c == 'W' && LongAfterW(cfg, opts)))
  }

  /** An argument "-text" is a cluster of short options. */
  predicate IsCluster(cfg: Config, opts: string, text: string) {
    && text != "" && text != "-"
    && (cfg.longopts.Some? ==>
          && text[0] != '-'
          && (cfg.longOnly ==> text[0] in opts && (|text| == 1 || NoneBegins(cfg.longopts.value, text[..NameLen(text)]))))
  }

  predicate NoneBegins(longopts: seq<LongOption>, name: string) {
    forall j | 0 <= j < |longopts| :: !(name <= longopts[j].name)
  }

  // ---------------------------------------------------------------------
  // Spellings

  /** How a cluster ends: behind the flags comes nothing else; an option with its
      argument attached, or in the next argument of the program; an option whose
      optional argument is left out; an option whose argument is missing. */
  datatype Last = Nothing | Attached(c: char, value: string) | Separate(c: char, value: string) | Alone(c: char) | Missing(c: char)

  /** How a long option begins: "--name", "-name", "-abcWname", or "-abcW" "name". */
  datatype Intro = TwoDashes | OneDash | BehindW(flags: string) | NextToW(flags: string)

  /** How its argument is given: not at all, "name=value", "name" "value", or not
      although it is required. */
  datatype Given = NotGiven | Equals(value: string) | Next(value: string) | NoNext

  datatype Word =
    | Operand(value: string)
    | Short(flags: string, last: Last)
    | Long(intro: Intro, name: string, choice: Choice, given: Given)

  function Tail(last: Last): string {
    match last
    case Nothing => ""
    case Attached(c, v) => [c] + v
    case Separate(c, _) => [c]
    case Alone(c) => [c]
    case Missing(c) => [c]
  }

  function Text(name: string, given: Given): string {
    if given.Equals? then name + ("=" + given.value) else name
  }

  function Begun(intro: Intro, text: string): seq<string> {
    match intro
    case TwoDashes => ["-" + ("-" + text)]
    case OneDash => ["-" + text]
    case BehindW(flags) => ["-" + (flags + ("W" + text))]
    case NextToW(flags) => ["-" + (flags + "W"), text]
  }

  function Spelling(w: Word): seq<string> {
    match w
    case Operand(v) => [v]
    case Short(flags, last) => ["-" + (flags + Tail(last))] + if last.Separate? then [last.value] else []
    case Long(intro, name, _, given) => Begun(intro, Text(name, given)) + if given.Next? then [given.value] else []
  }

  predicate IsOperand(arg: string) {
    arg == "" || arg[0] != '-' || arg == "-"
  }

  function OneDashOnly(cfg: Config, intro: Intro): bool {
    cfg.longOnly && (intro.TwoDashes? || intro.OneDash?)
  }

  ghost predicate LastFits(cfg: Config, opts: string, last: Last) {
    match last
    case Nothing => true
    case Attached(c, v) => v != "" && (Takes(opts, c, RequiredArgument) || Takes(opts, c, OptionalArgument))
    case Separate(c, _) => Takes(opts, c, RequiredArgument)
    case Alone(c) => Takes(opts, c, OptionalArgument)
    case Missing(c) => Takes(opts, c, RequiredArgument) || (c == 'W' && LongAfterW(cfg, opts))
  }

  ghost predicate IntroFits(cfg: Config, opts: string, intro: Intro, text: string, choice: Choice) {
    match intro
    case TwoDashes => text != ""
    case OneDash =>
      && cfg.longOnly && text != "" && text[0] != '-'
      && (text[0] in opts ==> |text| > 1 && choice != NotFound)
    case BehindW(flags) => text != "" && ClusterFits(cfg, opts, flags, "W" + text) && LongAfterW(cfg, opts)
    case NextToW(flags) => ClusterFits(cfg, opts, flags, "W") && LongAfterW(cfg, opts)
  }

  ghost predicate ClusterFits(cfg: Config, opts: string, flags: string, tail: string) {
    IsCluster(cfg, opts, flags + tail) && forall i | 0 <= i < |flags| :: IsFlag(cfg, opts, flags[i])
  }

  ghost predicate GivenFits(longopts: seq<LongOption>, choice: Choice, given: Given) {
    match choice
    case Unique(i) =>
      && i < |longopts|
      && (given.NotGiven? ==> longopts[i].hasArg != RequiredArgument)
      && (given.Next? || given.NoNext? ==> longopts[i].hasArg == RequiredArgument)
    case _ => given.NotGiven? || given.Equals?
  }

  /** The word is one that optstring and longopts allow, or an error of its kind. */
  ghost predicate Fits(cfg: Config, opts: string, order: Ordering, w: Word) {
    match w
    case Operand(v) => IsOperand(v) && order != REQUIRE_ORDER
    case Short(flags, last) => ClusterFits(cfg, opts, flags, Tail(last)) && LastFits(cfg, opts, last)
    case Long(intro, name, choice, given) =>
      && cfg.longopts.Some? && '=' !in name
      && Chosen(cfg.longopts.value, name, OneDashOnly(cfg, intro), choice)
      && GivenFits(cfg.longopts.value, choice, given)
      && IntroFits(cfg, opts, intro, Text(name, given), choice)
  }

  /** A word whose argument is missing because nothing follows. */
  predicate Breaks(w: Word) {
    (w.Short? && w.last.Missing?) || (w.Long? && w.given.NoNext?)
  }

  // ---------------------------------------------------------------------
  // What is to be reported

  function MissingCode(opts: string): int {
    if opts != "" && opts[0] == ':' then ':' as int else '?' as int
  }

  function FlagReport(opts: string, c: char): Report {
    if Unknown(opts, c) then Report('?' as int, None, Some(c as int), None, None)
    else Report(c as int, None, None, None, None)
  }

  function FlagReports(opts: string, flags: string): seq<Report> {
    if flags == "" then [] else [FlagReport(opts, flags[0])] + FlagReports(opts, flags[1..])
  }

  function LastReports(opts: string, last: Last): seq<Report> {
    match last
    case Nothing => []
    case Attached(c, v) => [Report(c as int, Some(v), None, None, None)]
    case Separate(c, v) => [Report(c as int, Some(v), None, None, None)]
    case Alone(c) => [Report(c as int, None, None, None, None)]
    case Missing(c) => [Report(MissingCode(opts), None, Some(c as int), None, None)]
  }

  /** A name that stands for no option, or for more than one; a value for an option
      that has none; a missing value; and else the option with its value. */
  function LongReport(opts: string, longopts: Option<seq<LongOption>>, choice: Choice, given: Given): Report {
    if !choice.Unique? || longopts.None? || choice.index >= |longopts.value| then Report('?' as int, None, Some(0), None, None)
    else
      var p := longopts.value[choice.index];
      if given.Equals? && p.hasArg == NoArgument then Report('?' as int, None, Some(p.val), None, None)
      else if given.NoNext? then Report(MissingCode(opts), None, Some(p.val), None, None)
      else
        var value := if given.Equals? || given.Next? then Some(given.value) else None;
        if p.flag.Some? then Report(0, value, None, Some(choice.index), Some((p.flag.value, p.val)))
        else Report(p.val, value, None, Some(choice.index), None)
  }

  function IntroFlags(intro: Intro): string {
    if intro.BehindW? || intro.NextToW? then intro.flags else ""
  }

  function Meaning(cfg: Config, opts: string, order: Ordering, w: Word): Parse {
    match w
    case Operand(v) =>
      if order == PERMUTE then Parse([], [], [v])
      else Parse([Report(1, Some(v), None, None, None)], [v], [])
    case Short(flags, last) => Parse(FlagReports(opts, flags) + LastReports(opts, last), Spelling(w), [])
    case Long(intro, _, choice, given) =>
      Parse(FlagReports(opts, IntroFlags(intro)) + [LongReport(opts, cfg.longopts, choice, given)], Spelling(w), [])
  }

  function Before(p: Parse, q: Parse): Parse {
    Parse(p.reports + q.reports, p.options + q.options, p.operands + q.operands)
  }

  // ---------------------------------------------------------------------
  // One step at a time

  lemma SettingsMean(cfg: Config, sign: string, opts: string, order: Ordering)
    requires Settings(cfg, sign, opts, order)
    ensures Opts(cfg) == opts && OrderingOf(cfg) == order && Miss(cfg) == MissingCode(opts)
  {
    if sign != "" {
      assert cfg.optstring[0] == sign[0] && cfg.optstring[1..] == opts;
    } else {
      assert cfg.optstring == opts;
    }
  }

  lemma StepsAlike(cfg: Config, args: seq<string>, i: nat)
    requires i <= |args|
    ensures var s, t := NextStep(cfg, args, Cursor(i, Some(""))), NextStep(cfg, args, Cursor(i, None));
            s == t || (s.Emit? && t.Emit? && s.from == t.from < |args| && s.report == t.report &&
                       s.next == Cursor(s.from + 1, Some("")) && t.next == Cursor(s.from + 1, None))
  {
  }

  lemma EmitsBehind(cfg: Config, args: seq<string>, cur: Cursor, s: Step, rest: Parse)
    requires CursorOk(args, cur) && s == NextStep(cfg, args, cur) && s.Emit? && rest == Scan(cfg, args, s.next)
    ensures Scan(cfg, args, cur) ==
            Parse([s.report] + rest.reports, args[s.from..s.next.optind] + rest.options, args[cur.optind..s.from] + rest.operands)
  {
  }

  /** Where no cluster is begun, the cursor is the index alone. */
  lemma {:induction false} NoCluster(cfg: Config, args: seq<string>, i: nat)
    requires i <= |args|
    ensures Scan(cfg, args, Cursor(i, Some(""))) == Scan(cfg, args, Cursor(i, None))
    decreases |args| - i
  {
    var s, t := NextStep(cfg, args, Cursor(i, Some(""))), NextStep(cfg, args, Cursor(i, None));
    StepsAlike(cfg, args, i);
    if s != t {
      var k := s.from + 1;
      NoCluster(cfg, args, k);
      EmitsAlike(cfg, args, i, s, t, Cursor(k, Some("")), Cursor(k, None));
    } else if s.Emit? {
      EmitsAlike(cfg, args, i, s, t, s.next, s.next);
    }
  }

  lemma EmitsAlike(cfg: Config, args: seq<string>, i: nat, s: Step, t: Step, next: Cursor, next': Cursor)
    requires i <= |args| && s == NextStep(cfg, args, Cursor(i, Some(""))) && t == NextStep(cfg, args, Cursor(i, None))
    requires s.Emit? && t.Emit? && s.from == t.from && s.report == t.report
    requires s.next == next && t.next == next' && next.optind == next'.optind
    requires Scan(cfg, args, next) == Scan(cfg, args, next')
    ensures Scan(cfg, args, Cursor(i, Some(""))) == Scan(cfg, args, Cursor(i, None))
  {
    EmitsBehind(cfg, args, Cursor(i, Some("")), s, Scan(cfg, args, next));
    EmitsBehind(cfg, args, Cursor(i, None), t, Scan(cfg, args, next'));
  }

  /** scan is the scan of args from anywhere.  The lemmas about whole words only
      put such scans together, and take them as given. */
  ghost predicate IsScan(cfg: Config, args: seq<string>, scan: Cursor -> Parse) {
    forall cur {:trigger Scan(cfg, args, cur)} | CursorOk(args, cur) :: scan(cur) == Scan(cfg, args, cur)
  }

  /** An emitting step, with what it uses up. */
  lemma Emits(cfg: Config, args: seq<string>, cur: Cursor, report: Report, next: Cursor)
    requires CursorOk(args, cur) && NextStep(cfg, args, cur) == Emit(cur.optind, report, next)
    ensures CursorOk(args, next) && cur.optind <= next.optind
    ensures Scan(cfg, args, cur) == Before(Parse([report], args[cur.optind..next.optind], []), Scan(cfg, args, next))
  {
    assert args[cur.optind..cur.optind] == [];
  }

  // ---------------------------------------------------------------------
  // Clusters

  lemma TakesMean(opts: string, c: char, kind: ArgKind)
    requires Takes(opts, c, kind)
    ensures var k := IndexOf(opts, c);
            && k < |opts| && c != ':' && c != ';'
            && (kind == NoArgument <==> CharAt(opts, k + 1) != ':')
            && (kind == OptionalArgument <==> CharAt(opts, k + 1) == ':' && CharAt(opts, k + 2) == ':')
  {
    var k: nat :| FirstAt(opts, c, k) && KindAt(opts, k) == kind;
    assert IndexOf(opts, c) == k;
  }

  lemma LongAfterWMeans(cfg: Config, opts: string)
    ensures LongAfterW(cfg, opts) <==>
              cfg.longopts.Some? && IndexOf(opts, 'W') < |opts| && CharAt(opts, IndexOf(opts, 'W') + 1) == ';'
  {
    var k := IndexOf(opts, 'W');
    if k < |opts| {
      assert FirstAt(opts, 'W', k);
    }
  }

  lemma FlagStep(cfg: Config, opts: string, args: seq<string>, next: nat, c: char, rest: string)
    requires Opts(cfg) == opts && IsFlag(cfg, opts, c) && next <= |args| && (rest != "" ==> next < |args|)
    ensures CharacterStep(cfg, args, next, c, rest) == (FlagReport(opts, c), Cursor(next, Some(rest)))
  {
    LongAfterWMeans(cfg, opts);
    if Takes(opts, c, NoArgument) {
      TakesMean(opts, c, NoArgument);
    }
  }

  lemma NothingBefore(q: Parse)
    ensures Before(Parse([], [], []), q) == q
  {
  }

  /** Reports in front of reports, where only the latter use up arguments. */
  lemma ReportsBefore(a: seq<Report>, b: seq<Report>, used: seq<string>, q: Parse)
    ensures Before(Parse(a, [], []), Before(Parse(b, used, []), q)) == Before(Parse(a + b, used, []), q)
  {
    assert a + (b + q.reports) == a + b + q.reports;
    assert [] + (used + q.options) == used + q.options && [] + ([] + q.operands) == [] + q.operands;
  }

  /** One character of a cluster, behind which more follow. */
  lemma FlagAndMore(cfg: Config, opts: string, args: seq<string>, scan: Cursor -> Parse, i: nat, c: char, rest: string)
    requires IsScan(cfg, args, scan)
    requires Opts(cfg) == opts && IsFlag(cfg, opts, c) && i < |args| && rest != ""
    ensures scan(Cursor(i, Some([c] + rest))) ==
            Before(Parse([FlagReport(opts, c)], [], []), scan(Cursor(i, Some(rest))))
  {
    var text := [c] + rest;
    assert text[0] == c && text[1..] == rest;
    FlagStep(cfg, opts, args, i, c, rest);
    Emits(cfg, args, Cursor(i, Some(text)), FlagReport(opts, c), Cursor(i, Some(rest)));
    assert args[i..i] == [];
  }

  /** The last one. */
  lemma FlagAtEnd(cfg: Config, opts: string, args: seq<string>, scan: Cursor -> Parse, i: nat, text: string)
    requires IsScan(cfg, args, scan)
    requires Opts(cfg) == opts && |text| == 1 && IsFlag(cfg, opts, text[0]) && i < |args|
    ensures scan(Cursor(i, Some(text))) ==
            Before(Parse([FlagReport(opts, text[0])], [args[i]], []), scan(Cursor(i + 1, None)))
  {
    assert text[1..] == "";
    FlagStep(cfg, opts, args, i + 1, text[0], "");
    Emits(cfg, args, Cursor(i, Some(text)), FlagReport(opts, text[0]), Cursor(i + 1, Some("")));
    NoCluster(cfg, args, i + 1);
    assert args[i..i + 1] == [args[i]];
  }

  lemma {:induction false} FlagsGo(cfg: Config, opts: string, args: seq<string>, scan: Cursor -> Parse, i: nat, flags: string, tail: string)
    requires IsScan(cfg, args, scan)
    requires Opts(cfg) == opts && i < |args| && tail != ""
    requires forall j | 0 <= j < |flags| :: IsFlag(cfg, opts, flags[j])
    ensures scan(Cursor(i, Some(flags + tail))) ==
            Before(Parse(FlagReports(opts, flags), [], []), scan(Cursor(i, Some(tail))))
  {
    if flags == "" {
      assert flags + tail == tail;
      NothingBefore(scan(Cursor(i, Some(tail))));
    } else {
      var c, more := flags[0], flags[1..];
      assert flags + tail == [c] + (more + tail);
      FlagAndMore(cfg, opts, args, scan, i, c, more + tail);
      FlagsGo(cfg, opts, args, scan, i, more, tail);
      ReportsBefore([FlagReport(opts, c)], FlagReports(opts, more), [], scan(Cursor(i, Some(tail))));
    }
  }

  lemma OneFlag(opts: string, flags: string)
    requires |flags| == 1
    ensures FlagReports(opts, flags) == [FlagReport(opts, flags[0])]
  {
    assert flags[1..] == "";
  }

  lemma {:induction false} FlagsEnd(cfg: Config, opts: string, args: seq<string>, scan: Cursor -> Parse, i: nat, flags: string)
    requires IsScan(cfg, args, scan)
    requires Opts(cfg) == opts && i < |args| && flags != ""
    requires forall j | 0 <= j < |flags| :: IsFlag(cfg, opts, flags[j])
    ensures scan(Cursor(i, Some(flags))) ==
            Before(Parse(FlagReports(opts, flags), [args[i]], []), scan(Cursor(i + 1, None)))
  {
    var c, more := flags[0], flags[1..];
    if more == "" {
      FlagAtEnd(cfg, opts, args, scan, i, flags);
      OneFlag(opts, flags);
    } else {
      assert flags == [c] + more;
      FlagAndMore(cfg, opts, args, scan, i, c, more);
      FlagsEnd(cfg, opts, args, scan, i, more);
      ReportsBefore([FlagReport(opts, c)], FlagReports(opts, more), [args[i]], scan(Cursor(i + 1, None)));
    }
  }

  /** A cluster is read character by character. */
  lemma ClusterBegins(cfg: Config, opts: string, args: seq<string>, scan: Cursor -> Parse, i: nat, text: string)
    requires IsScan(cfg, args, scan)
    requires Opts(cfg) == opts && i < |args| && args[i] == "-" + text && IsCluster(cfg, opts, text)
    ensures scan(Cursor(i, None)) == scan(Cursor(i, Some(text)))
  {
    var arg := args[i];
    assert arg[1..] == text && arg[1] == text[0];
    if cfg.longopts.Some? && cfg.longOnly && |text| > 1 {
      NotLong(cfg, args, i, text);
    }
    assert OptionStep(cfg, args, i) == ShortStep(cfg, args, i, text);
    assert NextStep(cfg, args, Cursor(i, None)) == NextStep(cfg, args, Cursor(i, Some(text)));
    assert Scan(cfg, args, Cursor(i, None)) == Scan(cfg, args, Cursor(i, Some(text)));
  }

  lemma NotLong(cfg: Config, args: seq<string>, i: nat, text: string)
    requires cfg.longopts.Some? && i < |args| && text != "" && CharAt(args[i], 1) != '-' && text[0] in Opts(cfg)
    requires NoneBegins(cfg.longopts.value, text[..NameLen(text)])
    ensures LongStep(cfg, args, i, text, true) == None
  {
    assert Choose(cfg.longopts.value, text[..NameLen(text)], true) == NotFound;
  }

  /** What a cluster ends with: how many arguments it uses up, and what is reported. */
  lemma LastStep(cfg: Config, opts: string, args: seq<string>, i: nat, last: Last)
    requires Opts(cfg) == opts && Miss(cfg) == MissingCode(opts) && i < |args| && !last.Nothing? && LastFits(cfg, opts, last)
    requires last.Separate? ==> i + 1 < |args| && args[i + 1] == last.value
    requires last.Missing? ==> i + 1 == |args|
    ensures var next := if last.Separate? then i + 2 else i + 1;
            && ShortStep(cfg, args, i, Tail(last)).0 == LastReports(opts, last)[0]
            && ShortStep(cfg, args, i, Tail(last)).1.optind == next
            && ShortStep(cfg, args, i, Tail(last)).1.nextchar in {None, Some("")}
  {
    var c, text := last.c, Tail(last);
    assert text[0] == c && text[1..] == if last.Attached? then last.value else "";
    LongAfterWMeans(cfg, opts);
    if Takes(opts, c, RequiredArgument) {
      TakesMean(opts, c, RequiredArgument);
    } else if Takes(opts, c, OptionalArgument) {
      TakesMean(opts, c, OptionalArgument);
    }
  }

  /** A step from argument i to argument next. */
  lemma StepsTo(cfg: Config, args: seq<string>, scan: Cursor -> Parse, cur: Cursor, report: Report, next: Cursor)
    requires IsScan(cfg, args, scan)
    requires CursorOk(args, cur) && NextStep(cfg, args, cur) == Emit(cur.optind, report, next) && next.nextchar in {None, Some("")}
    ensures cur.optind <= next.optind <= |args|
    ensures scan(cur) == Before(Parse([report], args[cur.optind..next.optind], []), scan(Cursor(next.optind, None)))
  {
    Emits(cfg, args, cur, report, next);
    NoCluster(cfg, args, next.optind);
  }

  lemma ClusterEnds(cfg: Config, opts: string, args: seq<string>, scan: Cursor -> Parse, i: nat, last: Last)
    requires IsScan(cfg, args, scan)
    requires Opts(cfg) == opts && Miss(cfg) == MissingCode(opts) && i < |args| && !last.Nothing? && LastFits(cfg, opts, last)
    requires last.Separate? ==> i + 1 < |args| && args[i + 1] == last.value
    requires last.Missing? ==> i + 1 == |args|
    ensures var next := if last.Separate? then i + 2 else i + 1;
            scan(Cursor(i, Some(Tail(last)))) ==
            Before(Parse(LastReports(opts, last), args[i..next], []), scan(Cursor(next, None)))
  {
    var r := ShortStep(cfg, args, i, Tail(last));
    LastStep(cfg, opts, args, i, last);
    StepsTo(cfg, args, scan, Cursor(i, Some(Tail(last))), r.0, r.1);
  }

  /** The word w is spelled in args from i on. */
  predicate Spelled(args: seq<string>, i: nat, w: Word) {
    && i + |Spelling(w)| <= |args| && args[i..i + |Spelling(w)|] == Spelling(w)
    && (Breaks(w) ==> i + |Spelling(w)| == |args|)
  }

  lemma SpelledFirst(args: seq<string>, i: nat, w: Word)
    requires Spelled(args, i, w)
    ensures |Spelling(w)| > 0 && args[i] == Spelling(w)[0]
    ensures |Spelling(w)| > 1 ==> args[i + 1] == Spelling(w)[1]
    ensures |Spelling(w)| > 2 ==> args[i + 2] == Spelling(w)[2]
  {
    var part := args[i..i + |Spelling(w)|];
    assert part[0] == args[i];
    assert |part| > 1 ==> part[1] == args[i + 1];
    assert |part| > 2 ==> part[2] == args[i + 2];
  }

  /** A cluster of flags and what ends it, which together use up the arguments up
      to next. */
  lemma FlagsAndLast(cfg: Config, opts: string, args: seq<string>, scan: Cursor -> Parse, i: nat, flags: string, last: Last, next: nat)
    requires IsScan(cfg, args, scan)
    requires Opts(cfg) == opts && Miss(cfg) == MissingCode(opts) && i < |args| && args[i] == "-" + (flags + Tail(last))
    requires ClusterFits(cfg, opts, flags, Tail(last)) && !last.Nothing? && LastFits(cfg, opts, last)
    requires last.Separate? ==> i + 1 < |args| && args[i + 1] == last.value
    requires last.Missing? ==> i + 1 == |args|
    requires next == if last.Separate? then i + 2 else i + 1
    ensures scan(Cursor(i, None)) ==
            Before(Parse(FlagReports(opts, flags) + LastReports(opts, last), args[i..next], []), scan(Cursor(next, None)))
  {
    ClusterBegins(cfg, opts, args, scan, i, flags + Tail(last));
    FlagsGo(cfg, opts, args, scan, i, flags, Tail(last));
    ClusterEnds(cfg, opts, args, scan, i, last);
    ReportsBefore(FlagReports(opts, flags), LastReports(opts, last), args[i..next], scan(Cursor(next, None)));
  }

  lemma FlagsAlone(cfg: Config, opts: string, args: seq<string>, scan: Cursor -> Parse, i: nat, flags: string)
    requires IsScan(cfg, args, scan)
    requires Opts(cfg) == opts && i < |args| && args[i] == "-" + flags && ClusterFits(cfg, opts, flags, "")
    ensures scan(Cursor(i, None)) ==
            Before(Parse(FlagReports(opts, flags), [args[i]], []), scan(Cursor(i + 1, None)))
  {
    assert flags + "" == flags;
    ClusterBegins(cfg, opts, args, scan, i, flags);
    FlagsEnd(cfg, opts, args, scan, i, flags);
  }

  lemma ShortWord(cfg: Config, opts: string, args: seq<string>, scan: Cursor -> Parse, i: nat, flags: string, last: Last)
    requires IsScan(cfg, args, scan)
    requires Opts(cfg) == opts && Miss(cfg) == MissingCode(opts) && Spelled(args, i, Short(flags, last))
    requires ClusterFits(cfg, opts, flags, Tail(last)) && LastFits(cfg, opts, last)
    ensures var w := Short(flags, last);
            scan(Cursor(i, None)) ==
            Before(Parse(FlagReports(opts, flags) + LastReports(opts, last), Spelling(w), []), scan(Cursor(i + |Spelling(w)|, None)))
  {
    var w := Short(flags, last);
    SpelledFirst(args, i, w);
    if last.Nothing? {
      OnlyFlags(opts, flags);
      assert Spelling(w) == [args[i]];
      FlagsAlone(cfg, opts, args, scan, i, flags);
    } else {
      FlagsAndLast(cfg, opts, args, scan, i, flags, last, i + |Spelling(w)|);
    }
  }

  lemma OnlyFlags(opts: string, flags: string)
    ensures flags + Tail(Nothing) == flags && FlagReports(opts, flags) + LastReports(opts, Nothing) == FlagReports(opts, flags)
  {
    assert flags + "" == flags;
    assert FlagReports(opts, flags) + [] == FlagReports(opts, flags);
  }

  // ---------------------------------------------------------------------
  // Long options

  lemma {:induction false} NameEnds(name: string, rest: string, k: nat)
    requires '=' !in name && (rest != "" ==> rest[0] == '=') && k <= |name|
    ensures IndexOf(name + rest, '=', k) == |name|
    decreases |name| - k
  {
    if k < |name| {
      assert (name + rest)[k] == name[k];
      NameEnds(name, rest, k + 1);
    }
  }

  lemma TextOfName(name: string, given: Given)
    requires '=' !in name
    ensures var text := Text(name, given);
            && NameLen(text) == |name| && text[..|name|] == name
            && (given.Equals? <==> |name| < |text|) && (given.Equals? ==> text[|name| + 1..] == given.value)
  {
    if given.Equals? {
      NameEnds(name, "=" + given.value, 0);
    } else {
      NameEnds(name, "", 0);
      assert name + "" == name;
    }
  }

  lemma LongGives(cfg: Config, opts: string, args: seq<string>, i: nat, name: string, choice: Choice, given: Given, longOnly: bool)
    requires Opts(cfg) == opts && Miss(cfg) == MissingCode(opts) && cfg.longopts.Some? && i < |args| && '=' !in name
    requires Chosen(cfg.longopts.value, name, longOnly, choice) && GivenFits(cfg.longopts.value, choice, given)
    requires var text := Text(name, given); longOnly ==> text != "" && (choice.NotFound? ==> text[0] !in opts || CharAt(args[i], 1) == '-')
    requires given.Next? ==> i + 1 < |args| && args[i + 1] == given.value
    requires given.NoNext? ==> i + 1 == |args|
    ensures var r := LongStep(cfg, args, i, Text(name, given), longOnly);
            && r.Some? && r.value.0 == LongReport(opts, cfg.longopts, choice, given)
            && r.value.1.optind == (if given.Next? then i + 2 else i + 1) && r.value.1.nextchar in {None, Some("")}
  {
    var text := Text(name, given);
    TextOfName(name, given);
    ChosenIsUnique(cfg.longopts.value, name, longOnly, choice, Choose(cfg.longopts.value, name, longOnly));
    if choice.Unique? {
      assert LongStep(cfg, args, i, text, longOnly) == Some(TakeLong(cfg, cfg.longopts.value, args, i, text, choice.index));
      UniqueGives(cfg, opts, args, i, name, choice.index, given);
    }
  }

  lemma UniqueGives(cfg: Config, opts: string, args: seq<string>, i: nat, name: string, k: nat, given: Given)
    requires Miss(cfg) == MissingCode(opts) && cfg.longopts.Some? && i < |args| && '=' !in name
    requires GivenFits(cfg.longopts.value, Unique(k), given)
    requires given.Next? ==> i + 1 < |args| && args[i + 1] == given.value
    requires given.NoNext? ==> i + 1 == |args|
    ensures var r := TakeLong(cfg, cfg.longopts.value, args, i, Text(name, given), k);
            && r.0 == LongReport(opts, cfg.longopts, Unique(k), given)
            && r.1 == Cursor(if given.Next? then i + 2 else i + 1, None)
  {
    TextOfName(name, given);
  }

  /** A long option with its own argument of the program, or behind W in a cluster,
      is read as such. */
  lemma LongBegins(cfg: Config, opts: string, args: seq<string>, i: nat, intro: Intro, text: string, choice: Choice)
    requires Opts(cfg) == opts && cfg.longopts.Some? && (intro.TwoDashes? || intro.OneDash?)
    requires i < |args| && args[i] == Begun(intro, text)[0] && IntroFits(cfg, opts, intro, text, choice)
    requires LongStep(cfg, args, i, text, cfg.longOnly).Some?
    ensures var r := LongStep(cfg, args, i, text, cfg.longOnly).value; NextStep(cfg, args, Cursor(i, None)) == Emit(i, r.0, r.1)
  {
    var arg := args[i];
    if intro.TwoDashes? {
      assert arg[2..] == text && arg[1] == '-' && arg != "--";
    } else {
      assert arg[1..] == text && arg[1] == text[0];
    }
  }

  lemma LongInCluster(cfg: Config, opts: string, args: seq<string>, i: nat, text: string, report: Report, next: Cursor)
    requires Opts(cfg) == opts && LongAfterW(cfg, opts) && i < |args| && (text == "" ==> i + 1 < |args|)
    requires LongStep(cfg, args, if text == "" then i + 1 else i, if text == "" then args[i + 1] else text, false) == Some((report, next))
    ensures NextStep(cfg, args, Cursor(i, Some("W" + text))) == Emit(i, report, next)
  {
    LongAfterWMeans(cfg, opts);
    var cluster := "W" + text;
    assert cluster[0] == 'W' && cluster[1..] == text;
  }

  /** "--name" and "-name". */
  lemma LongAlone(cfg: Config, opts: string, args: seq<string>, scan: Cursor -> Parse, i: nat, intro: Intro, name: string, choice: Choice, given: Given, next: nat)
    requires IsScan(cfg, args, scan)
    requires Opts(cfg) == opts && Miss(cfg) == MissingCode(opts) && (intro.TwoDashes? || intro.OneDash?)
    requires cfg.longopts.Some? && '=' !in name && Chosen(cfg.longopts.value, name, OneDashOnly(cfg, intro), choice)
    requires GivenFits(cfg.longopts.value, choice, given) && IntroFits(cfg, opts, intro, Text(name, given), choice)
    requires i < |args| && args[i] == Begun(intro, Text(name, given))[0]
    requires given.Next? ==> i + 1 < |args| && args[i + 1] == given.value
    requires given.NoNext? ==> i + 1 == |args|
    requires next == if given.Next? then i + 2 else i + 1
    ensures scan(Cursor(i, None)) ==
            Before(Parse(FlagReports(opts, IntroFlags(intro)) + [LongReport(opts, cfg.longopts, choice, given)], args[i..next], []),
                   scan(Cursor(next, None)))
  {
    NoFlags(opts, LongReport(opts, cfg.longopts, choice, given));
    var text := Text(name, given);
    assert intro.TwoDashes? ==> args[i][1] == '-';
    LongGives(cfg, opts, args, i, name, choice, given, cfg.longOnly);
    LongBegins(cfg, opts, args, i, intro, text, choice);
    var r := LongStep(cfg, args, i, text, cfg.longOnly).value;
    StepsTo(cfg, args, scan, Cursor(i, None), r.0, r.1);
  }

  lemma LongEnds(cfg: Config, opts: string, args: seq<string>, scan: Cursor -> Parse, i: nat, text: string, at: nat, report: Report, end: Cursor)
    requires IsScan(cfg, args, scan)
    requires Opts(cfg) == opts && LongAfterW(cfg, opts) && i < |args| && end.nextchar in {None, Some("")}
    requires at == (if text == "" then i + 1 else i) < |args|
    requires LongStep(cfg, args, at, if text == "" then args[at] else text, false) == Some((report, end))
    ensures i <= end.optind <= |args|
    ensures scan(Cursor(i, Some("W" + text))) == Before(Parse([report], args[i..end.optind], []), scan(Cursor(end.optind, None)))
  {
    LongInCluster(cfg, opts, args, i, text, report, end);
    StepsTo(cfg, args, scan, Cursor(i, Some("W" + text)), report, end);
  }

  /** "-abcWname" and "-abcW" "name"; at is the argument that the name is in. */
  lemma LongBehindFlags(cfg: Config, opts: string, args: seq<string>, scan: Cursor -> Parse, i: nat, flags: string, text: string, at: nat,
                        name: string, choice: Choice, given: Given, next: nat)
    requires IsScan(cfg, args, scan)
    requires Opts(cfg) == opts && Miss(cfg) == MissingCode(opts) && LongAfterW(cfg, opts) && ClusterFits(cfg, opts, flags, "W" + text)
    requires '=' !in name && Chosen(cfg.longopts.value, name, false, choice) && GivenFits(cfg.longopts.value, choice, given)
    requires i < |args| && args[i] == "-" + (flags + ("W" + text))
    requires if text == "" then at == i + 1 < |args| && args[at] == Text(name, given) else at == i && text == Text(name, given)
    requires given.Next? ==> at + 1 < |args| && args[at + 1] == given.value
    requires given.NoNext? ==> at + 1 == |args|
    requires next == if given.Next? then at + 2 else at + 1
    ensures scan(Cursor(i, None)) ==
            Before(Parse(FlagReports(opts, flags) + [LongReport(opts, cfg.longopts, choice, given)], args[i..next], []),
                   scan(Cursor(next, None)))
  {
    var report := LongReport(opts, cfg.longopts, choice, given);
    ClusterBegins(cfg, opts, args, scan, i, flags + ("W" + text));
    FlagsGo(cfg, opts, args, scan, i, flags, "W" + text);
    LongGives(cfg, opts, args, at, name, choice, given, false);
    LongEnds(cfg, opts, args, scan, i, text, at, report, LongStep(cfg, args, at, Text(name, given), false).value.1);
    ReportsBefore(FlagReports(opts, flags), [report], args[i..next], scan(Cursor(next, None)));
  }

  /** Where the argument of a long option stands: behind the argument `at` that its
      name is in. */
  lemma LongSpelled(args: seq<string>, i: nat, w: Word, at: nat, next: nat)
    requires Spelled(args, i, w) && w.Long? && next == i + |Spelling(w)|
    requires at == if w.intro.NextToW? then i + 1 else i
    ensures args[i..next] == Spelling(w) && i <= at < |args| && next == (if w.given.Next? then at + 2 else at + 1)
    ensures args[i] == Begun(w.intro, Text(w.name, w.given))[0]
    ensures w.intro.NextToW? ==> args[at] == Text(w.name, w.given)
    ensures w.given.Next? ==> at + 1 < |args| && args[at + 1] == w.given.value
    ensures w.given.NoNext? ==> at + 1 == |args|
  {
    SpelledFirst(args, i, w);
  }

  lemma LongWord(cfg: Config, opts: string, order: Ordering, args: seq<string>, scan: Cursor -> Parse, i: nat, w: Word)
    requires IsScan(cfg, args, scan)
    requires Opts(cfg) == opts && Miss(cfg) == MissingCode(opts) && Spelled(args, i, w) && w.Long? && Fits(cfg, opts, order, w)
    ensures scan(Cursor(i, None)) ==
            Before(Meaning(cfg, opts, order, w), scan(Cursor(i + |Spelling(w)|, None)))
  {
    if w.intro.BehindW? || w.intro.NextToW? {
      LongWithW(cfg, opts, order, args, scan, i, w);
    } else {
      LongSpelled(args, i, w, i, i + |Spelling(w)|);
      LongAlone(cfg, opts, args, scan, i, w.intro, w.name, w.choice, w.given, i + |Spelling(w)|);
    }
  }

  lemma LongWithW(cfg: Config, opts: string, order: Ordering, args: seq<string>, scan: Cursor -> Parse, i: nat, w: Word)
    requires IsScan(cfg, args, scan)
    requires Opts(cfg) == opts && Miss(cfg) == MissingCode(opts) && Spelled(args, i, w) && w.Long? && Fits(cfg, opts, order, w)
    requires w.intro.BehindW? || w.intro.NextToW?
    ensures scan(Cursor(i, None)) ==
            Before(Meaning(cfg, opts, order, w), scan(Cursor(i + |Spelling(w)|, None)))
  {
    var text := if w.intro.BehindW? then Text(w.name, w.given) else "";
    var at := if w.intro.NextToW? then i + 1 else i;
    LongSpelled(args, i, w, at, i + |Spelling(w)|);
    assert "W" + "" == "W";
    LongBehindFlags(cfg, opts, args, scan, i, w.intro.flags, text, at, w.name, w.choice, w.given, i + |Spelling(w)|);
  }

  lemma NoFlags(opts: string, report: Report)
    ensures FlagReports(opts, "") + [report] == [report]
  {
  }

  // ---------------------------------------------------------------------
  // Operands

  lemma OperandBefore(a: string, reports: seq<Report>, options: seq<string>, passed: seq<string>, operands: seq<string>)
    ensures Before(Parse([], [], [a]), Parse(reports, options, passed + operands)) == Parse(reports, options, ([a] + passed) + operands)
  {
    assert [] + reports == reports && [] + options == options;
    assert [a] + (passed + operands) == ([a] + passed) + operands;
  }

  lemma OperandMeans(arg: string)
    ensures IsOperand(arg) <==> NonOption(arg)
    ensures IsOperand(arg) ==> arg != "--"
  {
  }

  /** An operand is passed over. */
  lemma Passed(cfg: Config, args: seq<string>, i: nat)
    requires i < |args| && IsOperand(args[i]) && OrderingOf(cfg) == PERMUTE
    ensures Scan(cfg, args, Cursor(i, None)) == Before(Parse([], [], [args[i]]), Scan(cfg, args, Cursor(i + 1, None)))
  {
    var s := NextStep(cfg, args, Cursor(i + 1, None));
    OperandMeans(args[i]);
    assert NextStep(cfg, args, Cursor(i, None)) == s;
    if s.Emit? {
      PassedThen(args, i, s, Scan(cfg, args, s.next), Scan(cfg, args, Cursor(i, None)), Scan(cfg, args, Cursor(i + 1, None)));
    } else {
      PassedLast(args, i, s, Scan(cfg, args, Cursor(i, None)), Scan(cfg, args, Cursor(i + 1, None)));
    }
  }

  lemma PassedThen(args: seq<string>, i: nat, s: Step, rest: Parse, p: Parse, q: Parse)
    requires s.Emit? && i < s.from <= s.next.optind <= |args|
    requires p == Parse([s.report] + rest.reports, args[s.from..s.next.optind] + rest.options, args[i..s.from] + rest.operands)
    requires q == Parse([s.report] + rest.reports, args[s.from..s.next.optind] + rest.options, args[i + 1..s.from] + rest.operands)
    ensures p == Before(Parse([], [], [args[i]]), q)
  {
    PassedOver(args, i, s.from, [s.report] + rest.reports, args[s.from..s.next.optind] + rest.options, rest.operands);
  }

  lemma PassedLast(args: seq<string>, i: nat, s: Step, p: Parse, q: Parse)
    requires s.Stop? && i < s.at <= |args| && (s.dashdash ==> s.at < |args|)
    requires p == if s.dashdash then Parse([], ["--"], args[i..s.at] + args[s.at + 1..]) else Parse([], [], args[i..])
    requires q == if s.dashdash then Parse([], ["--"], args[i + 1..s.at] + args[s.at + 1..]) else Parse([], [], args[i + 1..])
    ensures p == Before(Parse([], [], [args[i]]), q)
  {
    if s.dashdash {
      PassedOver(args, i, s.at, [], ["--"], args[s.at + 1..]);
    } else {
      assert args[i..] == [args[i]] + args[i + 1..];
    }
  }

  lemma PassedOver(args: seq<string>, i: nat, at: nat, reports: seq<Report>, options: seq<string>, operands: seq<string>)
    requires i < at <= |args|
    ensures Before(Parse([], [], [args[i]]), Parse(reports, options, args[i + 1..at] + operands)) == Parse(reports, options, args[i..at] + operands)
  {
    assert args[i..at] == [args[i]] + args[i + 1..at];
    OperandBefore(args[i], reports, options, args[i + 1..at], operands);
  }

  /** An operand is returned in order. */
  lemma Returned(cfg: Config, args: seq<string>, scan: Cursor -> Parse, i: nat)
    requires IsScan(cfg, args, scan)
    requires i < |args| && IsOperand(args[i]) && OrderingOf(cfg) == RETURN_IN_ORDER
    ensures scan(Cursor(i, None)) ==
            Before(Parse([Report(1, Some(args[i]), None, None, None)], [args[i]], []), scan(Cursor(i + 1, None)))
  {
    OperandMeans(args[i]);
    assert NextStep(cfg, args, Cursor(i, None)) == Emit(i, Report(1, Some(args[i]), None, None, None), Cursor(i + 1, None));
    Emits(cfg, args, Cursor(i, None), Report(1, Some(args[i]), None, None, None), Cursor(i + 1, None));
    assert args[i..i + 1] == [args[i]];
  }

  // ---------------------------------------------------------------------
  // The laws

  lemma WordScans(cfg: Config, sign: string, opts: string, order: Ordering, args: seq<string>, scan: Cursor -> Parse, i: nat, w: Word)
    requires IsScan(cfg, args, scan)
    requires Settings(cfg, sign, opts, order) && Fits(cfg, opts, order, w) && Spelled(args, i, w)
    ensures scan(Cursor(i, None)) ==
            Before(Meaning(cfg, opts, order, w), scan(Cursor(i + |Spelling(w)|, None)))
  {
    SettingsMean(cfg, sign, opts, order);
    SpelledFirst(args, i, w);
    match w
    case Operand(v) =>
      if order == PERMUTE {
        Passed(cfg, args, i);
      } else {
        Returned(cfg, args, scan, i);
      }
    case Short(flags, last) => ShortWord(cfg, opts, args, scan, i, flags, last);
    case Long(_, _, _, _) => LongWord(cfg, opts, order, args, scan, i, w);
  }

  /** One word: it is reported as it is meant, and the scan goes on behind it. */
  lemma WordMeans(cfg: Config, sign: string, opts: string, order: Ordering, args: seq<string>, i: nat, w: Word)
    requires Settings(cfg, sign, opts, order) && Fits(cfg, opts, order, w) && Spelled(args, i, w)
    ensures Scan(cfg, args, Cursor(i, None)) ==
            Before(Meaning(cfg, opts, order, w), Scan(cfg, args, Cursor(i + |Spelling(w)|, None)))
  {
    var scan := cur => if CursorOk(args, cur) then Scan(cfg, args, cur) else Parse([], [], []);
    WordScans(cfg, sign, opts, order, args, scan, i, w);
  }

  /** How the command line ends: with the words; with "--" and operands; with
      operands, where options must come first. */
  datatype End = AllRead | BehindDashes(operands: seq<string>) | FromOperand(first: string, operands: seq<string>)

  function EndSpelling(end: End): seq<string> {
    match end
    case AllRead => []
    case BehindDashes(operands) => ["--"] + operands
    case FromOperand(first, operands) => [first] + operands
  }

  function EndMeaning(end: End): Parse {
    match end
    case AllRead => Parse([], [], [])
    case BehindDashes(operands) => Parse([], ["--"], operands)
    case FromOperand(first, operands) => Parse([], [], [first] + operands)
  }

  predicate EndFits(order: Ordering, end: End) {
    end.FromOperand? ==> order == REQUIRE_ORDER && IsOperand(end.first)
  }

  lemma EndMeans(cfg: Config, sign: string, opts: string, order: Ordering, args: seq<string>, i: nat, end: End)
    requires Settings(cfg, sign, opts, order) && EndFits(order, end) && i <= |args| && args[i..] == EndSpelling(end)
    ensures Scan(cfg, args, Cursor(i, None)) == EndMeaning(end)
  {
    match end
    case AllRead =>
      assert NextStep(cfg, args, Cursor(i, None)) == Stop(i, false);
    case BehindDashes(operands) =>
      DashesEnd(cfg, args, i, operands);
    case FromOperand(first, operands) =>
      SettingsMean(cfg, sign, opts, order);
      assert args[i] == args[i..][0] == first;
      assert NextStep(cfg, args, Cursor(i, None)) == Stop(i, false);
  }

  lemma DashesEnd(cfg: Config, args: seq<string>, i: nat, operands: seq<string>)
    requires i < |args| && args[i..] == ["--"] + operands
    ensures Scan(cfg, args, Cursor(i, None)) == Parse([], ["--"], operands)
  {
    assert args[i] == args[i..][0] == "--";
    assert args[i + 1..] == args[i..][1..] == operands;
    assert args[i..i] + operands == operands;
    assert NextStep(cfg, args, Cursor(i, None)) == Stop(i, true);
  }

  /** The command line of these words and this end. */
  function Line(words: seq<Word>, end: End): seq<string> {
    if words == [] then EndSpelling(end) else Spelling(words[0]) + Line(words[1..], end)
  }

  /** Nothing follows a word whose argument is missing. */
  predicate BreaksLast(words: seq<Word>, end: End) {
    if words == [] then true
    else (Breaks(words[0]) ==> |words| == 1 && end.AllRead?) && BreaksLast(words[1..], end)
  }

  ghost predicate LineFits(cfg: Config, opts: string, order: Ordering, words: seq<Word>, end: End) {
    (forall w | w in words :: Fits(cfg, opts, order, w)) && EndFits(order, end) && BreaksLast(words, end)
  }

  function LineMeaning(meaning: Word -> Parse, words: seq<Word>, end: End): Parse {
    if words == [] then EndMeaning(end) else Before(meaning(words[0]), LineMeaning(meaning, words[1..], end))
  }

  function MeaningOf(cfg: Config, opts: string, order: Ordering): Word -> Parse {
    w => Meaning(cfg, opts, order, w)
  }

  /** A command line made of any words, in any spelling, is reported as it is meant:
      each option with its argument, in order, the operands behind. */
  lemma CommandLineMeans(cfg: Config, sign: string, opts: string, order: Ordering, args: seq<string>, i: nat, words: seq<Word>, end: End)
    requires Settings(cfg, sign, opts, order) && LineFits(cfg, opts, order, words, end)
    requires i <= |args| && args[i..] == Line(words, end)
    ensures Scan(cfg, args, Cursor(i, None)) == LineMeaning(MeaningOf(cfg, opts, order), words, end)
  {
    var scan := cur => if CursorOk(args, cur) then Scan(cfg, args, cur) else Parse([], [], []);
    forall j: nat, w | w in words && Spelled(args, j, w)
      ensures Goes(args, scan, MeaningOf(cfg, opts, order), j, w)
    {
      WordScans(cfg, sign, opts, order, args, scan, j, w);
    }
    forall j: nat | j <= |args| && args[j..] == EndSpelling(end)
      ensures scan(Cursor(j, None)) == EndMeaning(end)
    {
      EndMeans(cfg, sign, opts, order, args, j, end);
    }
    LineScans(args, scan, MeaningOf(cfg, opts, order), i, words, end);
  }

  ghost predicate Goes(args: seq<string>, scan: Cursor -> Parse, meaning: Word -> Parse, i: nat, w: Word) {
    scan(Cursor(i, None)) == Before(meaning(w), scan(Cursor(i + |Spelling(w)|, None)))
  }

  lemma {:induction false} LineScans(args: seq<string>, scan: Cursor -> Parse, meaning: Word -> Parse, i: nat, words: seq<Word>, end: End)
    requires forall j: nat, w | w in words && Spelled(args, j, w) :: Goes(args, scan, meaning, j, w)
    requires forall j: nat | j <= |args| && args[j..] == EndSpelling(end) :: scan(Cursor(j, None)) == EndMeaning(end)
    requires BreaksLast(words, end) && i <= |args| && args[i..] == Line(words, end)
    ensures scan(Cursor(i, None)) == LineMeaning(meaning, words, end)
    decreases |words|
  {
    if words != [] {
      var w, more := words[0], words[1..];
      FirstSpelled(args, i, w, more, end);
      assert Goes(args, scan, meaning, i, w);
      LineScans(args, scan, meaning, i + |Spelling(w)|, more, end);
    }
  }

  lemma FirstSpelled(args: seq<string>, i: nat, w: Word, more: seq<Word>, end: End)
    requires i <= |args| && args[i..] == Spelling(w) + Line(more, end) && (Breaks(w) ==> more == [] && end.AllRead?)
    ensures Spelled(args, i, w) && args[i + |Spelling(w)|..] == Line(more, end)
  {
    FirstWord(args, i, Spelling(w), Line(more, end));
  }

  lemma FirstWord(args: seq<string>, i: nat, part: seq<string>, rest: seq<string>)
    requires i <= |args| && args[i..] == part + rest
    ensures i + |part| + |rest| == |args| && args[i..i + |part|] == part && args[i + |part|..] == rest
  {
    assert |args[i..]| == |args| - i;
    assert args[i..i + |part|] == args[i..][..|part|] && args[i + |part|..] == args[i..][|part|..];
  }

  // ---------------------------------------------------------------------
  // Every command line is made of such words

  lemma Spell(args: seq<string>, i: nat, w: Word)
    requires 0 < |Spelling(w)| <= 3 && i + |Spelling(w)| <= |args| && args[i] == Spelling(w)[0]
    requires |Spelling(w)| > 1 ==> args[i + 1] == Spelling(w)[1]
    requires |Spelling(w)| > 2 ==> args[i + 2] == Spelling(w)[2]
    requires Breaks(w) ==> i + |Spelling(w)| == |args|
    ensures Spelled(args, i, w)
  {
  }

  /** The text of a long option in the argument `at`, or part of it, is a name that
      stands for something, with its argument or without. */
  lemma AnyLong(cfg: Config, args: seq<string>, at: nat, text: string, longOnly: bool)
    returns (name: string, choice: Choice, given: Given)
    requires cfg.longopts.Some? && at < |args|
    ensures '=' !in name && Text(name, given) == text
    ensures Chosen(cfg.longopts.value, name, longOnly, choice) && GivenFits(cfg.longopts.value, choice, given)
    ensures given.Next? ==> at + 1 < |args| && args[at + 1] == given.value
    ensures given.NoNext? ==> at + 1 == |args|
    ensures choice.NotFound? ==> NoneBegins(cfg.longopts.value, text[..NameLen(text)])
  {
    var n, longopts := NameLen(text), cfg.longopts.value;
    name := text[..n];
    choice := Choose(longopts, name, longOnly);
    if n < |text| {
      given := Equals(text[n + 1..]);
      assert text == name + ("=" + text[n + 1..]);
    } else if choice.Unique? && longopts[choice.index].hasArg == RequiredArgument {
      given := if at + 1 < |args| then Next(args[at + 1]) else NoNext;
    } else {
      given := NotGiven;
    }
  }

  lemma KindOf(cfg: Config, opts: string, c: char) returns (kind: ArgKind)
    requires !IsFlag(cfg, opts, c) && !(c == 'W' && LongAfterW(cfg, opts))
    ensures kind != NoArgument && Takes(opts, c, kind)
  {
    var k := IndexOf(opts, c);
    assert FirstAt(opts, c, k);
    kind := KindAt(opts, k);
  }

  /** What a cluster ends with, where its text is c and rest. */
  lemma AnyLast(cfg: Config, opts: string, args: seq<string>, i: nat, flags: string, c: char, rest: string) returns (w: Word)
    requires i < |args| && args[i] == "-" + (flags + ([c] + rest)) && ClusterFits(cfg, opts, flags, [c] + rest)
    requires !IsFlag(cfg, opts, c) && !(c == 'W' && LongAfterW(cfg, opts))
    ensures Spelled(args, i, w) && w.Short? && ClusterFits(cfg, opts, w.flags, Tail(w.last)) && LastFits(cfg, opts, w.last)
  {
    var kind := KindOf(cfg, opts, c);
    if rest != "" {
      w := Short(flags, Attached(c, rest));
    } else {
      assert [c] + rest == [c];
      if kind == OptionalArgument {
        w := Short(flags, Alone(c));
      } else if i + 1 < |args| {
        w := Short(flags, Separate(c, args[i + 1]));
      } else {
        w := Short(flags, Missing(c));
      }
    }
    Spell(args, i, w);
  }

  /** The same for -W with a long option. */
  lemma AnyW(cfg: Config, opts: string, order: Ordering, args: seq<string>, i: nat, flags: string, rest: string) returns (w: Word)
    requires i < |args| && args[i] == "-" + (flags + ("W" + rest)) && ClusterFits(cfg, opts, flags, "W" + rest) && LongAfterW(cfg, opts)
    ensures Spelled(args, i, w) && Fits(cfg, opts, order, w)
  {
    var name, choice, given;
    if rest != "" {
      name, choice, given := AnyLong(cfg, args, i, rest, false);
      w := Long(BehindW(flags), name, choice, given);
    } else {
      assert "W" + rest == "W";
      if i + 1 == |args| {
        w := Short(flags, Missing('W'));
      } else {
        name, choice, given := AnyLong(cfg, args, i + 1, args[i + 1], false);
        w := Long(NextToW(flags), name, choice, given);
      }
    }
    Spell(args, i, w);
  }

  lemma {:induction false} AnyCluster(cfg: Config, opts: string, order: Ordering, args: seq<string>, i: nat, flags: string, text: string)
    returns (w: Word)
    requires i < |args| && args[i] == "-" + (flags + text) && ClusterFits(cfg, opts, flags, text)
    ensures Spelled(args, i, w) && Fits(cfg, opts, order, w)
    decreases |text|
  {
    if text == "" {
      w := Short(flags, Nothing);
      Spell(args, i, w);
    } else {
      var c, rest := text[0], text[1..];
      assert text == [c] + rest && flags + text == (flags + [c]) + rest;
      if IsFlag(cfg, opts, c) {
        w := AnyCluster(cfg, opts, order, args, i, flags + [c], rest);
      } else if c == 'W' && LongAfterW(cfg, opts) {
        assert text == "W" + rest;
        w := AnyW(cfg, opts, order, args, i, flags, rest);
      } else {
        w := AnyLast(cfg, opts, args, i, flags, c, rest);
      }
    }
  }

  lemma AnyLongWord(cfg: Config, opts: string, order: Ordering, args: seq<string>, i: nat, text: string) returns (w: Word)
    requires i < |args| && args[i] == "-" + text && text != "" && text != "-" && !IsCluster(cfg, opts, text)
    ensures Spelled(args, i, w) && Fits(cfg, opts, order, w)
  {
    var name, choice, given;
    if text[0] == '-' {
      name, choice, given := AnyLong(cfg, args, i, text[1..], cfg.longOnly);
      w := Long(TwoDashes, name, choice, given);
      assert text == "-" + text[1..];
    } else {
      name, choice, given := AnyLong(cfg, args, i, text, cfg.longOnly);
      w := Long(OneDash, name, choice, given);
    }
    Spell(args, i, w);
  }

  /** Every argument that does not end the scan begins a word. */
  lemma AnyWord(cfg: Config, opts: string, order: Ordering, args: seq<string>, i: nat) returns (w: Word)
    requires i < |args| && args[i] != "--" && (IsOperand(args[i]) ==> order != REQUIRE_ORDER)
    ensures Spelled(args, i, w) && Fits(cfg, opts, order, w)
  {
    if IsOperand(args[i]) {
      w := Operand(args[i]);
      Spell(args, i, w);
      return;
    }
    var text := args[i][1..];
    assert args[i] == "-" + text && "" + text == text;
    if IsCluster(cfg, opts, text) {
      w := AnyCluster(cfg, opts, order, args, i, "", text);
    } else {
      w := AnyLongWord(cfg, opts, order, args, i, text);
    }
  }

  /** Every command line is that of some words and an end of it, so that what is
      reported of it is what they mean. */
  lemma {:induction false} EveryLine(cfg: Config, opts: string, order: Ordering, args: seq<string>, i: nat) returns (words: seq<Word>, end: End)
    requires i <= |args|
    ensures args[i..] == Line(words, end) && LineFits(cfg, opts, order, words, end)
    ensures i == |args| ==> words == [] && end.AllRead?
    decreases |args| - i
  {
    if i == |args| || args[i] == "--" || (IsOperand(args[i]) && order == REQUIRE_ORDER) {
      words := [];
      end := NoMoreWords(order, args, i);
    } else {
      var w := AnyWord(cfg, opts, order, args, i);
      SpelledFirst(args, i, w);
      var more;
      more, end := EveryLine(cfg, opts, order, args, i + |Spelling(w)|);
      words := [w] + more;
      OneMoreWord(args, i, w, more, end);
      OneMoreFits(cfg, opts, order, w, more, end);
    }
  }

  lemma NoMoreWords(order: Ordering, args: seq<string>, i: nat) returns (end: End)
    requires i <= |args| && (i < |args| ==> args[i] == "--" || (IsOperand(args[i]) && order == REQUIRE_ORDER))
    ensures args[i..] == Line([], end) && EndFits(order, end) && (i == |args| ==> end.AllRead?)
  {
    end := if i == |args| then AllRead else if args[i] == "--" then BehindDashes(args[i + 1..]) else FromOperand(args[i], args[i + 1..]);
  }

  lemma OneMoreWord(args: seq<string>, i: nat, w: Word, more: seq<Word>, end: End)
    requires Spelled(args, i, w) && args[i + |Spelling(w)|..] == Line(more, end)
    ensures args[i..] == Line([w] + more, end)
  {
    var next := i + |Spelling(w)|;
    assert ([w] + more)[1..] == more;
    assert args[i..] == args[i..next] + args[next..];
  }

  lemma OneMoreFits(cfg: Config, opts: string, order: Ordering, w: Word, more: seq<Word>, end: End)
    requires Fits(cfg, opts, order, w) && LineFits(cfg, opts, order, more, end)
    requires Breaks(w) ==> more == [] && end.AllRead?
    ensures LineFits(cfg, opts, order, [w] + more, end)
  {
    assert ([w] + more)[1..] == more;
  }

  // ---------------------------------------------------------------------
  // Names of long options

  predicate Alike(p: LongOption, q: LongOption) {
    p.hasArg == q.hasArg && p.flag == q.flag && p.val == q.val
  }

  /** A name in full stands for the first option of that name.  The beginning of
      just one name stands for that option; the beginning of names of options that
      are not alike is ambiguous, and of alike ones stands for the first, except
      under getopt_long_only. */
  lemma ChoiceLaws(opts: seq<LongOption>, name: string, longOnly: bool, choice: Choice, i: nat, j: nat)
    requires Chosen(opts, name, longOnly, choice) && i < |opts| && j < |opts|
    ensures opts[i].name == name && (forall k | 0 <= k < i :: opts[k].name != name) ==> choice == Unique(i)
    ensures name <= opts[i].name && (forall k | 0 <= k < |opts| && k != i :: !(name <= opts[k].name)) ==> choice == Unique(i)
    ensures (forall k | 0 <= k < |opts| :: opts[k].name != name) && name <= opts[i].name && name <= opts[j].name && i != j ==>
              && (longOnly || !Alike(opts[i], opts[j]) ==> choice == Ambiguous)
              && (!longOnly && (forall k | 0 <= k < |opts| && name <= opts[k].name :: i <= k && Alike(opts[i], opts[k])) ==> choice == Unique(i))
    ensures (forall k | 0 <= k < |opts| :: !(name <= opts[k].name)) ==> choice == NotFound
  {
    if (forall k | 0 <= k < |opts| :: opts[k].name != name) && name <= opts[i].name {
      var first: int :| 0 <= first < |opts| && Abbreviates(opts, name, first) &&
                        choice == if Clash(opts, name, longOnly, first) then Ambiguous else Unique(first);
      assert first <= i;
      if name <= opts[j].name && i != j && (longOnly || !Alike(opts[i], opts[j])) {
        assert first <= j;
        var k := if i != first && (longOnly || !Alike(opts[first], opts[i])) then i else j;
        assert first < k && name <= opts[k].name && (longOnly || !SameOption(opts[first], opts[k]));
      }
    }
  }

  // ---------------------------------------------------------------------
  // Examples

  /** The word w fits, is written as line, and reports what it should. */
  ghost predicate Example(cfg: Config, opts: string, w: Word, line: seq<string>, reports: seq<Report>) {
    Fits(cfg, opts, PERMUTE, w) && Spelling(w) == line && Meaning(cfg, opts, PERMUTE, w).reports == reports
  }

  function Just(c: char): Report {
    Report(c as int, None, None, None, None)
  }

  function With(c: char, value: string): Report {
    Report(c as int, Some(value), None, None, None)
  }

  /** With optstring "ab:c::", a has no argument, b requires one, c may have one. */
  lemma ShortExamples(cfg: Config, opts: string, x: string)
    requires cfg.longopts == None && opts == "ab:c::" && x != ""
    ensures Example(cfg, opts, Short("a", Attached('b', x)), ["-" + ("a" + (['b'] + x))], [Just('a'), With('b', x)])
    ensures Example(cfg, opts, Short("a", Separate('b', x)), ["-" + ("a" + "b"), x], [Just('a'), With('b', x)])
    ensures Example(cfg, opts, Short("a", Attached('c', x)), ["-" + ("a" + (['c'] + x))], [Just('a'), With('c', x)])
    ensures Example(cfg, opts, Short("a", Alone('c')), ["-" + ("a" + "c")], [Just('a'), Just('c')])
    ensures Example(cfg, opts, Short("a", Missing('b')), ["-" + ("a" + "b")], [Just('a'), Report('?' as int, None, Some('b' as int), None, None)])
  {
    ShortExample(cfg, opts, Attached('b', x), ["-" + ("a" + (['b'] + x))], With('b', x));
    ShortExample(cfg, opts, Separate('b', x), ["-" + ("a" + "b"), x], With('b', x));
    ShortExample(cfg, opts, Attached('c', x), ["-" + ("a" + (['c'] + x))], With('c', x));
    ShortExample(cfg, opts, Alone('c'), ["-" + ("a" + "c")], Just('c'));
    ShortExample(cfg, opts, Missing('b'), ["-" + ("a" + "b")], Report('?' as int, None, Some('b' as int), None, None));
  }

  lemma ShortExample(cfg: Config, opts: string, last: Last, line: seq<string>, report: Report)
    requires cfg.longopts == None && opts == "ab:c::"
    requires match last
             case Attached(c, v) => c in {'b', 'c'} && v != ""
             case Alone(c) => c == 'c'
             case Separate(c, _) => c == 'b'
             case Missing(c) => c == 'b'
             case Nothing => false
    requires LastReports(opts, last) == [report]
    requires line == ["-" + ("a" + Tail(last))] + if last.Separate? then [last.value] else []
    ensures Example(cfg, opts, Short("a", last), line, [Just('a'), report])
  {
    assert FirstAt(opts, 'a', 0) && FirstAt(opts, 'b', 1) && FirstAt(opts, 'c', 3);
    assert ("a" + Tail(last))[0] == 'a';
    OneFlag(opts, "a");
    assert [Just('a')] + [report] == [Just('a'), report];
  }

  /** With optstring "S:", the argument behind "-S" is that of S, whatever it is. */
  lemma SuffixExample(cfg: Config, args: seq<string>, i: nat)
    requires cfg.optstring == "S:" && !cfg.longOnly && i + 1 < |args| && args[i] == "-S"
    ensures Scan(cfg, args, Cursor(i, None)) ==
            Before(Parse([With('S', args[i + 1])], [args[i], args[i + 1]], []), Scan(cfg, args, Cursor(i + 2, None)))
  {
    var scan := cur => if CursorOk(args, cur) then Scan(cfg, args, cur) else Parse([], [], []);
    SuffixScans(cfg, args, scan, i);
  }

  lemma SuffixScans(cfg: Config, args: seq<string>, scan: Cursor -> Parse, i: nat)
    requires IsScan(cfg, args, scan)
    requires cfg.optstring == "S:" && !cfg.longOnly && i + 1 < |args| && args[i] == "-S"
    ensures scan(Cursor(i, None)) == Before(Parse([With('S', args[i + 1])], [args[i], args[i + 1]], []), scan(Cursor(i + 2, None)))
  {
    var opts, w, order := cfg.optstring, Short("", Separate('S', args[i + 1])), if cfg.posixlyCorrect then REQUIRE_ORDER else PERMUTE;
    SuffixWord(cfg, opts, order, args[i], args[i + 1]);
    assert "" + opts == opts && args[i..i + 2] == [args[i], args[i + 1]];
    WordScans(cfg, "", opts, order, args, scan, i, w);
  }

  lemma SuffixWord(cfg: Config, opts: string, order: Ordering, arg: string, value: string)
    requires opts == "S:" && !cfg.longOnly && arg == "-S"
    ensures var w := Short("", Separate('S', value));
            && Fits(cfg, opts, order, w) && Spelling(w) == [arg, value]
            && Meaning(cfg, opts, order, w) == Parse([With('S', value)], [arg, value], [])
  {
    assert FirstAt(opts, 'S', 0) && KindAt(opts, 0) == RequiredArgument;
    assert "" + ['S'] == "S" && "-" + "S" == arg;
  }

  /** With an option --suffix that requires an argument and returns 7: "--suffix=x",
      "--suf=x" and "--suf" "x". */
  lemma LongExamples(cfg: Config, opts: string, x: string)
    requires opts == "" && !cfg.longOnly && cfg.longopts == Some([LongOption("suffix", RequiredArgument, None, 7)])
    ensures Example(cfg, opts, Long(TwoDashes, "suffix", Unique(0), Equals(x)), ["-" + ("-" + ("suffix" + ("=" + x)))],
                    [Report(7, Some(x), None, Some(0), None)])
    ensures Example(cfg, opts, Long(TwoDashes, "suf", Unique(0), Equals(x)), ["-" + ("-" + ("suf" + ("=" + x)))],
                    [Report(7, Some(x), None, Some(0), None)])
    ensures Example(cfg, opts, Long(TwoDashes, "suf", Unique(0), Next(x)), ["-" + ("-" + "suf"), x],
                    [Report(7, Some(x), None, Some(0), None)])
  {
    LongExample(cfg, opts, "suffix", Equals(x));
    LongExample(cfg, opts, "suf", Equals(x));
    LongExample(cfg, opts, "suf", Next(x));
  }

  lemma LongExample(cfg: Config, opts: string, name: string, given: Given)
    requires opts == "" && !cfg.longOnly && cfg.longopts == Some([LongOption("suffix", RequiredArgument, None, 7)])
    requires name in {"suffix", "suf"} && (given.Equals? || given.Next?)
    ensures var w := Long(TwoDashes, name, Unique(0), given);
            Fits(cfg, opts, PERMUTE, w) && Meaning(cfg, opts, PERMUTE, w).reports == [Report(7, Some(given.value), None, Some(0), None)]
  {
    assert Abbreviates(cfg.longopts.value, name, 0);
    NoFlags(opts, LongReport(opts, cfg.longopts, Unique(0), given));
  }
}
