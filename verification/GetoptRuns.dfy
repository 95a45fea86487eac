/**
  Whole runs of getopt, up to the first -1: what is reported, and what argv
  looks like afterwards.
*/
module GetoptRuns {
  import opened Wrappers
  import opened Basics
  import opened GetoptSpec
  import opened Getopt

  /** What the caller sees of a call. */
  datatype Seen = Seen(code: int, optarg: Option<string>, optopt: int, longind: Option<nat>, flag: Option<(int, int)>)

  predicate Shows(s: Seen, r: Report) {
    && s.code == r.code && s.optarg == r.optarg && s.longind == r.longind && s.flag == r.flag
    && (r.optopt.Some? ==> s.optopt == r.optopt.value)
  }

  ghost predicate ShowsAll(seen: seq<Seen>, reports: seq<Report>) {
    |seen| == |reports| && forall i | 0 <= i < |seen| :: Shows(seen[i], reports[i])
  }

  /** A run, from the argument `first` on, reports what a scan that moves nothing
      reports, up to the first report that is -1.  If none is, argv is left with
      the arguments used up first and the others behind them, both in their
      original order, and optind where the others begin. */
  method Run(argv: array<string>, settings: Config, first: nat := 1) returns (seen: seq<Seen>, optind: nat)
    requires Sensible(settings) && (argv.Length > 0 ==> first <= argv.Length)
    modifies argv
    ensures argv.Length == 0 ==> seen == []
    ensures argv.Length > 0 ==>
              var start := if first == 0 then 1 else first;
              var p := Scan(settings, old(argv[..]), Cursor(start, None));
              && Reported(seen, p.reports)
              && (|seen| == |p.reports| ==>
                    && argv[..] == old(argv[..start]) + p.options + p.operands
                    && optind == start + |p.options|
                    && Merged(p.options, p.operands, old(argv[start..])))
  {
    if argv.Length < 1 {
      return [], first;
    }
    var d := new GetoptData(argv, settings, first);
    ghost var orig, start := argv[..], FirstIndex(first);
    ghost var p := Scan(settings, orig, Cursor(start, None));
    ghost var whole := Behind([], orig[1..start], [], p);
    RunMeans(settings, orig, start, p, whole);
    seen, optind := RunFrom(argv, settings, d, whole);
  }

  lemma RunMeans(cfg: Config, orig: seq<string>, start: nat, p: Parse, whole: Parse)
    requires 1 <= start <= |orig| && p == Scan(cfg, orig, Cursor(start, None)) && whole == Behind([], orig[1..start], [], p)
    ensures whole.reports == p.reports && Merged(p.options, p.operands, orig[start..])
    ensures orig[..1] + whole.options + whole.operands == orig[..start] + p.options + p.operands
    ensures 1 + |whole.options| == start + |p.options|
  {
    PartitionIsStable(cfg, orig, Cursor(start, None));
    StopsAtEnd(orig, start, p, whole.options, whole.operands);
  }

  /** The calls of a run. */
  method RunFrom(argv: array<string>, settings: Config, d: GetoptData, ghost whole: Parse) returns (seen: seq<Seen>, optind: nat)
    requires d.Valid(argv) && settings == d.cfg && Sensible(settings) && CursorOk(d.orig, d.Place())
    requires whole == Behind([], d.consumed, d.skipped, Scan(settings, d.orig, d.Place()))
    modifies argv, d
    ensures Reported(seen, whole.reports)
    ensures |seen| == |whole.reports| ==>
              && old(d.orig) != [] && argv[..] == old(d.orig)[..1] + whole.options + whole.operands
              && optind == 1 + |whole.options|
  {
    ghost var orig, reports := d.orig, [];
    seen := [];
    while true
      invariant d.Valid(argv) && d.cfg == settings && d.orig == orig
      invariant CursorOk(orig, d.Place()) && SoFar(seen, reports)
      invariant whole == Behind(reports, d.consumed, d.skipped, Scan(settings, orig, d.Place()))
      decreases |orig| - d.Place().optind, Weight(orig, d.Place())
    {
      var code, call, report := Call(argv, settings, d, reports, whole);
      if code == -1 {
        RunEnds(seen, reports, report, whole.reports, if report.Some? then Scan(settings, orig, d.Place()).reports else []);
        return seen, d.optind;
      }
      OneMore(seen, reports, call, report.value);
      seen := seen + [call];
      reports := reports + [report.value];
    }
  }

  ghost predicate SoFar(seen: seq<Seen>, reports: seq<Report>) {
    ShowsAll(seen, reports) && forall i | 0 <= i < |seen| :: seen[i].code != -1
  }

  /** What is seen of the reports: those in front of the first -1. */
  ghost predicate Reported(seen: seq<Seen>, reports: seq<Report>) {
    && |seen| <= |reports| && ShowsAll(seen, reports[..|seen|])
    && (forall i | 0 <= i < |seen| :: seen[i].code != -1)
    && (|seen| < |reports| ==> reports[|seen|].code == -1)
  }

  /** At the first -1: it is a report, or there is no further one. */
  lemma RunEnds(seen: seq<Seen>, reports: seq<Report>, report: Option<Report>, all: seq<Report>, rest: seq<Report>)
    requires SoFar(seen, reports) && (report.Some? ==> report.value.code == -1)
    requires all == if report.Some? then reports + [report.value] + rest else reports
    ensures Reported(seen, all) && (|seen| == |all| <==> report.None?)
  {
    assert all[..|seen|] == reports;
  }

  lemma StopsAtEnd(orig: seq<string>, start: nat, p: Parse, consumed: seq<string>, skipped: seq<string>)
    requires 1 <= start <= |orig| && consumed == orig[1..start] + p.options && skipped == [] + p.operands
    ensures orig[..1] + consumed + skipped == orig[..start] + p.options + p.operands && 1 + |consumed| == start + |p.options|
  {
    assert orig[..start] == orig[..1] + orig[1..start];
  }

  lemma OneMore(seen: seq<Seen>, reports: seq<Report>, call: Seen, report: Report)
    requires SoFar(seen, reports) && Shows(call, report) && call.code != -1
    ensures SoFar(seen + [call], reports + [report])
  {
  }

  /** One call, seen from outside: the whole scan is what has been found so far and
      what a scan from here finds.  There is no report at its end. */
  method Call(argv: array<string>, settings: Config, d: GetoptData, ghost reports: seq<Report>, ghost whole: Parse)
    returns (code: int, call: Seen, ghost report: Option<Report>)
    requires d.Valid(argv) && settings == d.cfg && Sensible(settings) && CursorOk(d.orig, d.Place())
    requires whole == Behind(reports, d.consumed, d.skipped, Scan(settings, d.orig, d.Place()))
    modifies argv, d
    ensures d.cfg == old(d.cfg) && d.orig == old(d.orig) && call.code == code
    ensures report.None? ==> code == -1 && d.Finished(argv) && whole == Parse(reports, d.consumed, d.skipped)
    ensures report.Some? ==>
              && d.Valid(argv) && CursorOk(d.orig, d.Place()) && Shows(call, report.value)
              && whole == Behind(reports + [report.value], d.consumed, d.skipped, Scan(settings, d.orig, d.Place()))
              && (d.Place().optind > old(d.Place()).optind ||
                  (d.Place().optind == old(d.Place()).optind && Weight(d.orig, d.Place()) < old(Weight(d.orig, d.Place()))))
  {
    ghost var at, consumed0, skipped0 := d.Place(), d.consumed, d.skipped;
    ghost var step;
    code, call, step := Next(argv, settings, d);
    report := if step.Emit? then Some(step.report) else None;
    if step.Stop? {
      ScanStops(settings, d.orig, at, step, reports, consumed0, skipped0, d.consumed, d.skipped, whole);
    } else {
      ScanGoesOn(settings, d.orig, at, step, reports, consumed0, skipped0, d.consumed, d.skipped, whole);
    }
  }

  /** One call, and the step of the scan that it is. */
  method Next(argv: array<string>, settings: Config, d: GetoptData) returns (code: int, call: Seen, ghost step: Step)
    requires d.Valid(argv) && settings == d.cfg && Sensible(settings) && CursorOk(d.orig, d.Place())
    modifies argv, d
    ensures d.cfg == old(d.cfg) && d.orig == old(d.orig) && call.code == code
    ensures step == NextStep(settings, d.orig, old(d.Place()))
    ensures step.Stop? ==>
              && code == -1 && d.Finished(argv)
              && d.consumed == old(d.consumed) + (if step.dashdash then ["--"] else [])
              && d.skipped == old(d.skipped) + if step.dashdash then d.orig[old(d.Place()).optind..step.at] + d.orig[step.at + 1..]
                                               else d.orig[old(d.Place()).optind..]
    ensures step.Emit? ==>
              && d.Valid(argv) && d.Place() == step.next && Shows(call, step.report)
              && d.consumed == old(d.consumed) + d.orig[step.from..step.next.optind]
              && d.skipped == old(d.skipped) + d.orig[old(d.Place()).optind..step.from]
  {
    var longind, flag;
    code, longind, flag, step := d.GetoptInternal(argv, settings);
    call := Seen(code, d.optarg, d.optopt, longind, flag);
  }

  /** What has been found so far, in front of what is still to come. */
  ghost function Behind(reports: seq<Report>, options: seq<string>, operands: seq<string>, rest: Parse): Parse {
    Parse(reports + rest.reports, options + rest.options, operands + rest.operands)
  }

  lemma ScanStops(cfg: Config, args: seq<string>, cur: Cursor, s: Step, reports: seq<Report>, consumed0: seq<string>, skipped0: seq<string>,
                  consumed: seq<string>, skipped: seq<string>, whole: Parse)
    requires CursorOk(args, cur) && whole == Behind(reports, consumed0, skipped0, Scan(cfg, args, cur))
    requires s == NextStep(cfg, args, cur) && s.Stop?
    requires consumed == consumed0 + (if s.dashdash then ["--"] else [])
    requires skipped == skipped0 + if s.dashdash then args[cur.optind..s.at] + args[s.at + 1..] else args[cur.optind..]
    ensures whole == Parse(reports, consumed, skipped)
  {
  }

  lemma ScanGoesOn(cfg: Config, args: seq<string>, cur: Cursor, s: Step, reports: seq<Report>, consumed0: seq<string>, skipped0: seq<string>,
                   consumed: seq<string>, skipped: seq<string>, whole: Parse)
    requires CursorOk(args, cur) && whole == Behind(reports, consumed0, skipped0, Scan(cfg, args, cur))
    requires s == NextStep(cfg, args, cur) && s.Emit?
    requires consumed == consumed0 + args[s.from..s.next.optind] && skipped == skipped0 + args[cur.optind..s.from]
    ensures CursorOk(args, s.next) && whole == Behind(reports + [s.report], consumed, skipped, Scan(cfg, args, s.next))
    ensures s.next.optind > cur.optind || (s.next.optind == cur.optind && Weight(args, s.next) < Weight(args, cur))
  {
    BehindOneMore(reports, s.report, consumed0, args[s.from..s.next.optind], skipped0, args[cur.optind..s.from], Scan(cfg, args, s.next));
  }

  lemma BehindOneMore(reports: seq<Report>, report: Report, options: seq<string>, a: seq<string>, operands: seq<string>, b: seq<string>, rest: Parse)
    ensures Behind(reports, options, operands, Parse([report] + rest.reports, a + rest.options, b + rest.operands)) ==
            Behind(reports + [report], options + a, operands + b, rest)
  {
    Associate(reports, [report], rest.reports);
    Associate(options, a, rest.options);
    Associate(operands, b, rest.operands);
  }

  // ---------------------------------------------------------------------
  // The partition is stable

  /** s is a and b merged, each in its order. */
  predicate Merged(a: seq<string>, b: seq<string>, s: seq<string>) {
    if s == [] then a == [] && b == []
    else
      || (a != [] && a[0] == s[0] && Merged(a[1..], b, s[1..]))
      || (b != [] && b[0] == s[0] && Merged(a, b[1..], s[1..]))
  }

  lemma {:induction false} MergeLeft(x: seq<string>, a: seq<string>, b: seq<string>, s: seq<string>)
    requires Merged(a, b, s)
    ensures Merged(x + a, b, x + s)
  {
    if x == [] {
      assert x + a == a && x + s == s;
    } else {
      MergeLeft(x[1..], a, b, s);
      assert (x + a)[1..] == x[1..] + a && (x + s)[1..] == x[1..] + s;
    }
  }

  lemma {:induction false} MergeRight(x: seq<string>, a: seq<string>, b: seq<string>, s: seq<string>)
    requires Merged(a, b, s)
    ensures Merged(a, x + b, x + s)
  {
    if x == [] {
      assert x + b == b && x + s == s;
    } else {
      MergeRight(x[1..], a, b, s);
      assert (x + b)[1..] == x[1..] + b && (x + s)[1..] == x[1..] + s;
    }
  }

  /** Nothing is lost, and both the options and the operands keep their order. */
  lemma {:induction false} PartitionIsStable(cfg: Config, args: seq<string>, cur: Cursor)
    requires CursorOk(args, cur)
    ensures var p := Scan(cfg, args, cur); Merged(p.options, p.operands, args[cur.optind..])
    decreases |args| - cur.optind, Weight(args, cur)
  {
    var s := NextStep(cfg, args, cur);
    if s.Stop? {
      StopsAtDashes(cfg, args, cur);
      MergeAtEnd(args, cur.optind, s.at, s.dashdash);
    } else {
      PartitionIsStable(cfg, args, s.next);
      var rest := Scan(cfg, args, s.next);
      MergeStep(args, cur.optind, s.from, s.next.optind, rest.options, rest.operands);
    }
  }

  lemma MergeAtEnd(args: seq<string>, i: nat, at: nat, dashdash: bool)
    requires i <= at <= |args| && (dashdash ==> at < |args| && args[at] == "--")
    ensures if dashdash then Merged(["--"], args[i..at] + args[at + 1..], args[i..]) else Merged([], args[i..], args[i..])
  {
    var tail := args[i..];
    if dashdash {
      var before, after := args[i..at], args[at + 1..];
      MergeRight(after, [], [], []);
      assert after + [] == after;
      MergeLeft(["--"], [], after, after);
      assert ["--"] + [] == ["--"];
      MergeRight(before, ["--"], after, ["--"] + after);
      assert tail == before + (["--"] + after);
    } else {
      MergeRight(tail, [], [], []);
      assert tail + [] == tail;
    }
  }

  lemma MergeStep(args: seq<string>, i: nat, from: nat, next: nat, options: seq<string>, operands: seq<string>)
    requires i <= from <= next <= |args| && Merged(options, operands, args[next..])
    ensures Merged(args[from..next] + options, args[i..from] + operands, args[i..])
  {
    var before, used, tail := args[i..from], args[from..next], args[next..];
    MergeLeft(used, options, operands, tail);
    MergeRight(before, used + options, operands, used + tail);
    assert args[i..] == before + (used + tail);
  }

  lemma StopsAtDashes(cfg: Config, args: seq<string>, cur: Cursor)
    requires CursorOk(args, cur)
    ensures var s := NextStep(cfg, args, cur); s.Stop? && s.dashdash ==> args[s.at] == "--"
  {
  }

  /** The arguments passed over by a step are operands. */
  lemma PassedOver(cfg: Config, args: seq<string>, cur: Cursor)
    requires CursorOk(args, cur)
    ensures var s := NextStep(cfg, args, cur);
            var to := if s.Stop? then s.at else s.from;
            forall x | cur.optind <= x < to :: NonOption(args[x])
    ensures var s := NextStep(cfg, args, cur);
            s.Stop? ==>
              if s.dashdash then args[s.at] == "--"
              else s.at == |args| || (OrderingOf(cfg) == REQUIRE_ORDER && NonOption(args[s.at]))
  {
  }

  /** The first k operands do not look like options, and the others are all the
      arguments from some place on: behind "--", or, where the options must come
      first, where the first operand is. */
  ghost predicate Parted(cfg: Config, args: seq<string>, ops: seq<string>, k: nat, from: nat) {
    && k <= |ops| && from <= |args| && ops[k..] == args[from..]
    && (forall i | 0 <= i < k :: NonOption(ops[i]))
    && (from < |args| ==>
          || (from > 0 && args[from - 1] == "--")
          || (OrderingOf(cfg) == REQUIRE_ORDER && NonOption(args[from])))
  }

  lemma PartedAtDashes(cfg: Config, args: seq<string>, i: nat, at: nat)
    requires i <= at < |args| && args[at] == "--" && forall x | i <= x < at :: NonOption(args[x])
    ensures Parted(cfg, args, args[i..at] + args[at + 1..], at - i, at + 1)
  {
  }

  lemma PartedAtEnd(cfg: Config, args: seq<string>, i: nat, at: nat)
    requires i <= at <= |args| && forall x | i <= x < at :: NonOption(args[x])
    requires at == |args| || (OrderingOf(cfg) == REQUIRE_ORDER && NonOption(args[at]))
    ensures Parted(cfg, args, args[i..], at - i, at)
  {
    assert args[i..][at - i..] == args[at..];
  }

  lemma PartedStep(cfg: Config, args: seq<string>, i: nat, from: nat, ops: seq<string>, k: nat, rest: nat)
    requires i <= from <= |args| && forall x | i <= x < from :: NonOption(args[x])
    requires Parted(cfg, args, ops, k, rest)
    ensures Parted(cfg, args, args[i..from] + ops, from - i + k, rest)
  {
    var passed := args[i..from];
    assert (passed + ops)[|passed| + k..] == ops[k..];
  }

  lemma PartedByStop(cfg: Config, args: seq<string>, cur: Cursor)
    requires CursorOk(args, cur) && NextStep(cfg, args, cur).Stop?
    ensures var s := NextStep(cfg, args, cur);
            Parted(cfg, args, Scan(cfg, args, cur).operands, s.at - cur.optind, if s.dashdash then s.at + 1 else s.at)
  {
    var s := NextStep(cfg, args, cur);
    PassedOver(cfg, args, cur);
    if s.dashdash {
      PartedAtDashes(cfg, args, cur.optind, s.at);
    } else {
      PartedAtEnd(cfg, args, cur.optind, s.at);
    }
  }

  lemma PartedByEmit(cfg: Config, args: seq<string>, cur: Cursor, k: nat, from: nat)
    requires CursorOk(args, cur) && NextStep(cfg, args, cur).Emit?
    requires Parted(cfg, args, Scan(cfg, args, NextStep(cfg, args, cur).next).operands, k, from)
    ensures Parted(cfg, args, Scan(cfg, args, cur).operands, NextStep(cfg, args, cur).from - cur.optind + k, from)
  {
    var s := NextStep(cfg, args, cur);
    PassedOver(cfg, args, cur);
    PartedStep(cfg, args, cur.optind, s.from, Scan(cfg, args, s.next).operands, k, from);
  }

  /** No operand in front of "--" looks like an option: everything that a run
      passes over before that is an operand. */
  lemma {:induction false} OperandsBeforeDashes(cfg: Config, args: seq<string>, cur: Cursor) returns (k: nat, from: nat)
    requires CursorOk(args, cur)
    ensures Parted(cfg, args, Scan(cfg, args, cur).operands, k, from)
    decreases |args| - cur.optind, Weight(args, cur)
  {
    var s := NextStep(cfg, args, cur);
    if s.Emit? {
      k, from := OperandsBeforeDashes(cfg, args, s.next);
      PartedByEmit(cfg, args, cur, k, from);
      k := s.from - cur.optind + k;
    } else {
      PartedByStop(cfg, args, cur);
      k, from := s.at - cur.optind, if s.dashdash then s.at + 1 else s.at;
    }
  }
}
