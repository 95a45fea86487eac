/**
  getopt: a scanner that is called again and again, keeps its place in a
  structure, and rotates argv in place so that options come before operands.
  It reports what a scan that moves nothing (GetoptSpec) reports.
*/
module Getopt {
  import opened Wrappers
  import opened GetoptSpec

  // ---------------------------------------------------------------------
  // Rotating argv

  /** Where the element at x comes from when two blocks of length len change
      places. */
  function SwapFrom(i: nat, j: nat, len: nat, x: nat): int {
    if i <= x < i + len then x - i + j else if j <= x < j + len then x - j + i else x
  }

  /** Where it comes from when the adjacent blocks at bottom and middle do. */
  function RotateFrom(bottom: nat, middle: nat, top: nat, x: nat): int {
    if x < bottom || top <= x then x
    else if x < bottom + (top - middle) then x - bottom + middle
    else x - (top - middle)
  }

  ghost predicate Exchanged(a: seq<string>, b: seq<string>, i: nat, j: nat, len: nat) {
    && i + len <= j && j + len <= |a| == |b|
    && forall x: nat | x < |b| :: b[x] == a[SwapFrom(i, j, len, x)]
  }

  function Swapped(a: seq<string>, i: nat, j: nat, len: nat): seq<string>
    requires i + len <= j && j + len <= |a|
  {
    a[..i] + a[j..j + len] + a[i + len..j] + a[i..i + len] + a[j + len..]
  }

  lemma ExchangedIsSwapped(a: seq<string>, b: seq<string>, i: nat, j: nat, len: nat)
    requires Exchanged(a, b, i, j, len)
    ensures b == Swapped(a, i, j, len)
  {
  }

  lemma SwappedIsExchanged(a: seq<string>, i: nat, j: nat, len: nat)
    requires i + len <= j && j + len <= |a|
    ensures Exchanged(a, Swapped(a, i, j, len), i, j, len)
  {
  }

  /** Swap two blocks of the same length that do not overlap. */
  method SwapBlocks(argv: array<string>, i: nat, j: nat, len: nat)
    requires i + len <= j && j + len <= argv.Length
    modifies argv
    ensures argv[..] == Swapped(old(argv[..]), i, j, len)
  {
    for k := 0 to len
      invariant Exchanged(old(argv[..]), argv[..], i, j, k)
    {
      var tem := argv[i + k];
      argv[i + k] := argv[j + k];
      argv[j + k] := tem;
    }
    ExchangedIsSwapped(old(argv[..]), argv[..], i, j, len);
  }

  function Rotated(a: seq<string>, bottom: nat, middle: nat, top: nat): seq<string>
    requires bottom <= middle <= top <= |a|
  {
    a[..bottom] + a[middle..top] + a[bottom..middle] + a[top..]
  }

  /** The blocks at bottom and at middle still have to change places. */
  ghost predicate Remains(a: seq<string>, goal: seq<string>, bottom: nat, middle: nat, top: nat) {
    bottom <= middle <= top <= |a| && Rotated(a, bottom, middle, top) == goal
  }

  lemma RotatedAt(a: seq<string>, bottom: nat, middle: nat, top: nat, x: nat)
    requires bottom <= middle <= top <= |a| && x < |a|
    ensures |Rotated(a, bottom, middle, top)| == |a|
    ensures Rotated(a, bottom, middle, top)[x] == a[RotateFrom(bottom, middle, top, x)]
  {
  }

  /** The bottom segment is the short one; it goes to the far end. */
  lemma ShortBottom(a: seq<string>, b: seq<string>, goal: seq<string>, bottom: nat, middle: nat, top: nat)
    requires Remains(a, goal, bottom, middle, top) && top - middle > middle - bottom
    requires b == Swapped(a, bottom, top - (middle - bottom), middle - bottom)
    ensures Remains(b, goal, bottom, middle, top - (middle - bottom))
  {
    var top' := top - (middle - bottom);
    SwappedIsExchanged(a, bottom, top', middle - bottom);
    forall x: nat | x < |a|
      ensures b[RotateFrom(bottom, middle, top', x)] == a[RotateFrom(bottom, middle, top, x)]
    {
      SwapThenRotate(top', middle - bottom, bottom, middle, top', bottom, top, x);
    }
    SameRotation(b, bottom, middle, top', a, bottom, middle, top);
  }

  /** The top segment is the short one; it goes to the near end. */
  lemma ShortTop(a: seq<string>, b: seq<string>, goal: seq<string>, bottom: nat, middle: nat, top: nat)
    requires Remains(a, goal, bottom, middle, top) && top - middle <= middle - bottom
    requires b == Swapped(a, bottom, middle, top - middle)
    ensures Remains(b, goal, bottom + (top - middle), middle, top)
  {
    var bottom' := bottom + (top - middle);
    SwappedIsExchanged(a, bottom, middle, top - middle);
    forall x: nat | x < |a|
      ensures b[RotateFrom(bottom', middle, top, x)] == a[RotateFrom(bottom, middle, top, x)]
    {
      SwapThenRotate(middle, top - middle, bottom', middle, top, bottom, top, x);
    }
    SameRotation(b, bottom', middle, top, a, bottom, middle, top);
  }

  /** Where an element comes from through the smaller rotation and the swap is where
      it comes from through the larger rotation. */
  lemma SwapThenRotate(j: nat, len: nat, bottom': nat, middle: nat, top': nat, bottom: nat, top: nat, x: nat)
    requires bottom <= middle <= top
    requires if top - middle > middle - bottom then bottom' == bottom && top' == j == top - len && len == middle - bottom
             else bottom' == bottom + len && top' == top && j == middle && len == top - middle
    ensures SwapFrom(bottom, j, len, RotateFrom(bottom', middle, top', x)) == RotateFrom(bottom, middle, top, x)
  {
  }

  lemma SameRotation(b: seq<string>, bottom': nat, middle': nat, top': nat, a: seq<string>, bottom: nat, middle: nat, top: nat)
    requires bottom' <= middle' <= top' <= |b| == |a| && bottom <= middle <= top <= |a|
    requires forall x: nat | x < |a| :: b[RotateFrom(bottom', middle', top', x)] == a[RotateFrom(bottom, middle, top, x)]
    ensures Rotated(b, bottom', middle', top') == Rotated(a, bottom, middle, top)
  {
    forall x: nat | x < |a|
      ensures Rotated(b, bottom', middle', top')[x] == Rotated(a, bottom, middle, top)[x]
    {
      RotatedAt(a, bottom, middle, top, x);
      RotatedAt(b, bottom', middle', top', x);
    }
  }

  method MoveBottom(argv: array<string>, ghost goal: seq<string>, bottom: nat, middle: nat, top: nat) returns (top': nat)
    requires Remains(argv[..], goal, bottom, middle, top) && top - middle > middle - bottom
    modifies argv
    ensures Remains(argv[..], goal, bottom, middle, top') && top' == top - (middle - bottom)
  {
    ghost var before := argv[..];
    top' := top - (middle - bottom);
    SwapBlocks(argv, bottom, top', middle - bottom);
    ghost var after := argv[..];
    ShortBottom(before, after, goal, bottom, middle, top);
  }

  method MoveTop(argv: array<string>, ghost goal: seq<string>, bottom: nat, middle: nat, top: nat) returns (bottom': nat)
    requires Remains(argv[..], goal, bottom, middle, top) && top - middle <= middle - bottom
    modifies argv
    ensures Remains(argv[..], goal, bottom', middle, top) && bottom' == bottom + (top - middle)
  {
    ghost var before := argv[..];
    bottom' := bottom + (top - middle);
    SwapBlocks(argv, bottom, middle, top - middle);
    ghost var after := argv[..];
    ShortTop(before, after, goal, bottom, middle, top);
  }

  /** exchange on argv[bottom..middle] and argv[middle..top]: the two blocks change
      places, each keeping its order, and nothing else moves. */
  method Rotate(argv: array<string>, bottom0: nat, middle: nat, top0: nat)
    requires bottom0 <= middle <= top0 <= argv.Length
    modifies argv
    ensures argv[..] == Rotated(old(argv[..]), bottom0, middle, top0)
  {
    ghost var goal := Rotated(argv[..], bottom0, middle, top0);
    var bottom, top: nat := bottom0, top0;
    while top > middle && middle > bottom
      invariant bottom0 <= bottom && top <= top0
      invariant Remains(argv[..], goal, bottom, middle, top)
      decreases top - bottom
    {
      if top - middle > middle - bottom {
        top := MoveBottom(argv, goal, bottom, middle, top);
      } else {
        bottom := MoveTop(argv, goal, bottom, middle, top);
      }
    }
    NothingRemains(argv[..], goal, bottom, middle, top);
  }

  lemma NothingRemains(a: seq<string>, goal: seq<string>, bottom: nat, middle: nat, top: nat)
    requires Remains(a, goal, bottom, middle, top) && (top == middle || middle == bottom)
    ensures a == goal
  {
  }

  // ---------------------------------------------------------------------
  // How argv is laid out during a run

  /** The program name, the first options found, the operands passed over
      (between first and last), the options found since, and the untouched rest. */
  ghost predicate Layout(a: seq<string>, orig: seq<string>, consumed: seq<string>, skipped: seq<string>,
                         first: nat, last: nat, optind: nat) {
    && 1 <= first <= last <= optind <= |orig| == |a|
    && |consumed| == (first - 1) + (optind - last) && |skipped| == last - first
    && a == orig[..1] + consumed[..first - 1] + skipped + consumed[first - 1..] + orig[optind..]
  }

  lemma LayoutRest(a: seq<string>, orig: seq<string>, consumed: seq<string>, skipped: seq<string>,
                   first: nat, last: nat, optind: nat)
    requires Layout(a, orig, consumed, skipped, first, last, optind)
    ensures forall x | optind <= x < |a| :: a[x] == orig[x]
  {
  }

  lemma RotateParts(a: seq<string>, front: seq<string>, s: seq<string>, c: seq<string>, rest: seq<string>, first: nat, last: nat, optind: nat)
    requires a == front + s + c + rest && first == |front| && last == first + |s| && optind == last + |c|
    ensures Rotated(a, first, last, optind) == front + c + s + rest
  {
    assert a[..first] == front && a[first..last] == s && a[last..optind] == c && a[optind..] == rest;
  }

  lemma LayoutGathered(a: seq<string>, orig: seq<string>, consumed: seq<string>, skipped: seq<string>, first: nat, optind: nat)
    requires 1 <= first <= optind <= |orig| == |a| && |consumed| == first - 1 && |skipped| == optind - first
    requires a == orig[..1] + consumed + skipped + orig[optind..]
    ensures Layout(a, orig, consumed, skipped, first, optind, optind)
  {
    assert consumed[..first - 1] == consumed && consumed[first - 1..] == [];
    assert orig[..1] + consumed + skipped + [] == orig[..1] + consumed + skipped;
  }

  lemma LayoutExchange(a: seq<string>, orig: seq<string>, consumed: seq<string>, skipped: seq<string>,
                       first: nat, last: nat, optind: nat)
    requires Layout(a, orig, consumed, skipped, first, last, optind)
    ensures Layout(Rotated(a, first, last, optind), orig, consumed, skipped, first + (optind - last), optind, optind)
  {
    var c0, c1 := consumed[..first - 1], consumed[first - 1..];
    RotateParts(a, orig[..1] + c0, skipped, c1, orig[optind..], first, last, optind);
    assert orig[..1] + c0 + c1 == orig[..1] + consumed;
    LayoutGathered(Rotated(a, first, last, optind), orig, consumed, skipped, first + (optind - last), optind);
  }

  /** Nothing has been passed over: first may move up to optind. */
  lemma LayoutNothingSkipped(a: seq<string>, orig: seq<string>, consumed: seq<string>, skipped: seq<string>,
                             first: nat, optind: nat)
    requires Layout(a, orig, consumed, skipped, first, first, optind)
    ensures Layout(a, orig, consumed, skipped, optind, optind, optind)
  {
  }

  lemma LayoutSkip(a: seq<string>, orig: seq<string>, consumed: seq<string>, skipped: seq<string>,
                   first: nat, optind: nat, next: nat)
    requires Layout(a, orig, consumed, skipped, first, optind, optind) && optind <= next <= |orig|
    ensures Layout(a, orig, consumed, skipped + orig[optind..next], first, next, next)
  {
  }

  lemma LayoutConsume(a: seq<string>, orig: seq<string>, consumed: seq<string>, skipped: seq<string>,
                      first: nat, last: nat, optind: nat, next: nat)
    requires Layout(a, orig, consumed, skipped, first, last, optind) && optind <= next <= |orig|
    ensures Layout(a, orig, consumed + orig[optind..next], skipped, first, last, next)
  {
  }

  lemma Regroup(h: seq<string>, c: seq<string>, m: seq<string>, t: seq<string>)
    ensures h + c + (m + t) == h + (c + m) + t
  {
  }

  lemma JoinSkipped(was: seq<string>, orig: seq<string>, from: nat, i: nat)
    requires from <= i <= |orig|
    ensures i < |orig| ==> was + orig[from..i] + orig[i + 1..] == was + (orig[from..i] + orig[i + 1..])
    ensures i == |orig| ==> orig[from..i] == orig[from..]
    ensures i == from ==> was + orig[from..i] == was
  {
  }

  lemma LayoutEnd(a: seq<string>, orig: seq<string>, consumed: seq<string>, skipped: seq<string>, first: nat, last: nat)
    requires Layout(a, orig, consumed, skipped, first, last, |orig|) && (first == last || last == |orig|)
    ensures a == orig[..1] + consumed + skipped
    ensures 1 + |consumed| == if first == last then |orig| else first
  {
  }

  // ---------------------------------------------------------------------
  // The scanner

  function FirstIndex(optind: nat): nat {
    if optind == 0 then 1 else optind
  }

  class GetoptData {
    var optind: nat
    var optarg: Option<string>
    var optopt: int
    var initialized: bool
    var nextchar: Option<string>
    var ordering: Ordering
    var firstNonopt: nat
    var lastNonopt: nat

    // The settings; the arguments as they were, and those used up (with any in
    // front of where the scan started) and passed over so far.
    ghost var cfg: Config
    ghost var orig: seq<string>
    ghost var consumed: seq<string>
    ghost var skipped: seq<string>

    /** first is what optind is before the first call: 1 unless the caller sets it,
        where 0 means 1. */
    constructor (argv: array<string>, ghost cfg: Config, first: nat := 1)
      requires argv.Length > 0 && first <= argv.Length
      ensures Valid(argv) && this.cfg == cfg && !initialized && orig == argv[..]
      ensures Place() == Cursor(FirstIndex(first), None) && consumed == orig[1..FirstIndex(first)] && skipped == []
    {
      optind, optarg, optopt, initialized := first, None, QUESTION, false;
      nextchar, ordering, firstNonopt, lastNonopt := None, PERMUTE, 0, 0;
      this.cfg, orig, consumed, skipped := cfg, argv[..], argv[1..FirstIndex(first)], [];
    }

    ghost function Place(): Cursor
      reads this
    {
      if initialized then Cursor(optind, nextchar) else Cursor(FirstIndex(optind), None)
    }

    ghost predicate Partition(argv: array<string>)
      reads this, argv
    {
      Layout(argv[..], orig, consumed, skipped, firstNonopt, lastNonopt, optind)
    }

    ghost predicate Valid(argv: array<string>)
      reads this, argv
    {
      if initialized then
        && Partition(argv) && CursorOk(orig, Place())
        && ordering == OrderingOf(cfg) && (ordering != PERMUTE ==> firstNonopt == lastNonopt)
      else
        && argv.Length > 0 && optind <= argv.Length && argv[..] == orig
        && consumed == orig[1..FirstIndex(optind)] && skipped == []
    }

    /** The scan is over: argv holds the program name, the arguments used up, and
        the others, and optind is where the others start. */
    ghost predicate Finished(argv: array<string>)
      reads this, argv
    {
      |orig| > 0 && argv[..] == orig[..1] + consumed + skipped && optind == 1 + |consumed|
    }

    /** exchange, and the bookkeeping for it. */
    method Exchange(argv: array<string>)
      requires Partition(argv)
      modifies argv, this`firstNonopt, this`lastNonopt
      ensures Partition(argv) && lastNonopt == optind
      ensures firstNonopt == old(firstNonopt) + (optind - old(lastNonopt))
    {
      ghost var before, first, last := argv[..], firstNonopt, lastNonopt;
      LayoutExchange(before, orig, consumed, skipped, first, last, optind);
      Rotate(argv, firstNonopt, lastNonopt, optind);
      firstNonopt := firstNonopt + (optind - lastNonopt);
      lastNonopt := optind;
      assert argv[..] == Rotated(before, first, last, optind);
    }

    /** _getopt_initialize. */
    method Initialize(argv: array<string>, settings: Config)
      requires Valid(argv) && !initialized && settings == cfg
      modifies this`optind, this`initialized, this`nextchar, this`ordering, this`firstNonopt, this`lastNonopt
      ensures Valid(argv) && initialized && Place() == old(Place())
    {
      if optind == 0 {
        optind := 1;
      }
      firstNonopt, lastNonopt := optind, optind;
      nextchar := None;
      ordering := if CharAt(settings.optstring, 0) == '-' then RETURN_IN_ORDER
                  else if CharAt(settings.optstring, 0) == '+' then REQUIRE_ORDER
                  else if settings.posixlyCorrect then REQUIRE_ORDER
                  else PERMUTE;
      initialized := true;
      Ready(argv);
    }

    lemma Ready(argv: array<string>)
      requires initialized && argv[..] == orig && 1 <= optind <= |orig| && consumed == orig[1..optind] && skipped == []
      requires firstNonopt == lastNonopt == optind && nextchar == None && ordering == OrderingOf(cfg)
      ensures Valid(argv)
    {
      assert consumed[..optind - 1] == consumed && consumed[optind - 1..] == [];
      assert orig == orig[..1] + orig[1..optind] + orig[optind..];
    }

    /** Bring the options found so far in front of the operands. */
    method GatherOptions(argv: array<string>)
      requires Partition(argv)
      modifies argv, this`firstNonopt, this`lastNonopt
      ensures Layout(argv[..], orig, consumed, skipped, firstNonopt, optind, optind)
    {
      if firstNonopt != lastNonopt && lastNonopt != optind {
        Exchange(argv);
      } else if lastNonopt != optind {
        LayoutNothingSkipped(argv[..], orig, consumed, skipped, firstNonopt, optind);
        firstNonopt := optind;
      }
    }

    /** PERMUTE: gather the options, and pass over more operands. */
    method SkipOperands(argv: array<string>)
      requires Partition(argv)
      modifies argv, this`firstNonopt, this`lastNonopt, this`optind, this`skipped
      ensures Partition(argv) && lastNonopt == optind
      ensures optind == SkipNonOptions(orig, old(optind))
      ensures skipped == old(skipped) + orig[old(optind)..optind]
    {
      GatherOptions(argv);
      PassOver(argv);
    }

    /** Pass over the operands that come next. */
    method PassOver(argv: array<string>)
      requires Layout(argv[..], orig, consumed, skipped, firstNonopt, optind, optind)
      modifies this`lastNonopt, this`optind, this`skipped
      ensures Partition(argv) && lastNonopt == optind
      ensures optind == SkipNonOptions(orig, old(optind))
      ensures skipped == old(skipped) + orig[old(optind)..optind]
    {
      LayoutRest(argv[..], orig, consumed, skipped, firstNonopt, optind, optind);
      var i := PastOperands(argv, optind, orig);
      LayoutSkip(argv[..], orig, consumed, skipped, firstNonopt, optind, i);
      skipped := skipped + orig[optind..i];
      optind, lastNonopt := i, i;
    }

    /** The report of a step, and where it leaves the scan. */
    ghost predicate Gives(r: (Report, Cursor), code: int, longind: Option<nat>, flag: Option<(int, int)>, oldOptopt: int)
      reads this
    {
      && code == r.0.code && optarg == r.0.optarg && longind == r.0.longind && flag == r.0.flag
      && optopt == (if r.0.optopt.Some? then r.0.optopt.value else oldOptopt)
      && optind == r.1.optind && nextchar == r.1.nextchar
    }

    ghost predicate SeesOrig(argv: array<string>)
      reads this, argv
    {
      argv.Length == |orig| && forall x | optind <= x < argv.Length :: argv[x] == orig[x]
    }

    /** process_long_option once the i-th long option has been found. */
    method TakeLongOption(argv: array<string>, settings: Config, i: nat, nameend: nat)
      returns (code: int, longind: Option<nat>, flag: Option<(int, int)>)
      requires SeesOrig(argv) && optind < argv.Length && nextchar.Some? && optarg == None && nameend == NameLen(nextchar.value)
      requires settings == cfg && cfg.longopts.Some? && i < |cfg.longopts.value|
      modifies this`optind, this`nextchar, this`optarg, this`optopt
      ensures code == -1 ==> cfg.longopts.value[i].flag.None? && cfg.longopts.value[i].val == -1
      ensures Gives(TakeLong(cfg, cfg.longopts.value, orig, old(optind), old(nextchar.value), i), code, longind, flag, old(optopt))
    {
      longind, flag := None, None;
      var text, found := nextchar.value, settings.longopts.value[i];
      optind, nextchar := optind + 1, None;
      if nameend < |text| {
        if found.hasArg != NoArgument {
          optarg := Some(text[nameend + 1..]);
        } else {
          optopt, code := found.val, QUESTION;
          return;
        }
      } else if found.hasArg == RequiredArgument {
        if optind < argv.Length {
          optarg := Some(argv[optind]);
          optind := optind + 1;
        } else {
          optopt := found.val;
          code := if CharAt(Opts(settings), 0) == ':' then COLON else QUESTION;
          return;
        }
      }
      longind := Some(i);
      if found.flag.Some? {
        flag := Some((found.flag.value, found.val));
        code := 0;
      } else {
        code := found.val;
      }
    }

    /** process_long_option; -1 leaves everything as it was. */
    method ProcessLongOption(argv: array<string>, settings: Config, longOnly: bool)
      returns (code: int, longind: Option<nat>, flag: Option<(int, int)>)
      requires SeesOrig(argv) && optind < argv.Length && nextchar.Some? && optarg == None
      requires settings == cfg && cfg.longopts.Some? && (longOnly ==> nextchar.value != "" && cfg.longOnly && Sensible(cfg))
      modifies this`optind, this`nextchar, this`optarg, this`optopt
      ensures var r := LongStep(cfg, orig, old(optind), old(nextchar.value), longOnly);
              if r.Some? then (longOnly ==> code != -1) && Gives(r.value, code, longind, flag, old(optopt))
              else code == -1 && unchanged(this)
    {
      longind, flag := None, None;
      var text, opts := nextchar.value, settings.longopts.value;
      var nameend := 0;
      while nameend < |text| && text[nameend] != '='
        invariant nameend <= |text| && IndexOf(text, '=') == IndexOf(text, '=', nameend)
      {
        nameend := nameend + 1;
      }
      var choice := FindLongOption(opts, text[..nameend], longOnly);
      ChosenIsUnique(opts, text[..nameend], longOnly, choice, Choose(opts, text[..nameend], longOnly));
      match choice
      case Ambiguous =>
        nextchar, optind, optopt := Some(""), optind + 1, 0;
        code := QUESTION;
      case NotFound =>
        if !longOnly || CharAt(argv[optind], 1) == '-' || IndexOf(Opts(settings), text[0]) == |Opts(settings)| {
          nextchar, optind, optopt := None, optind + 1, 0;
          code := QUESTION;
        } else {
          code := -1;
        }
      case Unique(i) =>
        code, longind, flag := TakeLongOption(argv, settings, i, nameend);
    }

    /** -W with a long option behind it. */
    method TakeLongBehindW(argv: array<string>, settings: Config)
      returns (code: int, longind: Option<nat>, flag: Option<(int, int)>)
      requires SeesOrig(argv) && optind <= argv.Length && nextchar.Some? && optarg == None
      requires settings == cfg && cfg.longopts.Some? && (nextchar.value != "" ==> optind < argv.Length)
      modifies this`optind, this`nextchar, this`optarg, this`optopt
      ensures Gives(LongBehindW(cfg, orig, old(optind), old(nextchar.value)), code, longind, flag, old(optopt))
    {
      longind, flag := None, None;
      if nextchar.value != "" {
      } else if optind == argv.Length {
        optopt := 'W' as int;
        code := if CharAt(Opts(settings), 0) == ':' then COLON else QUESTION;
        return;
      } else {
        nextchar := Some(argv[optind]);
      }
      code, longind, flag := ProcessLongOption(argv, settings, false);
    }

    /** The end of _getopt_internal_r: one short option character. */
    method ProcessShortOption(argv: array<string>, settings: Config)
      returns (code: int, longind: Option<nat>, flag: Option<(int, int)>)
      requires SeesOrig(argv) && optind < argv.Length && nextchar.Some? && nextchar.value != "" && optarg == None
      requires settings == cfg
      modifies this`optind, this`nextchar, this`optarg, this`optopt
      ensures Gives(ShortStep(cfg, orig, old(optind), old(nextchar.value)), code, longind, flag, old(optopt))
    {
      var c := nextchar.value[0];
      nextchar := Some(nextchar.value[1..]);
      if nextchar.value == "" {
        optind := optind + 1;
      }
      code, longind, flag := ProcessCharacter(argv, settings, c);
    }

    method ProcessCharacter(argv: array<string>, settings: Config, c: char)
      returns (code: int, longind: Option<nat>, flag: Option<(int, int)>)
      requires SeesOrig(argv) && optind <= argv.Length && nextchar.Some? && (nextchar.value != "" ==> optind < argv.Length) && optarg == None
      requires settings == cfg
      modifies this`optind, this`nextchar, this`optarg, this`optopt
      ensures Gives(CharacterStep(cfg, orig, old(optind), c, old(nextchar.value)), code, longind, flag, old(optopt))
    {
      longind, flag := None, None;
      var optstring := Opts(settings);
      var temp := IndexOf(optstring, c);
      if temp == |optstring| || c == ':' || c == ';' {
        optopt, code := c as int, QUESTION;
        return;
      }
      if c == 'W' && CharAt(optstring, temp + 1) == ';' && settings.longopts != None {
        code, longind, flag := TakeLongBehindW(argv, settings);
        return;
      }
      code := TakeShortArgument(argv, settings, c, temp);
    }

    /** The option character c is the temp-th of optstring; it may take an argument. */
    method TakeShortArgument(argv: array<string>, settings: Config, c: char, temp: nat) returns (code: int)
      requires SeesOrig(argv) && optind <= argv.Length && nextchar.Some? && optarg == None && settings == cfg
      modifies this`optind, this`nextchar, this`optarg, this`optopt
      ensures Gives(ShortArgument(cfg, orig, old(optind), c, temp, old(nextchar.value)), code, None, None, old(optopt))
    {
      var optstring := Opts(settings);
      code := c as int;
      if CharAt(optstring, temp + 1) == ':' {
        if CharAt(optstring, temp + 2) == ':' {
          if nextchar.value != "" {
            optarg := nextchar;
            optind := optind + 1;
          }
        } else if nextchar.value != "" {
          optarg := nextchar;
          optind := optind + 1;
        } else if optind == argv.Length {
          optopt := c as int;
          code := if CharAt(optstring, 0) == ':' then COLON else QUESTION;
        } else {
          optarg := Some(argv[optind]);
          optind := optind + 1;
        }
        nextchar := None;
      }
    }

    /** "--" ends the options; everything behind it is an operand. */
    method EndAtDashes(argv: array<string>)
      requires Partition(argv) && optind < argv.Length && orig[optind] == "--"
      modifies argv, this`firstNonopt, this`lastNonopt, this`optind, this`consumed, this`skipped
      ensures consumed == old(consumed) + ["--"] && skipped == old(skipped) + orig[old(optind) + 1..]
      ensures Partition(argv) && lastNonopt == optind == argv.Length
    {
      ghost var at := optind;
      optind := optind + 1;
      Consume(argv, at);
      assert orig[at..at + 1] == ["--"];
      PassDashes(argv);
    }

    /** The exchange behind "--", and the rest. */
    method PassDashes(argv: array<string>)
      requires Partition(argv) && lastNonopt < optind
      modifies argv, this`firstNonopt, this`lastNonopt, this`optind, this`skipped
      ensures skipped == old(skipped) + orig[old(optind)..] && Partition(argv) && lastNonopt == optind == argv.Length
    {
      GatherAtDashes(argv);
      PassRest(argv);
    }

    /** All that is left are operands. */
    method PassRest(argv: array<string>)
      requires Layout(argv[..], orig, consumed, skipped, firstNonopt, optind, optind)
      modifies this`lastNonopt, this`optind, this`skipped
      ensures Partition(argv) && lastNonopt == optind == argv.Length && skipped == old(skipped) + orig[old(optind)..]
    {
      LayoutSkip(argv[..], orig, consumed, skipped, firstNonopt, optind, argv.Length);
      assert orig[optind..argv.Length] == orig[optind..];
      skipped := skipped + orig[optind..argv.Length];
      lastNonopt := argv.Length;
      optind := argv.Length;
    }

    method GatherAtDashes(argv: array<string>)
      requires Partition(argv) && lastNonopt < optind
      modifies argv, this`firstNonopt, this`lastNonopt
      ensures Layout(argv[..], orig, consumed, skipped, firstNonopt, optind, optind)
    {
      if firstNonopt != lastNonopt && lastNonopt != optind {
        Exchange(argv);
      } else if firstNonopt == lastNonopt {
        LayoutNothingSkipped(argv[..], orig, consumed, skipped, firstNonopt, optind);
        firstNonopt := optind;
      }
    }

    /** No argument is left: point optind at the operands. */
    method BackOver(argv: array<string>)
      requires Partition(argv) && optind == argv.Length && (firstNonopt == lastNonopt || lastNonopt == optind)
      modifies this`optind
      ensures Finished(argv)
    {
      LayoutEnd(argv[..], orig, consumed, skipped, firstNonopt, lastNonopt);
      if firstNonopt != lastNonopt {
        optind := firstNonopt;
      }
    }

    /** The scan that started at `at` has come to the next argument to be looked
        at, or to the end. */
    ghost predicate Reached(argv: array<string>, at: Cursor, consumed0: seq<string>, skipped0: seq<string>)
      reads this, argv
    {
      && initialized && Valid(argv) && CursorOk(orig, at) && !InCluster(at)
      && optind == NextLookedAt(cfg, orig, at.optind) && nextchar == at.nextchar
      && (firstNonopt == lastNonopt || lastNonopt == optind)
      && consumed == consumed0 && skipped == skipped0 + orig[at.optind..optind]
    }

    /** Under PERMUTE, pass over operands. */
    method Advance(argv: array<string>, ghost at: Cursor, ghost skipped0: seq<string>)
      requires Valid(argv) && initialized && !InCluster(Place()) && at == Place() && skipped0 == skipped
      modifies argv, this`firstNonopt, this`lastNonopt, this`optind, this`skipped
      ensures Reached(argv, at, consumed, skipped0)
    {
      if ordering == PERMUTE {
        SkipOperands(argv);
      }
      assert orig[at.optind..at.optind] == [];
    }

    /** How the scan ended, whatever the argument at i. */
    ghost predicate Ended(argv: array<string>, at: Cursor, i: nat, consumed0: seq<string>, skipped0: seq<string>)
      requires at.optind <= i <= |orig|
      reads this, argv
    {
      && Finished(argv)
      && if i < |orig| && orig[i] == "--" then
           consumed == consumed0 + ["--"] && skipped == skipped0 + (orig[at.optind..i] + orig[i + 1..])
         else
           consumed == consumed0 && skipped == skipped0 + orig[at.optind..]
    }

    /** "--" at optind. */
    method DashesEnd(argv: array<string>, ghost at: Cursor, ghost consumed0: seq<string>, ghost skipped0: seq<string>)
      requires Reached(argv, at, consumed0, skipped0) && optind < |orig| && orig[optind] == "--"
      modifies argv, this`firstNonopt, this`lastNonopt, this`optind, this`consumed, this`skipped
      ensures Ended(argv, at, old(optind), consumed0, skipped0)
    {
      ghost var i := optind;
      EndAtDashes(argv);
      BackOver(argv);
      JoinSkipped(skipped0, orig, at.optind, i);
    }

    /** The tests for "--" and for the end of the arguments. */
    method EndOfScan(argv: array<string>, ghost at: Cursor, ghost consumed0: seq<string>, ghost skipped0: seq<string>)
      returns (done: bool)
      requires Reached(argv, at, consumed0, skipped0)
      modifies argv, this`firstNonopt, this`lastNonopt, this`optind, this`consumed, this`skipped
      ensures var i := old(optind);
              if i == |orig| || orig[i] == "--" then done && Ended(argv, at, i, consumed0, skipped0)
              else !done && optind == i && Reached(argv, at, consumed0, skipped0)
    {
      Untouched(argv);
      done := true;
      if optind != argv.Length && argv[optind] == "--" {
        DashesEnd(argv, at, consumed0, skipped0);
      } else if optind == argv.Length {
        JoinSkipped(skipped0, orig, at.optind, optind);
        BackOver(argv);
      } else {
        done := false;
      }
    }

    /** An argument that is an option. */
    method ProcessOption(argv: array<string>, settings: Config)
      returns (code: int, longind: Option<nat>, flag: Option<(int, int)>)
      requires SeesOrig(argv) && optind < argv.Length && !NonOption(orig[optind]) && orig[optind] != "--" && optarg == None
      requires settings == cfg && Sensible(cfg)
      modifies this`optind, this`nextchar, this`optarg, this`optopt
      ensures Gives(OptionStep(cfg, orig, old(optind)), code, longind, flag, old(optopt))
    {
      var arg := argv[optind];
      if settings.longopts != None {
        if CharAt(arg, 1) == '-' {
          nextchar := Some(arg[2..]);
          code, longind, flag := ProcessLongOption(argv, settings, settings.longOnly);
          return;
        }
        if settings.longOnly && (|arg| > 2 || IndexOf(Opts(settings), arg[1]) == |Opts(settings)|) {
          nextchar := Some(arg[1..]);
          code, longind, flag := ProcessLongOption(argv, settings, settings.longOnly);
          if code != -1 {
            return;
          }
        }
      }
      nextchar := Some(arg[1..]);
      code, longind, flag := ProcessShortOption(argv, settings);
    }

    /** Ghost bookkeeping: the arguments from `from` up to optind are used up. */
    ghost method Consume(argv: array<string>, from: nat)
      requires Layout(argv[..], orig, consumed, skipped, firstNonopt, lastNonopt, from)
      requires from <= optind <= |orig|
      modifies this`consumed
      ensures Partition(argv) && consumed == old(consumed) + orig[from..optind]
    {
      LayoutConsume(argv[..], orig, consumed, skipped, firstNonopt, lastNonopt, from, optind);
      consumed := consumed + orig[from..optind];
    }

    static predicate StepOk(s: Step, at: Cursor, argc: nat) {
      match s
      case Stop(end, dashdash) => at.optind <= end <= argc && (dashdash ==> end < argc)
      case Emit(from, _, next) => at.optind <= from <= next.optind <= argc
    }

    /** What a call must have done when the step from `at` is s. */
    ghost predicate Stepped(argv: array<string>, at: Cursor, s: Step, consumed0: seq<string>, skipped0: seq<string>,
                            code: int, longind: Option<nat>, flag: Option<(int, int)>, optopt0: int)
      requires StepOk(s, at, |orig|)
      reads this, argv
    {
      if s.Stop? then
        && code == -1 && optarg == None && Finished(argv)
        && consumed == consumed0 + (if s.dashdash then ["--"] else [])
        && skipped == skipped0 + if s.dashdash then orig[at.optind..s.at] + orig[s.at + 1..] else orig[at.optind..]
      else
        && Gives((s.report, s.next), code, longind, flag, optopt0)
        && Valid(argv) && initialized
        && consumed == consumed0 + orig[s.from..s.next.optind]
        && skipped == skipped0 + orig[at.optind..s.from]
    }

    /** The next argument, or the end of the scan. */
    method NextArgument(argv: array<string>, settings: Config)
      returns (code: int, longind: Option<nat>, flag: Option<(int, int)>)
      requires Valid(argv) && initialized && settings == cfg && Sensible(cfg) && optarg == None && !InCluster(Place())
      modifies argv, this`firstNonopt, this`lastNonopt, this`optind, this`consumed, this`skipped
      modifies this`nextchar, this`optarg, this`optopt
      ensures var at := old(Place());
              Stepped(argv, at, NextStep(cfg, orig, at), old(consumed), old(skipped), code, longind, flag, old(optopt))
    {
      ghost var at, skipped0 := Place(), skipped;
      Advance(argv, at, skipped0);
      code, longind, flag := AtArgument(argv, settings, at, consumed, skipped0);
    }

    /** The argument to be looked at, or the end of the scan. */
    method AtArgument(argv: array<string>, settings: Config, ghost at: Cursor, ghost consumed0: seq<string>, ghost skipped0: seq<string>)
      returns (code: int, longind: Option<nat>, flag: Option<(int, int)>)
      requires Reached(argv, at, consumed0, skipped0) && settings == cfg && Sensible(cfg) && optarg == None
      modifies argv, this`firstNonopt, this`lastNonopt, this`optind, this`consumed, this`skipped
      modifies this`nextchar, this`optarg, this`optopt
      ensures Stepped(argv, at, NextStep(cfg, orig, at), consumed0, skipped0, code, longind, flag, old(optopt))
    {
      var done := EndOfScan(argv, at, consumed0, skipped0);
      if done {
        code, longind, flag := -1, None, None;
        Stopped(argv, at, consumed0, skipped0, optopt);
      } else {
        code, longind, flag := LookAt(argv, settings, at, consumed0, skipped0);
      }
    }

    /** An operand ends the scan where the options must come first. */
    method LookAt(argv: array<string>, settings: Config, ghost at: Cursor, ghost consumed0: seq<string>, ghost skipped0: seq<string>)
      returns (code: int, longind: Option<nat>, flag: Option<(int, int)>)
      requires Reached(argv, at, consumed0, skipped0) && settings == cfg && Sensible(cfg) && optarg == None
      requires optind < |orig| && orig[optind] != "--"
      modifies this`skipped, this`optind, this`consumed, this`nextchar, this`optarg, this`optopt
      ensures Stepped(argv, at, NextStep(cfg, orig, at), consumed0, skipped0, code, longind, flag, old(optopt))
    {
      Untouched(argv);
      if NonOption(argv[optind]) && ordering == REQUIRE_ORDER {
        code, longind, flag := -1, None, None;
        StopHere(argv, at, consumed0, skipped0);
        Stopped(argv, at, consumed0, skipped0, optopt);
      } else {
        code, longind, flag := Take(argv, settings, at, consumed0, skipped0);
      }
    }

    method Take(argv: array<string>, settings: Config, ghost at: Cursor, ghost consumed0: seq<string>, ghost skipped0: seq<string>)
      returns (code: int, longind: Option<nat>, flag: Option<(int, int)>)
      requires Reached(argv, at, consumed0, skipped0) && settings == cfg && Sensible(cfg) && optarg == None
      requires optind < |orig| && orig[optind] != "--" && !EndsAt(cfg, orig, optind)
      modifies this`optind, this`consumed, this`nextchar, this`optarg, this`optopt
      ensures Stepped(argv, at, NextStep(cfg, orig, at), consumed0, skipped0, code, longind, flag, old(optopt))
    {
      ghost var optopt0 := optopt;
      code, longind, flag := TakeArgument(argv, settings);
      Taken(argv, at, consumed0, skipped0, code, longind, flag, optopt0);
    }

    lemma Stopped(argv: array<string>, at: Cursor, consumed0: seq<string>, skipped0: seq<string>, optopt0: int)
      requires CursorOk(orig, at) && !InCluster(at) && optarg == None
      requires var i := NextLookedAt(cfg, orig, at.optind);
               (EndsAt(cfg, orig, i) || orig[i] == "--") && Ended(argv, at, i, consumed0, skipped0)
      ensures var s := NextStep(cfg, orig, at);
              StepOk(s, at, |orig|) && Stepped(argv, at, s, consumed0, skipped0, -1, None, None, optopt0)
    {
    }

    lemma Taken(argv: array<string>, at: Cursor, consumed0: seq<string>, skipped0: seq<string>,
                code: int, longind: Option<nat>, flag: Option<(int, int)>, optopt0: int)
      requires CursorOk(orig, at) && !InCluster(at) && Valid(argv) && initialized
      requires var i := NextLookedAt(cfg, orig, at.optind);
               && i < |orig| && orig[i] != "--" && !EndsAt(cfg, orig, i) && i <= optind
               && Gives(ArgumentStep(cfg, orig, i, at.nextchar), code, longind, flag, optopt0)
               && consumed == consumed0 + orig[i..optind] && skipped == skipped0 + orig[at.optind..i]
      ensures var s := NextStep(cfg, orig, at);
              StepOk(s, at, |orig|) && Stepped(argv, at, s, consumed0, skipped0, code, longind, flag, optopt0)
    {
    }

    lemma TakenInCluster(argv: array<string>, at: Cursor, consumed0: seq<string>, skipped0: seq<string>,
                         code: int, longind: Option<nat>, flag: Option<(int, int)>, optopt0: int)
      requires CursorOk(orig, at) && InCluster(at) && Valid(argv) && initialized && at.optind <= optind
      requires Gives(ShortStep(cfg, orig, at.optind, at.nextchar.value), code, longind, flag, optopt0)
      requires consumed == consumed0 + orig[at.optind..optind] && skipped == skipped0
      ensures var s := NextStep(cfg, orig, at);
              StepOk(s, at, |orig|) && Stepped(argv, at, s, consumed0, skipped0, code, longind, flag, optopt0)
    {
    }

    /** An argument that is looked at: an option, or an operand that is reported. */
    method LookAtArgument(argv: array<string>, settings: Config)
      returns (code: int, longind: Option<nat>, flag: Option<(int, int)>)
      requires SeesOrig(argv) && settings == cfg && Sensible(cfg) && optarg == None && !InCluster(Place())
      requires optind < argv.Length && orig[optind] != "--"
      modifies this`optind, this`nextchar, this`optarg, this`optopt
      ensures Gives(ArgumentStep(cfg, orig, old(optind), old(nextchar)), code, longind, flag, old(optopt))
    {
      longind, flag := None, None;
      if NonOption(argv[optind]) {
        optarg := Some(argv[optind]);
        optind := optind + 1;
        code := 1;
      } else {
        code, longind, flag := ProcessOption(argv, settings);
      }
    }

    /** The same, with the arguments that are used up. */
    method TakeArgument(argv: array<string>, settings: Config)
      returns (code: int, longind: Option<nat>, flag: Option<(int, int)>)
      requires Valid(argv) && initialized && settings == cfg && Sensible(cfg) && optarg == None && !InCluster(Place())
      requires optind < |orig| && orig[optind] != "--"
      modifies this`optind, this`consumed, this`nextchar, this`optarg, this`optopt
      ensures Gives(ArgumentStep(cfg, orig, old(optind), old(nextchar)), code, longind, flag, old(optopt))
      ensures Valid(argv) && old(optind) <= optind && consumed == old(consumed) + orig[old(optind)..optind]
    {
      ghost var from := optind;
      ArgumentMovesOn(cfg, orig, optind, nextchar);
      Untouched(argv);
      code, longind, flag := LookAtArgument(argv, settings);
      Consume(argv, from);
    }

    lemma Untouched(argv: array<string>)
      requires Partition(argv)
      ensures SeesOrig(argv)
    {
    }

    /** Valid does not depend on optarg. */
    twostate lemma KeepValid(argv: array<string>)
      requires old(Valid(argv)) && argv[..] == old(argv[..]) && cfg == old(cfg) && orig == old(orig)
      requires optind == old(optind) && initialized == old(initialized) && nextchar == old(nextchar)
      requires ordering == old(ordering) && firstNonopt == old(firstNonopt) && lastNonopt == old(lastNonopt)
      requires consumed == old(consumed) && skipped == old(skipped)
      ensures Valid(argv)
    {
    }

    /** _getopt_internal_r: each call reports what the scan that moves nothing
        reports, and leaves argv partitioned as far as it has been scanned. */
    method GetoptInternal(argv: array<string>, settings: Config)
      returns (code: int, longind: Option<nat>, flag: Option<(int, int)>, ghost step: Step)
      requires Valid(argv) && settings == cfg && Sensible(cfg)
      modifies argv, this
      ensures cfg == old(cfg) && orig == old(orig) && CursorOk(orig, old(Place()))
      ensures step == NextStep(cfg, orig, old(Place())) && StepOk(step, old(Place()), |orig|)
      ensures Stepped(argv, old(Place()), step, old(consumed), old(skipped), code, longind, flag, old(optopt))
    {
      if !initialized {
        Initialize(argv, settings);
      }
      code, longind, flag, step := Restart(argv, settings);
    }

    /** A call after the initialization: there is no optarg yet. */
    method Restart(argv: array<string>, settings: Config)
      returns (code: int, longind: Option<nat>, flag: Option<(int, int)>, ghost step: Step)
      requires Valid(argv) && initialized && settings == cfg && Sensible(cfg)
      modifies argv, this`firstNonopt, this`lastNonopt, this`optind, this`consumed, this`skipped
      modifies this`nextchar, this`optarg, this`optopt
      ensures step == NextStep(cfg, orig, old(Place())) && StepOk(step, old(Place()), |orig|)
      ensures Stepped(argv, old(Place()), step, old(consumed), old(skipped), code, longind, flag, old(optopt))
    {
      label Ready:
      optarg := None;
      KeepValid@Ready(argv);
      step := NextStep(cfg, orig, Place());
      code, longind, flag := Continue(argv, settings);
    }

    /** A call after the initialization. */
    method Continue(argv: array<string>, settings: Config)
      returns (code: int, longind: Option<nat>, flag: Option<(int, int)>)
      requires Valid(argv) && initialized && settings == cfg && Sensible(cfg) && optarg == None
      modifies argv, this`firstNonopt, this`lastNonopt, this`optind, this`consumed, this`skipped
      modifies this`nextchar, this`optarg, this`optopt
      ensures var at := old(Place());
              Stepped(argv, at, NextStep(cfg, orig, at), old(consumed), old(skipped), code, longind, flag, old(optopt))
    {
      if nextchar == None || nextchar.value == "" {
        code, longind, flag := NextArgument(argv, settings);
      } else {
        code, longind, flag := NextInCluster(argv, settings);
      }
    }

    /** The next character of a cluster of short options. */
    method NextInCluster(argv: array<string>, settings: Config)
      returns (code: int, longind: Option<nat>, flag: Option<(int, int)>)
      requires Valid(argv) && initialized && settings == cfg && optarg == None && InCluster(Place())
      modifies this`optind, this`consumed, this`nextchar, this`optarg, this`optopt
      ensures var at := old(Place());
              Stepped(argv, at, NextStep(cfg, orig, at), old(consumed), old(skipped), code, longind, flag, old(optopt))
    {
      ghost var at, consumed0, optopt0 := Place(), consumed, optopt;
      Untouched(argv);
      ShortMovesOn(cfg, orig, optind, nextchar.value);
      code, longind, flag := ProcessShortOption(argv, settings);
      Consume(argv, at.optind);
      TakenInCluster(argv, at, consumed0, skipped, code, longind, flag, optopt0);
    }

    /** Ghost bookkeeping: the scan ends at an operand that is left in place. */
    ghost method StopHere(argv: array<string>, at: Cursor, consumed0: seq<string>, skipped0: seq<string>)
      requires Reached(argv, at, consumed0, skipped0) && optind < |orig| && orig[optind] != "--" && at.optind == optind
      requires firstNonopt == lastNonopt
      modifies this`skipped
      ensures Ended(argv, at, optind, consumed0, skipped0)
    {
      assert consumed == consumed[..firstNonopt - 1] + consumed[firstNonopt - 1..];
      JoinSkipped(skipped0, orig, optind, optind);
      skipped := skipped + orig[optind..];
    }
  }

  /** The two loops over the long options: the first exact match, or else the first
      abbreviated one unless a later one differs. */
  method FindLongOption(opts: seq<LongOption>, name: string, longOnly: bool) returns (choice: Choice)
    ensures Chosen(opts, name, longOnly, choice)
  {
    for i := 0 to |opts|
      invariant forall j | 0 <= j < i :: opts[j].name != name
    {
      if name <= opts[i].name && |name| == |opts[i].name| {
        return Unique(i);
      }
    }
    var ambig := false;
    var indfound := -1;
    for i := 0 to |opts|
      invariant -1 <= indfound < i
      invariant indfound == -1 ==> !ambig && forall j | 0 <= j < i :: !(name <= opts[j].name)
      invariant indfound >= 0 ==> name <= opts[indfound].name && forall j | 0 <= j < indfound :: !(name <= opts[j].name)
      invariant indfound >= 0 ==>
                  (ambig <==> exists j | indfound < j < i :: name <= opts[j].name && (longOnly || !SameOption(opts[indfound], opts[j])))
    {
      if name <= opts[i].name {
        if indfound == -1 {
          indfound := i;
        } else if longOnly || opts[indfound].hasArg != opts[i].hasArg || opts[indfound].flag != opts[i].flag
                  || opts[indfound].val != opts[i].val {
          ambig := true;
        }
      }
    }
    if indfound >= 0 {
      assert ambig <==> Clash(opts, name, longOnly, indfound);
      choice := if ambig then Ambiguous else Unique(indfound);
    } else {
      choice := NotFound;
    }
  }

  method PastOperands(argv: array<string>, from: nat, ghost orig: seq<string>) returns (i: nat)
    requires from <= argv.Length == |orig| && forall x | from <= x < |orig| :: argv[..][x] == orig[x]
    ensures i == SkipNonOptions(orig, from)
  {
    i := from;
    while i < argv.Length && NonOption(argv[i])
      invariant from <= i <= argv.Length && SkipNonOptions(orig, from) == SkipNonOptions(orig, i)
    {
      assert argv[i] == argv[..][i];
      i := i + 1;
    }
    assert i < argv.Length ==> argv[i] == argv[..][i];
  }
}
