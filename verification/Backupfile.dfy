/**
  numbered_backup: scan a directory for entries base.~k~ and leave the name with
  the next version number in the buffer.
*/
module Backupfile {
  import opened Wrappers
  import opened CStrings
  import opened DecimalStrings

  datatype BackupResult = IsSameLength | IsLonger | IsNew | NoMem

  const IDX_MAX: nat := 0x7FFF_FFFF_FFFF_FFFF

  function Suffix(k: nat): string {
    ".~" + Decimal(k) + "~"
  }

  /** The entry is version k of base; k has no leading zeros. */
  ghost predicate IsVersion(e: string, base: string, k: nat) {
    k > 0 && e == base + Suffix(k)
  }

  /** The highest version among the entries is m, or m is 0 and there is none. */
  ghost predicate Highest(entries: seq<string>, base: string, m: nat) {
    && (forall i, k: nat | 0 <= i < |entries| && IsVersion(entries[i], base, k) :: k <= m)
    && (m > 0 ==> exists i | 0 <= i < |entries| :: IsVersion(entries[i], base, m))
  }

  function Verdict(m: nat): BackupResult {
    if m == 0 then IsNew
    else if |Decimal(m + 1)| > |Decimal(m)| then IsLonger
    else IsSameLength
  }

  /** What the names look like, and the results that go with them. */
  lemma SuffixExamples()
    ensures Suffix(1) == ".~1~" && Suffix(12) == ".~12~" && Suffix(100) == ".~100~"
    ensures Verdict(0) == IsNew && Verdict(8) == IsSameLength && Verdict(9) == IsLonger && Verdict(99) == IsLonger
  {
    assert Decimal(1) == "1" && Decimal(9) == "9" && Decimal(10) == "10" && Decimal(99) == "99" && Decimal(100) == "100";
  }

  /** The buffer holds the name and its NUL. */
  ghost predicate Holds(buf: array<char>, name: string)
    reads buf
  {
    |name| < buf.Length && buf[..|name|] == name && buf[|name|] == '\0'
  }

  lemma HeldPart(buf: array<char>, name: string, a: nat, b: nat)
    requires Holds(buf, name) && a <= b <= |name|
    ensures buf[a..b] == name[a..b]
  {
    assert buf[..|name|][a..b] == buf[a..b];
  }

  lemma HeldFile(buf: array<char>, file: string, baseOffset: nat, k: nat)
    requires Holds(buf, file + Suffix(k)) && baseOffset <= |file|
    ensures |file| <= buf.Length && buf[..|file|] == file && buf[baseOffset..|file|] == file[baseOffset..]
  {
  }

  // ---------------------------------------------------------------------
  // Reading an entry

  /** The digits of e from start to stop are all there are at start. */
  predicate DigitRun(e: string, start: nat, stop: nat) {
    start < stop <= |e| && Digits(e[start..stop]) && e[start] != '0' && !Digit(Char(e, stop))
  }

  /** The parts of base.~k~. */
  lemma Parts(e: string, base: string, k: nat)
    requires e == base + Suffix(k)
    ensures var start, d := |base| + 2, Decimal(k);
            && |e| == start + |d| + 1 && e[..start] == base + ".~" && e[start..start + |d|] == d && e[start + |d|] == '~'
            && forall i | start <= i < start + |d| :: e[i] == d[i - start]
  {
  }

  lemma RunIsMaximal(e: string, start: nat, stop: nat, n: nat)
    requires DigitRun(e, start, stop) && start + n < |e| && e[start + n] == '~'
    requires forall i | start <= i < start + n :: Digit(e[i])
    ensures stop == start + n
  {
  }

  lemma RunIsVersion(e: string, base: string, stop: nat)
    requires |base| + 2 <= |e| && e[..|base| + 2] == base + ".~" && DigitRun(e, |base| + 2, stop)
    requires stop + 1 == |e| && e[stop] == '~'
    ensures IsVersion(e, base, Value(e[|base| + 2..stop]))
  {
    var start := |base| + 2;
    var d := e[start..stop];
    assert d[0] == e[start];
    ValueHasDecimal(d);
    assert e == e[..start] + d + [e[stop]];
    assert base + ".~" + d + "~" == base + (".~" + d + "~");
  }

  lemma VersionIsRun(e: string, base: string, stop: nat, k: nat)
    requires |base| + 2 <= |e| && DigitRun(e, |base| + 2, stop) && IsVersion(e, base, k)
    ensures stop + 1 == |e| && e[stop] == '~' && k == Value(e[|base| + 2..stop])
  {
    Parts(e, base, k);
    RunIsMaximal(e, |base| + 2, stop, |Decimal(k)|);
    DecimalHasValue(k);
  }

  /** An entry is a version iff its digits are followed by a tilde and the end,
      and the version is then their value. */
  lemma VersionOfRun(e: string, base: string, stop: nat, k: nat)
    requires |base| + 2 <= |e| && e[..|base| + 2] == base + ".~" && DigitRun(e, |base| + 2, stop)
    ensures IsVersion(e, base, k) <==>
            stop + 1 == |e| && e[stop] == '~' && k == Value(e[|base| + 2..stop])
  {
    if stop + 1 == |e| && e[stop] == '~' {
      RunIsVersion(e, base, stop);
    }
    if IsVersion(e, base, k) {
      VersionIsRun(e, base, stop, k);
    }
  }

  /** An entry that has no digits there is no version. */
  lemma NoVersion(e: string, base: string, k: nat)
    requires |e| < |base| + 4 || e[..|base| + 2] != base + ".~" || !('1' <= e[|base| + 2] <= '9')
    ensures !IsVersion(e, base, k)
  {
    if IsVersion(e, base, k) {
      DecimalHasValue(k);
    }
  }

  /** The loop over the digits of an entry. */
  method ReadVersion(e: string, start: nat) returns (versionlen: nat, all9s: bool)
    requires start < |e| && '1' <= e[start] <= '9'
    ensures DigitRun(e, start, start + versionlen) && all9s == AllNines(e[start..start + versionlen])
  {
    all9s := e[start] == '9';
    versionlen := 1;
    while Digit(Char(e, start + versionlen))
      invariant 1 <= versionlen && start + versionlen <= |e|
      invariant forall i | start <= i < start + versionlen :: Digit(e[i])
      invariant all9s <==> forall i | start <= i < start + versionlen :: e[i] == '9'
      decreases |e| - versionlen
    {
      all9s := all9s && e[start + versionlen] == '9';
      versionlen := versionlen + 1;
    }
    var d := e[start..start + versionlen];
    assert forall i | start <= i < start + versionlen :: e[i] == d[i - start];
  }

  // ---------------------------------------------------------------------
  // Writing the buffer

  /** Turn the nines at the end of buf[lo..hi] into zeros. */
  method Carry(buf: array<char>, lo: nat, hi: nat) returns (q: nat)
    requires lo < hi < buf.Length && Digits(buf[lo..hi]) && !AllNines(buf[lo..hi])
    modifies buf
    ensures lo <= q < hi && buf[q] != '9' && Carried(old(buf[lo..hi]), q + 1 - lo)
    ensures forall x | 0 <= x <= q || hi <= x < buf.Length :: buf[x] == old(buf[x])
    ensures forall x | q < x < hi :: buf[x] == '0'
  {
    ghost var s, n := buf[lo..hi], hi - lo;
    q := hi - 1;
    CarryBegins(s);
    while buf[q] == '9'
      invariant lo <= q < hi && n == q + 1 - lo && Carried(s, n)
      invariant forall x | 0 <= x <= q || hi <= x < buf.Length :: buf[x] == old(buf[x])
      invariant forall x | q < x < hi :: buf[x] == '0'
      decreases q
    {
      assert s[n - 1] == '9';
      CarryGoesOn(s, n);
      buf[q] := '0';
      q, n := q - 1, n - 1;
    }
  }

  /** Add 1 to the digits buf[lo..hi], from the right. */
  method AddOne(buf: array<char>, lo: nat, hi: nat)
    requires lo < hi < buf.Length && Digits(buf[lo..hi]) && !AllNines(buf[lo..hi])
    modifies buf
    ensures buf[lo..hi] == Increment(old(buf[lo..hi]))
    ensures buf[..lo] == old(buf[..lo]) && forall x | hi <= x < buf.Length :: buf[x] == old(buf[x])
  {
    ghost var s := buf[lo..hi];
    var q := Carry(buf, lo, hi);
    assert s[q - lo] == buf[q];
    CarryEnds(s, q + 1 - lo);
    buf[q] := buf[q] + 1 as char;
    ghost var r := s[..q - lo] + [buf[q]] + Zeros(hi - 1 - q);
    assert forall x | lo <= x < hi :: buf[x] == r[x - lo];
  }

  /** memcpy of the digits, the tilde and the NUL to position q. */
  method CopyRun(buf: array<char>, q: nat, e: string, start: nat, versionlen: nat)
    requires start + versionlen + 1 == |e| && q + versionlen + 2 <= buf.Length
    modifies buf
    ensures buf[q..q + versionlen] == e[start..start + versionlen]
    ensures buf[q + versionlen] == e[start + versionlen] && buf[q + versionlen + 1] == '\0'
    ensures forall x | 0 <= x < q :: buf[x] == old(buf[x])
  {
    var i := 0;
    while i < versionlen + 2
      invariant 0 <= i <= versionlen + 2
      invariant forall x | 0 <= x < q :: buf[x] == old(buf[x])
      invariant forall x | q <= x < q + i :: buf[x] == Char(e, start + x - q)
    {
      buf[q + i] := Char(e, start + i);
      i := i + 1;
    }
  }

  /** Append ".~", a zero before all nines, and the digits of the entry with the
      tilde and NUL behind them; the digits are then buf[lo..hi]. */
  method Prepare(buf: array<char>, filelen: nat, e: string, start: nat, versionlen: nat, all9s: bool) returns (lo: nat, hi: nat)
    requires start + versionlen + 1 == |e| && e[start + versionlen] == '~'
    requires filelen + 2 + (if all9s then 1 else 0) + versionlen + 2 <= buf.Length
    modifies buf
    ensures lo == filelen + 2 && hi == lo + (if all9s then 1 else 0) + versionlen
    ensures buf[..lo] == old(buf[..filelen]) + ".~"
    ensures buf[lo..hi] == (if all9s then "0" else "") + e[start..start + versionlen]
    ensures buf[hi] == '~' && buf[hi + 1] == '\0'
  {
    ghost var file := buf[..filelen];
    buf[filelen], buf[filelen + 1], buf[filelen + 2] := '.', '~', '0';
    assert buf[..filelen + 2] == file + ".~";
    lo := filelen + 2;
    var q := lo + if all9s then 1 else 0;
    CopyRun(buf, q, e, start, versionlen);
    hi := q + versionlen;
    assert buf[lo..hi] == buf[lo..q] + buf[q..hi];
  }

  /** The name with version k + 1, from the digits of version k. */
  method Append(buf: array<char>, filelen: nat, e: string, start: nat, versionlen: nat, all9s: bool, ghost k: nat)
    requires start + versionlen + 1 == |e| && e[start + versionlen] == '~'
    requires k > 0 && e[start..start + versionlen] == Decimal(k) && all9s == AllNines(Decimal(k))
    requires filelen + 2 + (if all9s then 1 else 0) + versionlen + 2 <= buf.Length
    modifies buf
    ensures Holds(buf, old(buf[..filelen]) + Suffix(k + 1))
  {
    ghost var file := buf[..filelen];
    Successor(k);
    var lo, hi := Prepare(buf, filelen, e, start, versionlen, all9s);
    assert "" + Decimal(k) == Decimal(k);
    AddOne(buf, lo, hi);
    Assembled(buf, file, k + 1, lo, hi);
  }

  lemma Assembled(buf: array<char>, file: string, k: nat, lo: nat, hi: nat)
    requires lo <= hi && hi + 1 < buf.Length
    requires buf[..lo] == file + ".~" && buf[lo..hi] == Decimal(k) && buf[hi] == '~' && buf[hi + 1] == '\0'
    ensures Holds(buf, file + Suffix(k))
  {
    var d := Decimal(k);
    assert buf[..hi + 1] == buf[..lo] + buf[lo..hi] + [buf[hi]];
    assert file + ".~" + d + "~" == file + Suffix(k);
  }

  /** irealloc, which succeeds if memory says so. */
  method Realloc(buf: array<char>, size: nat, memory: bool) returns (r: array?<char>)
    requires buf.Length <= size
    ensures r != null <==> memory
    ensures r != null ==> fresh(r) && r.Length == size && r[..buf.Length] == buf[..]
  {
    r := null;
    if memory {
      var a := new char[size];
      var i := 0;
      while i < buf.Length
        invariant 0 <= i <= buf.Length && a[..i] == buf[..i]
      {
        a[i] := buf[i];
        i := i + 1;
      }
      assert a[..buf.Length] == buf[..];
      r := a;
    }
  }

  /** The condition under which an entry is taken: its version is at least the one
      in the buffer. */
  lemma TakenIffAtLeast(d: string, m: nat)
    requires Digits(d) && d != "" && d[0] != '0'
    ensures |Decimal(m + 1)| < |d| || (|Decimal(m + 1)| == |d| && Compare(Decimal(m + 1), d) <= 0) <==> m < Value(d)
  {
    DecimalHasValue(m + 1);
    OrderByLength(Decimal(m + 1), d);
  }

  /** The entry is no version above m. */
  ghost predicate NotHigher(e: string, base: string, m: nat) {
    forall k: nat | IsVersion(e, base, k) :: k <= m
  }

  /** Of m and the version that the entry is, if it is one, n is the higher. */
  ghost predicate HigherOf(e: string, base: string, m: nat, n: nat) {
    m <= n && NotHigher(e, base, n) && (n == m || (n > 0 && IsVersion(e, base, n)))
  }

  lemma NoOtherVersion(e: string, base: string, stop: nat, m: nat)
    requires |base| + 2 <= |e| && e[..|base| + 2] == base + ".~" && DigitRun(e, |base| + 2, stop)
    requires stop + 1 == |e| && e[stop] == '~' ==> Value(e[|base| + 2..stop]) <= m
    ensures NotHigher(e, base, m)
  {
    forall k: nat | IsVersion(e, base, k)
      ensures k <= m
    {
      VersionOfRun(e, base, stop, k);
    }
  }

  /** The test on an entry with digits behind base.~ decides. */
  lemma TestDecides(e: string, base: string, stop: nat, m: nat, larger: bool) returns (n: nat)
    requires |base| + 2 <= |e| && e[..|base| + 2] == base + ".~" && DigitRun(e, |base| + 2, stop)
    requires var d := e[|base| + 2..stop];
             larger <==> stop + 1 == |e| && e[stop] == '~' &&
                         (|Decimal(m + 1)| < |d| || (|Decimal(m + 1)| == |d| && Compare(Decimal(m + 1), d) <= 0))
    ensures HigherOf(e, base, m, n) && (larger <==> m < n)
    ensures larger ==> e[|base| + 2..stop] == Decimal(n)
  {
    var d := e[|base| + 2..stop];
    assert d[0] == e[|base| + 2];
    TakenIffAtLeast(d, m);
    n := if larger then Value(d) else m;
    NoOtherVersion(e, base, stop, n);
    if larger {
      ValueHasDecimal(d);
      VersionOfRun(e, base, stop, n);
    }
  }

  lemma HeldBase(buf: array<char>, filelen: nat, baseOffset: nat, k: nat)
    requires baseOffset <= filelen <= buf.Length && Holds(buf, buf[..filelen] + Suffix(k))
    ensures filelen + 2 < buf.Length && buf[baseOffset..filelen + 2] == buf[baseOffset..filelen] + ".~"
  {
    var name := buf[..filelen] + Suffix(k);
    HeldPart(buf, name, baseOffset, filelen + 2);
  }

  lemma HeldDigits(buf: array<char>, filelen: nat, k: nat)
    requires filelen <= buf.Length && Holds(buf, buf[..filelen] + Suffix(k))
    ensures filelen + 2 + |Decimal(k)| < buf.Length && buf[filelen + 2..filelen + 2 + |Decimal(k)|] == Decimal(k)
  {
    var name, stop := buf[..filelen] + Suffix(k), filelen + 2 + |Decimal(k)|;
    HeldPart(buf, name, filelen + 2, stop);
    assert name[filelen + 2..stop] == Decimal(k);
  }

  lemma NoVersionAtAll(e: string, base: string, m: nat)
    requires |e| < |base| + 4 || e[..|base| + 2] != base + ".~" || !('1' <= e[|base| + 2] <= '9')
    ensures NotHigher(e, base, m)
  {
    forall k: nat
      ensures !IsVersion(e, base, k)
    {
      NoVersion(e, base, k);
    }
  }

  /** The tests at the beginning of the loop body: does the entry go on with
      digits behind base.~? */
  method Numbered(buf: array<char>, filelen: nat, baseOffset: nat, e: string, ghost base: string, ghost m: nat) returns (ok: bool)
    requires baseOffset <= filelen <= buf.Length
    requires Holds(buf, buf[..filelen] + Suffix(m + 1)) && base == buf[baseOffset..filelen]
    ensures ok ==> |base| + 4 <= |e| && e[..|base| + 2] == base + ".~" && '1' <= e[|base| + 2] <= '9'
    ensures !ok ==> NotHigher(e, base, m)
  {
    var baselen := filelen - baseOffset;
    HeldBase(buf, filelen, baseOffset, m + 1);
    ok := !(|e| < baselen + 4 || buf[baseOffset..filelen + 2] != e[..baselen + 2] || !('1' <= e[baselen + 2] <= '9'));
    if !ok {
      NoVersionAtAll(e, base, m);
    }
  }

  /** The test behind the loop over the digits. */
  method AtLeast(buf: array<char>, filelen: nat, versionlenmax: nat, e: string, start: nat, versionlen: nat, ghost m: nat) returns (ok: bool)
    requires filelen <= buf.Length && Holds(buf, buf[..filelen] + Suffix(m + 1)) && versionlenmax == |Decimal(m + 1)|
    requires start + versionlen <= |e| && CString(e)
    ensures var d := e[start..start + versionlen];
            ok <==> start + versionlen + 1 == |e| && e[start + versionlen] == '~' &&
                    (|Decimal(m + 1)| < |d| || (|Decimal(m + 1)| == |d| && Compare(Decimal(m + 1), d) <= 0))
  {
    HeldDigits(buf, filelen, m + 1);
    var p := start + versionlen;
    ok := Char(e, p) == '~' && Char(e, p + 1) == '\0' &&
          (versionlenmax < versionlen ||
           (versionlenmax == versionlen && Compare(buf[filelen + 2..filelen + 2 + versionlen], e[start..p]) <= 0));
  }

  /** Should the entry replace what is in the buffer?  Then n is its version. */
  method Larger(buf: array<char>, filelen: nat, baseOffset: nat, versionlenmax: nat, e: string, ghost base: string, ghost m: nat)
    returns (larger: bool, versionlen: nat, all9s: bool, ghost n: nat)
    requires baseOffset <= filelen <= buf.Length && CString(e)
    requires Holds(buf, buf[..filelen] + Suffix(m + 1)) && base == buf[baseOffset..filelen] && versionlenmax == |Decimal(m + 1)|
    ensures larger <==> exists k: nat | k > m :: IsVersion(e, base, k)
    ensures HigherOf(e, base, m, n) && (larger <==> m < n)
    ensures var start := |base| + 2;
            larger ==>
              && start + versionlen + 1 == |e| && e[start + versionlen] == '~'
              && e[start..start + versionlen] == Decimal(n) && all9s == AllNines(Decimal(n))
  {
    larger, versionlen, all9s, n := false, 0, false, m;
    var numbered := Numbered(buf, filelen, baseOffset, e, base, m);
    if numbered {
      var start := filelen - baseOffset + 2;
      versionlen, all9s := ReadVersion(e, start);
      larger := AtLeast(buf, filelen, versionlenmax, e, start, versionlen, m);
      n := TestDecides(e, base, start + versionlen, m, larger);
    }
  }

  /** Make room for a suffix with versionlenmax digits. */
  method Grow(buf: array<char>, filelen: nat, versionlenmax: nat, memory: bool) returns (r: array?<char>)
    requires filelen < buf.Length
    ensures buf.Length >= filelen + 4 + versionlenmax ==> r == buf
    ensures buf.Length < filelen + 4 + versionlenmax ==> r != buf && (r == null <==> !memory)
    ensures r != null ==> (r == buf || fresh(r)) && buf.Length <= r.Length && filelen + 4 + versionlenmax <= r.Length && r[..filelen] == buf[..filelen]
  {
    r := buf;
    var newBufferSize := filelen + 2 + versionlenmax + 2;
    if buf.Length < newBufferSize {
      var grown := newBufferSize + newBufferSize / 2;
      if grown <= IDX_MAX {
        newBufferSize := grown;
      }
      r := Realloc(buf, newBufferSize, memory);
      if r != null {
        assert r[..filelen] == r[..buf.Length][..filelen];
      }
    }
  }

  /** The buffer is the name of the parent directory for the time of opening it;
      then the file name gets the first version. */
  method OpenDirectory(buffer: array<char>, filelen: nat, baseOffset: nat, canOpen: bool, outOfMemory: bool) returns (result: BackupResult)
    requires baseOffset <= filelen && filelen + 5 <= buffer.Length
    modifies buffer
    ensures Holds(buffer, old(buffer[..filelen]) + Suffix(1))
    ensures result == if !canOpen && outOfMemory then NoMem else IsNew
  {
    ghost var file := buffer[..filelen];
    result := IsNew;
    var tmp0, tmp1 := buffer[baseOffset], buffer[baseOffset + 1];
    buffer[baseOffset], buffer[baseOffset + 1] := '.', '\0';
    if !canOpen && outOfMemory {
      result := NoMem;
    }
    buffer[baseOffset], buffer[baseOffset + 1] := tmp0, tmp1;
    assert buffer[..filelen] == file;
    buffer[filelen], buffer[filelen + 1], buffer[filelen + 2], buffer[filelen + 3], buffer[filelen + 4] := '.', '~', '1', '~', '\0';
    assert Decimal(1) == "1";
    assert buffer[..filelen + 2] == file + ".~" && buffer[filelen + 2..filelen + 3] == "1";
    Assembled(buffer, file, 1, filelen + 2, filelen + 3);
  }

  /** One entry of the directory that is to replace what is in the buffer. */
  method Take(buf: array<char>, filelen: nat, e: string, start: nat, versionlen: nat, all9s: bool, memory: bool, ghost k: nat)
    returns (out: array?<char>, versionlenmax: nat, result: BackupResult)
    requires filelen < buf.Length
    requires start + versionlen + 1 == |e| && e[start + versionlen] == '~'
    requires k > 0 && e[start..start + versionlen] == Decimal(k) && all9s == AllNines(Decimal(k))
    modifies buf
    ensures out == null || out == buf || fresh(out)
    ensures out == null <==> !memory && buf.Length < filelen + 4 + |Decimal(k + 1)|
    ensures out == null ==> buf[..] == old(buf[..])
    ensures out != null ==> Holds(out, old(buf[..filelen]) + Suffix(k + 1)) && buf.Length <= out.Length
    ensures versionlenmax == |Decimal(k + 1)| && result == Verdict(k)
  {
    versionlenmax := (if all9s then 1 else 0) + versionlen;
    result := if all9s then IsLonger else IsSameLength;
    Successor(k);
    out := Grow(buf, filelen, versionlenmax, memory);
    if out != null {
      Append(out, filelen, e, start, versionlen, all9s, k);
    }
  }

  /** One entry; null when there is no memory for the longer name. */
  method Consider(buf: array<char>, filelen: nat, baseOffset: nat, versionlenmax: nat, result: BackupResult, e: string, memory: bool,
                  ghost base: string, ghost m: nat)
    returns (out: array?<char>, len: nat, verdict: BackupResult, ghost n: nat)
    requires baseOffset <= filelen <= buf.Length && CString(e)
    requires Holds(buf, buf[..filelen] + Suffix(m + 1)) && base == buf[baseOffset..filelen]
    requires versionlenmax == |Decimal(m + 1)| && result == Verdict(m)
    modifies buf
    ensures out == null || out == buf || fresh(out)
    ensures out == null <==> m < n && !memory && buf.Length < filelen + 4 + |Decimal(n + 1)|
    ensures out == null ==> buf[..] == old(buf[..])
    ensures out != null ==> buf.Length <= out.Length
    ensures out != null ==> Holds(out, old(buf[..filelen]) + Suffix(n + 1)) && len == |Decimal(n + 1)| && verdict == Verdict(n)
    ensures HigherOf(e, base, m, n)
  {
    out, len, verdict := buf, versionlenmax, result;
    var larger, versionlen, all9s;
    larger, versionlen, all9s, n := Larger(buf, filelen, baseOffset, versionlenmax, e, base, m);
    if larger {
      out, len, verdict := Take(buf, filelen, e, filelen - baseOffset + 2, versionlen, all9s, memory, n);
    }
  }

  lemma HighestStep(entries: seq<string>, j: nat, base: string, m: nat, n: nat)
    requires j < |entries| && Highest(entries[..j], base, m) && HigherOf(entries[j], base, m, n)
    ensures Highest(entries[..j + 1], base, n)
  {
  }

  lemma StillHolds(buf: array<char>, was: seq<char>, name: string)
    requires |name| < |was| && was[..|name|] == name && was[|name|] == '\0' && buf[..] == was
    ensures Holds(buf, name)
  {
    assert buf[..|name|] == buf[..][..|name|];
  }

  /** For want of memory, the entry is not taken: it is a version above m, and the
      name with the next one has no room in the buffer. */
  ghost predicate NoRoom(e: string, base: string, m: nat, filelen: nat, size: nat) {
    exists k: nat | k > m :: IsVersion(e, base, k) && size < filelen + 4 + |Decimal(k + 1)|
  }

  /** The loop over the entries of the directory, on a buffer with the first
      version. */
  method ScanEntries(buffer: array<char>, filelen: nat, baseOffset: nat, dir: seq<string>, memory: nat -> bool,
                     ghost file: string, ghost base: string)
    returns (result: BackupResult, out: array<char>, seen: nat, ghost m: nat)
    requires baseOffset <= filelen == |file| && base == file[baseOffset..] && Holds(buffer, file + Suffix(1))
    requires forall i | 0 <= i < |dir| :: CString(dir[i])
    modifies buffer
    ensures (out == buffer || fresh(out)) && buffer.Length <= out.Length
    ensures seen <= |dir| && Highest(dir[..seen], base, m) && Holds(out, file + Suffix(m + 1))
    ensures if result == NoMem then seen < |dir| && !memory(seen) && NoRoom(dir[seen], base, m, filelen, out.Length)
            else seen == |dir| && result == Verdict(m)
  {
    seen, m := 0, 0;
    result, out := IsNew, buffer;
    var versionlenmax := 1;
    while seen < |dir|
      invariant seen <= |dir| && Highest(dir[..seen], base, m)
      invariant (out == buffer || fresh(out)) && buffer.Length <= out.Length
      invariant Holds(out, file + Suffix(m + 1)) && versionlenmax == |Decimal(m + 1)|
      invariant result == Verdict(m)
      decreases |dir| - seen
    {
      HeldFile(out, file, baseOffset, m + 1);
      ghost var was := out[..];
      assert was[..|file + Suffix(m + 1)|] == file + Suffix(m + 1);
      var room, len, verdict, n := Consider(out, filelen, baseOffset, versionlenmax, result, dir[seen], memory(seen), base, m);
      if room == null {
        StillHolds(out, was, file + Suffix(m + 1));
        return NoMem, out, seen, m;
      }
      HighestStep(dir, seen, base, m, n);
      out, versionlenmax, result, m := room, len, verdict, n;
      seen := seen + 1;
    }
    assert dir[..seen] == dir;
  }

  /** numbered_backup on a buffer with the file name, before which the directory
      has not been scanned.  canOpen is false if the directory cannot be opened,
      outOfMemory if that was for want of memory; memory(i) tells whether irealloc
      succeeds, should it be called for entry i.

      Afterwards out holds the file name with the version after the highest one;
      when an allocation fails, the highest among the entries seen so far. */
  method NumberedBackup(buffer: array<char>, filelen: nat, baseOffset: nat, canOpen: bool, outOfMemory: bool, dir: seq<string>,
                        memory: nat -> bool)
    returns (result: BackupResult, out: array<char>, seen: nat, ghost m: nat)
    requires baseOffset <= filelen && filelen + 5 <= buffer.Length
    requires forall i | 0 <= i < |dir| :: CString(dir[i])
    modifies buffer
    ensures (out == buffer || fresh(out)) && buffer.Length <= out.Length
    ensures seen <= |dir| && Highest(dir[..seen], old(buffer[baseOffset..filelen]), m)
    ensures Holds(out, old(buffer[..filelen]) + Suffix(m + 1))
    ensures canOpen && result != NoMem ==>
              && seen == |dir| && result == Verdict(m)
              && (result == IsNew <==> m == 0) && (result == IsLonger <==> m > 0 && |Suffix(m + 1)| > |Suffix(m)|)
    ensures canOpen && result == NoMem ==>
              seen < |dir| && !memory(seen) && NoRoom(dir[seen], old(buffer[baseOffset..filelen]), m, filelen, out.Length)
    ensures !canOpen ==> seen == 0 && result == if outOfMemory then NoMem else IsNew
  {
    ghost var file, base := buffer[..filelen], buffer[baseOffset..filelen];
    seen, m := 0, 0;
    result := OpenDirectory(buffer, filelen, baseOffset, canOpen, outOfMemory);
    out := buffer;
    if canOpen {
      result, out, seen, m := ScanEntries(buffer, filelen, baseOffset, dir, memory, file, base);
    }
  }
}
