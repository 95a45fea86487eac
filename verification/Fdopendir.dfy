/**
  fdopendir by descriptor juggling: fill every free descriptor below fd with
  duplicates, close fd, and let opendir take the lowest free one, which is fd.
*/
module Fdopendir {
  import opened Wrappers

  /** What a descriptor refers to: an open file, or the stream of a directory. */
  datatype Handle = Opened(file: nat) | Stream(file: nat)

  /** An entry exists for every open descriptor. */
  type Descriptors = map<nat, Handle>

  /** The lowest free descriptor, if there is one below the limit. */
  function LowestFree(t: Descriptors, limit: nat, from: nat := 0): (r: Option<nat>)
    requires from <= limit && forall x | 0 <= x < from :: x in t
    ensures r.Some? ==> r.value < limit && r.value !in t && forall x | 0 <= x < r.value :: x in t
    ensures r.None? ==> forall x | 0 <= x < limit :: x in t
    decreases limit - from
  {
    if from == limit then None
    else if from in t then LowestFree(t, limit, from + 1)
    else Some(from)
  }

  /** How many descriptors below n are free. */
  function FreeBelow(t: Descriptors, n: nat): nat {
    if n == 0 then 0 else FreeBelow(t, n - 1) + if n - 1 in t then 0 else 1
  }

  lemma {:induction false} FillingOne(t: Descriptors, n: nat, d: nat, h: Handle)
    requires d !in t
    ensures FreeBelow(t[d := h], n) == FreeBelow(t, n) - if d < n then 1 else 0
  {
    if n > 0 {
      FillingOne(t, n - 1, d, h);
    }
  }

  /** A saved working directory: a descriptor on it, or its name. */
  datatype Saved = Descriptor(desc: nat) | Name(file: nat)

  /** What a call comes to.  The last three end the process: openat_save_fail
      because the wrong descriptor was freed, openat_save_fail because the working
      directory could not be saved, and openat_restore_fail. */
  datatype Result = OnStream(fd: nat) | NoStream(expectedErrno: bool) | WrongDescriptor | SaveFailed | RestoreFailed

  /** An answer of the system: errno is one that EXPECTED_ERRNO accepts, or not. */
  datatype Answer = Granted | Refused(expectedErrno: bool)

  /** What the system answers, should it be asked: to opendir by way of /proc; to
      open on "." and getcwd, when the working directory is saved; to fchdir, to
      opendir on ".", and to going back, by way of the working directory. */
  datatype System = System(proc: Answer, open: bool, getcwd: bool, fchdir: Answer, dot: Answer, restore: bool)

  /** opendir: the stream takes the lowest free descriptor. */
  function Opening(t: Descriptors, limit: nat, answer: Answer): Result {
    if answer.Refused? then NoStream(answer.expectedErrno)
    else
      match LowestFree(t, limit)
      case None => NoStream(false)
      case Some(d) => OnStream(d)
  }

  /** The stream is on fd, or the system has refused it. */
  function Attempt(sys: System, byCwd: bool, fd: nat): Result {
    if !byCwd then (if sys.proc.Granted? then OnStream(fd) else NoStream(sys.proc.expectedErrno))
    else if sys.fchdir.Refused? then NoStream(sys.fchdir.expectedErrno)
    else if !sys.restore then RestoreFailed
    else if sys.dot.Granted? then OnStream(fd)
    else NoStream(sys.dot.expectedErrno)
  }

  predicate Returns(r: Result) {
    r.OnStream? || r.NoStream?
  }

  /** A call on fd that returns puts a stream on fd itself or leaves the file that
      was there, and every other descriptor is as it was. */
  ghost predicate OnlyConsumes(before: Descriptors, after: Descriptors, fd: nat, r: Result)
    requires fd in before
  {
    && after.Keys == before.Keys
    && (forall d | d in before && d != fd :: after[d] == before[d])
    && (r.OnStream? ==> r.fd == fd && after[fd] == Stream(before[fd].file))
    && (r.NoStream? ==> after[fd].file == before[fd].file)
  }

  class Process {
    const limit: nat
    var table: Descriptors
    var cwd: nat  // the file that is the working directory

    ghost predicate Recorded(saved: Saved)
      reads this
    {
      match saved
      case Descriptor(d) => d in table && table[d].file == cwd
      case Name(file) => file == cwd
    }

    /** dup: the lowest free descriptor; EBADF or EMFILE otherwise. */
    method Dup(fd: nat) returns (r: Option<nat>)
      modifies this`table
      ensures r == if fd in old(table) then LowestFree(old(table), limit) else None
      ensures table == if r.Some? then old(table)[r.value := Opened(old(table)[fd].file)] else old(table)
    {
      r := None;
      if fd in table {
        r := LowestFree(table, limit);
      }
      if r.Some? {
        table := table[r.value := Opened(table[fd].file)];
      }
    }

    method Close(fd: nat)
      modifies this`table
      ensures table == old(table) - {fd}
    {
      table := table - {fd};
    }

    /** opendir of a file. */
    method Opendir(file: nat, answer: Answer) returns (r: Result)
      modifies this`table
      ensures r == Opening(old(table), limit, answer)
      ensures table == if r.OnStream? then old(table)[r.fd := Stream(file)] else old(table)
    {
      r := Opening(table, limit, answer);
      if r.OnStream? {
        table := table[r.fd := Stream(file)];
      }
    }

    /** save_cwd: a descriptor on the working directory, else its name. */
    method SaveCwd(sys: System) returns (r: Option<Saved>)
      modifies this`table
      ensures r == if sys.open && LowestFree(old(table), limit).Some? then Some(Descriptor(LowestFree(old(table), limit).value))
                   else if sys.getcwd then Some(Name(cwd)) else None
      ensures r.Some? ==> Recorded(r.value)
      ensures table == if r.Some? && r.value.Descriptor? then old(table)[r.value.desc := Opened(cwd)] else old(table)
    {
      var d := LowestFree(table, limit);
      if sys.open && d.Some? {
        table := table[d.value := Opened(cwd)];
        return Some(Descriptor(d.value));
      }
      if !sys.getcwd {
        return None;
      }
      r := Some(Name(cwd));
    }

    /** restore_cwd; ok is false when fchdir or chdir fails. */
    method RestoreCwd(saved: Saved, sys: System) returns (ok: bool)
      requires saved.Descriptor? ==> saved.desc in table
      modifies this`cwd
      ensures ok == sys.restore && (ok ==> Recorded(saved))
    {
      ok := sys.restore;
      if ok {
        cwd := match saved case Descriptor(d) => table[d].file case Name(file) => file;
      }
    }

    /** fd_clone_opendir: by way of /proc/self/fd, or of the working directory. */
    method CloneOpendir(fd: nat, saved: Option<Saved>, sys: System) returns (r: Result)
      requires fd in table && (saved.Some? ==> Recorded(saved.value))
      modifies this
      ensures r == if saved.None? then Opening(old(table), limit, sys.proc)
                   else if sys.fchdir.Refused? then NoStream(sys.fchdir.expectedErrno)
                   else if !sys.restore then RestoreFailed
                   else Opening(old(table), limit, sys.dot)
      ensures !r.RestoreFailed? ==> cwd == old(cwd)
      ensures r.OnStream? ==> table == old(table)[r.fd := Stream(old(table)[fd].file)]
      ensures r.NoStream? ==> table == old(table)
    {
      if saved == None {
        r := Opendir(table[fd].file, sys.proc);
      } else {
        if sys.fchdir.Refused? {
          return NoStream(sys.fchdir.expectedErrno);
        }
        cwd := table[fd].file;
        r := Opendir(cwd, sys.dot);
        var ok := RestoreCwd(saved.value, sys);
        if !ok {
          return RestoreFailed;
        }
      }
    }

    /** The end of the recursion in fdopendir_with_dup: fd is closed, in the hope
        that the stream, or else a duplicate, will be on it. */
    method CloseAndOpen(fd: nat, dupfd: nat, saved: Option<Saved>, sys: System) returns (r: Result)
      requires saved.Some? ==> Recorded(saved.value) && (saved.value.Descriptor? ==> saved.value.desc != fd)
      requires fd in table && dupfd in table && dupfd != fd && table[dupfd].file == table[fd].file
      requires LowestFree(table - {fd}, limit) == if fd < limit then Some(fd) else None
      modifies this
      ensures fd < limit ==> r == Attempt(sys, saved.Some?, fd)
      ensures fd >= limit ==> r == if Attempt(sys, saved.Some?, fd).RestoreFailed? then RestoreFailed else WrongDescriptor
      ensures Returns(r) ==> cwd == old(cwd) && OnlyConsumes(old(table), table, fd, r)
    {
      Close(fd);
      r := CloneOpendir(dupfd, saved, sys);
      if r.NoStream? {
        var fd1 := Dup(dupfd);
        if fd1 != Some(fd) {
          r := WrongDescriptor;
        }
      }
    }

    /** fdopendir_with_dup.  older is a duplicate of fd below fd - 1 that the
        caller will close.  The exit for a wrong descriptor is taken only when fd
        is not below the limit, and then if a duplicate could be made. */
    method WithDup(fd: nat, older: Option<nat>, saved: Option<Saved>, sys: System) returns (r: Result)
      requires saved.Some? ==> Recorded(saved.value) && (saved.value.Descriptor? ==> saved.value.desc != fd)
      requires older.Some? ==> older.value + 1 < fd && older.value in table && fd in table && table[older.value].file == table[fd].file
      modifies this
      ensures r == if fd !in old(table) || (older.None? && LowestFree(old(table), limit).None?) then NoStream(false)
                   else if fd < limit || Attempt(sys, saved.Some?, fd).RestoreFailed? then Attempt(sys, saved.Some?, fd)
                   else WrongDescriptor
      ensures fd !in old(table) ==> table == old(table)
      ensures Returns(r) ==> cwd == old(cwd)
      ensures Returns(r) && fd in old(table) ==> OnlyConsumes(old(table), table, fd, r)
      decreases FreeBelow(table, fd)
    {
      var dupfd := Dup(fd);
      if dupfd == None {
        dupfd := older;
      }
      if dupfd == None {
        return NoStream(false);
      }
      ghost var t0 := old(table);
      if dupfd.value + 1 < fd && dupfd != older {
        FillingOne(t0, fd, dupfd.value, Opened(t0[fd].file));
        r := WithDup(fd, dupfd, saved, sys);
      } else {
        AllFilled(t0, limit, fd, dupfd.value, table);
        r := CloseAndOpen(fd, dupfd.value, saved, sys);
      }
      if Returns(r) && dupfd != older {
        Close(dupfd.value);
      }
    }

    /** fdopendir: by way of /proc, and for want of that by way of the working
        directory. */
    method Fdopendir(fd: nat, sys: System) returns (r: Result)
      modifies this
      ensures r == Fdopened(old(table), limit, fd, sys)
      ensures fd !in old(table) ==> table == old(table)
      ensures Returns(r) ==> cwd == old(cwd)
      ensures Returns(r) && fd in old(table) ==> OnlyConsumes(old(table), table, fd, r)
    {
      r := WithDup(fd, None, None, sys);
      if r == NoStream(true) {
        SameFree(old(table), table, limit);
        var saved := SaveCwd(sys);
        if saved == None {
          return SaveFailed;
        }
        if saved.value.Descriptor? {
          SameFree(old(table)[saved.value.desc := Opened(0)], table, limit);
        }
        r := WithDup(fd, None, saved, sys);
        if saved.value.Descriptor? && Returns(r) {
          Close(saved.value.desc);
        }
      }
    }
  }

  /** What fdopendir comes to.  There must be a descriptor on fd, and room for a
      duplicate, each time; fd must be below the limit; the second attempt is made
      if the first ends in an expected errno, and decides then. */
  function Fdopened(t: Descriptors, limit: nat, fd: nat, sys: System): Result {
    if fd !in t || LowestFree(t, limit).None? then NoStream(false)
    else if fd >= limit then WrongDescriptor
    else if sys.proc != Refused(true) then Attempt(sys, false, fd)
    else if !sys.open && !sys.getcwd then SaveFailed
    else if sys.open && LowestFree(t[LowestFree(t, limit).value := Opened(0)], limit).None? then NoStream(false)
    else Attempt(sys, true, fd)
  }

  /** The process ends for a wrong descriptor only if fd is not below the limit.
      Where it is below and two more descriptors are free, the stream is on fd if
      opendir grants it by way of /proc; a refusal of another kind is final; after
      an expected errno the answers by way of the working directory decide. */
  lemma ExitsOfFdopendir(t: Descriptors, limit: nat, fd: nat, sys: System)
    requires fd in t
    ensures var r := Fdopened(t, limit, fd, sys);
            && (r.WrongDescriptor? <==> FreeBelow(t, limit) > 0 && fd >= limit)
            && (r.OnStream? ==> r.fd == fd)
    ensures fd < limit && FreeBelow(t, limit) >= 2 ==>
              var r := Fdopened(t, limit, fd, sys);
              && (sys.proc.Granted? ==> r == OnStream(fd))
              && (sys.proc == Refused(false) ==> r == NoStream(false))
              && (sys.proc == Refused(true) ==>
                    && (r == SaveFailed <==> !sys.open && !sys.getcwd)
                    && (r == RestoreFailed <==> (sys.open || sys.getcwd) && sys.fchdir.Granted? && !sys.restore)
                    && (r == OnStream(fd) <==> (sys.open || sys.getcwd) && sys.fchdir.Granted? && sys.restore && sys.dot.Granted?))
  {
    FreeIffSome(t, limit);
    var d := LowestFree(t, limit);
    if d.Some? {
      FillingOne(t, limit, d.value, Opened(0));
      FreeIffSome(t[d.value := Opened(0)], limit);
    }
  }

  lemma {:induction false} NoneBelow(t: Descriptors, n: nat)
    ensures FreeBelow(t, n) == 0 <==> forall x: nat | x < n :: x in t
  {
    if n > 0 {
      NoneBelow(t, n - 1);
    }
  }

  lemma FreeIffSome(t: Descriptors, limit: nat)
    ensures LowestFree(t, limit).Some? <==> FreeBelow(t, limit) > 0
  {
    NoneBelow(t, limit);
  }

  lemma SameFree(t: Descriptors, u: Descriptors, limit: nat)
    requires t.Keys == u.Keys
    ensures LowestFree(t, limit) == LowestFree(u, limit)
  {
    var a, b := LowestFree(t, limit), LowestFree(u, limit);
    assert forall x :: x in t <==> x in t.Keys;
    if a.Some? {
      assert a.value !in u;
    }
    if b.Some? {
      assert b.value !in t;
    }
  }

  /** When no more duplicates go below fd and fd is closed, it is the lowest free
      descriptor, if it is below the limit at all. */
  lemma AllFilled(t0: Descriptors, limit: nat, fd: nat, dupfd: nat, t1: Descriptors)
    requires fd in t0 && fd in t1 && dupfd in t1 && t0.Keys <= t1.Keys
    requires LowestFree(t0, limit).Some? ==> dupfd == LowestFree(t0, limit).value && fd <= dupfd + 1
    requires dupfd != fd
    ensures LowestFree(t1 - {fd}, limit) == if fd < limit then Some(fd) else None
  {
  }
}
