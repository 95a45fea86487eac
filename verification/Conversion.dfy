/**
  What it is to convert bytes from one encoding form to another with a limited
  room for the result, and how a conversion in pieces relates to a conversion at
  one go.
*/
module Conversion {
  import opened Basics
  import opened Unicode

  ghost predicate Scalars(us: seq<nat>) {
    forall i | 0 <= i < |us| :: Scalar(us[i])
  }

  ghost function EncodeAll(f: Form, us: seq<nat>): seq<byte>
    requires Scalars(us)
  {
    if us == [] then [] else Encode(f, us[0]) + EncodeAll(f, us[1..])
  }

  lemma {:induction false} EncodeAllAppend(f: Form, us: seq<nat>, vs: seq<nat>)
    requires Scalars(us) && Scalars(vs)
    ensures Scalars(us + vs) && EncodeAll(f, us + vs) == EncodeAll(f, us) + EncodeAll(f, vs)
  {
    if us == [] {
      assert us + vs == vs;
    } else {
      assert (us + vs)[0] == us[0] && (us + vs)[1..] == us[1..] + vs;
      EncodeAllAppend(f, us[1..], vs);
      Associate(Encode(f, us[0]), EncodeAll(f, us[1..]), EncodeAll(f, vs));
    }
  }

  lemma EncodeOne(f: Form, u: nat)
    requires Scalar(u)
    ensures Scalars([u]) && EncodeAll(f, [u]) == Encode(f, u)
  {
  }

  // ---------------------------------------------------------------------
  // Conversion

  datatype Status = Done | IllegalInput | Incomplete | TooBig

  /** Why a conversion stops in front of the rest with this much room left. */
  ghost predicate Stops(from: Form, to: Form, rest: seq<byte>, left: nat, status: Status) {
    match status
    case Done => rest == []
    case IllegalInput => rest != [] && Decode(from, rest) == Illegal
    case Incomplete => rest != [] && Decode(from, rest) == TooFew
    case TooBig => rest != [] && Decode(from, rest).Char? && |Encode(to, Decode(from, rest).u)| > left
  }

  /** Converting s means to convert the scalars us, which s encodes at its
      beginning, and to stop for the reason given. */
  ghost predicate Converts(from: Form, to: Form, s: seq<byte>, room: nat, us: seq<nat>, status: Status) {
    && Scalars(us)
    && EncodeAll(from, us) <= s && |EncodeAll(to, us)| <= room
    && Stops(from, to, s[|EncodeAll(from, us)|..], room - |EncodeAll(to, us)|, status)
  }

  /** If the first of us is converted, so are the others, in what follows. */
  lemma ConvertsTail(from: Form, to: Form, s: seq<byte>, room: nat, us: seq<nat>, status: Status)
    returns (u: nat, rest: seq<byte>, left: nat)
    requires Converts(from, to, s, room, us, status) && us != []
    ensures u == us[0] && Scalar(u) && Decode(from, s) == Char(u, |Encode(from, u)|)
    ensures |Encode(from, u)| <= |s| && rest == s[|Encode(from, u)|..] && left == room - |Encode(to, u)|
    ensures Converts(from, to, rest, left, us[1..], status)
  {
    u := us[0];
    rest, left := s[|Encode(from, u)|..], room - |Encode(to, u)|;
    CutPrefix(Encode(from, u), EncodeAll(from, us[1..]), s);
    DecodeEncode(from, u, rest);
  }

  lemma CutPrefix(a: seq<byte>, b: seq<byte>, s: seq<byte>)
    requires a + b <= s
    ensures s == a + s[|a|..] && b <= s[|a|..] && s[|a|..][|b|..] == s[|a + b|..]
  {
    assert s[..|a + b|] == a + b;
  }

  /** Stopping at once leaves nothing else to do. */
  lemma ConvertsNothing(from: Form, to: Form, s: seq<byte>, room: nat, st1: Status, vs: seq<nat>, st2: Status)
    requires Converts(from, to, s, room, [], st1) && Converts(from, to, s, room, vs, st2)
    ensures vs == [] && st1 == st2
  {
    assert s[0..] == s;
    if vs != [] {
      var _, _, _ := ConvertsTail(from, to, s, room, vs, st2);
    }
  }

  /** What is converted, and why the conversion stops, is determined. */
  lemma {:induction false} ConvertsOneWay(from: Form, to: Form, s: seq<byte>, room: nat, us: seq<nat>, st1: Status, vs: seq<nat>, st2: Status)
    requires Converts(from, to, s, room, us, st1) && Converts(from, to, s, room, vs, st2)
    ensures us == vs && st1 == st2
    decreases |us|
  {
    if us == [] {
      ConvertsNothing(from, to, s, room, st1, vs, st2);
    } else if vs == [] {
      ConvertsNothing(from, to, s, room, st2, us, st1);
    } else {
      var u, rest, left := ConvertsTail(from, to, s, room, us, st1);
      var v, rest', left' := ConvertsTail(from, to, s, room, vs, st2);
      assert u == v && rest == rest' && left == left';
      ConvertsOneWay(from, to, rest, left, us[1..], st1, vs[1..], st2);
      SameSeq(us, vs);
    }
  }

  lemma SameSeq(us: seq<nat>, vs: seq<nat>)
    requires us != [] && vs != [] && us[0] == vs[0] && us[1..] == vs[1..]
    ensures us == vs
  {
  }

  /** A sequence of bytes encodes at most one sequence of scalars. */
  lemma UniquelyDecodable(f: Form, us: seq<nat>, vs: seq<nat>)
    requires Scalars(us) && Scalars(vs) && EncodeAll(f, us) == EncodeAll(f, vs)
    ensures us == vs
  {
    var s := EncodeAll(f, us);
    assert s[|s|..] == [];
    ConvertsOneWay(f, f, s, |s|, us, Done, vs, Done);
  }

  lemma Pieces(s: seq<byte>, t: seq<byte>, a: seq<byte>, b: seq<byte>)
    requires a <= s && b <= s[|a|..] + t
    ensures a + b <= s + t && (s + t)[|a + b|..] == (s[|a|..] + t)[|b|..]
  {
  }

  /** Going on where a call has stopped, with what is left of the input, more
      input and more room, equals one call with all of these. */
  lemma GoOn(from: Form, to: Form, s: seq<byte>, room: nat, us: seq<nat>, st: Status, t: seq<byte>, more: nat, vs: seq<nat>, status: Status)
    requires Converts(from, to, s, room, us, st)
    requires Converts(from, to, s[|EncodeAll(from, us)|..] + t, more, vs, status)
    ensures Converts(from, to, s + t, |EncodeAll(to, us)| + more, us + vs, status)
  {
    EncodeAllAppend(from, us, vs);
    EncodeAllAppend(to, us, vs);
    Pieces(s, t, EncodeAll(from, us), EncodeAll(from, vs));
  }

  /** Resuming a call. */
  lemma Resume(from: Form, to: Form, s: seq<byte>, room: nat, us: seq<nat>, st: Status, more: nat, vs: seq<nat>, status: Status)
    requires Converts(from, to, s, room, us, st)
    requires Converts(from, to, s[|EncodeAll(from, us)|..], more, vs, status)
    ensures Converts(from, to, s, |EncodeAll(to, us)| + more, us + vs, status)
  {
    var rest := s[|EncodeAll(from, us)|..];
    assert s + [] == s && rest + [] == rest;
    GoOn(from, to, s, room, us, st, [], more, vs, status);
  }

  lemma MoreRoom(from: Form, to: Form, s: seq<byte>, room: nat, more: nat, us: seq<nat>, status: Status)
    requires Converts(from, to, s, room, us, status) && status != TooBig && room <= more
    ensures Converts(from, to, s, more, us, status)
  {
  }

  /** A call that stops for want of room and the call that resumes it convert
      together what one call with enough room converts. */
  lemma InTwoCalls(from: Form, to: Form, s: seq<byte>, room: nat, us: seq<nat>, more: nat, vs: seq<nat>, status: Status,
                   enough: nat, ws: seq<nat>, whole: Status)
    requires Converts(from, to, s, room, us, TooBig)
    requires Converts(from, to, s[|EncodeAll(from, us)|..], more, vs, status) && status != TooBig
    requires Converts(from, to, s, enough, ws, whole) && whole != TooBig
    ensures ws == us + vs && whole == status
  {
    var total := |EncodeAll(to, us)| + more;
    var most := if total < enough then enough else total;
    Resume(from, to, s, room, us, TooBig, more, vs, status);
    MoreRoom(from, to, s, total, most, us + vs, status);
    MoreRoom(from, to, s, enough, most, ws, whole);
    ConvertsOneWay(from, to, s, most, us + vs, status, ws, whole);
  }

  /** Input that comes in pieces: what was left over at the end of one piece, put
      in front of the next, is converted as if they had come together. */
  lemma MoreInput(from: Form, to: Form, s: seq<byte>, room: nat, us: seq<nat>, st: Status, t: seq<byte>, vs: seq<nat>, status: Status)
    requires Converts(from, to, s, room, us, st)
    requires Converts(from, to, s[|EncodeAll(from, us)|..] + t, room - |EncodeAll(to, us)|, vs, status)
    ensures Converts(from, to, s + t, room, us + vs, status)
  {
    GoOn(from, to, s, room, us, st, t, room - |EncodeAll(to, us)|, vs, status);
  }

  lemma Extend(s: seq<byte>, t: seq<byte>, e: seq<byte>)
    requires e <= s
    ensures e <= s + t && (s + t)[|e|..] == s[|e|..] + t
  {
  }

  lemma StillStops(from: Form, to: Form, rest: seq<byte>, left: nat, st: Status, t: seq<byte>)
    requires Stops(from, to, rest, left, st) && (st == IllegalInput || st == TooBig)
    ensures Stops(from, to, rest + t, left, st)
  {
    VerdictIsStable(from, rest, t);
  }

  /** A call that has stopped at an illegal sequence, or for want of room, has
      converted what it would have converted with more input. */
  lemma MoreInputIsNoHelp(from: Form, to: Form, s: seq<byte>, room: nat, us: seq<nat>, st: Status, t: seq<byte>)
    requires Converts(from, to, s, room, us, st) && (st == IllegalInput || st == TooBig)
    ensures Converts(from, to, s + t, room, us, st)
  {
    Extend(s, t, EncodeAll(from, us));
    StillStops(from, to, s[|EncodeAll(from, us)|..], room - |EncodeAll(to, us)|, st, t);
  }

  /** Converting there and back again. */
  lemma ThereAndBack(from: Form, to: Form, s: seq<byte>, room: nat, us: seq<nat>, room2: nat)
    requires Converts(from, to, s, room, us, Done) && room2 >= |s|
    ensures Converts(to, from, EncodeAll(to, us), room2, us, Done) && EncodeAll(from, us) == s
  {
  }

  /** A conversion of us that stops for want of input can go on with t. */
  ghost predicate GoesOn(from: Form, to: Form, s: seq<byte>, us: seq<nat>, t: seq<byte>, room: nat, u: nat) {
    Converts(from, to, s + t, room, us + [u], Done)
  }

  /** A call that has stopped because the input is incomplete promises that some
      more input makes one more character; that holds exactly if what is left is
      no dead end. */
  lemma IncompleteGoesOnExactlyWhen(from: Form, to: Form, s: seq<byte>, room: nat, us: seq<nat>)
    requires Converts(from, to, s, room, us, Incomplete)
    ensures (exists t, more, u :: GoesOn(from, to, s, us, t, more, u)) <==> !DeadEnd(from, s[|EncodeAll(from, us)|..])
  {
    var rest := s[|EncodeAll(from, us)|..];
    if DeadEnd(from, rest) {
      forall t, more, u
        ensures !GoesOn(from, to, s, us, t, more, u)
      {
        if GoesOn(from, to, s, us, t, more, u) {
          DeadEndIsNoCharacter(from, to, s, us, t, more, u);
        }
      }
    } else {
      Completes(from, rest);
      var t := Completion(from, rest);
      var u := Decode(from, rest + t).u;
      EncodeDecode(from, rest + t);
      EncodeOne(from, u);
      EncodeOne(to, u);
      assert (rest + t)[..|rest + t|] == rest + t;
      GoOn(from, to, s, room, us, Incomplete, t, |Encode(to, u)|, [u], Done);
      assert GoesOn(from, to, s, us, t, |EncodeAll(to, us)| + |Encode(to, u)|, u);
    }
  }

  lemma DeadEndIsNoCharacter(from: Form, to: Form, s: seq<byte>, us: seq<nat>, t: seq<byte>, room: nat, u: nat)
    requires Scalars(us) && EncodeAll(from, us) <= s && GoesOn(from, to, s, us, t, room, u)
    ensures !DeadEnd(from, s[|EncodeAll(from, us)|..])
  {
    var k := |EncodeAll(from, us)|;
    assert Scalar((us + [u])[|us|]);
    EncodeAllAppend(from, us, [u]);
    EncodeOne(from, u);
    CutPrefix(EncodeAll(from, us), Encode(from, u), s + t);
    assert (s + t)[k..] == s[k..] + t;
    DecodeEncode(from, u, (s[k..] + t)[|Encode(from, u)|..]);
    assert s[k..] + t == Encode(from, u) + (s[k..] + t)[|Encode(from, u)|..];
    if DeadEnd(from, s[k..]) {
      DeadEndStays(from, s[k..], t);
    }
  }
}
