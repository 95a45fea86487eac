/**
  The encoding forms of Unicode: UTF-16 (sections 2.1 and 2.2 of RFC 2781) and
  UTF-32 in both byte orders, and UTF-8 (sections 3 and 4 of RFC 3629).
*/
module Unicode {

  type byte = x: int | 0 <= x < 256

  datatype Form = Utf8 | Utf16(bigEndian: bool) | Utf32(bigEndian: bool)

  predicate Surrogate(u: nat) {
    0xD800 <= u < 0xE000
  }

  predicate Scalar(u: nat) {
    u < 0x110000 && !Surrogate(u)
  }

  // ---------------------------------------------------------------------
  // Encoding

  function Unit16(w: nat, bigEndian: bool): seq<byte>
    requires w < 0x10000
  {
    if bigEndian then [w / 0x100, w % 0x100] else [w % 0x100, w / 0x100]
  }

  function Unit32(w: nat, bigEndian: bool): seq<byte>
    requires w < 0x1_0000_0000
  {
    if bigEndian then Unit16(w / 0x10000, true) + Unit16(w % 0x10000, true)
    else Unit16(w % 0x10000, false) + Unit16(w / 0x10000, false)
  }

  function Encode8(u: nat): seq<byte>
    requires Scalar(u)
  {
    if u < 0x80 then [u]
    else if u < 0x800 then [0xC0 + u / 0x40, 0x80 + u % 0x40]
    else if u < 0x10000 then [0xE0 + u / 0x1000, 0x80 + u / 0x40 % 0x40, 0x80 + u % 0x40]
    else [0xF0 + u / 0x40000, 0x80 + u / 0x1000 % 0x40, 0x80 + u / 0x40 % 0x40, 0x80 + u % 0x40]
  }

  /** The encoding of a scalar value. */
  function Encode(f: Form, u: nat): (r: seq<byte>)
    requires Scalar(u)
    ensures 1 <= |r| <= 4
  {
    match f
    case Utf8 => Encode8(u)
    case Utf16(be) =>
      if u < 0x10000 then Unit16(u, be)
      else Unit16(0xD800 + (u - 0x10000) / 0x400, be) + Unit16(0xDC00 + (u - 0x10000) % 0x400, be)
    case Utf32(be) => Unit32(u, be)
  }

  // ---------------------------------------------------------------------
  // Decoding

  datatype Decoded = Char(u: nat, m: nat) | Illegal | TooFew

  function Word16(b0: byte, b1: byte, bigEndian: bool): nat {
    if bigEndian then b0 * 0x100 + b1 else b1 * 0x100 + b0
  }

  function Decode16(s: seq<byte>, be: bool): Decoded {
    if |s| < 2 then TooFew
    else
      var w := Word16(s[0], s[1], be);
      if 0xDC00 <= w < 0xE000 then Illegal
      else if !Surrogate(w) then Char(w, 2)
      else if |s| < 4 then TooFew
      else
        var w2 := Word16(s[2], s[3], be);
        if 0xDC00 <= w2 < 0xE000 then Char(0x10000 + (w - 0xD800) * 0x400 + (w2 - 0xDC00), 4) else Illegal
  }

  function Decode32(s: seq<byte>, be: bool): Decoded {
    if |s| < 4 then TooFew
    else
      var u := if be then Word16(s[0], s[1], true) * 0x10000 + Word16(s[2], s[3], true)
               else Word16(s[2], s[3], false) * 0x10000 + Word16(s[0], s[1], false);
      if Scalar(u) then Char(u, 4) else Illegal
  }

  predicate Tail(b: byte) {
    0x80 <= b < 0xC0
  }

  /** What may follow the first byte; for E0, ED, F0 and F4 not every tail. */
  predicate Second(lead: byte, b: byte) {
    && Tail(b)
    && (lead == 0xE0 ==> b >= 0xA0) && (lead == 0xED ==> b < 0xA0)
    && (lead == 0xF0 ==> b >= 0x90) && (lead == 0xF4 ==> b < 0x90)
  }

  function Bits(b: byte, prefix: byte): nat
    requires prefix <= b
  {
    b - prefix
  }

  /** F5, F6 and F7 begin no character, but take a second byte to be found out;
      which verdict they have alone, the standard leaves open. */
  function Decode8(s: seq<byte>): Decoded {
    if |s| < 1 then TooFew
    else if s[0] < 0x80 then Char(s[0], 1)
    else if !(0xC2 <= s[0] < 0xF8) then Illegal
    else if |s| < 2 then TooFew
    else if s[0] > 0xF4 || !Second(s[0], s[1]) then Illegal
    else if s[0] < 0xE0 then Char(Bits(s[0], 0xC0) * 0x40 + Bits(s[1], 0x80), 2)
    else if |s| < 3 then TooFew
    else if !Tail(s[2]) then Illegal
    else if s[0] < 0xF0 then Char(Bits(s[0], 0xE0) * 0x1000 + Bits(s[1], 0x80) * 0x40 + Bits(s[2], 0x80), 3)
    else if |s| < 4 then TooFew
    else if !Tail(s[3]) then Illegal
    else Char(Bits(s[0], 0xF0) * 0x40000 + Bits(s[1], 0x80) * 0x1000 + Bits(s[2], 0x80) * 0x40 + Bits(s[3], 0x80), 4)
  }

  function Decode(f: Form, s: seq<byte>): (r: Decoded)
    ensures r.Char? ==> Scalar(r.u) && 0 < r.m <= |s|
  {
    match f
    case Utf8 => Decode8(s)
    case Utf16(be) => Decode16(s, be)
    case Utf32(be) => Decode32(s, be)
  }

  // ---------------------------------------------------------------------
  // Mutual inverses

  lemma SplitWord(w: nat)
    requires w < 0x10000
    ensures Word16(w / 0x100, w % 0x100, true) == w && Word16(w % 0x100, w / 0x100, false) == w
  {
  }

  lemma JoinBytes(b0: byte, b1: byte, be: bool)
    ensures Word16(b0, b1, be) < 0x10000 && Unit16(Word16(b0, b1, be), be) == [b0, b1]
  {
  }

  /** Six bits at a time. */
  lemma Base64(u: nat)
    ensures u / 0x1000 == u / 0x40 / 0x40 && u / 0x40000 == u / 0x1000 / 0x40
    ensures u == u / 0x40 * 0x40 + u % 0x40
    ensures u == u / 0x1000 * 0x1000 + u / 0x40 % 0x40 * 0x40 + u % 0x40
    ensures u == u / 0x40000 * 0x40000 + u / 0x1000 % 0x40 * 0x1000 + u / 0x40 % 0x40 * 0x40 + u % 0x40
  {
  }

  lemma DecodeEncode8(u: nat, rest: seq<byte>)
    requires Scalar(u)
    ensures Decode8(Encode8(u) + rest) == Char(u, |Encode8(u)|)
  {
    Base64(u);
    var s := Encode8(u) + rest;
    if u < 0x80 {
      assert s[0] == u;
    } else if u < 0x800 {
      assert s[0] == 0xC0 + u / 0x40 && s[1] == 0x80 + u % 0x40;
    } else if u < 0x10000 {
      assert s[0] == 0xE0 + u / 0x1000 && s[1] == 0x80 + u / 0x40 % 0x40 && s[2] == 0x80 + u % 0x40;
    } else {
      assert s[0] == 0xF0 + u / 0x40000 && s[1] == 0x80 + u / 0x1000 % 0x40 && s[2] == 0x80 + u / 0x40 % 0x40 && s[3] == 0x80 + u % 0x40;
    }
  }

  lemma DecodeEncode16(u: nat, be: bool, rest: seq<byte>)
    requires Scalar(u)
    ensures Decode16(Encode(Utf16(be), u) + rest, be) == Char(u, |Encode(Utf16(be), u)|)
  {
    if u < 0x10000 {
      SplitWord(u);
    } else {
      var w, w2 := 0xD800 + (u - 0x10000) / 0x400, 0xDC00 + (u - 0x10000) % 0x400;
      SplitWord(w);
      SplitWord(w2);
      var s := Encode(Utf16(be), u) + rest;
      assert Word16(s[0], s[1], be) == w && Word16(s[2], s[3], be) == w2;
    }
  }

  lemma DecodeEncode32(u: nat, be: bool, rest: seq<byte>)
    requires Scalar(u)
    ensures Decode32(Encode(Utf32(be), u) + rest, be) == Char(u, |Encode(Utf32(be), u)|)
  {
  }

  /** Decoding an encoded scalar gives it back, whatever follows. */
  lemma DecodeEncode(f: Form, u: nat, rest: seq<byte>)
    requires Scalar(u)
    ensures Decode(f, Encode(f, u) + rest) == Char(u, |Encode(f, u)|)
  {
    match f
    case Utf8 => DecodeEncode8(u, rest);
    case Utf16(be) => DecodeEncode16(u, be, rest);
    case Utf32(be) => DecodeEncode32(u, be, rest);
  }

  /** The same, put together. */
  lemma Join64(a: nat, b: nat, c: nat, d: nat)
    requires b < 0x40 && c < 0x40 && d < 0x40
    ensures var u := a * 0x40000 + b * 0x1000 + c * 0x40 + d;
            && u % 0x40 == d && u / 0x40 % 0x40 == c && u / 0x1000 % 0x40 == b && u / 0x40000 == a
            && u / 0x1000 == a * 0x40 + b && u / 0x40 == a * 0x1000 + b * 0x40 + c
  {
  }

  lemma EncodeDecode8(s: seq<byte>)
    requires Decode8(s).Char?
    ensures Encode8(Decode8(s).u) == s[..Decode8(s).m]
  {
    if 0xC2 <= s[0] < 0xE0 {
      Join64(0, 0, Bits(s[0], 0xC0), Bits(s[1], 0x80));
    } else if 0xE0 <= s[0] < 0xF0 {
      Join64(0, Bits(s[0], 0xE0), Bits(s[1], 0x80), Bits(s[2], 0x80));
    } else if 0xF0 <= s[0] {
      Join64(Bits(s[0], 0xF0), Bits(s[1], 0x80), Bits(s[2], 0x80), Bits(s[3], 0x80));
    }
  }

  lemma EncodeDecode16(s: seq<byte>, be: bool)
    requires Decode16(s, be).Char?
    ensures var d := Decode16(s, be); Scalar(d.u) && Encode(Utf16(be), d.u) == s[..d.m]
  {
    var u := Decode16(s, be).u;
    JoinBytes(s[0], s[1], be);
    if u >= 0x10000 {
      JoinBytes(s[2], s[3], be);
      assert (u - 0x10000) / 0x400 == Word16(s[0], s[1], be) - 0xD800;
      assert s[..4] == [s[0], s[1]] + [s[2], s[3]];
    }
  }

  lemma EncodeDecode32(s: seq<byte>, be: bool)
    requires Decode32(s, be).Char?
    ensures Encode(Utf32(be), Decode32(s, be).u) == s[..4]
  {
    var u := Decode32(s, be).u;
    JoinBytes(s[0], s[1], be);
    JoinBytes(s[2], s[3], be);
    assert u / 0x10000 == if be then Word16(s[0], s[1], be) else Word16(s[2], s[3], be);
    assert s[..4] == [s[0], s[1]] + [s[2], s[3]];
  }

  /** Encoding what was decoded gives the bytes back. */
  lemma EncodeDecode(f: Form, s: seq<byte>)
    requires Decode(f, s).Char?
    ensures Encode(f, Decode(f, s).u) == s[..Decode(f, s).m]
  {
    match f
    case Utf8 => EncodeDecode8(s);
    case Utf16(be) => EncodeDecode16(s, be);
    case Utf32(be) => EncodeDecode32(s, be);
  }

  /** More bytes change the verdict only if there were too few. */
  lemma VerdictIsStable(f: Form, s: seq<byte>, t: seq<byte>)
    ensures Decode(f, s) != TooFew ==> Decode(f, s + t) == Decode(f, s)
  {
    assert |s| >= 2 ==> (s + t)[0] == s[0] && (s + t)[1] == s[1];
    assert |s| >= 4 ==> (s + t)[2] == s[2] && (s + t)[3] == s[3];
  }

  /** What begins the encoding of a scalar and is not all of it has too few
      bytes. */
  lemma ProperPrefixIsTooFew(f: Form, u: nat, k: nat)
    requires Scalar(u) && k < |Encode(f, u)|
    ensures Decode(f, Encode(f, u)[..k]) == TooFew
  {
    var e := Encode(f, u);
    DecodeEncode(f, u, []);
    assert e + [] == e == e[..k] + e[k..];
    VerdictIsStable(f, e[..k], e[k..]);
  }

  // ---------------------------------------------------------------------
  // Too few for what?

  /** Bytes that begin no character, which their number does not tell. */
  predicate DeadEnd(f: Form, s: seq<byte>) {
    match f
    case Utf8 => |s| == 1 && 0xF5 <= s[0] < 0xF8
    case Utf16(be) =>
      be && if |s| == 3 then 0xD8 <= s[0] < 0xDC && !(0xDC <= s[2] < 0xE0) else |s| == 1 && 0xDC <= s[0] < 0xE0
    case Utf32(true) =>
      1 <= |s| < 4 && (s[0] != 0 || (|s| > 1 && s[1] > 0x10) || (|s| == 3 && s[1] == 0 && 0xD8 <= s[2] < 0xE0))
    case Utf32(false) => |s| == 3 && (s[2] > 0x10 || (s[2] == 0 && 0xD8 <= s[1] < 0xE0))
  }

  /** What makes s whole. */
  function Completion(f: Form, s: seq<byte>): seq<byte>
    requires s != []
  {
    match f
    case Utf8 => Completion8(s)
    case Utf16(true) =>
      if |s| == 2 then [0xDC, 0] else if |s| == 1 && 0xD8 <= s[0] < 0xDC then [0, 0xDC, 0] else [0]
    case Utf16(false) => if |s| == 1 then [0] else if |s| == 2 then [0, 0xDC] else [0xDC]
    case Utf32(be) => if |s| == 1 then [0, 0, 0] else if |s| == 3 then [0] else if be then [0, 0] else [1, 0]
  }

  function Completion8(s: seq<byte>): seq<byte>
    requires s != []
  {
    var second: byte := if s[0] == 0xE0 then 0xA0 else if s[0] == 0xF0 then 0x90 else 0x80;
    var length := if s[0] < 0xE0 then 2 else if s[0] < 0xF0 then 3 else 4;
    if |s| == 1 then [second] + [0x80, 0x80][..length - 2]
    else [0x80, 0x80][..if |s| < length then length - |s| else 0]
  }

  lemma Completes8(s: seq<byte>)
    requires s != [] && Decode8(s) == TooFew && !DeadEnd(Utf8, s)
    ensures Decode8(s + Completion8(s)).Char? && Decode8(s + Completion8(s)).m == |s + Completion8(s)|
  {
    assert forall i | 0 <= i < |s| :: (s + Completion8(s))[i] == s[i];
  }

  lemma Completes16(s: seq<byte>, be: bool)
    requires s != [] && Decode16(s, be) == TooFew && !DeadEnd(Utf16(be), s)
    ensures var whole := s + Completion(Utf16(be), s); Decode16(whole, be).Char? && Decode16(whole, be).m == |whole|
  {
  }

  lemma Completes32(s: seq<byte>, be: bool)
    requires s != [] && Decode32(s, be) == TooFew && !DeadEnd(Utf32(be), s)
    ensures var whole := s + Completion(Utf32(be), s); Decode32(whole, be).Char? && Decode32(whole, be).m == |whole|
  {
  }

  /** Too few bytes, and no dead end, are made whole by some more. */
  lemma Completes(f: Form, s: seq<byte>)
    requires s != [] && Decode(f, s) == TooFew && !DeadEnd(f, s)
    ensures Decode(f, s + Completion(f, s)).Char? && Decode(f, s + Completion(f, s)).m == |s + Completion(f, s)|
  {
    match f
    case Utf8 => Completes8(s);
    case Utf16(be) => Completes16(s, be);
    case Utf32(be) => Completes32(s, be);
  }

  /** No bytes behind a dead end make a character. */
  lemma DeadEndStays(f: Form, s: seq<byte>, t: seq<byte>)
    requires DeadEnd(f, s)
    ensures Decode(f, s) == TooFew && !Decode(f, s + t).Char?
  {
    assert forall i | 0 <= i < |s| :: (s + t)[i] == s[i];
  }

  /** The verdict that there are too few bytes is wrong, since nothing that may
      follow makes a character of them, exactly at the dead ends. */
  lemma TooFewIsWrongExactlyWhen(f: Form, s: seq<byte>)
    requires s != []
    ensures (Decode(f, s) == TooFew && forall t :: !Decode(f, s + t).Char?) <==> DeadEnd(f, s)
  {
    if DeadEnd(f, s) {
      forall t ensures !Decode(f, s + t).Char? {
        DeadEndStays(f, s, t);
      }
      DeadEndStays(f, s, []);
    } else if Decode(f, s) == TooFew {
      Completes(f, s);
    }
  }

  /** A lone F5 has too few bytes, and with any byte behind it is illegal. */
  lemma LoneF5Example(b: byte)
    ensures Decode(Utf8, [0xF5]) == TooFew && Decode(Utf8, [0xF5, b]) == Illegal
  {
  }

  /** When there are too few bytes.  In UTF-8: if they begin some encoding and are not
      all of it, or are a lone F5, F6 or F7; any other bytes that begin no character
      are illegal. */
  lemma TooFewMeans8(s: seq<byte>)
    ensures Decode(Utf8, s) == TooFew <==>
              s in {[0xF5], [0xF6], [0xF7]} || exists u: nat | Scalar(u) :: |s| < |Encode8(u)| && s == Encode8(u)[..|s|]
  {
    if s == [] {
      assert Scalar(0) && Encode8(0)[..0] == s;
    } else if exists u: nat | Scalar(u) :: |s| < |Encode8(u)| && s == Encode8(u)[..|s|] {
      var u: nat :| Scalar(u) && |s| < |Encode8(u)| && s == Encode8(u)[..|s|];
      ProperPrefixIsTooFew(Utf8, u, |s|);
    } else if DeadEnd(Utf8, s) {
      assert s == [s[0]];
    } else if Decode8(s) == TooFew {
      var u := Begun8(s);
    }
  }

  lemma Begun8(s: seq<byte>) returns (u: nat)
    requires s != [] && Decode8(s) == TooFew && !DeadEnd(Utf8, s)
    ensures Scalar(u) && |s| < |Encode8(u)| && s == Encode8(u)[..|s|]
  {
    Completes8(s);
    var whole := s + Completion8(s);
    EncodeDecode(Utf8, whole);
    u := Decode8(whole).u;
    assert whole[..|whole|] == whole == Encode8(u) && whole[..|s|] == s;
    assert Completion8(s) != [] by {
      assert s + [] == s;
    }
  }

  /** In UTF-16: fewer than two, or fewer than four with the first unit of a pair.
      In UTF-32: fewer than four. */
  lemma TooFewMeansElsewhere(s: seq<byte>, bigEndian: bool)
    ensures Decode(Utf16(bigEndian), s) == TooFew <==>
              |s| < 2 || (|s| < 4 && 0xD8 <= s[if bigEndian then 0 else 1] < 0xDC)
    ensures Decode(Utf32(bigEndian), s) == TooFew <==> |s| < 4
  {
  }
}
