/**
  The UTF-16 and UTF-32 converters of rpl_iconv, the UTF-8 converters it calls,
  and its two conversion loops.
*/
module Iconv {
  import opened Wrappers
  import opened Unicode
  import opened Conversion

  const RET_ILSEQ := -1
  const RET_TOOFEW := -2
  const RET_ILUNI := -1
  const RET_TOOSMALL := -2

  datatype Errno = EILSEQ | EINVAL | E2BIG

  /** What an xxx_mbtowc function returns and stores. */
  predicate Reports(d: Decoded, r: int, pwc: nat) {
    match d
    case Char(u, m) => r == m && pwc == u
    case Illegal => r == RET_ILSEQ
    case TooFew => r == RET_TOOFEW
  }

  /** What an xxx_wctomb function returns. */
  function Fits(f: Form, wc: nat, n: nat): int {
    if !Scalar(wc) then RET_ILUNI
    else if |Encode(f, wc)| > n then RET_TOOSMALL
    else |Encode(f, wc)|
  }

  function Splice(b: seq<byte>, off: nat, e: seq<byte>): seq<byte>
    requires off + |e| <= |b|
  {
    b[..off] + e + b[off + |e|..]
  }

  /** The buffer after a call of an xxx_wctomb function. */
  function Stored(f: Form, b: seq<byte>, off: nat, wc: nat, n: nat): seq<byte>
    requires off + n <= |b|
  {
    if Fits(f, wc, n) > 0 then Splice(b, off, Encode(f, wc)) else b
  }

  /** A cast to unsigned char. */
  function Byte(x: nat): byte {
    x % 0x100
  }

  // ---------------------------------------------------------------------
  // Decoders

  method Utf16beMbtowc(s: seq<byte>) returns (r: int, pwc: nat)
    ensures Reports(Decode(Utf16(true), s), r, pwc)
  {
    pwc := 0;
    if |s| >= 2 {
      var wc: nat := s[0] as int * 0x100 + s[1];
      if 0xD800 <= wc < 0xDC00 {
        if |s| >= 4 {
          var wc2: nat := s[2] as int * 0x100 + s[3];
          if !(0xDC00 <= wc2 < 0xE000) {
            return RET_ILSEQ, pwc;
          }
          return 4, 0x10000 + (wc - 0xD800) * 0x400 + (wc2 - 0xDC00);
        }
      } else if 0xDC00 <= wc < 0xE000 {
        return RET_ILSEQ, pwc;
      } else {
        return 2, wc;
      }
    }
    return RET_TOOFEW, pwc;
  }

  method Utf16leMbtowc(s: seq<byte>) returns (r: int, pwc: nat)
    ensures Reports(Decode(Utf16(false), s), r, pwc)
  {
    pwc := 0;
    if |s| >= 2 {
      var wc: nat := s[0] + s[1] as int * 0x100;
      if 0xD800 <= wc < 0xDC00 {
        if |s| >= 4 {
          var wc2: nat := s[2] + s[3] as int * 0x100;
          if !(0xDC00 <= wc2 < 0xE000) {
            return RET_ILSEQ, pwc;
          }
          return 4, 0x10000 + (wc - 0xD800) * 0x400 + (wc2 - 0xDC00);
        }
      } else if 0xDC00 <= wc < 0xE000 {
        return RET_ILSEQ, pwc;
      } else {
        return 2, wc;
      }
    }
    return RET_TOOFEW, pwc;
  }

  method Utf32beMbtowc(s: seq<byte>) returns (r: int, pwc: nat)
    ensures Reports(Decode(Utf32(true), s), r, pwc)
  {
    pwc := 0;
    if |s| >= 4 {
      var wc: nat := s[0] as int * 0x100_0000 + s[1] as int * 0x10000 + s[2] as int * 0x100 + s[3];
      if wc < 0x110000 && !(0xD800 <= wc < 0xE000) {
        return 4, wc;
      } else {
        return RET_ILSEQ, pwc;
      }
    }
    return RET_TOOFEW, pwc;
  }

  method Utf32leMbtowc(s: seq<byte>) returns (r: int, pwc: nat)
    ensures Reports(Decode(Utf32(false), s), r, pwc)
  {
    pwc := 0;
    if |s| >= 4 {
      var wc: nat := s[0] + s[1] as int * 0x100 + s[2] as int * 0x10000 + s[3] as int * 0x100_0000;
      if wc < 0x110000 && !(0xD800 <= wc < 0xE000) {
        return 4, wc;
      } else {
        return RET_ILSEQ, pwc;
      }
    }
    return RET_TOOFEW, pwc;
  }

  /** b ^ 0x80. */
  function Flip(b: byte): byte {
    if b < 0x80 then b + 0x80 else b - 0x80
  }

  /** The branch of u8_mbtoucr for leads below E0. */
  method TwoBytes(s: seq<byte>) returns (r: int, uc: nat)
    requires s != [] && 0xC2 <= s[0] < 0xE0
    ensures Reports(Decode(Utf8, s), r, uc) && (r < 0 ==> uc == 0xFFFD)
  {
    if |s| >= 2 {
      if Flip(s[1]) < 0x40 {
        return 2, s[0] as int % 0x20 * 0x40 + Flip(s[1]);
      }
    } else {
      return -2, 0xFFFD;
    }
    return -1, 0xFFFD;
  }

  /** The branch of u8_mbtoucr for leads from E0 to EF. */
  method ThreeBytes(s: seq<byte>) returns (r: int, uc: nat)
    requires s != [] && 0xE0 <= s[0] < 0xF0
    ensures Reports(Decode(Utf8, s), r, uc) && (r < 0 ==> uc == 0xFFFD)
  {
    var c := s[0];
    if |s| >= 2 {
      if Flip(s[1]) < 0x40 && (c >= 0xE1 || s[1] >= 0xA0) && (c != 0xED || s[1] < 0xA0) {
        if |s| >= 3 {
          if Flip(s[2]) < 0x40 {
            return 3, c as int % 0x10 * 0x1000 + Flip(s[1]) as int * 0x40 + Flip(s[2]);
          }
        } else {
          return -2, 0xFFFD;
        }
      }
    } else {
      return -2, 0xFFFD;
    }
    return -1, 0xFFFD;
  }

  /** The branch of u8_mbtoucr for leads from F0 to F7. */
  method FourBytes(s: seq<byte>) returns (r: int, uc: nat)
    requires s != [] && 0xF0 <= s[0] < 0xF8
    ensures Reports(Decode(Utf8, s), r, uc) && (r < 0 ==> uc == 0xFFFD)
  {
    var c := s[0];
    if |s| >= 2 {
      if Flip(s[1]) < 0x40 && (c >= 0xF1 || s[1] >= 0x90) && (c < 0xF4 || (c == 0xF4 && s[1] < 0x90)) {
        if |s| >= 3 {
          if Flip(s[2]) < 0x40 {
            if |s| >= 4 {
              if Flip(s[3]) < 0x40 {
                return 4, c as int % 8 * 0x40000 + Flip(s[1]) as int * 0x1000 + Flip(s[2]) as int * 0x40 + Flip(s[3]);
              }
            } else {
              return -2, 0xFFFD;
            }
          }
        } else {
          return -2, 0xFFFD;
        }
      }
    } else {
      return -2, 0xFFFD;
    }
    return -1, 0xFFFD;
  }

  /** u8_mbtoucr. */
  method U8Mbtoucr(s: seq<byte>) returns (r: int, uc: nat)
    requires s != []
    ensures Reports(Decode(Utf8, s), r, uc) && (r < 0 ==> uc == 0xFFFD)
  {
    var c := s[0];
    if c < 0x80 {
      return 1, c;
    } else if c >= 0xC2 {
      if c < 0xE0 {
        r, uc := TwoBytes(s);
        return;
      } else if c < 0xF0 {
        r, uc := ThreeBytes(s);
        return;
      } else if c < 0xF8 {
        r, uc := FourBytes(s);
        return;
      }
    }
    return -1, 0xFFFD;
  }

  // ---------------------------------------------------------------------
  // Encoders

  /** The bytes of a surrogate pair, or of a word. */
  lemma BytesOf(w: nat)
    requires w < 0x10000
    ensures Byte(w / 0x100) == w / 0x100 && Byte(w) == w % 0x100
  {
  }

  lemma Bytes32(u: nat)
    requires u < 0x110000
    ensures u / 0x10000 / 0x100 == 0 && u / 0x10000 % 0x100 == Byte(u / 0x10000)
    ensures u % 0x10000 / 0x100 == Byte(u / 0x100) && u % 0x10000 % 0x100 == Byte(u)
  {
    var h, l := u / 0x10000, u % 0x10000;
    assert u == h * 0x10000 + l;
    assert u / 0x100 == h * 0x100 + l / 0x100;
  }

  method Utf16beWctomb(r: array<byte>, off: nat, wc: nat, n: nat) returns (res: int)
    requires off + n <= r.Length
    modifies r
    ensures res == Fits(Utf16(true), wc, n) && r[..] == Stored(Utf16(true), old(r[..]), off, wc, n)
  {
    if !(0xD800 <= wc < 0xE000) {
      if wc < 0x10000 {
        if n >= 2 {
          BytesOf(wc);
          r[off] := Byte(wc / 0x100);
          r[off + 1] := Byte(wc);
          return 2;
        } else {
          return RET_TOOSMALL;
        }
      } else if wc < 0x110000 {
        if n >= 4 {
          var wc1 := 0xD800 + (wc - 0x10000) / 0x400;
          var wc2 := 0xDC00 + (wc - 0x10000) % 0x400;
          BytesOf(wc1);
          BytesOf(wc2);
          r[off] := Byte(wc1 / 0x100);
          r[off + 1] := Byte(wc1);
          r[off + 2] := Byte(wc2 / 0x100);
          r[off + 3] := Byte(wc2);
          assert Encode(Utf16(true), wc) == [r[off], r[off + 1], r[off + 2], r[off + 3]];
          return 4;
        } else {
          return RET_TOOSMALL;
        }
      }
    }
    return RET_ILUNI;
  }

  method Utf16leWctomb(r: array<byte>, off: nat, wc: nat, n: nat) returns (res: int)
    requires off + n <= r.Length
    modifies r
    ensures res == Fits(Utf16(false), wc, n) && r[..] == Stored(Utf16(false), old(r[..]), off, wc, n)
  {
    if !(0xD800 <= wc < 0xE000) {
      if wc < 0x10000 {
        if n >= 2 {
          BytesOf(wc);
          r[off] := Byte(wc);
          r[off + 1] := Byte(wc / 0x100);
          return 2;
        } else {
          return RET_TOOSMALL;
        }
      } else if wc < 0x110000 {
        if n >= 4 {
          var wc1 := 0xD800 + (wc - 0x10000) / 0x400;
          var wc2 := 0xDC00 + (wc - 0x10000) % 0x400;
          BytesOf(wc1);
          BytesOf(wc2);
          r[off] := Byte(wc1);
          r[off + 1] := Byte(wc1 / 0x100);
          r[off + 2] := Byte(wc2);
          r[off + 3] := Byte(wc2 / 0x100);
          assert Encode(Utf16(false), wc) == [r[off], r[off + 1], r[off + 2], r[off + 3]];
          return 4;
        } else {
          return RET_TOOSMALL;
        }
      }
    }
    return RET_ILUNI;
  }

  method Utf32beWctomb(r: array<byte>, off: nat, wc: nat, n: nat) returns (res: int)
    requires off + n <= r.Length
    modifies r
    ensures res == Fits(Utf32(true), wc, n) && r[..] == Stored(Utf32(true), old(r[..]), off, wc, n)
  {
    if wc < 0x110000 && !(0xD800 <= wc < 0xE000) {
      if n >= 4 {
        Bytes32(wc);
        r[off] := 0;
        r[off + 1] := Byte(wc / 0x10000);
        r[off + 2] := Byte(wc / 0x100);
        r[off + 3] := Byte(wc);
        assert Encode(Utf32(true), wc) == [r[off], r[off + 1], r[off + 2], r[off + 3]];
        return 4;
      } else {
        return RET_TOOSMALL;
      }
    }
    return RET_ILUNI;
  }

  method Utf32leWctomb(r: array<byte>, off: nat, wc: nat, n: nat) returns (res: int)
    requires off + n <= r.Length
    modifies r
    ensures res == Fits(Utf32(false), wc, n) && r[..] == Stored(Utf32(false), old(r[..]), off, wc, n)
  {
    if wc < 0x110000 && !(0xD800 <= wc < 0xE000) {
      if n >= 4 {
        Bytes32(wc);
        r[off] := Byte(wc);
        r[off + 1] := Byte(wc / 0x100);
        r[off + 2] := Byte(wc / 0x10000);
        r[off + 3] := 0;
        assert Encode(Utf32(false), wc) == [r[off], r[off + 1], r[off + 2], r[off + 3]];
        return 4;
      } else {
        return RET_TOOSMALL;
      }
    }
    return RET_ILUNI;
  }

  /** x | bit, for a power of two. */
  function Or(x: nat, bit: nat): nat
    requires bit > 0
  {
    if x / bit % 2 == 0 then x + bit else x
  }

  /** The bytes that the cases of the switch in u8_uctomb store for c; each falls
      through to the case below. */
  function Case2(c: nat): seq<byte> {
    [Byte(Or(Or(c / 0x40, 0x40), 0x80)), 0x80 + c % 0x40]
  }

  function Case3(c: nat): seq<byte> {
    Case2(Or(c / 0x40, 0x800)) + [0x80 + c % 0x40]
  }

  function Case4(c: nat): seq<byte> {
    Case3(Or(c / 0x40, 0x10000)) + [0x80 + c % 0x40]
  }

  lemma Cases2(u: nat)
    requires 0x80 <= u < 0x800
    ensures Case2(u) == Encode8(u)
  {
  }

  lemma Cases3(u: nat)
    requires 0x800 <= u < 0x10000 && Scalar(u)
    ensures Case3(u) == Encode8(u)
  {
    Base64(u);
    var c := u / 0x40 + 0x800;
    assert Or(u / 0x40, 0x800) == c;
    assert c / 0x40 == u / 0x1000 + 0x20 && c % 0x40 == u / 0x40 % 0x40;
  }

  lemma Cases4(u: nat)
    requires 0x10000 <= u < 0x110000
    ensures Case4(u) == Encode8(u)
  {
    Base64(u);
    var c := u / 0x40 + 0x10000;
    assert Or(u / 0x40, 0x10000) == c;
    assert c / 0x40 == u / 0x1000 + 0x400 && c % 0x40 == u / 0x40 % 0x40;
    var d := u / 0x1000 + 0xC00;
    assert Or(c / 0x40, 0x800) == d;
    assert d / 0x40 == u / 0x40000 + 0x30 && d % 0x40 == u / 0x1000 % 0x40;
  }

  method Fill2(r: array<byte>, off: nat, uc: nat)
    requires off + 2 <= r.Length
    modifies r
    ensures r[..] == Splice(old(r[..]), off, Case2(uc))
  {
    r[off + 1] := 0x80 + uc % 0x40;
    r[off] := Byte(Or(Or(uc / 0x40, 0x40), 0x80));
  }

  lemma SpliceLast(b: seq<byte>, off: nat, e: seq<byte>, x: byte)
    requires off + |e| < |b|
    ensures Splice(b[off + |e| := x], off, e) == Splice(b, off, e + [x])
  {
  }

  method Fill3(r: array<byte>, off: nat, uc: nat)
    requires off + 3 <= r.Length
    modifies r
    ensures r[..] == Splice(old(r[..]), off, Case3(uc))
  {
    SpliceLast(r[..], off, Case2(Or(uc / 0x40, 0x800)), 0x80 + uc % 0x40);
    r[off + 2] := 0x80 + uc % 0x40;
    Fill2(r, off, Or(uc / 0x40, 0x800));
  }

  method Fill4(r: array<byte>, off: nat, uc: nat)
    requires off + 4 <= r.Length
    modifies r
    ensures r[..] == Splice(old(r[..]), off, Case4(uc))
  {
    SpliceLast(r[..], off, Case3(Or(uc / 0x40, 0x10000)), 0x80 + uc % 0x40);
    r[off + 3] := 0x80 + uc % 0x40;
    Fill3(r, off, Or(uc / 0x40, 0x10000));
  }

  /** The switch of u8_uctomb, which stores the last byte first. */
  method Fill(r: array<byte>, off: nat, uc: nat, count: nat)
    requires Scalar(uc) && uc >= 0x80 && off + count <= r.Length
    requires count == if uc < 0x800 then 2 else if uc < 0x10000 then 3 else 4
    modifies r
    ensures r[..] == Splice(old(r[..]), off, Encode(Utf8, uc))
  {
    if count == 4 {
      Cases4(uc);
      Fill4(r, off, uc);
    } else if count == 3 {
      Cases3(uc);
      Fill3(r, off, uc);
    } else {
      Cases2(uc);
      Fill2(r, off, uc);
    }
  }

  /** u8_uctomb. */
  method U8Uctomb(r: array<byte>, off: nat, uc: nat, n: nat) returns (res: int)
    requires off + n <= r.Length
    modifies r
    ensures res == Fits(Utf8, uc, n) && r[..] == Stored(Utf8, old(r[..]), off, uc, n)
  {
    if uc < 0x80 {
      if n > 0 {
        r[off] := uc;
        return 1;
      }
    } else {
      var count;
      if uc < 0x800 {
        count := 2;
      } else if uc < 0x10000 {
        if uc < 0xD800 || uc >= 0xE000 {
          count := 3;
        } else {
          return -1;
        }
      } else if uc < 0x110000 {
        count := 4;
      } else {
        return -1;
      }
      if n >= count {
        Fill(r, off, uc, count);
        return count;
      }
    }
    return -2;
  }

  // ---------------------------------------------------------------------
  // The loops

  /** The function pointers of rpl_iconv. */
  method Mbtowc(f: Form, s: seq<byte>) returns (r: int, pwc: nat)
    requires !f.Utf8?
    ensures Reports(Decode(f, s), r, pwc)
  {
    if f == Utf16(true) {
      r, pwc := Utf16beMbtowc(s);
    } else if f == Utf16(false) {
      r, pwc := Utf16leMbtowc(s);
    } else if f == Utf32(true) {
      r, pwc := Utf32beMbtowc(s);
    } else {
      r, pwc := Utf32leMbtowc(s);
    }
  }

  method Wctomb(f: Form, r: array<byte>, off: nat, wc: nat, n: nat) returns (res: int)
    requires !f.Utf8? && off + n <= r.Length
    modifies r
    ensures res == Fits(f, wc, n) && r[..] == Stored(f, old(r[..]), off, wc, n)
  {
    if f == Utf16(true) {
      res := Utf16beWctomb(r, off, wc, n);
    } else if f == Utf16(false) {
      res := Utf16leWctomb(r, off, wc, n);
    } else if f == Utf32(true) {
      res := Utf32beWctomb(r, off, wc, n);
    } else {
      res := Utf32leWctomb(r, off, wc, n);
    }
  }

  function ResultOf(status: Status): (int, Option<Errno>) {
    match status
    case Done => (0, None)
    case IllegalInput => (-1, Some(EILSEQ))
    case Incomplete => (-1, Some(EINVAL))
    case TooBig => (-1, Some(E2BIG))
  }

  /** What one round of a loop comes to: the next m bytes encode uc, and its n
      bytes in the other form are written; or the conversion stops. */
  ghost predicate Rounded(from: Form, to: Form, rest: seq<byte>, room: nat, before: seq<byte>, now: seq<byte>, out: nat,
                          res: int, errno: Option<Errno>, m: nat, n: nat, uc: nat, status: Status)
    requires out + room <= |before|
  {
    && (res, errno) == ResultOf(status)
    && if res == 0 then
         && status == Done && errno == None && Scalar(uc) && Encode(from, uc) <= rest && m == |Encode(from, uc)|
         && n == |Encode(to, uc)| <= room && now == Splice(before, out, Encode(to, uc))
       else Stops(from, to, rest, room, status) && now == before
  }

  /** One round of loop_from_utf8. */
  method RoundFromUtf8(f: Form, rest: seq<byte>, outbuf: array<byte>, outptr: nat, outleft: nat)
    returns (res: int, errno: Option<Errno>, m: nat, n: nat, ghost uc: nat, ghost status: Status)
    requires !f.Utf8? && rest != [] && outptr + outleft <= outbuf.Length
    modifies outbuf
    ensures Rounded(Utf8, f, rest, outleft, old(outbuf[..]), outbuf[..], outptr, res, errno, m, n, uc, status)
  {
    res, errno, m, n, uc, status := -1, None, 0, 0, 0, Done;
    var r, wc := U8Mbtoucr(rest);
    if r <= 0 {
      if r == -1 {
        errno, status := Some(EILSEQ), IllegalInput;
      } else if r == -2 {
        errno, status := Some(EINVAL), Incomplete;
      } else {
        assert false;
      }
    } else {
      EncodeDecode(Utf8, rest);
      var k := Wctomb(f, outbuf, outptr, wc, outleft);
      if k < 0 {
        if k == RET_ILUNI {
          errno, status := Some(EILSEQ), IllegalInput;
        } else if k == RET_TOOSMALL {
          errno, status := Some(E2BIG), TooBig;
        } else {
          assert false;
        }
      } else {
        res, m, n, uc := 0, r, k, wc;
      }
    }
  }

  /** One round of loop_to_utf8. */
  method RoundToUtf8(f: Form, rest: seq<byte>, outbuf: array<byte>, outptr: nat, outleft: nat)
    returns (res: int, errno: Option<Errno>, m: nat, n: nat, ghost uc: nat, ghost status: Status)
    requires !f.Utf8? && rest != [] && outptr + outleft <= outbuf.Length
    modifies outbuf
    ensures Rounded(f, Utf8, rest, outleft, old(outbuf[..]), outbuf[..], outptr, res, errno, m, n, uc, status)
  {
    res, errno, m, n, uc, status := -1, None, 0, 0, 0, Done;
    var r, wc := Mbtowc(f, rest);
    if r <= 0 {
      if r == RET_ILSEQ {
        errno, status := Some(EILSEQ), IllegalInput;
      } else if r == RET_TOOFEW {
        errno, status := Some(EINVAL), Incomplete;
      } else {
        assert false;
      }
    } else {
      EncodeDecode(f, rest);
      var k := U8Uctomb(outbuf, outptr, wc, outleft);
      if k < 0 {
        if k == -1 {
          errno, status := Some(EILSEQ), IllegalInput;
        } else if k == -2 {
          errno, status := Some(E2BIG), TooBig;
        } else {
          assert false;
        }
      } else {
        res, m, n, uc := 0, r, k, wc;
      }
    }
  }

  /** The state of a loop: us is converted, from the first k bytes of the input to
      n bytes of output. */
  ghost predicate Underway(from: Form, to: Form, s: seq<byte>, room: nat, us: seq<nat>, k: nat, n: int,
                           before: seq<byte>, now: seq<byte>, out: nat) {
    && Scalars(us) && EncodeAll(from, us) <= s && k == |EncodeAll(from, us)|
    && n == |EncodeAll(to, us)| <= room && out + room <= |before|
    && now == Splice(before, out, EncodeAll(to, us))
  }

  lemma PrefixStep(s: seq<byte>, a: seq<byte>, e: seq<byte>)
    requires a <= s && e <= s[|a|..]
    ensures a + e <= s
  {
  }

  lemma SpliceSplice(b: seq<byte>, off: nat, w: seq<byte>, e: seq<byte>)
    requires off + |w| + |e| <= |b|
    ensures Splice(Splice(b, off, w), off + |w|, e) == Splice(b, off, w + e)
  {
  }

  lemma UnderwayStep(from: Form, to: Form, s: seq<byte>, room: nat, us: seq<nat>, k: nat, n: int,
                     before: seq<byte>, now: seq<byte>, out: nat, u: nat, after: seq<byte>, more: nat, written: nat)
    requires Underway(from, to, s, room, us, k, n, before, now, out) && k <= |s|
    requires Scalar(u) && Encode(from, u) <= s[k..] && n + |Encode(to, u)| <= room
    requires after == Splice(now, out + n, Encode(to, u))
    requires more == |Encode(from, u)| && written == |Encode(to, u)|
    ensures k + more <= |s| && Underway(from, to, s, room, us + [u], k + more, n + written, before, after, out)
  {
    EncodeOne(from, u);
    EncodeOne(to, u);
    EncodeAllAppend(from, us, [u]);
    EncodeAllAppend(to, us, [u]);
    PrefixStep(s, EncodeAll(from, us), Encode(from, u));
    SpliceSplice(before, out, EncodeAll(to, us), Encode(to, u));
  }

  /** Behind a loop: all is consumed, or the conversion stops. */
  lemma Finished(from: Form, to: Form, s: seq<byte>, room: nat, us: seq<nat>, k: nat, n: int,
                 before: seq<byte>, now: seq<byte>, out: nat, status: Status)
    requires Underway(from, to, s, room, us, k, n, before, now, out) && k <= |s|
    requires if status == Done then k == |s| else Stops(from, to, s[k..], room - n, status)
    ensures Converts(from, to, s, room, us, status)
  {
  }

  /** What a loop has done when it is left. */
  ghost predicate Converted(from: Form, to: Form, s: seq<byte>, before: seq<byte>, now: seq<byte>, out: nat, room: nat,
                            us: seq<nat>, status: Status,
                            res: int, errno: Option<Errno>, inptr: nat, inleft: nat, outptr: nat, outleft: nat)
    requires out + room <= |before|
  {
    && Converts(from, to, s, room, us, status) && (res, errno) == ResultOf(status)
    && inptr == |EncodeAll(from, us)| && inptr + inleft == |s|
    && outptr == out + |EncodeAll(to, us)| && outptr + outleft == out + room
    && now == Splice(before, out, EncodeAll(to, us))
  }

  /** What one round makes of the state of a loop. */
  ghost predicate Stepped(from: Form, to: Form, s: seq<byte>, room: nat, us: seq<nat>, inptr: nat, outptr: nat, outleft: nat,
                          before: seq<byte>, now: seq<byte>, out: nat,
                          res: int, errno: Option<Errno>, m: nat, n: nat, uc: nat, status: Status)
    requires inptr < |s|
  {
    && (res, errno) == ResultOf(status)
    && if res == 0 then
         && 0 < m && inptr + m <= |s| && n <= outleft
         && Underway(from, to, s, room, us + [uc], inptr + m, outptr - out + n, before, now, out)
       else
         && Underway(from, to, s, room, us, inptr, outptr - out, before, now, out)
         && Stops(from, to, s[inptr..], outleft, status)
  }

  lemma RoundIsStep(from: Form, to: Form, s: seq<byte>, room: nat, us: seq<nat>, inptr: nat, outptr: nat, outleft: nat,
                    before: seq<byte>, was: seq<byte>, now: seq<byte>, out: nat,
                    res: int, errno: Option<Errno>, m: nat, n: nat, uc: nat, status: Status)
    requires inptr < |s| && outptr + outleft == out + room <= |was|
    requires Underway(from, to, s, room, us, inptr, outptr - out, before, was, out)
    requires Rounded(from, to, s[inptr..], outleft, was, now, outptr, res, errno, m, n, uc, status)
    ensures Stepped(from, to, s, room, us, inptr, outptr, outleft, before, now, out, res, errno, m, n, uc, status)
  {
    if res == 0 {
      var rest := s[inptr..];
      EncodeIsNotEmpty(from, uc, rest);
      UnderwayStep(from, to, s, room, us, inptr, outptr - out, before, was, out, uc, now, m, n);
    }
  }

  lemma EncodeIsNotEmpty(f: Form, u: nat, rest: seq<byte>)
    requires Scalar(u) && Encode(f, u) <= rest
    ensures 0 < |Encode(f, u)| <= |rest|
  {
  }

  /** One round, and what it makes of the state of the loop. */
  method StepFromUtf8(f: Form, s: seq<byte>, outbuf: array<byte>, inptr: nat, outptr: nat, outleft: nat,
              ghost us: seq<nat>, ghost before: seq<byte>, ghost outptr0: nat, ghost outleft0: nat)
    returns (res: int, errno: Option<Errno>, m: nat, n: nat, ghost uc: nat, ghost status: Status)
    requires !f.Utf8? && inptr < |s| && outptr + outleft == outptr0 + outleft0 <= outbuf.Length
    requires Underway(Utf8, f, s, outleft0, us, inptr, outptr - outptr0, before, outbuf[..], outptr0)
    modifies outbuf
    ensures Stepped(Utf8, f, s, outleft0, us, inptr, outptr, outleft, before, outbuf[..], outptr0, res, errno, m, n, uc, status)
  {
    ghost var was := outbuf[..];
    res, errno, m, n, uc, status := RoundFromUtf8(f, s[inptr..], outbuf, outptr, outleft);
    RoundIsStep(Utf8, f, s, outleft0, us, inptr, outptr, outleft, before, was, outbuf[..], outptr0, res, errno, m, n, uc, status);
  }

  /** loop_from_utf8. */
  method LoopFromUtf8(f: Form, s: seq<byte>, outbuf: array<byte>, outptr0: nat, outleft0: nat)
    returns (res: int, errno: Option<Errno>, inptr: nat, inleft: nat, outptr: nat, outleft: nat, ghost us: seq<nat>, ghost status: Status)
    requires !f.Utf8? && outptr0 + outleft0 <= outbuf.Length
    modifies outbuf
    ensures Converted(Utf8, f, s, old(outbuf[..]), outbuf[..], outptr0, outleft0, us, status,
                      res, errno, inptr, inleft, outptr, outleft)
  {
    inptr, inleft, outptr, outleft := 0, |s|, outptr0, outleft0;
    res, errno, us, status := 0, None, [], Done;
    ghost var before := outbuf[..];
    while inleft > 0
      invariant inptr + inleft == |s| && outptr + outleft == outptr0 + outleft0
      invariant Underway(Utf8, f, s, outleft0, us, inptr, outptr - outptr0, before, outbuf[..], outptr0)
      invariant (res, errno) == ResultOf(status) && status == Done
      decreases inleft
    {
      var m, n;
      ghost var uc;
      res, errno, m, n, uc, status := StepFromUtf8(f, s, outbuf, inptr, outptr, outleft, us, before, outptr0, outleft0);
      if res != 0 {
        break;
      }
      us := us + [uc];
      inptr, inleft := inptr + m, inleft - m;
      outptr, outleft := outptr + n, outleft - n;
    }
    Finished(Utf8, f, s, outleft0, us, inptr, outptr - outptr0, before, outbuf[..], outptr0, status);
  }

  /** One round, and what it makes of the state of the loop. */
  method StepToUtf8(f: Form, s: seq<byte>, outbuf: array<byte>, inptr: nat, outptr: nat, outleft: nat,
              ghost us: seq<nat>, ghost before: seq<byte>, ghost outptr0: nat, ghost outleft0: nat)
    returns (res: int, errno: Option<Errno>, m: nat, n: nat, ghost uc: nat, ghost status: Status)
    requires !f.Utf8? && inptr < |s| && outptr + outleft == outptr0 + outleft0 <= outbuf.Length
    requires Underway(f, Utf8, s, outleft0, us, inptr, outptr - outptr0, before, outbuf[..], outptr0)
    modifies outbuf
    ensures Stepped(f, Utf8, s, outleft0, us, inptr, outptr, outleft, before, outbuf[..], outptr0, res, errno, m, n, uc, status)
  {
    ghost var was := outbuf[..];
    res, errno, m, n, uc, status := RoundToUtf8(f, s[inptr..], outbuf, outptr, outleft);
    RoundIsStep(f, Utf8, s, outleft0, us, inptr, outptr, outleft, before, was, outbuf[..], outptr0, res, errno, m, n, uc, status);
  }

  /** loop_to_utf8. */
  method LoopToUtf8(f: Form, s: seq<byte>, outbuf: array<byte>, outptr0: nat, outleft0: nat)
    returns (res: int, errno: Option<Errno>, inptr: nat, inleft: nat, outptr: nat, outleft: nat, ghost us: seq<nat>, ghost status: Status)
    requires !f.Utf8? && outptr0 + outleft0 <= outbuf.Length
    modifies outbuf
    ensures Converted(f, Utf8, s, old(outbuf[..]), outbuf[..], outptr0, outleft0, us, status,
                      res, errno, inptr, inleft, outptr, outleft)
  {
    inptr, inleft, outptr, outleft := 0, |s|, outptr0, outleft0;
    res, errno, us, status := 0, None, [], Done;
    ghost var before := outbuf[..];
    while inleft > 0
      invariant inptr + inleft == |s| && outptr + outleft == outptr0 + outleft0
      invariant Underway(f, Utf8, s, outleft0, us, inptr, outptr - outptr0, before, outbuf[..], outptr0)
      invariant (res, errno) == ResultOf(status) && status == Done
      decreases inleft
    {
      var m, n;
      ghost var uc;
      res, errno, m, n, uc, status := StepToUtf8(f, s, outbuf, inptr, outptr, outleft, us, before, outptr0, outleft0);
      if res != 0 {
        break;
      }
      us := us + [uc];
      inptr, inleft := inptr + m, inleft - m;
      outptr, outleft := outptr + n, outleft - n;
    }
    Finished(f, Utf8, s, outleft0, us, inptr, outptr - outptr0, before, outbuf[..], outptr0, status);
  }

  /** rpl_iconv for a conversion between UTF-8 and one of the other forms.  inbuf
      is None for a null pointer.  us are the scalars that are converted, and
      status says why the conversion stops. */
  method RplIconv(from: Form, to: Form, inbuf: Option<seq<byte>>, outbuf: array<byte>, outptr0: nat, outleft0: nat)
    returns (res: int, errno: Option<Errno>, inptr: nat, inleft: nat, outptr: nat, outleft: nat, ghost us: seq<nat>, ghost status: Status)
    requires from.Utf8? != to.Utf8? && outptr0 + outleft0 <= outbuf.Length
    modifies outbuf
    ensures inbuf.None? ==> res == 0 && outbuf[..] == old(outbuf[..]) && (outptr, outleft) == (outptr0, outleft0)
    ensures inbuf.Some? ==>
              Converted(from, to, inbuf.value, old(outbuf[..]), outbuf[..], outptr0, outleft0, us, status,
                        res, errno, inptr, inleft, outptr, outleft)
    ensures inbuf.Some? ==>
              && (status == Done <==> res == 0) && (res != 0 ==> res == -1)
              && (status == IllegalInput <==> errno == Some(EILSEQ))
              && (status == Incomplete <==> errno == Some(EINVAL))
              && (status == TooBig <==> errno == Some(E2BIG))
  {
    if inbuf == None {
      return 0, None, 0, 0, outptr0, outleft0, [], Done;
    }
    if from == Utf8 {
      res, errno, inptr, inleft, outptr, outleft, us, status := LoopFromUtf8(to, inbuf.value, outbuf, outptr0, outleft0);
    } else {
      res, errno, inptr, inleft, outptr, outleft, us, status := LoopToUtf8(from, inbuf.value, outbuf, outptr0, outleft0);
    }
  }
}
