/**
  What the encoding forms keep of the order of the scalar values, how the two
  byte orders are related, and the examples of the standards.
*/
module UnicodeOrder {
  import opened Unicode

  /** Lexicographic order: where the two first differ, a has the smaller byte or
      ends. */
  predicate Precedes(a: seq<byte>, b: seq<byte>) {
    exists k | 0 <= k <= |a| && k < |b| :: a[..k] == b[..k] && (k == |a| || a[k] < b[k])
  }

  lemma FirstDiffers(a: seq<byte>, b: seq<byte>, k: nat)
    requires k < |a| && k < |b| && a[k] < b[k] && forall i | 0 <= i < k :: a[i] == b[i]
    ensures Precedes(a, b)
  {
    assert a[..k] == b[..k];
  }

  /** The first of up to four digits in which two numbers differ. */
  lemma FirstDigit64(u: nat, v: nat) returns (k: nat)
    requires u < v
    ensures k < 4
    ensures if k == 0 then u / 0x40000 < v / 0x40000 else u / 0x40000 == v / 0x40000
    ensures k >= 1 ==> if k == 1 then u / 0x1000 % 0x40 < v / 0x1000 % 0x40 else u / 0x1000 == v / 0x1000
    ensures k >= 2 ==> if k == 2 then u / 0x40 % 0x40 < v / 0x40 % 0x40 else u / 0x40 == v / 0x40
    ensures k == 3 ==> u % 0x40 < v % 0x40
  {
    Base64(u);
    Base64(v);
    k := if u / 0x40000 < v / 0x40000 then 0 else if u / 0x1000 < v / 0x1000 then 1 else if u / 0x40 < v / 0x40 then 2 else 3;
  }

  lemma LeadsInOrder(u: nat, v: nat)
    requires Scalar(u) && Scalar(v) && u < v && |Encode8(u)| != |Encode8(v)|
    ensures Encode8(u)[0] < Encode8(v)[0]
  {
  }

  lemma ShortOrder(u: nat, v: nat)
    requires u < v < 0x800 && (v < 0x80 || 0x80 <= u)
    ensures Precedes(Encode8(u), Encode8(v))
  {
    var k := FirstDigit64(u, v);
    FirstDiffers(Encode8(u), Encode8(v), if v < 0x80 || k < 3 then 0 else 1);
  }

  lemma ThreeByteOrder(u: nat, v: nat)
    requires Scalar(u) && Scalar(v) && 0x800 <= u < v < 0x10000
    ensures Precedes(Encode8(u), Encode8(v))
  {
    var k := FirstDigit64(u, v);
    FirstDiffers(Encode8(u), Encode8(v), if k == 0 then 0 else k - 1);
  }

  lemma FourByteOrder(u: nat, v: nat)
    requires 0x10000 <= u < v < 0x110000
    ensures Precedes(Encode8(u), Encode8(v))
  {
    var k := FirstDigit64(u, v);
    FirstDiffers(Encode8(u), Encode8(v), k);
  }

  lemma OrderOf8(u: nat, v: nat)
    requires Scalar(u) && Scalar(v) && u < v
    ensures Precedes(Encode8(u), Encode8(v))
  {
    if |Encode8(u)| != |Encode8(v)| {
      LeadsInOrder(u, v);
      FirstDiffers(Encode8(u), Encode8(v), 0);
    } else if v < 0x800 {
      ShortOrder(u, v);
    } else if v < 0x10000 {
      ThreeByteOrder(u, v);
    } else {
      FourByteOrder(u, v);
    }
  }

  lemma Words(w: nat, x: nat)
    requires w < x < 0x10000
    ensures w / 0x100 < x / 0x100 || (w / 0x100 == x / 0x100 && w % 0x100 < x % 0x100)
  {
  }

  lemma OrderOfWords(w: nat, x: nat, a: seq<byte>, b: seq<byte>)
    requires w < x < 0x10000
    ensures Precedes(Unit16(w, true) + a, Unit16(x, true) + b)
  {
    Words(w, x);
    FirstDiffers(Unit16(w, true) + a, Unit16(x, true) + b, if w / 0x100 < x / 0x100 then 0 else 1);
  }

  lemma OrderBehind(e: seq<byte>, a: seq<byte>, b: seq<byte>)
    requires Precedes(a, b)
    ensures Precedes(e + a, e + b)
  {
    var k :| 0 <= k <= |a| && k < |b| && a[..k] == b[..k] && (k == |a| || a[k] < b[k]);
    assert (e + a)[..|e| + k] == e + a[..k] && (e + b)[..|e| + k] == e + b[..k];
    assert |e| + k == |e + a| || (e + a)[|e| + k] < (e + b)[|e| + k];
  }

  lemma TwoWords(h: nat, l: nat, h': nat, l': nat)
    requires h < 0x10000 && l < 0x10000 && h' < 0x10000 && l' < 0x10000
    requires h < h' || (h == h' && l < l')
    ensures Precedes(Unit16(h, true) + Unit16(l, true), Unit16(h', true) + Unit16(l', true))
  {
    if h < h' {
      OrderOfWords(h, h', Unit16(l, true), Unit16(l', true));
    } else {
      OrderOfWords(l, l', [], []);
      Alone(l);
      Alone(l');
      OrderBehind(Unit16(h, true), Unit16(l, true), Unit16(l', true));
    }
  }

  lemma Alone(w: nat)
    requires w < 0x10000
    ensures Unit16(w, true) + [] == Unit16(w, true)
  {
  }

  lemma OrderOf16(u: nat, v: nat)
    requires Scalar(u) && Scalar(v) && u < v && (v < 0x10000 || u >= 0x10000)
    ensures Precedes(Encode(Utf16(true), u), Encode(Utf16(true), v))
  {
    if v < 0x10000 {
      OrderOfWords(u, v, [], []);
      Alone(u);
      Alone(v);
    } else {
      TwoWords(0xD800 + (u - 0x10000) / 0x400, 0xDC00 + (u - 0x10000) % 0x400,
               0xD800 + (v - 0x10000) / 0x400, 0xDC00 + (v - 0x10000) % 0x400);
    }
  }

  lemma OrderOf32(u: nat, v: nat)
    requires Scalar(u) && Scalar(v) && u < v
    ensures Precedes(Encode(Utf32(true), u), Encode(Utf32(true), v))
  {
    TwoWords(u / 0x10000, u % 0x10000, v / 0x10000, v % 0x10000);
  }

  /** UTF-8 and big-endian UTF-32 keep the order of the scalar values; UTF-16 does
      below U+10000, and from there on. */
  lemma EncodingKeepsOrder(f: Form, u: nat, v: nat)
    requires Scalar(u) && Scalar(v) && u < v && (f.Utf8? || f.bigEndian)
    requires f.Utf16? ==> v < 0x10000 || u >= 0x10000
    ensures Precedes(Encode(f, u), Encode(f, v))
  {
    match f
    case Utf8 => OrderOf8(u, v);
    case Utf16(_) => OrderOf16(u, v);
    case Utf32(_) => OrderOf32(u, v);
  }

  /** In UTF-16 it is not kept across U+10000. */
  lemma SurrogatesComeFirst(u: nat, v: nat)
    requires Scalar(u) && Scalar(v) && 0xE000 <= u < 0x10000 <= v
    ensures Precedes(Encode(Utf16(true), v), Encode(Utf16(true), u))
  {
    var h, l := 0xD800 + (v - 0x10000) / 0x400, 0xDC00 + (v - 0x10000) % 0x400;
    OrderOfWords(h, u, Unit16(l, true), []);
    Alone(u);
  }

  /** The words of a surrogate pair hold the upper and the lower ten bits of what
      the scalar value is above U+FFFF. */
  lemma SurrogatePair(u: nat)
    requires 0x10000 <= u < 0x110000
    ensures var e := Encode(Utf16(true), u);
            && |e| == 4
            && var high, low := e[0] as int * 0x100 + e[1], e[2] as int * 0x100 + e[3];
               && 0xD800 <= high < 0xDC00 <= low < 0xE000
               && u == 0x10000 + 0x400 * (high - 0xD800) + (low - 0xDC00)
  {
    var h, l := 0xD800 + (u - 0x10000) / 0x400, 0xDC00 + (u - 0x10000) % 0x400;
    SplitWord(h);
    SplitWord(l);
  }

  /** Little-endian units are the big-endian ones from the other end. */
  lemma OtherByteOrder(u: nat)
    requires Scalar(u)
    ensures var b, l := Encode(Utf16(true), u), Encode(Utf16(false), u);
            |l| == |b| && forall i | 0 <= i < |b| / 2 :: l[2 * i] == b[2 * i + 1] && l[2 * i + 1] == b[2 * i]
    ensures var b, l := Encode(Utf32(true), u), Encode(Utf32(false), u);
            |l| == |b| == 4 && forall i | 0 <= i < 4 :: l[i] == b[3 - i]
  {
  }

  /** Section 7 of RFC 3629 and section 5 of RFC 2781. */
  lemma ExamplesOfTheStandards()
    ensures Encode(Utf8, 0x2262) == [0xE2, 0x89, 0xA2]
    ensures Encode(Utf8, 0x391) == [0xCE, 0x91]
    ensures Encode(Utf8, 0x233B4) == [0xF0, 0xA3, 0x8E, 0xB4]
    ensures Encode(Utf16(true), 0x12345) == [0xD8, 0x08, 0xDF, 0x45]
    ensures Encode(Utf16(false), 0x12345) == [0x08, 0xD8, 0x45, 0xDF]
    ensures Encode(Utf16(true), 0x1F600) == [0xD8, 0x3D, 0xDE, 0x00]
    ensures Encode(Utf32(true), 0x1F600) == [0x00, 0x01, 0xF6, 0x00]
  {
  }
}
