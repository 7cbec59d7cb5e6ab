/** `str.encode("utf-8")` on Python strings, which are sequences of code points
    and may hold lone surrogates (those raise UnicodeEncodeError). */
module Utf8 {
  import opened LexOrder

  type byte = b: int | 0 <= b < 256
  type CodePoint = c: int | 0 <= c < 0x11_0000
  type Str = seq<CodePoint>

  predicate IsSurrogate(c: CodePoint) { 0xD800 <= c < 0xE000 }

  predicate Encodable(s: Str) { forall i :: 0 <= i < |s| ==> !IsSurrogate(s[i]) }

  function EncodeChar(c: CodePoint): (r: seq<byte>)
    ensures 1 <= |r| <= 4
    ensures 0 in r <==> c == 0
  {
    if c < 0x80 then [c]
    else if c < 0x800 then [0xC0 + c / 0x40, 0x80 + c % 0x40]
    else if c < 0x1_0000 then [0xE0 + c / 0x40 / 0x40, 0x80 + c / 0x40 % 0x40, 0x80 + c % 0x40]
    else [0xF0 + c / 0x40 / 0x40 / 0x40, 0x80 + c / 0x40 / 0x40 % 0x40, 0x80 + c / 0x40 % 0x40, 0x80 + c % 0x40]
  }

  function Encode(s: Str): (r: seq<byte>) {
    if s == [] then [] else EncodeChar(s[0]) + Encode(s[1..])
  }

  lemma {:induction false} EncodeNul(s: Str)
    ensures 0 in Encode(s) <==> 0 in s
  {
    if s != [] {
      EncodeNul(s[1..]);
      assert s == [s[0]] + s[1..];
    }
  }

  lemma SixBits(c: nat, d: nat)
    requires c < d
    ensures c / 0x40 < d / 0x40 || (c / 0x40 == d / 0x40 && c % 0x40 < d % 0x40)
  {
  }

  /** The position of the first byte at which the encodings of `c` and `d` differ. */
  ghost predicate DifferAt(c: CodePoint, d: CodePoint, k: nat) {
    var a, b := EncodeChar(c), EncodeChar(d);
    k < |a| && k < |b| && a[k] < b[k] && forall i :: 0 <= i < k ==> a[i] == b[i]
  }

  lemma TwoBytesDiffer(c: CodePoint, d: CodePoint) returns (k: nat)
    requires 0x80 <= c < d < 0x800
    ensures DifferAt(c, d, k)
  {
    SixBits(c, d);
    k := if c / 0x40 == d / 0x40 then 1 else 0;
  }

  lemma ThreeBytesDiffer(c: CodePoint, d: CodePoint) returns (k: nat)
    requires 0x800 <= c < d < 0x1_0000
    ensures DifferAt(c, d, k)
  {
    SixBits(c, d);
    var p, q := c / 0x40, d / 0x40;
    if p == q {
      k := 2;
    } else {
      SixBits(p, q);
      k := if p / 0x40 == q / 0x40 then 1 else 0;
    }
  }

  lemma FourBytesDiffer(c: CodePoint, d: CodePoint) returns (k: nat)
    requires 0x1_0000 <= c < d
    ensures DifferAt(c, d, k)
  {
    SixBits(c, d);
    var p, q := c / 0x40, d / 0x40;
    if p == q {
      k := 3;
    } else {
      SixBits(p, q);
      var p', q' := p / 0x40, q / 0x40;
      if p' == q' {
        k := 2;
      } else {
        SixBits(p', q');
        k := if p' / 0x40 == q' / 0x40 then 1 else 0;
      }
    }
  }

  /** The encodings of two characters differ before either one ends, at a byte
      that orders them as the characters are ordered. */
  lemma CharDiffers(c: CodePoint, d: CodePoint) returns (k: nat)
    requires c < d
    ensures DifferAt(c, d, k)
  {
    if 0x80 <= c && d < 0x800 {
      k := TwoBytesDiffer(c, d);
    } else if 0x800 <= c && d < 0x1_0000 {
      k := ThreeBytesDiffer(c, d);
    } else if 0x1_0000 <= c {
      k := FourBytesDiffer(c, d);
    } else {
      k := 0;
    }
  }

  lemma CharOrder(c: CodePoint, d: CodePoint, u: seq<byte>, v: seq<byte>)
    requires c < d
    ensures Less(EncodeChar(c) + u, EncodeChar(d) + v)
  {
    var a, b := EncodeChar(c), EncodeChar(d);
    var k := CharDiffers(c, d);
    assert a[..k] == b[..k];
    assert a + u == a[..k] + (a[k..] + u) && b + v == a[..k] + (b[k..] + v);
    CommonPrefix(a[..k], a[k..] + u, b[k..] + v);
  }

  /** Comparing Python strings code point by code point and comparing their
      UTF-8 bytes, as Git does, always agree. */
  lemma {:induction false} EncodeOrder(s: Str, t: Str)
    ensures Less(s, t) <==> Less(Encode(s), Encode(t))
  {
    if s != [] && t != [] {
      if s[0] == t[0] {
        CommonPrefix(EncodeChar(s[0]), Encode(s[1..]), Encode(t[1..]));
        EncodeOrder(s[1..], t[1..]);
      } else if s[0] < t[0] {
        CharOrder(s[0], t[0], Encode(s[1..]), Encode(t[1..]));
      } else {
        CharOrder(t[0], s[0], Encode(t[1..]), Encode(s[1..]));
        Asymmetric(Encode(t), Encode(s));
      }
    }
  }

  lemma EncodeInjective(s: Str, t: Str)
    requires Encode(s) == Encode(t)
    ensures s == t
  {
    Trichotomy(s, t);
    EncodeOrder(s, t);
    EncodeOrder(t, s);
    Irreflexive(Encode(s));
  }

  // ---------------------------------------------------------------- reading back

  predicate Continues(b: byte) { 0x80 <= b < 0xC0 }

  /** What a byte holds besides its marker. */
  function Past(marker: int, b: byte): int { b as int - marker }

  /** `b` is the sequence table 3-6 of the Unicode standard gives `c`: the marker bits of each
      byte, the value of the others, and no shorter sequence that would do. */
  predicate CharBytes(c: CodePoint, b: seq<byte>) {
    || (|b| == 1 && b[0] < 0x80 && c == b[0])
    || (|b| == 2 && 0xC0 <= b[0] < 0xE0 && Continues(b[1])
        && c == Past(0xC0, b[0]) * 0x40 + Past(0x80, b[1]) && c >= 0x80)
    || (|b| == 3 && 0xE0 <= b[0] < 0xF0 && Continues(b[1]) && Continues(b[2])
        && c == (Past(0xE0, b[0]) * 0x40 + Past(0x80, b[1])) * 0x40 + Past(0x80, b[2]) && c >= 0x800)
    || (|b| == 4 && 0xF0 <= b[0] < 0xF8 && Continues(b[1]) && Continues(b[2]) && Continues(b[3])
        && c == ((Past(0xF0, b[0]) * 0x40 + Past(0x80, b[1])) * 0x40 + Past(0x80, b[2])) * 0x40 + Past(0x80, b[3])
        && c >= 0x1_0000)
  }

  lemma CharForm(c: CodePoint)
    ensures CharBytes(c, EncodeChar(c))
  {
  }

  /** The bytes read as these characters, one after the other. */
  ghost predicate ReadsAs(b: seq<byte>, s: Str)
    decreases |s|
  {
    if s == [] then b == []
    else exists n: nat :: n <= |b| && CharBytes(s[0], b[..n]) && ReadsAs(b[n..], s[1..])
  }

  /** An encoding reads as the string. */
  lemma {:induction false} EncodeForm(s: Str)
    ensures ReadsAs(Encode(s), s)
  {
    if s != [] {
      var b, n := Encode(s), |EncodeChar(s[0])|;
      CharForm(s[0]);
      EncodeForm(s[1..]);
      assert b[..n] == EncodeChar(s[0]) && b[n..] == Encode(s[1..]);
    }
  }
}
