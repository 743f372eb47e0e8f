/** UTF-8 as defined by RFC 3629: the well-formed byte sequences of
    section 4, the encoding of a scalar value from section 3, and the
    facts about character boundaries that the string types rely on. */
module Utf8 {
  import opened Bytes
  import Seqs

  /** The width of the well-formed character (the `UTF8-char` rule of
      RFC 3629 section 4) at the start of `s`, or 0 when `s` does not
      start with one. The rule is read as a table keyed by the lead
      byte: the width it announces, the range allowed for the second
      byte, and plain continuation bytes after that. */
  function CharWidth(s: seq<byte>): (w: nat)
    ensures w <= |s| && w <= 4
    ensures w > 0 ==> !IsContinuation(s[0])
    ensures w > 0 ==> forall i :: 1 <= i < w ==> IsContinuation(s[i])
  {
    if |s| == 0 then 0
    else
      var b0 := s[0] as int;
      var n := LeadWidth(b0);
      if n <= 1 then n
      else if |s| < n then 0
      else if SecondLow(b0) <= s[1] as int <= SecondHigh(b0)
        && (n < 3 || IsContinuation(s[2])) && (n < 4 || IsContinuation(s[3]))
      then n
      else 0
  }

  /** The width a lead byte announces: 0 for a continuation byte and for
      the bytes no well-formed character starts with (0xC0, 0xC1 and
      0xF5 up). */
  function LeadWidth(b0: int): (n: nat)
    ensures n <= 4
  {
    if b0 <= 0x7F then 1
    else if 0xC2 <= b0 <= 0xDF then 2
    else if 0xE0 <= b0 <= 0xEF then 3
    else if 0xF0 <= b0 <= 0xF4 then 4
    else 0
  }

  /** The least second byte allowed after the lead byte `b0`: above the
      overlong forms for 0xE0 and 0xF0. */
  function SecondLow(b0: int): int {
    if b0 == 0xE0 then 0xA0 else if b0 == 0xF0 then 0x90 else 0x80
  }

  /** The greatest second byte allowed after the lead byte `b0`: below
      the surrogates for 0xED and below 0x110000 for 0xF4. */
  function SecondHigh(b0: int): int {
    if b0 == 0xED then 0x9F else if b0 == 0xF4 then 0x8F else 0xBF
  }

  /** `s` is a sequence of well-formed characters (`UTF8-octets`,
      RFC 3629 section 4). */
  predicate Valid(s: seq<byte>)
    decreases |s|
  {
    |s| == 0 || (CharWidth(s) > 0 && Valid(s[CharWidth(s)..]))
  }

  /** The width of the character at the start depends only on its own bytes. */
  lemma CharWidthDeterminedByPrefix(s: seq<byte>, t: seq<byte>)
    requires CharWidth(s) > 0
    requires |t| >= CharWidth(s) && t[..CharWidth(s)] == s[..CharWidth(s)]
    ensures CharWidth(t) == CharWidth(s)
  {
    var w := CharWidth(s);
    assert forall i :: 0 <= i < w ==> t[i] == s[i] by {
      forall i | 0 <= i < w ensures t[i] == s[i] {
        assert t[..w][i] == s[..w][i];
      }
    }
  }

  lemma {:induction false} ValidConcat(a: seq<byte>, b: seq<byte>)
    requires Valid(a) && Valid(b)
    ensures Valid(a + b)
    decreases |a|
  {
    if |a| == 0 {
      assert a + b == b;
    } else {
      var w := CharWidth(a);
      assert (a + b)[..w] == a[..w];
      CharWidthDeterminedByPrefix(a, a + b);
      assert (a + b)[w..] == a[w..] + b;
      ValidConcat(a[w..], b);
    }
  }

  /** Cutting valid UTF-8 at a byte that is not a continuation byte (or
      at the end) leaves two valid halves. */
  lemma {:induction false} ValidSplit(s: seq<byte>, i: nat)
    requires Valid(s) && i <= |s|
    requires i == 0 || i == |s| || !IsContinuation(s[i])
    ensures Valid(s[..i]) && Valid(s[i..])
    decreases |s|
  {
    if i == 0 {
      assert s[..i] == [] && s[i..] == s;
    } else {
      var w := CharWidth(s);
      assert w <= i;
      var rest := s[w..];
      SplitAfterPrefix(s, w, i);
      ValidSplit(rest, i - w);
      FirstCharValid(s);
      ValidConcat(s[..w], rest[..i - w]);
    }
  }

  /** Cutting at `i` after a prefix of `w` elements, seen from the rest. */
  lemma SplitAfterPrefix<T>(s: seq<T>, w: nat, i: nat)
    requires w <= i <= |s|
    ensures s[w..][i - w..] == s[i..]
    ensures s[..i] == s[..w] + s[w..][..i - w]
    ensures i < |s| ==> s[w..][i - w] == s[i]
  {
  }

  /** The bytes of the first character alone are valid. */
  lemma FirstCharValid(s: seq<byte>)
    requires CharWidth(s) > 0
    ensures Valid(s[..CharWidth(s)])
  {
    var w := CharWidth(s);
    CharWidthDeterminedByPrefix(s, s[..w]);
    assert s[..w][w..] == [];
  }

  /** A sub-slice whose two ends are character boundaries is valid. */
  lemma ValidSubslice(s: seq<byte>, start: nat, end: nat)
    requires Valid(s) && start <= end <= |s|
    requires end == |s| || !IsContinuation(s[end])
    requires start == 0 || start == end || !IsContinuation(s[start])
    ensures Valid(s[start..end])
  {
    if start == end {
      assert s[start..end] == [];
    } else {
      ValidSplit(s, end);
      assert s[..end][start..] == s[start..end];
      if start > 0 {
        assert s[..end][start] == s[start];
      }
      ValidSplit(s[..end], start);
    }
  }

  /** A valid non-empty sequence never starts with a continuation byte. */
  lemma ValidStart(s: seq<byte>)
    requires Valid(s) && |s| > 0
    ensures !IsContinuation(s[0])
  {
  }

  /** The scalar value carried by the `w`-byte character at the start of
      `s`: the payload bits of the lead byte followed by six bits from
      each continuation byte. Keeping the low `k` bits of a byte (the
      masks `0b0001_1111`, `0b0011_1111`, ...) is taking it modulo `2^k`. */
  function ScalarOf(s: seq<byte>, w: nat): int
    requires 1 <= w <= 4 && w <= |s|
  {
    if w == 1 then s[0] as int
    else if w == 2 then Payload2(s[0] as int, s[1] as int)
    else if w == 3 then Payload3(s[0] as int, s[1] as int, s[2] as int)
    else Payload4(s[0] as int, s[1] as int, s[2] as int, s[3] as int)
  }

  function Payload2(b0: int, b1: int): int {
    b0 % 0x20 * 0x40 + b1 % 0x40
  }

  function Payload3(b0: int, b1: int, b2: int): int {
    b0 % 0x10 * 0x1000 + b1 % 0x40 * 0x40 + b2 % 0x40
  }

  function Payload4(b0: int, b1: int, b2: int, b3: int): int {
    b0 % 0x08 * 0x40000 + b1 % 0x40 * 0x1000 + b2 % 0x40 * 0x40 + b3 % 0x40
  }

  /** A Unicode scalar value: a code point that is not a surrogate. */
  predicate IsScalar(v: int) {
    0 <= v < 0xD800 || 0xE000 <= v <= 0x10FFFF
  }

  /** Every well-formed character carries a scalar value, written in the
      shortest form. */
  lemma WellFormedScalar(s: seq<byte>)
    requires CharWidth(s) > 0
    ensures IsScalar(ScalarOf(s, CharWidth(s)))
    ensures CharWidth(s) == EncodedWidth(ScalarOf(s, CharWidth(s)))
  {
    var w := CharWidth(s);
    if w == 2 {
      Scalar2(s[0] as int, s[1] as int);
    } else if w == 3 {
      Scalar3(s[0] as int, s[1] as int, s[2] as int);
    } else if w == 4 {
      Scalar4(s[0] as int, s[1] as int, s[2] as int, s[3] as int);
    }
  }

  lemma Scalar2(b0: int, b1: int)
    requires 0xC2 <= b0 <= 0xDF && 0x80 <= b1 < 0xC0
    ensures 0x80 <= Payload2(b0, b1) < 0x800
  {
    assert b0 % 0x20 == b0 - 0xC0;
    assert b1 % 0x40 == b1 - 0x80;
  }

  lemma Scalar3(b0: int, b1: int, b2: int)
    requires 0xE0 <= b0 <= 0xEF && 0x80 <= b1 < 0xC0 && 0x80 <= b2 < 0xC0
    requires b0 == 0xE0 ==> 0xA0 <= b1
    requires b0 == 0xED ==> b1 <= 0x9F
    ensures var v := Payload3(b0, b1, b2); IsScalar(v) && 0x800 <= v < 0x10000
  {
    assert b0 % 0x10 == b0 - 0xE0;
    assert b1 % 0x40 == b1 - 0x80;
    assert b2 % 0x40 == b2 - 0x80;
  }

  lemma Scalar4(b0: int, b1: int, b2: int, b3: int)
    requires 0xF0 <= b0 <= 0xF4 && 0x80 <= b1 < 0xC0 && 0x80 <= b2 < 0xC0 && 0x80 <= b3 < 0xC0
    requires b0 == 0xF0 ==> 0x90 <= b1
    requires b0 == 0xF4 ==> b1 <= 0x8F
    ensures 0x10000 <= Payload4(b0, b1, b2, b3) <= 0x10FFFF
  {
    assert b0 % 0x08 == b0 - 0xF0;
    assert b1 % 0x40 == b1 - 0x80;
    assert b2 % 0x40 == b2 - 0x80;
    assert b3 % 0x40 == b3 - 0x80;
  }

  /** The number of bytes RFC 3629 section 3 uses for the scalar `v`. */
  function EncodedWidth(v: int): nat {
    if v < 0x80 then 1 else if v < 0x800 then 2 else if v < 0x10000 then 3 else 4
  }

  /** The code points of a valid sequence, in order. */
  function Decode(s: seq<byte>): seq<char>
    requires Valid(s)
    decreases |s|
  {
    if |s| == 0 then []
    else
      var w := CharWidth(s);
      WellFormedScalar(s);
      [ScalarOf(s, w) as char] + Decode(s[w..])
  }

  /** The UTF-8 encoding of one scalar value (RFC 3629 section 3), as
      `char::encode_utf8` produces it. */
  function EncodeChar(c: char): (e: seq<byte>)
    ensures 1 <= |e| <= 4 && |e| == EncodedWidth(c as int)
  {
    EncodeScalar(c as int)
  }

  function EncodeScalar(v: int): (e: seq<byte>)
    requires IsScalar(v)
    ensures 1 <= |e| <= 4 && |e| == EncodedWidth(v)
  {
    // the multi-byte forms split the value into six-bit groups
    var t1 := v / 0x40;
    var t2 := t1 / 0x40;
    if v < 0x80 then [ByteOfInt(v)]
    else if v < 0x800 then Encode2Bytes(t1, v % 0x40)
    else if v < 0x10000 then Encode3Bytes(t2, t1 % 0x40, v % 0x40)
    else Encode4Bytes(t2 / 0x40, t2 % 0x40, t1 % 0x40, v % 0x40)
  }

  /** The continuation byte `10xxxxxx` carrying the six bits `x`. */
  function Cont(x: int): (b: byte)
    requires 0 <= x < 0x40
    ensures b as int == 0x80 + x
  {
    ByteOfInt(0x80 + x)
  }

  function Encode2Bytes(q: int, r: int): seq<byte>
    requires 0 <= q < 0x20 && 0 <= r < 0x40
  {
    [ByteOfInt(0xC0 + q), Cont(r)]
  }

  function Encode3Bytes(q: int, m: int, r: int): seq<byte>
    requires 0 <= q < 0x10 && 0 <= m < 0x40 && 0 <= r < 0x40
  {
    [ByteOfInt(0xE0 + q), Cont(m), Cont(r)]
  }

  function Encode4Bytes(q: int, h: int, m: int, r: int): seq<byte>
    requires 0 <= q < 0x08 && 0 <= h < 0x40 && 0 <= m < 0x40 && 0 <= r < 0x40
  {
    [ByteOfInt(0xF0 + q), Cont(h), Cont(m), Cont(r)]
  }

  /** The encoding of a character is one well-formed character that
      decodes back to it. */
  lemma EncodeCharRoundTrip(c: char)
    ensures CharWidth(EncodeChar(c)) == |EncodeChar(c)|
    ensures Valid(EncodeChar(c))
    ensures Decode(EncodeChar(c)) == [c]
  {
    var e := EncodeChar(c);
    EncodeScalarWidth(c as int);
    assert e[|e|..] == [];
    DecodeStep(e);
  }

  /** The encoding is a single character of the expected width that
      carries `v`. */
  lemma EncodeScalarWidth(v: int)
    requires IsScalar(v)
    ensures CharWidth(EncodeScalar(v)) == |EncodeScalar(v)|
    ensures ScalarOf(EncodeScalar(v), |EncodeScalar(v)|) == v
  {
    var t1 := v / 0x40;
    var t2 := t1 / 0x40;
    if v < 0x800 && 0x80 <= v {
      assert v == t1 * 0x40 + v % 0x40;
      Encode2(t1, v % 0x40);
    } else if 0x800 <= v < 0x10000 {
      Digits3(v);
      Encode3(t2, t1 % 0x40, v % 0x40);
    } else if 0x10000 <= v {
      Digits4(v);
      Encode4(t2 / 0x40, t2 % 0x40, t1 % 0x40, v % 0x40);
    }
  }

  lemma Digits3(v: int)
    requires 0x800 <= v < 0x10000 && IsScalar(v)
    ensures var t1 := v / 0x40; var t2 := t1 / 0x40;
      && v == t2 * 0x1000 + t1 % 0x40 * 0x40 + v % 0x40
      && t2 < 0x10
      && (t2 == 0 ==> t1 % 0x40 >= 0x20)
      && (t2 == 0xD ==> t1 % 0x40 < 0x20)
  {
  }

  lemma Digits4(v: int)
    requires 0x10000 <= v <= 0x10FFFF
    ensures var t1 := v / 0x40; var t2 := t1 / 0x40; var t3 := t2 / 0x40;
      && v == t3 * 0x40000 + t2 % 0x40 * 0x1000 + t1 % 0x40 * 0x40 + v % 0x40
      && t3 <= 4
      && (t3 == 0 ==> t2 % 0x40 >= 0x10)
      && (t3 == 4 ==> t2 % 0x40 < 0x10)
  {
  }

  lemma Encode2(q: int, r: int)
    requires 2 <= q < 0x20 && 0 <= r < 0x40
    ensures CharWidth(Encode2Bytes(q, r)) == 2 && ScalarOf(Encode2Bytes(q, r), 2) == q * 0x40 + r
  {
    var e := Encode2Bytes(q, r);
    assert e[0] as int == 0xC0 + q && e[1] as int == 0x80 + r;
    Payload2Of(q, r);
  }

  /** A lead byte announcing `n`, an allowed second byte and plain
      continuation bytes make an `n`-byte character. */
  lemma WidthOf(s: seq<byte>, n: nat)
    requires 2 <= n <= |s| && LeadWidth(s[0] as int) == n
    requires SecondLow(s[0] as int) <= s[1] as int <= SecondHigh(s[0] as int)
    requires forall i :: 2 <= i < n ==> IsContinuation(s[i])
    ensures CharWidth(s) == n
  {
    if n >= 3 {
      assert IsContinuation(s[2]);
    }
    if n == 4 {
      assert IsContinuation(s[3]);
    }
  }

  lemma Payload2Of(q: int, r: int)
    requires 0 <= q < 0x20 && 0 <= r < 0x40
    ensures Payload2(0xC0 + q, 0x80 + r) == q * 0x40 + r
  {
    assert (0xC0 + q) % 0x20 == q;
    assert (0x80 + r) % 0x40 == r;
  }

  lemma Encode3(q: int, m: int, r: int)
    requires 0 <= q < 0x10 && 0 <= m < 0x40 && 0 <= r < 0x40
    requires q == 0 ==> m >= 0x20
    requires q == 0xD ==> m < 0x20
    ensures CharWidth(Encode3Bytes(q, m, r)) == 3
    ensures ScalarOf(Encode3Bytes(q, m, r), 3) == q * 0x1000 + m * 0x40 + r
  {
    var e := Encode3Bytes(q, m, r);
    assert e[0] as int == 0xE0 + q && e[1] as int == 0x80 + m && e[2] as int == 0x80 + r;
    assert SecondLow(0xE0 + q) <= 0x80 + m <= SecondHigh(0xE0 + q);
    WidthOf(e, 3);
    Payload3Of(q, m, r);
  }

  lemma Payload3Of(q: int, m: int, r: int)
    requires 0 <= q < 0x10 && 0 <= m < 0x40 && 0 <= r < 0x40
    ensures Payload3(0xE0 + q, 0x80 + m, 0x80 + r) == q * 0x1000 + m * 0x40 + r
  {
    assert (0xE0 + q) % 0x10 == q;
    assert (0x80 + m) % 0x40 == m;
    assert (0x80 + r) % 0x40 == r;
  }

  lemma Encode4(q: int, h: int, m: int, r: int)
    requires 0 <= q <= 4 && 0 <= h < 0x40 && 0 <= m < 0x40 && 0 <= r < 0x40
    requires q == 0 ==> h >= 0x10
    requires q == 4 ==> h < 0x10
    ensures CharWidth(Encode4Bytes(q, h, m, r)) == 4
    ensures ScalarOf(Encode4Bytes(q, h, m, r), 4) == q * 0x40000 + h * 0x1000 + m * 0x40 + r
  {
    var e := Encode4Bytes(q, h, m, r);
    assert e[0] as int == 0xF0 + q && e[1] as int == 0x80 + h;
    assert e[2] as int == 0x80 + m && e[3] as int == 0x80 + r;
    assert SecondLow(0xF0 + q) <= 0x80 + h <= SecondHigh(0xF0 + q);
    WidthOf(e, 4);
    Payload4Of(q, h, m, r);
  }

  lemma Payload4Of(q: int, h: int, m: int, r: int)
    requires 0 <= q < 0x08 && 0 <= h < 0x40 && 0 <= m < 0x40 && 0 <= r < 0x40
    ensures Payload4(0xF0 + q, 0x80 + h, 0x80 + m, 0x80 + r) == q * 0x40000 + h * 0x1000 + m * 0x40 + r
  {
    assert (0xF0 + q) % 0x08 == q;
    assert (0x80 + h) % 0x40 == h;
    assert (0x80 + m) % 0x40 == m;
    assert (0x80 + r) % 0x40 == r;
  }

  /** The first character of `a + b` is the first character of `a`. */
  lemma FirstCharOfConcat(a: seq<byte>, b: seq<byte>)
    requires CharWidth(a) > 0
    ensures CharWidth(a + b) == CharWidth(a)
    ensures ScalarOf(a + b, CharWidth(a)) == ScalarOf(a, CharWidth(a))
    ensures (a + b)[CharWidth(a)..] == a[CharWidth(a)..] + b
  {
    var w := CharWidth(a);
    assert (a + b)[..w] == a[..w];
    CharWidthDeterminedByPrefix(a, a + b);
    ScalarOfPrefix(a, a + b, w);
  }

  lemma ScalarOfPrefix(s: seq<byte>, t: seq<byte>, w: nat)
    requires 1 <= w <= 4 && w <= |s| && w <= |t|
    requires forall i :: 0 <= i < w ==> s[i] == t[i]
    ensures ScalarOf(s, w) == ScalarOf(t, w)
  {
    assert s[0] == t[0];
    if w >= 2 { assert s[1] == t[1]; }
    if w >= 3 { assert s[2] == t[2]; }
    if w >= 4 { assert s[3] == t[3]; }
  }

  /** Decoding peels one character off the front. */
  lemma DecodeStep(s: seq<byte>)
    requires Valid(s) && |s| > 0
    ensures Valid(s[CharWidth(s)..])
    ensures Decode(s) == [Decode(s)[0]] + Decode(s[CharWidth(s)..])
    ensures Decode(s)[0] as int == ScalarOf(s, CharWidth(s))
  {
    WellFormedScalar(s);
  }

  lemma {:induction false} DecodeConcat(a: seq<byte>, b: seq<byte>)
    requires Valid(a) && Valid(b)
    ensures Valid(a + b)
    ensures Decode(a + b) == Decode(a) + Decode(b)
    decreases |a|
  {
    ValidConcat(a, b);
    if |a| == 0 {
      assert a + b == b;
    } else {
      var w := CharWidth(a);
      FirstCharOfConcat(a, b);
      DecodeStep(a);
      DecodeStep(a + b);
      DecodeConcat(a[w..], b);
      var c := Decode(a)[0];
      assert Decode(a + b) == [c] + (Decode(a[w..]) + Decode(b));
      Seqs.ConcatAssoc([c], Decode(a[w..]), Decode(b));
    }
  }

  /** The UTF-8 encoding of a string: the encodings of its characters,
      in order. */
  function Encode(s: string): (e: seq<byte>)
    decreases |s|
  {
    if |s| == 0 then [] else EncodeChar(s[0]) + Encode(s[1..])
  }

  lemma {:induction false} EncodeRoundTrip(s: string)
    ensures Valid(Encode(s))
    ensures Decode(Encode(s)) == s
    decreases |s|
  {
    if |s| > 0 {
      EncodeCharRoundTrip(s[0]);
      EncodeRoundTrip(s[1..]);
      DecodeConcat(EncodeChar(s[0]), Encode(s[1..]));
    }
  }
}
