/** Byte sequences, the lexicographic order Rust uses for `[u8]`, and
    concatenation of chunk lists. */
module Bytes {

  type byte = bv8

  /** A UTF-8 continuation byte has the bit pattern 10xxxxxx: it lies in
      0x80..=0xBF. */
  predicate IsContinuation(b: byte) {
    0x80 <= b as int < 0xC0
  }

  /** The range is the mask test `b & 0b1100_0000 == 0b1000_0000` the
      source writes. */
  lemma ContinuationMask(b: byte)
    ensures IsContinuation(b) <==> b & 0xC0 == 0x80
  {
  }

  /** The byte whose value is `x`. */
  function ByteOfInt(x: int): (b: byte)
    requires 0 <= x < 0x100
    ensures b as int == x
  {
    CountUpTo(x, 0)
  }

  /** Counting up from `b` to the byte whose value is `x`. */
  function CountUpTo(x: int, b: byte): (r: byte)
    requires b as int <= x < 0x100
    ensures r as int == x
    decreases x - b as int
  {
    if b as int == x then b else CountUpTo(x, b + 1)
  }

  /** The result of Rust's `Ord::cmp`. */
  datatype Ordering = Less | Equal | Greater {
    function Reverse(): Ordering {
      match this
      case Less => Greater
      case Equal => Equal
      case Greater => Less
    }
  }

  /** Lexicographic comparison of byte slices, as `<[u8] as Ord>::cmp`:
      the first differing byte decides, and otherwise the shorter slice
      is smaller. */
  function LexCmp(a: seq<byte>, b: seq<byte>): Ordering
    decreases |a|
  {
    if |a| == 0 then (if |b| == 0 then Equal else Less)
    else if |b| == 0 then Greater
    else if a[0] < b[0] then Less
    else if a[0] > b[0] then Greater
    else LexCmp(a[1..], b[1..])
  }

  lemma {:induction false} LexCmpEqualIff(a: seq<byte>, b: seq<byte>)
    ensures LexCmp(a, b) == Equal <==> a == b
    decreases |a|
  {
    if |a| > 0 && |b| > 0 && a[0] == b[0] {
      LexCmpEqualIff(a[1..], b[1..]);
      if a[1..] == b[1..] {
        assert a == [a[0]] + a[1..];
        assert b == [b[0]] + b[1..];
      }
    }
  }

  lemma {:induction false} LexCmpAntisymmetric(a: seq<byte>, b: seq<byte>)
    ensures LexCmp(b, a) == LexCmp(a, b).Reverse()
    decreases |a|
  {
    if |a| > 0 && |b| > 0 && a[0] == b[0] {
      LexCmpAntisymmetric(a[1..], b[1..]);
    }
  }

  /** A proper prefix is smaller than the sequence it starts. */
  lemma {:induction false} LexCmpPrefix(a: seq<byte>, b: seq<byte>)
    requires |a| < |b| && b[..|a|] == a
    ensures LexCmp(a, b) == Less
    decreases |a|
  {
    if |a| > 0 {
      assert b[0] == a[0];
      assert b[1..][..|a| - 1] == a[1..];
      LexCmpPrefix(a[1..], b[1..]);
    }
  }

  /** The comparison is decided by the first position where the two
      sequences differ (or by the length when one is a prefix). */
  lemma {:induction false} LexCmpCommonPrefix(p: seq<byte>, a: seq<byte>, b: seq<byte>)
    ensures LexCmp(p + a, p + b) == LexCmp(a, b)
    decreases |p|
  {
    if |p| > 0 {
      assert (p + a)[1..] == p[1..] + a;
      assert (p + b)[1..] == p[1..] + b;
      LexCmpCommonPrefix(p[1..], a, b);
    } else {
      assert p + a == a && p + b == b;
    }
  }

  /** The concatenation of a list of chunks, in order. */
  function Flatten(parts: seq<seq<byte>>): seq<byte>
    decreases |parts|
  {
    if |parts| == 0 then [] else parts[0] + Flatten(parts[1..])
  }

  /** The total number of bytes in a list of chunks. */
  function TotalLen(parts: seq<seq<byte>>): (n: nat)
    ensures n == |Flatten(parts)|
    decreases |parts|
  {
    if |parts| == 0 then 0 else |parts[0]| + TotalLen(parts[1..])
  }

  lemma {:induction false} FlattenAppend(a: seq<seq<byte>>, b: seq<seq<byte>>)
    ensures Flatten(a + b) == Flatten(a) + Flatten(b)
    decreases |a|
  {
    if |a| == 0 {
      assert a + b == b;
    } else {
      assert (a + b)[1..] == a[1..] + b;
      FlattenAppend(a[1..], b);
    }
  }

  lemma FlattenSingle(a: seq<byte>)
    ensures Flatten([a]) == a
  {
    assert [a][1..] == [];
  }

  lemma FlattenSnoc(a: seq<seq<byte>>, x: seq<byte>)
    ensures Flatten(a + [x]) == Flatten(a) + x
  {
    FlattenAppend(a, [x]);
    FlattenSingle(x);
  }

  /** `n` zero bytes. */
  function Zeros(n: nat): (z: seq<byte>)
    ensures |z| == n
    ensures forall i :: 0 <= i < n ==> z[i] == 0
  {
    seq(n, i => 0 as byte)
  }
}
