/** `StringData`: a `ByteData` whose bytes are valid UTF-8 (RFC 3629
    section 4), with slicing restricted to character boundaries. */
module StringData {
  import opened Wrappers
  import opened Bytes
  import opened RefCount
  import Utf8
  import ConstBytes
  import ByteChunk
  import Shared
  import B = ByteData

  datatype StringData = StringData(data: B.ByteData) {
    ghost predicate Valid() {
      data.Valid() && Utf8.Valid(data.AsSlice())
    }

    /** `as_bytes`. */
    function AsBytes(): seq<byte>
      requires data.Valid()
    {
      data.AsSlice()
    }

    function Len(): nat {
      data.Len()
    }

    predicate IsEmpty() {
      data.IsEmpty()
    }
  }

  function Empty(): (s: StringData)
    ensures s.Valid() && s.AsBytes() == []
  {
    StringData(B.Empty())
  }

  /** `from_static` and `from_borrowed`: the bytes of a `str`. */
  function FromStatic(b: seq<byte>): (s: StringData)
    requires Utf8.Valid(b) && |b| < 0x100_0000_0000_0000
    ensures s.Valid() && s.AsBytes() == b
  {
    StringData(B.FromStatic(b))
  }

  function FromBorrowed(b: seq<byte>): (s: StringData)
    requires Utf8.Valid(b) && |b| < 0x100_0000_0000_0000
    ensures s.Valid() && s.AsBytes() == b
  {
    StringData(B.FromBorrowed(b))
  }

  /** `try_from_bytedata`: `Ok` exactly when the bytes are valid UTF-8;
      otherwise the input comes back unchanged. */
  function TryFromByteData(d: B.ByteData): (r: Result<StringData, B.ByteData>)
    requires d.Valid()
    ensures r.Success? <==> Utf8.Valid(d.AsSlice())
    ensures r.Success? ==> r.value.Valid() && r.value.data == d
    ensures r.Failure? ==> r.error == d
  {
    if Utf8.Valid(d.AsSlice()) then Success(StringData(d)) else Failure(d)
  }

  /** `try_from_shared`: the same test on a `SharedBytes`, which is
      wrapped with `from_shared` on success. */
  function TryFromShared(h: Shared.SharedBytes): (r: Result<StringData, Shared.SharedBytes>)
    requires h.Valid()
    ensures r.Success? <==> Utf8.Valid(h.AsSlice())
    ensures r.Success? ==> r.value.Valid() && r.value.data == B.FromShared(h)
    ensures r.Failure? ==> r.error == h
  {
    if Utf8.Valid(h.AsSlice()) then Success(StringData(B.FromShared(h))) else Failure(h)
  }

  /** `into_bytedata` / `as_bytedata`: the bytes as they are, with no
      check. */
  function IntoByteData(s: StringData): (d: B.ByteData)
    requires s.Valid()
    ensures d.Valid() && d.AsSlice() == s.AsBytes()
  {
    s.data
  }

  /** Going to `ByteData` and back loses nothing. */
  lemma IntoByteDataRoundTrip(s: StringData)
    requires s.Valid()
    ensures TryFromByteData(IntoByteData(s)) == Success(s)
  {
  }

  /** The assertions of `check_sliced` for the normalised range
      `start..end`: in bounds, `end` at the end or on a non-continuation
      byte, and `start` at 0, at `end`, or on a non-continuation byte. */
  predicate CheckSliced(b: seq<byte>, start: nat, end: nat) {
    start <= end && start <= |b| && end <= |b|
    && (end == |b| || !IsContinuation(b[end]))
    && (start == 0 || start == end || !IsContinuation(b[start]))
  }

  /** A cut that passes `check_sliced` keeps the bytes valid UTF-8. */
  lemma CheckSlicedKeepsValid(b: seq<byte>, start: nat, end: nat)
    requires Utf8.Valid(b) && CheckSliced(b, start, end)
    ensures Utf8.Valid(b[start..end])
  {
    Utf8.ValidSubslice(b, start, end);
  }

  /** `check_sliced` accepts exactly the ranges `const_slice_str`
      accepts (with `const_slice_str`'s start test read as intended). */
  lemma CheckSlicedLikeConstSliceStr(b: seq<byte>, start: nat, end: nat)
    ensures CheckSliced(b, start, end) <==> ConstBytes.ConstSliceStr(b, start, end).Success?
  {
  }

  /** `sliced(start..end)`: `check_sliced`, then `ByteData::sliced`. */
  function Sliced(s: StringData, start: nat, end: nat): (r: StringData)
    requires s.Valid() && CheckSliced(s.AsBytes(), start, end)
    ensures r.Valid() && r.AsBytes() == s.AsBytes()[start..end]
  {
    CheckSlicedKeepsValid(s.AsBytes(), start, end);
    StringData(B.Sliced(s.data, start, end))
  }

  /** `make_sliced(start..end)` and `into_sliced`: `check_sliced`, then
      `ByteData::make_sliced`. */
  function MakeSliced(s: StringData, start: nat, end: nat): (r: StringData)
    requires s.Valid() && CheckSliced(s.AsBytes(), start, end)
    ensures r.Valid() && r.AsBytes() == s.AsBytes()[start..end]
    ensures r.data.Kind() == s.data.Kind() || r.data.ChunkData?
  {
    CheckSlicedKeepsValid(s.AsBytes(), start, end);
    StringData(B.MakeSliced(s.data, start, end))
  }

  /** `split_at(p)`: `sliced(0..p)` and `make_sliced(p..)`, so `p` must
      be a character boundary. */
  function SplitAt(s: StringData, p: nat): (r: (StringData, StringData))
    requires s.Valid()
    requires p <= s.Len() && (p == s.Len() || !IsContinuation(s.AsBytes()[p]))
    ensures r.0.Valid() && r.1.Valid()
    ensures r.0.AsBytes() == s.AsBytes()[..p] && r.1.AsBytes() == s.AsBytes()[p..]
    ensures r.0.AsBytes() + r.1.AsBytes() == s.AsBytes()
  {
    var d := s.data;
    Utf8.ValidSplit(d.AsSlice(), p);
    var left, right := B.Sliced(d, 0, p), B.MakeSliced(d, p, d.Len());
    SplitAtBytes(d, p);
    (StringData(left), StringData(right))
  }

  lemma SplitAtBytes(d: B.ByteData, p: nat)
    requires d.Valid() && p <= d.Len()
    ensures B.Sliced(d, 0, p).Valid() && B.MakeSliced(d, p, d.Len()).Valid()
    ensures B.Sliced(d, 0, p).AsSlice() == d.AsSlice()[..p]
    ensures B.MakeSliced(d, p, d.Len()).AsSlice() == d.AsSlice()[p..]
    ensures d.AsSlice()[..p] + d.AsSlice()[p..] == d.AsSlice()
  {
    var b := d.AsSlice();
    assert b[0..p] == b[..p] && b[p..|b|] == b[p..];
    assert b[..p] + b[p..] == b;
  }

  /** The first character of a non-empty valid sequence. */
  function FirstChar(b: seq<byte>): char
    requires Utf8.Valid(b) && |b| > 0
  {
    Utf8.Decode(b)[0]
  }

  /** Every character of `cs` satisfies `f`. */
  predicate AllSatisfy(cs: seq<char>, f: char -> bool) {
    forall k :: 0 <= k < |cs| ==> f(cs[k])
  }

  /** `n` cuts `b` at a character boundary, every character before the
      cut satisfies `f`, and the character at the cut (if any) does not. */
  predicate IsPrefixWhile(b: seq<byte>, f: char -> bool, n: nat) {
    && n <= |b| && (n == |b| || !IsContinuation(b[n]))
    && Utf8.Valid(b[..n]) && Utf8.Valid(b[n..])
    && AllSatisfy(Utf8.Decode(b[..n]), f)
    && (n < |b| ==> !f(FirstChar(b[n..])))
  }

  /** The byte length of the longest prefix of `b` whose characters all
      satisfy `f`: the position `str::find(|c| !f(c))` reports, or the
      length when there is none. */
  function CharPrefixWhile(b: seq<byte>, f: char -> bool): (n: nat)
    requires Utf8.Valid(b)
    ensures IsPrefixWhile(b, f, n)
    decreases |b|
  {
    if |b| == 0 || !f(FirstChar(b)) then
      CharPrefixStop(b, f);
      0
    else
      var w := Utf8.CharWidth(b);
      var m := CharPrefixWhile(b[w..], f);
      CharPrefixCons(b, w, m, f);
      w + m
  }

  lemma CharPrefixStop(b: seq<byte>, f: char -> bool)
    requires Utf8.Valid(b) && (|b| > 0 ==> !f(FirstChar(b)))
    ensures IsPrefixWhile(b, f, 0)
  {
    if |b| > 0 {
      Utf8.ValidStart(b);
    }
    assert b[0..] == b;
    assert b[..0] == [];
  }

  /** The step of `CharPrefixWhile` past an accepted first character. */
  lemma CharPrefixCons(b: seq<byte>, w: nat, m: nat, f: char -> bool)
    requires Utf8.Valid(b) && |b| > 0 && w == Utf8.CharWidth(b) && f(FirstChar(b))
    requires IsPrefixWhile(b[w..], f, m)
    ensures IsPrefixWhile(b, f, w + m)
  {
    var rest := b[w..];
    assert b[w + m..] == rest[m..];
    if w + m < |b| {
      assert b[w + m] == rest[m];
    }
    CharPrefixStep(b, w, m);
    AllSatisfyCons(FirstChar(b), Utf8.Decode(rest[..m]), f);
  }

  lemma AllSatisfyCons(c: char, cs: seq<char>, f: char -> bool)
    requires f(c) && AllSatisfy(cs, f)
    ensures AllSatisfy([c] + cs, f)
  {
    forall k | 0 <= k < |cs| + 1 ensures f(([c] + cs)[k]) {
      if k > 0 {
        assert ([c] + cs)[k] == cs[k - 1];
      }
    }
  }

  lemma CharPrefixStep(b: seq<byte>, w: nat, m: nat)
    requires Utf8.Valid(b) && |b| > 0 && w == Utf8.CharWidth(b)
    requires m <= |b| - w && Utf8.Valid(b[w..][..m])
    ensures Utf8.Valid(b[..w]) && Utf8.Valid(b[..w + m])
    ensures Utf8.Decode(b[..w + m]) == [FirstChar(b)] + Utf8.Decode(b[w..][..m])
  {
    FirstCharAlone(b);
    TakeSplit(b, w, m);
    Utf8.DecodeConcat(b[..w], b[w..][..m]);
  }

  lemma TakeSplit(b: seq<byte>, w: nat, m: nat)
    requires w + m <= |b|
    ensures b[..w + m] == b[..w] + b[w..][..m]
  {
  }

  /** The first character's bytes, on their own, decode to it. */
  lemma FirstCharAlone(b: seq<byte>)
    requires Utf8.Valid(b) && |b| > 0
    ensures Utf8.Valid(b[..Utf8.CharWidth(b)])
    ensures Utf8.Decode(b[..Utf8.CharWidth(b)]) == [FirstChar(b)]
  {
    var w := Utf8.CharWidth(b);
    var first := b[..w];
    Utf8.ValidSplit(b, w);
    assert first[..w] == b[..w];
    Utf8.CharWidthDeterminedByPrefix(b, first);
    Utf8.ScalarOfPrefix(b, first, w);
    FirstCharIs(b);
    DecodeOneChar(first);
  }

  /** The first character is the scalar of the first `CharWidth` bytes. */
  lemma FirstCharIs(b: seq<byte>)
    requires Utf8.Valid(b) && |b| > 0
    ensures Utf8.CharWidth(b) > 0 && Utf8.IsScalar(Utf8.ScalarOf(b, Utf8.CharWidth(b)))
    ensures FirstChar(b) == Utf8.ScalarOf(b, Utf8.CharWidth(b)) as char
  {
    Utf8.WellFormedScalar(b);
  }

  /** A sequence holding exactly one character decodes to it. */
  lemma DecodeOneChar(b: seq<byte>)
    requires Utf8.Valid(b) && |b| > 0 && Utf8.CharWidth(b) == |b|
    ensures Utf8.Decode(b) == [FirstChar(b)]
  {
    assert b[|b|..] == [];
    Utf8.WellFormedScalar(b);
  }

  /** `take_while`: takes the longest prefix of characters satisfying
      `f`; the value keeps the rest. */
  function TakeWhile(s: StringData, f: char -> bool): (r: (StringData, StringData))
    requires s.Valid()
    ensures r.0.Valid() && r.1.Valid()
    ensures r.0.AsBytes() + r.1.AsBytes() == s.AsBytes()
    ensures AllSatisfy(Utf8.Decode(r.0.AsBytes()), f)
    ensures r.1.Len() > 0 ==> !f(FirstChar(r.1.AsBytes()))
  {
    var b := s.AsBytes();
    var p := CharPrefixWhile(b, f);
    if p == |b| then
      assert b[..p] == b;
      (s, Empty())
    else if p == 0 then
      assert b[p..] == b;
      (Empty(), s)
    else SplitAt(s, p)
  }

  /** The position of the first `'\n'` byte, if any. */
  function FindNewline(b: seq<byte>): (r: Option<nat>)
    ensures r.None? <==> 0x0A !in b
    ensures r.Some? ==> r.value < |b| && b[r.value] == 0x0A && 0x0A !in b[..r.value]
  {
    if |b| == 0 then None
    else if b[0] == 0x0A then Some(0)
    else match FindNewline(b[1..])
      case None => None
      case Some(p) =>
        assert b[..p + 1] == [b[0]] + b[1..][..p];
        Some(p + 1)
  }

  /** `take_line` as written: without a newline the whole string is
      taken; otherwise the part before the first `'\n'` is returned and
      the value keeps the `'\n'` and what follows. */
  function TakeLineAsWritten(s: StringData): (r: (StringData, StringData))
    requires s.Valid()
    ensures r.0.Valid() && r.1.Valid()
    ensures r.0.AsBytes() + r.1.AsBytes() == s.AsBytes()
    ensures 0x0A !in r.0.AsBytes()
    ensures 0x0A in s.AsBytes() ==> |r.1.AsBytes()| > 0 && r.1.AsBytes()[0] == 0x0A
    ensures 0x0A !in s.AsBytes() ==> r.0.AsBytes() == s.AsBytes() && r.1.AsBytes() == []
  {
    match FindNewline(s.AsBytes())
    case None => (s, Empty())
    case Some(p) => SplitAt(s, p)
  }

  /** On a string that starts with a newline, the written `take_line`
      returns nothing and leaves the string as it was, so a loop of
      `take_line` calls makes no progress. */
  lemma TakeLineStuckOnLeadingNewline()
    ensures var s := FromBorrowed([0x0A, 0x61]);
      && TakeLineAsWritten(s).0.AsBytes() == []
      && TakeLineAsWritten(s).1.AsBytes() == s.AsBytes()
  {
    var s := FromBorrowed([0x0A, 0x61]);
    assert Utf8.CharWidth([0x61]) == 1;
    assert Utf8.Valid([0x61][1..]);
    assert Utf8.CharWidth([0x0A, 0x61]) == 1;
    assert [0x0A, 0x61][1..] == [0x61];
  }

  /** `l` runs up to and including the first `'\n'` of `b == l + r`, or is
      all of `b` when `b` has no newline. */
  predicate IsLineSplit(b: seq<byte>, l: seq<byte>, r: seq<byte>) {
    && l + r == b
    && (0x0A !in b ==> r == [])
    && (0x0A in b ==> |l| > 0 && l[|l| - 1] == 0x0A && 0x0A !in l[..|l| - 1])
  }

  /** `take_line` as its documentation describes it: the returned string
      runs up to and including the first `'\n'`. */
  function TakeLine(s: StringData): (r: (StringData, StringData))
    requires s.Valid()
    ensures r.0.Valid() && r.1.Valid()
    ensures IsLineSplit(s.AsBytes(), r.0.AsBytes(), r.1.AsBytes())
  {
    var b := s.AsBytes();
    match FindNewline(b)
    case None =>
      LineWhole(b);
      (s, Empty())
    case Some(p) => SplitAfterNewline(s, p)
  }

  /** The split just past the first newline, at `p`. */
  function SplitAfterNewline(s: StringData, p: nat): (r: (StringData, StringData))
    requires s.Valid() && p < |s.AsBytes()|
    requires s.AsBytes()[p] == 0x0A && 0x0A !in s.AsBytes()[..p]
    ensures r.0.Valid() && r.1.Valid()
    ensures IsLineSplit(s.AsBytes(), r.0.AsBytes(), r.1.AsBytes())
  {
    NewlineBoundary(s.AsBytes(), p);
    LineAtNewline(s.AsBytes(), p);
    SplitAt(s, p + 1)
  }

  lemma LineWhole(b: seq<byte>)
    requires 0x0A !in b
    ensures IsLineSplit(b, b, [])
  {
    assert b + [] == b;
  }

  lemma LineAtNewline(b: seq<byte>, p: nat)
    requires p < |b| && b[p] == 0x0A && 0x0A !in b[..p]
    ensures IsLineSplit(b, b[..p + 1], b[p + 1..])
  {
    var l := b[..p + 1];
    assert |l| == p + 1 && l[p] == b[p] && l[..p] == b[..p];
    assert l + b[p + 1..] == b;
  }

  /** The byte after a newline begins a character. */
  lemma NewlineBoundary(b: seq<byte>, p: nat)
    requires Utf8.Valid(b) && p < |b| && b[p] == 0x0A
    ensures p + 1 == |b| || !IsContinuation(b[p + 1])
  {
    if p + 1 < |b| {
      assert p == 0 || !IsContinuation(b[p]);
      Utf8.ValidSplit(b, p);
      var t := b[p..];
      assert Utf8.CharWidth(t) == 1;
      assert t[1..] == b[p + 1..];
      Utf8.ValidStart(b[p + 1..]);
    }
  }

  /** `split_once_on`: `Err(self)` when the needle does not occur,
      otherwise a split at its first occurrence. The match position is
      a character boundary because a non-empty valid needle starts with
      a lead byte. */
  method SplitOnceOn(s: StringData, needle: seq<byte>) returns (r: Result<(StringData, StringData), StringData>)
    requires s.Valid() && Utf8.Valid(needle)
    ensures r.Failure? <==> forall p: nat :: !ConstBytes.MatchAt(s.AsBytes(), needle, p)
    ensures r.Failure? ==> r.error == s
    ensures r.Success? ==> (r.value.0.Valid() && r.value.1.Valid()
      && r.value.0.AsBytes() + r.value.1.AsBytes() == s.AsBytes()
      && ConstBytes.MatchAt(s.AsBytes(), needle, r.value.0.Len())
      && forall p: nat :: p < r.value.0.Len() ==> !ConstBytes.MatchAt(s.AsBytes(), needle, p))
  {
    var found := ConstBytes.ConstSplitOnceBytes(s.AsBytes(), needle);
    match found {
      case None => r := Failure(s);
      case Some(parts) =>
        var p := |parts.0|;
        var b := s.AsBytes();
        assert ConstBytes.MatchAt(b, needle, p);
        if p < |b| && |needle| > 0 {
          Utf8.ValidStart(needle);
          assert b[p] == needle[0];
        }
        if |needle| == 0 {
          assert ConstBytes.MatchAt(b, needle, 0);
        }
        r := Success(SplitAt(s, p));
    }
  }

  /** `into_shared`: as for `ByteData`. */
  function IntoShared(s: StringData, id: nat, rc: Counts): (r: (StringData, Counts))
    requires s.Valid() && B.Owned(s.data, rc)
    requires s.data.SliceData? && !s.data.isStatic && s.Len() > ByteChunk.LEN ==> B.CopyOk(s.data.bytes, id, rc)
    ensures r.0.Valid() && r.0.AsBytes() == s.AsBytes() && r.0.data.Owning()
  {
    var c := B.IntoShared(s.data, id, rc);
    (StringData(c.data), c.counts)
  }

  /** `into_shared_range`: `check_sliced`, then as for `ByteData`. */
  function IntoSharedRange(s: StringData, start: nat, end: nat, id: nat, rc: Counts): (r: (StringData, Counts))
    requires s.Valid() && B.Owned(s.data, rc)
    requires CheckSliced(s.AsBytes(), start, end)
    requires s.data.SliceData? && !s.data.isStatic && end - start > ByteChunk.LEN ==> B.CopyOk(s.data.bytes[start..end], id, rc)
    ensures r.0.Valid() && r.0.AsBytes() == s.AsBytes()[start..end] && r.0.data.Owning()
  {
    CheckSlicedKeepsValid(s.AsBytes(), start, end);
    var c := B.IntoSharedRange(s.data, start, end, id, rc);
    (StringData(c.data), c.counts)
  }

  /** `Ord` compares the `str`s, which compare as bytes; `Eq` compares
      the bytes directly. */
  function Cmp(a: StringData, b: StringData): Ordering
    requires a.Valid() && b.Valid()
  {
    LexCmp(a.AsBytes(), b.AsBytes())
  }

  /** `Eq` and `Ord` agree with each other and with the `ByteData`
      comparison of the same bytes. */
  lemma CmpLikeByteData(a: StringData, b: StringData)
    requires a.Valid() && b.Valid()
    ensures Cmp(a, b) == B.Cmp(a.data, b.data)
    ensures Cmp(a, b) == Equal <==> a.AsBytes() == b.AsBytes()
  {
    B.CmpEqualIff(a.data, b.data);
  }
}
