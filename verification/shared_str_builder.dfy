/** `SharedStrBuilder`: a `SharedBytesBuilder` whose written bytes are
    always valid UTF-8 (RFC 3629 section 4). */
module StrBuilder {
  import opened Bytes
  import opened Wrappers
  import Utf8
  import BB = BytesBuilder

  datatype StrBuilder = StrBuilder(inner: BB.Builder) {
    ghost predicate Valid() {
      inner.Valid() && Utf8.Valid(inner.AsSlice())
    }

    /** `as_bytes()`. */
    function AsBytes(): seq<byte>
      requires inner.Valid()
    {
      inner.AsSlice()
    }

    /** `as_str()`, as characters. */
    function AsStr(): string
      requires Valid()
    {
      Utf8.Decode(AsBytes())
    }

    function Len(): nat
      requires inner.Valid()
    {
      inner.Len()
    }
  }

  function New(): (b: StrBuilder)
    ensures b.Valid() && b.AsStr() == ""
  {
    StrBuilder(BB.New())
  }

  function WithCapacity(cap: nat): (b: StrBuilder)
    requires cap <= 0xFFFF_FFF7
    ensures b.Valid() && b.AsStr() == ""
  {
    StrBuilder(BB.WithCapacity(cap))
  }

  /** `push(ch)`: appends the one-to-four-byte encoding of `ch` (RFC 3629
      section 3). */
  function Push(b: StrBuilder, c: char): (r: StrBuilder)
    requires b.Valid() && b.inner.off + |Utf8.EncodeChar(c)| <= BB.MAX_U32
    ensures r.Valid()
    ensures r.AsBytes() == b.AsBytes() + Utf8.EncodeChar(c)
    ensures r.AsStr() == b.AsStr() + [c]
    ensures r.inner.off == b.inner.off + |Utf8.EncodeChar(c)|
  {
    Utf8.EncodeCharRoundTrip(c);
    Utf8.DecodeConcat(b.AsBytes(), Utf8.EncodeChar(c));
    StrBuilder(BB.ExtendFromSlice(b.inner, Utf8.EncodeChar(c)))
  }

  /** `push_str(s)`: appends the bytes of `s`. */
  function PushStr(b: StrBuilder, s: string): (r: StrBuilder)
    requires b.Valid() && b.inner.off + |Utf8.Encode(s)| <= BB.MAX_U32
    ensures r.Valid()
    ensures r.AsBytes() == b.AsBytes() + Utf8.Encode(s)
    ensures r.AsStr() == b.AsStr() + s
  {
    Utf8.EncodeRoundTrip(s);
    Utf8.DecodeConcat(b.AsBytes(), Utf8.Encode(s));
    StrBuilder(BB.ExtendFromSlice(b.inner, Utf8.Encode(s)))
  }

  /** Pushing the characters of `s` one at a time: the same bytes as
      `push_str` of the whole string. */
  function PushAll(b: StrBuilder, s: string): (r: StrBuilder)
    requires b.Valid() && b.inner.off + |Utf8.Encode(s)| <= BB.MAX_U32
    ensures r.Valid() && r.AsBytes() == b.AsBytes() + Utf8.Encode(s)
    decreases |s|
  {
    if |s| == 0 then
      AppendEmpty(b.AsBytes());
      b
    else
      EncodeCons(s);
      var next := Push(b, s[0]);
      AppendAssoc(b.AsBytes(), Utf8.EncodeChar(s[0]), Utf8.Encode(s[1..]));
      PushAll(next, s[1..])
  }

  lemma AppendEmpty(a: seq<byte>)
    ensures Utf8.Encode([]) == [] && a + [] == a
  {
  }

  lemma AppendAssoc(a: seq<byte>, b: seq<byte>, c: seq<byte>)
    ensures a + b + c == a + (b + c)
  {
  }

  lemma EncodeCons(s: string)
    requires |s| > 0
    ensures Utf8.Encode(s) == Utf8.EncodeChar(s[0]) + Utf8.Encode(s[1..])
  {
  }

  /** Pushing the characters one at a time and pushing the whole
      string leave the same text. */
  lemma PushAllLikePushStr(b: StrBuilder, s: string)
    requires b.Valid() && b.inner.off + |Utf8.Encode(s)| <= BB.MAX_U32
    ensures PushAll(b, s).AsBytes() == PushStr(b, s).AsBytes()
    ensures PushAll(b, s).AsStr() == b.AsStr() + s
  {
  }

  /** `reserve(additional)`: capacity only; the text is unchanged. */
  function Reserve(b: StrBuilder, additional: nat): (r: StrBuilder)
    requires b.Valid()
    ensures r.Valid() && r.AsBytes() == b.AsBytes()
    ensures b.inner.off < BB.MAX_U32 && b.inner.off + additional <= BB.MAX_U32 ==> r.inner.len >= b.inner.off + additional
  {
    StrBuilder(BB.Reserve(b.inner, additional))
  }

  /** `truncate(n)`: a no-op when `n` is at least the length; otherwise
      panics when byte `n` is a continuation byte, and keeps the first
      `n` bytes. The inner builder's `truncate` is not part of this
      model; it is taken to move the write offset back to `8 + n`. */
  function Truncate(b: StrBuilder, n: nat): (r: StrBuilder)
    requires b.Valid()
    requires n < b.Len() ==> !IsContinuation(b.AsBytes()[n])
    ensures r.Valid()
    ensures n >= b.Len() ==> r == b
    ensures n < b.Len() ==> r.AsBytes() == b.AsBytes()[..n]
  {
    if n >= b.Len() then b
    else
      var inner := b.inner.(off := BB.HEADER + n);
      assert inner.AsSlice() == b.AsBytes()[..n];
      Utf8.ValidSplit(b.AsBytes(), n);
      StrBuilder(inner)
  }

  /** `TryFrom<SharedBytesBuilder>`: succeeds exactly when the written
      bytes are valid UTF-8, keeping the builder as it is. */
  function TryFromBytesBuilder(bb: BB.Builder): (r: Option<StrBuilder>)
    requires bb.Valid()
    ensures r.Some? <==> Utf8.Valid(bb.AsSlice())
    ensures r.Some? ==> r.value.Valid() && r.value.inner == bb
  {
    if Utf8.Valid(bb.AsSlice()) then Some(StrBuilder(bb)) else None
  }

  /** `into_shared_bytes_builder`, the inverse of a successful
      `TryFrom`. */
  function IntoBytesBuilder(b: StrBuilder): (r: BB.Builder)
    requires b.Valid()
    ensures r.Valid() && r.AsSlice() == b.AsBytes()
  {
    b.inner
  }

  lemma IntoBytesBuilderRoundTrip(b: StrBuilder)
    requires b.Valid()
    ensures TryFromBytesBuilder(IntoBytesBuilder(b)) == Some(b)
  {
  }

  /** `build()` and `build_str()`: the inner builder's `build`; the
      frozen bytes are the text's bytes and so are valid UTF-8. */
  function Build(b: StrBuilder): (r: BB.Frozen)
    requires b.Valid()
    ensures r.Valid() && r.AsSlice() == b.AsBytes()
    ensures Utf8.Valid(r.AsSlice()) && Utf8.Decode(r.AsSlice()) == b.AsStr()
  {
    BB.Build(b.inner)
  }

  /** A string pushed into a new builder comes back out of `build`. */
  lemma BuildAfterPushStr(s: string)
    requires BB.HEADER + |Utf8.Encode(s)| <= BB.MAX_U32
    ensures Utf8.Decode(Build(PushStr(New(), s)).AsSlice()) == s
  {
    assert New().AsStr() + s == s;
  }
}
