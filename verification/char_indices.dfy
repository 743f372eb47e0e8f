/** `Utf8CharIndices`: a decoder over a byte slice that reports, for each
    character, its byte offset, and for each malformed sequence an error
    with the offset it starts at and its length. It checks the lead
    byte's class, the continuation bytes and the scalar range, but not
    the shortest-form rule of RFC 3629 section 3. */
module CharIndices {
  import opened Bytes
  import opened Wrappers
  import Utf8

  /** The number of bytes the lead byte `b` announces: 1 for `0xxxxxxx`,
      2 for `110xxxxx`, 3 for `1110xxxx`, 4 for `11110xxx`, and 0 for a
      continuation byte or `11111xxx`. */
  function LeadWidth(b: byte): (w: nat)
    ensures w <= 4
  {
    if b & 0x80 == 0 then 1
    else if b & 0xE0 == 0xC0 then 2
    else if b & 0xF0 == 0xE0 then 3
    else if b & 0xF8 == 0xF0 then 4
    else 0
  }

  /** A well-formed character's lead byte announces its width. */
  lemma LeadWidthOfWellFormed(s: seq<byte>)
    requires Utf8.CharWidth(s) > 0
    ensures LeadWidth(s[0]) == Utf8.CharWidth(s)
  {
    LeadWidthRanges(s[0]);
  }

  /** The mask tests pick out the ranges of lead bytes. */
  lemma LeadWidthRanges(b: byte)
    ensures LeadWidth(b) == (if b as int < 0x80 then 1 else if b as int < 0xC0 then 0
      else if b as int < 0xE0 then 2 else if b as int < 0xF0 then 3
      else if b as int < 0xF8 then 4 else 0)
  {
  }

  /** The first position in `1..w` holding a byte that is not a
      continuation byte, or `w` when there is none. */
  function FirstNonContinuation(s: seq<byte>, i: nat, w: nat): (k: nat)
    requires 1 <= i <= w <= |s|
    ensures i <= k <= w
    ensures forall j :: i <= j < k ==> IsContinuation(s[j])
    ensures k < w ==> !IsContinuation(s[k])
    decreases w - i
  {
    if i == w then w
    else if !IsContinuation(s[i]) then i
    else FirstNonContinuation(s, i + 1, w)
  }

  /** `Utf8CharError`: `error_len` 0 stands for empty input. */
  datatype CharError = CharError(validUpTo: nat, errorLen: nat)

  /** The decoder's state: the bytes still to read and the offset of the
      first of them. */
  datatype Decoder = Decoder(data: seq<byte>, offset: nat)

  function New(data: seq<byte>): (it: Decoder)
    ensures it.data == data && it.offset == 0
  {
    Decoder(data, 0)
  }

  /** `size_hint()`: `((n + 3) >> 2, n)` for `n` remaining bytes. */
  function SizeHint(it: Decoder): (r: (nat, nat))
  {
    ((|it.data| + 3) / 4, |it.data|)
  }

  /** The inner decoder, for a lead byte of 128 or more: `Ok` with the
      character and its width, or `Err` with the error length. */
  function Inner(s: seq<byte>): (r: Result<(char, nat), nat>)
    requires |s| > 0 && s[0] as int >= 0x80
    ensures r.Success? ==> 2 <= r.value.1 <= 4 && r.value.1 <= |s|
    ensures r.Failure? ==> 1 <= r.error <= 4
  {
    var w := LeadWidth(s[0]);
    if w == 0 then Failure(1)
    else if |s| < w then Failure(1)
    else
      var k := FirstNonContinuation(s, 1, w);
      if k < w then Failure(k)
      else
        var v := Utf8.ScalarOf(s, w);
        if Utf8.IsScalar(v) then Success((v as char, w)) else Failure(w)
  }

  /** `next_const()`. On success: the advanced decoder, the character's
      offset and the character. On failure: the decoder advanced past
      one byte (or unchanged for empty input) and the error. */
  function NextConst(it: Decoder): (r: Result<(Decoder, nat, char), (Decoder, CharError)>)
    ensures r.Failure? && r.error.1.errorLen == 0 <==> |it.data| == 0
    ensures r.Failure? && |it.data| == 0 ==> r.error.0 == it && r.error.1.validUpTo == it.offset
    ensures r.Failure? && |it.data| > 0 ==> (r.error.0 == Decoder(it.data[1..], it.offset + 1)
      && r.error.1.validUpTo == it.offset && 1 <= r.error.1.errorLen <= 4)
    ensures r.Success? ==> (r.value.1 == it.offset
      && 1 <= r.value.0.offset - it.offset <= 4
      && r.value.0.offset - it.offset <= |it.data|
      && r.value.0.data == it.data[r.value.0.offset - it.offset..])
  {
    if |it.data| == 0 then Failure((it, CharError(it.offset, 0)))
    else if it.data[0] as int < 0x80 then
      Success((Decoder(it.data[1..], it.offset + 1), it.offset, (it.data[0] as int) as char))
    else match Inner(it.data)
      case Success((c, w)) => Success((Decoder(it.data[w..], it.offset + w), it.offset, c))
      case Failure(e) => Failure((Decoder(it.data[1..], it.offset + 1), CharError(it.offset, e)))
  }

  /** On well-formed input `next_const` yields the first character of the
      RFC 3629 decoding and steps over exactly its bytes. */
  lemma NextConstOnValid(it: Decoder)
    requires Utf8.Valid(it.data) && |it.data| > 0
    ensures var w := Utf8.CharWidth(it.data);
      NextConst(it) == Success((Decoder(it.data[w..], it.offset + w), it.offset, Utf8.Decode(it.data)[0]))
  {
    var s := it.data;
    var w := Utf8.CharWidth(s);
    LeadWidthOfWellFormed(s);
    Utf8.WellFormedScalar(s);
    if s[0] as int < 0x80 {
      assert w == 1;
    } else {
      assert FirstNonContinuation(s, 1, w) == w;
    }
  }

  /** `Iterator::next`: `None` at the end of the input, otherwise the
      character with its offset or the error. */
  function Next(it: Decoder): (r: (Option<Result<(nat, char), CharError>>, Decoder))
    ensures r.0.None? <==> |it.data| == 0
    ensures r.0.None? ==> r.1 == it
    ensures r.0.Some? ==> |r.1.data| < |it.data|
  {
    match NextConst(it)
    case Success((next, off, c)) => (Some(Success((off, c))), next)
    case Failure((next, e)) => if e.errorLen == 0 then (None, next) else (Some(Failure(e)), next)
  }

  /** The items the iterator yields before its first `None`. */
  function Items(it: Decoder): (items: seq<Result<(nat, char), CharError>>)
    decreases |it.data|
  {
    var r := Next(it);
    if r.0.None? then [] else [r.0.value] + Items(r.1)
  }

  /** `size_hint` bounds the number of items: each item covers between
      one and four bytes. */
  lemma {:induction false} SizeHintBoundsItems(it: Decoder)
    ensures SizeHint(it).0 <= |Items(it)| <= SizeHint(it).1
    decreases |it.data|
  {
    var n := |it.data|;
    if n > 0 {
      var next := Next(it).1;
      SizeHintBoundsItems(next);
      assert n - 4 <= |next.data| < n by {
        match NextConst(it)
        case Success(_) =>
        case Failure(_) =>
      }
    }
  }

  /** The items are successes carrying the characters `cs`, in order. */
  predicate YieldsChars(items: seq<Result<(nat, char), CharError>>, cs: seq<char>) {
    && |items| == |cs|
    && forall k :: 0 <= k < |items| ==> items[k].Success? && items[k].value.1 == cs[k]
  }

  lemma YieldsCons(x: Result<(nat, char), CharError>, c: char,
                   items: seq<Result<(nat, char), CharError>>, cs: seq<char>)
    requires x.Success? && x.value.1 == c && YieldsChars(items, cs)
    ensures YieldsChars([x] + items, [c] + cs)
  {
    forall k | 0 <= k < |items| + 1
      ensures ([x] + items)[k].Success? && ([x] + items)[k].value.1 == ([c] + cs)[k]
    {
      if k > 0 {
        assert ([x] + items)[k] == items[k - 1] && ([c] + cs)[k] == cs[k - 1];
      }
    }
  }

  /** Over well-formed input the iterator yields exactly the characters of
      the RFC 3629 decoding, each at its byte offset. */
  lemma {:induction false} ItemsOnValid(it: Decoder)
    requires Utf8.Valid(it.data)
    ensures YieldsChars(Items(it), Utf8.Decode(it.data))
    decreases |it.data|
  {
    if |it.data| > 0 {
      var w := Utf8.CharWidth(it.data);
      NextConstOnValid(it);
      Utf8.DecodeStep(it.data);
      var next := Decoder(it.data[w..], it.offset + w);
      ItemsOnValid(next);
      var c := Utf8.Decode(it.data)[0];
      assert Items(it) == [Success((it.offset, c))] + Items(next);
      YieldsCons(Success((it.offset, c)), c, Items(next), Utf8.Decode(it.data[w..]));
    }
  }

  /** `C0 80`, an overlong form that RFC 3629 section 3 forbids, decodes
      to U+0000. */
  lemma OverlongAccepted()
    ensures !Utf8.Valid([0xC0, 0x80])
    ensures NextConst(New([0xC0, 0x80])) == Success((Decoder([], 2), 0, 0 as char))
  {
    var s: seq<byte> := [0xC0, 0x80];
    assert Utf8.CharWidth(s) == 0;
    assert LeadWidth(s[0]) == 2;
    assert FirstNonContinuation(s, 1, 2) == 2;
    assert Utf8.ScalarOf(s, 2) == 0;
    assert s[2..] == [];
  }

  /** The source's error example: `FF` is reported at offset 0 with
      length 1, and decoding resumes at the next byte. */
  lemma InvalidLeadByte()
    ensures NextConst(New([0xFF, 0x21])) == Failure((Decoder([0x21], 1), CharError(0, 1)))
  {
    var s: seq<byte> := [0xFF, 0x21];
    assert LeadWidth(s[0]) == 0;
    assert s[1..] == [0x21];
  }
}
