/** `CharIter`, `CharIndecies` and `OwnedCharIter` over a string queue:
    a streaming decoder reading one byte at a time from the queue's byte
    iterator. It trusts the queue to hold valid UTF-8: continuation
    bytes are not checked and the value is not range-checked, so the
    decoded value is modelled as an integer that is a `char` only on
    well-formed input. */
module CharIter {
  import opened Bytes
  import opened Wrappers
  import Utf8
  import CI = CharIndices

  /** One call of `next` on the remaining bytes `s`: the value decoded
      (if any) and the bytes left. A bad lead byte consumes one byte; a
      truncated sequence consumes the rest. */
  function Step(s: seq<byte>): (r: (Option<int>, seq<byte>))
    ensures |r.1| <= |s| && (|s| > 0 ==> |r.1| < |s|)
    ensures r.1 == s[|s| - |r.1|..]
    ensures r.0.Some? ==> |s| > 0 && |s| - |r.1| == CI.LeadWidth(s[0])
  {
    if |s| == 0 then (None, s)
    else
      var w := CI.LeadWidth(s[0]);
      if w == 0 then (None, s[1..])
      else if |s| < w then (None, [])
      else (Some(Utf8.ScalarOf(s, w)), s[w..])
  }

  /** On well-formed input a step yields the first decoded character and
      leaves the bytes after it. */
  lemma StepOnValid(s: seq<byte>)
    requires Utf8.Valid(s) && |s| > 0
    ensures Step(s) == (Some(Utf8.Decode(s)[0] as int), s[Utf8.CharWidth(s)..])
  {
    CI.LeadWidthOfWellFormed(s);
    Utf8.WellFormedScalar(s);
  }

  /** The values yielded before the first `None`, as `collect` sees them. */
  function Values(s: seq<byte>): seq<int>
    decreases |s|
  {
    match Step(s)
    case (None, _) => []
    case (Some(v), rest) => [v] + Values(rest)
  }

  /** The code points of a string. */
  function CodePoints(cs: string): (r: seq<int>)
    ensures |r| == |cs|
    ensures forall k :: 0 <= k < |cs| ==> r[k] == cs[k] as int
  {
    seq(|cs|, k requires 0 <= k < |cs| => cs[k] as int)
  }

  /** Over well-formed content the iterator yields exactly the decoded
      characters of the concatenated chunks. */
  lemma {:induction false} ValuesOnValid(s: seq<byte>)
    requires Utf8.Valid(s)
    ensures Values(s) == CodePoints(Utf8.Decode(s))
    decreases |s|
  {
    if |s| > 0 {
      var w := Utf8.CharWidth(s);
      StepOnValid(s);
      ValuesOnValid(s[w..]);
      var d := Utf8.Decode(s);
      assert d == [d[0]] + Utf8.Decode(s[w..]);
      assert Values(s) == [d[0] as int] + CodePoints(Utf8.Decode(s[w..]));
    }
  }

  /** `size_hint()`: `((n + 3) >> 2, Some(n))` for `n` remaining bytes. */
  function SizeHint(s: seq<byte>): (nat, Option<nat>)
  {
    ((|s| + 3) / 4, Some(|s|))
  }

  /** The upper bound of the hint holds for any bytes; the lower bound
      needs well-formed content, since a bad lead byte ends the iteration
      early. */
  lemma {:induction false} SizeHintBoundsValues(s: seq<byte>)
    ensures |Values(s)| <= |s|
    ensures Utf8.Valid(s) ==> SizeHint(s).0 <= |Values(s)|
    decreases |s|
  {
    if |s| > 0 && Step(s).0.Some? {
      SizeHintBoundsValues(Step(s).1);
      if Utf8.Valid(s) {
        StepOnValid(s);
      }
    }
  }

  /** `CharIndecies::next`: as `CharIter::next`, also returning the offset
      of the character's first byte; `offset` counts every byte read. */
  function IndexedStep(s: seq<byte>, offset: nat): (r: (Option<(nat, int)>, seq<byte>, nat))
    ensures r.1 == Step(s).1 && r.2 == offset + |s| - |r.1|
    ensures r.0.Some? <==> Step(s).0.Some?
    ensures r.0.Some? ==> r.0.value == (offset, Step(s).0.value)
  {
    var (v, rest) := Step(s);
    match v
    case None => (None, rest, offset + |s| - |rest|)
    case Some(x) => (Some((offset, x)), rest, offset + |s| - |rest|)
  }

  /** Over well-formed content each index is the byte offset at which the
      character starts. */
  lemma IndexedStepOnValid(s: seq<byte>, offset: nat)
    requires Utf8.Valid(s) && |s| > 0
    ensures var w := Utf8.CharWidth(s);
      IndexedStep(s, offset) == (Some((offset, Utf8.Decode(s)[0] as int)), s[w..], offset + w)
  {
    StepOnValid(s);
  }
}
