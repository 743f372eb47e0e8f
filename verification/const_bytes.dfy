/** The `const fn` byte-slice helpers of the crate root: equality,
    prefix and suffix tests, checked slicing (plain and on UTF-8
    boundaries), substring search, splitting and concatenation into a
    fixed array. */
module ConstBytes {
  import opened Wrappers
  import opened Bytes
  import Utf8

  /** `const_eq`: a length mismatch is answered at once, otherwise the
      bytes are compared front to back. */
  method ConstEq(a: seq<byte>, b: seq<byte>) returns (r: bool)
    ensures r <==> a == b
  {
    if |a| != |b| {
      return false;
    }
    var i := 0;
    while i < |a|
      invariant i <= |a|
      invariant a[..i] == b[..i]
    {
      if a[i] != b[i] {
        return false;
      }
      assert a[..i + 1] == a[..i] + [a[i]];
      assert b[..i + 1] == b[..i] + [b[i]];
      i := i + 1;
    }
    assert a == a[..i] && b == b[..i];
    return true;
  }

  /** `haystack` starts with `needle`. */
  predicate IsPrefix(haystack: seq<byte>, needle: seq<byte>) {
    |needle| <= |haystack| && haystack[..|needle|] == needle
  }

  /** `haystack` ends with `needle`. */
  predicate IsSuffix(haystack: seq<byte>, needle: seq<byte>) {
    |needle| <= |haystack| && haystack[|haystack| - |needle|..] == needle
  }

  /** `const_starts_with`. */
  method ConstStartsWith(haystack: seq<byte>, needle: seq<byte>) returns (r: bool)
    ensures r <==> IsPrefix(haystack, needle)
  {
    if |haystack| < |needle| {
      return false;
    }
    var i := 0;
    while i < |needle|
      invariant i <= |needle|
      invariant haystack[..i] == needle[..i]
    {
      if haystack[i] != needle[i] {
        assert haystack[..|needle|][i] != needle[i];
        return false;
      }
      assert haystack[..i + 1] == haystack[..i] + [haystack[i]];
      assert needle[..i + 1] == needle[..i] + [needle[i]];
      i := i + 1;
    }
    assert needle == needle[..i];
    return true;
  }

  /** `const_ends_with`: compares the last `|needle|` bytes. */
  method ConstEndsWith(haystack: seq<byte>, needle: seq<byte>) returns (r: bool)
    ensures r <==> IsSuffix(haystack, needle)
  {
    var len := |needle|;
    if |haystack| < len {
      return false;
    }
    var offs := |haystack| - len;
    var hayend := haystack[offs..];
    var i := 0;
    while i < |needle|
      invariant i <= |needle|
      invariant hayend[..i] == needle[..i]
    {
      if hayend[i] != needle[i] {
        return false;
      }
      assert hayend[..i + 1] == hayend[..i] + [hayend[i]];
      assert needle[..i + 1] == needle[..i] + [needle[i]];
      i := i + 1;
    }
    assert needle == needle[..i] && hayend == hayend[..i];
    return true;
  }

  /** `const_slice`: `None` unless `start <= end <= |data|`. */
  function ConstSlice(data: seq<byte>, start: nat, end: nat): (r: Option<seq<byte>>)
    ensures r.Some? <==> start <= end <= |data|
    ensures r.Some? ==> (|r.value| == end - start
      && forall i :: 0 <= i < end - start ==> r.value[i] == data[start + i])
  {
    if start > end || end > |data| then None
    else Some(data[start..end])
  }

  /** `StrSliceResult`: the outcome of slicing a `str`. */
  datatype StrSliceResult = Success(s: seq<byte>) | OutOfBounds | InvalidUtf8 {
    /** `ok`: the slice, if the cut was valid. */
    function Ok(): Option<seq<byte>> {
      if Success? then Some(s) else None
    }

    /** `is_ok` / `is_err`. */
    predicate IsOk() {
      Success?
    }
  }

  /** `const_slice_str` as written: it reads `data[start]` whenever
      `start != 0`, so it indexes out of bounds (and panics) for the
      in-range empty cut at the very end of a non-empty string. */
  predicate SliceStrPanics(data: seq<byte>, start: nat, end: nat) {
    start <= end <= |data| && start != 0 && start == |data|
  }

  function ConstSliceStrAsWritten(data: seq<byte>, start: nat, end: nat): (r: StrSliceResult)
    requires !SliceStrPanics(data, start, end)
    ensures r == ConstSliceStr(data, start, end)
  {
    if start > end || end > |data| then OutOfBounds
    else if start != 0 && IsContinuation(data[start]) then InvalidUtf8
    else if end != |data| && IsContinuation(data[end]) then InvalidUtf8
    else StrSliceResult.Success(data[start..end])
  }

  /** The `len..len` cut of a one-byte string: every `str` accepts it
      (it is the empty string), but the code as written panics. */
  lemma SliceStrAtEndPanics()
    ensures SliceStrPanics(['a' as byte], 1, 1)
    ensures ConstSliceStr(['a' as byte], 1, 1) == StrSliceResult.Success([])
  {
  }

  /** The checks on the two ends of a cut: the start may be 0 or the
      end of the data, the end only the end of the data; anywhere else
      the byte there must not be a continuation byte. */
  predicate StartOk(data: seq<byte>, start: nat) {
    start == 0 || start == |data| || (start < |data| && !IsContinuation(data[start]))
  }

  predicate EndOk(data: seq<byte>, end: nat) {
    end == |data| || (end < |data| && !IsContinuation(data[end]))
  }

  /** `const_slice_str` with the start check guarded like the end check,
      so that every in-range cut on character boundaries succeeds. */
  function ConstSliceStr(data: seq<byte>, start: nat, end: nat): (r: StrSliceResult)
    ensures r == OutOfBounds <==> start > end || end > |data|
    ensures r.Success? <==> (start <= end <= |data|
      && StartOk(data, start) && EndOk(data, end))
    ensures r.Success? ==> r.s == data[start..end]
  {
    if start > end || end > |data| then OutOfBounds
    else if start != 0 && start != |data| && IsContinuation(data[start]) then InvalidUtf8
    else if end != |data| && IsContinuation(data[end]) then InvalidUtf8
    else StrSliceResult.Success(data[start..end])
  }

  /** A successful cut of valid UTF-8 is valid UTF-8. */
  lemma ConstSliceStrValid(data: seq<byte>, start: nat, end: nat)
    requires Utf8.Valid(data)
    requires ConstSliceStr(data, start, end).Success?
    ensures Utf8.Valid(ConstSliceStr(data, start, end).s)
  {
    if start == |data| {
      assert data[start..end] == [];
    } else {
      Utf8.ValidSubslice(data, start, end);
    }
  }

  /** `build_const_bytes`: copies the inputs one after another into the
      front of `data` and returns the array with the number of bytes
      written; it panics when they do not fit. */
  method BuildConstBytes(data: seq<byte>, inputs: seq<seq<byte>>) returns (out: seq<byte>, pos: nat)
    requires TotalLen(inputs) <= |data|
    ensures |out| == |data|
    ensures pos == TotalLen(inputs)
    ensures out[..pos] == Flatten(inputs)
    ensures out[pos..] == data[pos..]
  {
    out := data;
    pos := 0;
    var i := 0;
    while i < |inputs|
      invariant i <= |inputs|
      invariant |out| == |data|
      invariant pos == TotalLen(inputs[..i])
      invariant pos <= |data|
      invariant out[..pos] == Flatten(inputs[..i])
      invariant out[pos..] == data[pos..]
    {
      var input := inputs[i];
      assert inputs[..i + 1] == inputs[..i] + [input];
      FlattenSnoc(inputs[..i], input);
      TotalLenPrefix(inputs, i + 1);
      assert TotalLen(inputs[..i + 1]) == pos + |input|;
      var j := 0;
      while j < |input|
        invariant j <= |input|
        invariant |out| == |data|
        invariant pos == TotalLen(inputs[..i]) + j
        invariant pos <= |data|
        invariant out[..pos] == Flatten(inputs[..i]) + input[..j]
        invariant out[pos..] == data[pos..]
      {
        out := out[pos := input[j]];
        assert input[..j + 1] == input[..j] + [input[j]];
        pos := pos + 1;
        j := j + 1;
      }
      assert input[..j] == input;
      i := i + 1;
    }
    assert inputs[..i] == inputs;
  }

  /** The bytes of a prefix of the inputs never exceed those of all of them. */
  lemma TotalLenPrefix(inputs: seq<seq<byte>>, k: nat)
    requires k <= |inputs|
    ensures TotalLen(inputs[..k]) <= TotalLen(inputs)
  {
    assert inputs == inputs[..k] + inputs[k..];
    FlattenAppend(inputs[..k], inputs[k..]);
  }

  /** `const_split_once_byte`: splits before the first occurrence of
      `needle`, which stays at the front of the second part. */
  method ConstSplitOnceByte(haystack: seq<byte>, needle: byte) returns (r: Option<(seq<byte>, seq<byte>)>)
    ensures r.None? <==> needle !in haystack
    ensures r.Some? ==> (r.value.0 + r.value.1 == haystack
      && needle !in r.value.0 && |r.value.1| > 0 && r.value.1[0] == needle)
  {
    var pos := 0;
    while pos < |haystack|
      invariant pos <= |haystack|
      invariant needle !in haystack[..pos]
    {
      if haystack[pos] == needle {
        assert haystack[..pos] + haystack[pos..] == haystack;
        return Some((haystack[..pos], haystack[pos..]));
      }
      assert haystack[..pos + 1] == haystack[..pos] + [haystack[pos]];
      pos := pos + 1;
    }
    assert haystack[..pos] == haystack;
    return None;
  }

  /** `needle` occurs in `haystack` starting at `p`. */
  predicate MatchAt(haystack: seq<byte>, needle: seq<byte>, p: nat) {
    p + |needle| <= |haystack| && haystack[p..p + |needle|] == needle
  }

  /** `const_find_bytes`: the first position where `needle` occurs. */
  method ConstFindBytes(haystack: seq<byte>, needle: seq<byte>) returns (r: Option<nat>)
    ensures r.None? <==> forall p: nat :: !MatchAt(haystack, needle, p)
    ensures r.Some? ==> (MatchAt(haystack, needle, r.value)
      && forall q: nat :: q < r.value ==> !MatchAt(haystack, needle, q))
  {
    var pos := 0;
    if |needle| > |haystack| {
      return None;
    }
    var maxStart := |haystack| - |needle|;
    while true
      invariant pos <= maxStart
      invariant forall q: nat :: q < pos ==> !MatchAt(haystack, needle, q)
      decreases maxStart - pos
    {
      var hs := haystack[pos..pos + |needle|];
      var eq := ConstEq(hs, needle);
      if !eq {
        pos := pos + 1;
        if pos <= maxStart {
          continue;
        }
        return None;
      }
      assert MatchAt(haystack, needle, pos);
      return Some(pos);
    }
  }

  /** `const_split_once_bytes`: splits before the first occurrence of
      `needle`. */
  method ConstSplitOnceBytes(haystack: seq<byte>, needle: seq<byte>) returns (r: Option<(seq<byte>, seq<byte>)>)
    ensures r.None? <==> forall p: nat :: !MatchAt(haystack, needle, p)
    ensures r.Some? ==> (r.value.0 + r.value.1 == haystack
      && IsPrefix(r.value.1, needle)
      && forall q: nat :: q < |r.value.0| ==> !MatchAt(haystack, needle, q))
  {
    var found := ConstFindBytes(haystack, needle);
    if found.None? {
      return None;
    }
    var pos := found.value;
    assert haystack[..pos] + haystack[pos..] == haystack;
    assert haystack[pos..][..|needle|] == haystack[pos..pos + |needle|];
    return Some((haystack[..pos], haystack[pos..]));
  }

  /** `const_split_once_str`: the byte split of two `str`s cuts on a
      character boundary, so both parts are valid UTF-8. */
  method ConstSplitOnceStr(haystack: seq<byte>, needle: seq<byte>) returns (r: Option<(seq<byte>, seq<byte>)>)
    requires Utf8.Valid(haystack) && Utf8.Valid(needle)
    ensures r.None? <==> forall p: nat :: !MatchAt(haystack, needle, p)
    ensures r.Some? ==> (r.value.0 + r.value.1 == haystack
      && IsPrefix(r.value.1, needle)
      && (forall q: nat :: q < |r.value.0| ==> !MatchAt(haystack, needle, q))
      && Utf8.Valid(r.value.0) && Utf8.Valid(r.value.1))
  {
    r := ConstSplitOnceBytes(haystack, needle);
    if r.Some? {
      var pos := |r.value.0|;
      assert r.value.0 == haystack[..pos] && r.value.1 == haystack[pos..];
      if |needle| == 0 {
        assert MatchAt(haystack, needle, 0);
      }
      if |needle| > 0 && pos < |haystack| {
        assert haystack[pos] == needle[0];
        Utf8.ValidStart(needle);
      }
      Utf8.ValidSplit(haystack, pos);
    }
  }
}
