# bytedata in Dafny

A functional model of the core of the Rust crate `bytedata`. The crate gives
cheap, cloneable byte and string views, and chunked queues of them. Every Rust
struct here is an immutable datatype. Every `&mut self` operation is a pure
function that returns the new value. A panic in the source becomes a
`requires` clause. A fallible call returns a `Result` or `Option`.

The layers, bottom to top:

- `Bytes`, `Seqs`, `Wrappers`, `Arith`: bytes as `bv8`, lexicographic order,
  sequence lemmas, and the power-of-two and rounding arithmetic the
  allocators use.
- `Utf8`: UTF-8 validity, decoding and encoding as in RFC 3629 sections 3 and 4.
  Two facts are proved for all inputs: an encoded scalar decodes back to
  itself, and validity is closed under concatenation and under cuts at
  character boundaries.
- `ByteChunk`: the inline buffer of at most 12 bytes.
- `Shared`, `RefCount`, `External`, `BytesBuilder`, `StrBuilder`: the shared
  allocation. It has a header with a reference count and a size word, and
  the data starts at an aligned offset. Handles are views into it. The model
  threads the reference counts as a map from allocation id to count through
  clone, slice and drop.
- `ByteData`: the four-way byte view: chunk, borrowed or static slice,
  shared, external. It covers the tag packing, slicing, `into_shared`,
  `take_bytes`, `split_once_on` and the ordering.
- `StringData`, `CharIndices`, `CharIter`, `Render`: the UTF-8 view over
  `ByteData`, its character decoders, and the `ByteStringRender` text forms.
- `ConstBytes`: the `const fn` helpers in `lib.rs`.
- `Ring`, `LinkedRoot`, `LinkedIter`, `ChunkIter`, `ChunkWalk`, `ByteQueue`,
  `StringQueue`, `ByteIter`, `Drain`: the chunked queue. It is a list of
  nodes, each a small ring of chunks, with a one-slot front chamber. On top
  of it sit the queue, its iterators, the chunk-wise equality, ordering and
  search loops, and draining a range.

The queue layer is specified by content: the bytes a queue holds and the
chunks it stores. Every queue operation is proved against those two views.

`CharIndices.NextConst` decodes the way `char_indices.rs` does. It checks
lead bytes and continuation bytes but not the shortest form.
`CharIndices.OverlongAccepted` exhibits this: the two-byte overlong form of
NUL decodes to `'\0'`. Every other decoder lemma is stated for valid UTF-8
input, where this gap cannot arise.

## Model

| member | source | states |
|---|---|---|
| Bytes.LexCmpEqualIff | src/bytedata.rs:1077-1081 | the byte-slice ordering `Ord::cmp` delegates to says `Equal` exactly when the two slices are equal, in both directions |
| Bytes.LexCmpAntisymmetric | src/bytedata.rs:1077-1081 | swapping the operands of the ordering reverses its answer |
| Bytes.LexCmpPrefix | src/bytedata.rs:1077-1081 | a proper prefix orders strictly before the slice it starts |
| Bytes.LexCmpCommonPrefix | src/bytedata.rs:1077-1081 | a common prefix does not influence the ordering: only what follows it decides |
| Arith.ILog2 | src/shared_bytes.rs:36-41 | the integer base-2 logarithm used to pack the alignment: `2^k <= x < 2^(k+1)` |
| Arith.Pow2IsPowerOfTwo | src/shared_bytes.rs:49-52 | unpacking the stored exponent gives back a power of two, and packing that power gives back the exponent |
| Arith.RoundUp | src/external.rs:105-113 | rounding up to an alignment yields a multiple of the alignment that is at least the input and less than one alignment above it |
| Arith.NextPowerOfTwo | src/shared_bytes_builder.rs:50-77 | `next_power_of_two` yields a power of two that is at least the input, and its half is below the input (the least such power) |
| Arith.NextPowerOfTwoOfPowerOfTwo | src/shared_bytes_builder.rs:50-77 | a length that is already a power of two is kept as it is |
| Arith.NextPowerOfTwoBelowDouble | src/shared_bytes_builder.rs:50-77 | the grown capacity stays below twice the requested length |
| ByteChunk.FromSlice | src/byte_chunk.rs:17-46 | a slice of at most 12 bytes becomes a valid chunk whose length and contents are exactly the slice; longer input is the source's panic, excluded by the requires |
| ByteChunk.FromByte | src/byte_chunk.rs:48-57 | the one-byte chunk is non-empty, has length 1 and holds exactly that byte |
| ByteChunk.Empty | src/byte_chunk.rs:6-11 | the zero-length chunk is valid, empty and shows no bytes |
| ByteChunk.Slice | src/byte_chunk.rs:81-97 | the in-place slice keeps exactly the bytes `start..end` of the old contents and leaves the array slots past the new length untouched |
| ByteChunk.Sliced | src/byte_chunk.rs:99-154 | after normalising included/excluded/unbounded bounds, the result shows exactly the selected sub-range of the chunk |
| Utf8.CharWidth | src/stringdata.rs:103-114 | the width of the first encoded character: at most four bytes and within the input, a non-continuation lead byte followed only by continuation bytes; 0 when the input does not start with a well-formed character |
| Utf8.ValidConcat | src/stringdata.rs:51-84 | joining two valid UTF-8 byte strings gives a valid one, so a concatenation of strings needs no check |
| Utf8.ValidSplit | src/stringdata.rs:280-313 | cutting valid UTF-8 where no continuation byte starts leaves two valid halves, which is why the boundary test on the first byte suffices |
| Utf8.ValidSubslice | src/stringdata.rs:280-313 | a range whose end is the length or a non-continuation byte, and whose start is 0, the end or a non-continuation byte, selects valid UTF-8 |
| Utf8.ValidStart | src/stringdata.rs:280-313 | valid non-empty UTF-8 never starts with a continuation byte |
| Utf8.WellFormedScalar | src/stringdata.rs:195-201 | every character the decoder accepts is a Unicode scalar value, and is encoded in exactly the shortest width for that value |
| Utf8.DecodeStep | src/stringdata.rs:808-824 | the decoded characters of valid UTF-8 are the first character followed by the characters of what remains after its width, and what remains is valid |
| Utf8.DecodeConcat | src/stringdata.rs:51-84 | decoding distributes over concatenation of valid byte strings |
| Utf8.EncodeCharRoundTrip | src/shared_str_builder.rs:33-40 | the UTF-8 encoding of one character is one to four bytes, valid, and decodes back to that character alone |
| Utf8.EncodeRoundTrip | src/stringdata.rs:195-201 | the encoding of any string is valid UTF-8 and decodes back to the same string |
| Render.DigitRoundTrip | src/byte_string_render.rs:94-136 | each hex digit written by `{:02x}` or `{:02X}` is read back as its value |
| Render.Escape | src/byte_string_render.rs:74-87 | one byte renders as one to four printable ASCII characters (a literal, a two-character escape or `\xNN`) |
| Render.Display | src/byte_string_render.rs:70-91 | the rendering of a byte string is printable ASCII and between one and four characters per byte |
| Render.Debug | src/byte_string_render.rs:60-68 | `Debug` is the `Display` rendering wrapped in `b"` and `"` |
| Render.UnescapeOneEscape | src/byte_string_render.rs:74-87 | the escape of every byte is read back as that byte by the independent unescaper, consuming exactly its own characters |
| Render.UnescapeDisplay | src/byte_string_render.rs:70-91 | unescaping the `Display` rendering gives back the byte values, so the rendering loses nothing |
| Render.DisplayInjective | src/byte_string_render.rs:70-91 | two byte strings with the same rendering are equal |
| Render.DisplayAppend | src/byte_string_render.rs:70-91 | the rendering of a concatenation is the concatenation of the renderings, since each byte is rendered on its own |
| Render.MultiDisplay | src/byte_string_render.rs:190-202 | rendering a list of chunks one after another equals rendering their concatenation |
| Render.MultiDebug | src/byte_string_render.rs:177-187 | the multi-chunk `Debug` is the `Debug` of the concatenated bytes |
| Render.HexSlice | src/byte_string_render.rs:94-136 | the hex rendering is two digits per byte, left-padded with `0` up to the requested width when the width is larger |
| Render.ParseHexBody | src/byte_string_render.rs:94-136 | parsing the unpadded hex rendering back gives the byte values, in both letter cases |
| Render.HexBodyInjective | src/byte_string_render.rs:94-136 | two byte strings with the same hex rendering are equal |
| ByteData.TrailingZerosAtLeastTwo | src/bytedata.rs:110-112 | `trailing_zeros() >= 2` holds exactly when the two low bits of the tag byte are clear |
| ByteData.KindOfShared | src/bytedata.rs:93-120 | a tag byte decodes to the shared kind exactly when its two low bits are clear (and it is then not one of the three reserved patterns) |
| ByteData.AlignedAddressByte | src/shared_bytes.rs:75-79 | the low byte of a 4-aligned address has its two low bits clear, so a shared handle's first byte reads as the shared kind |
| ByteData.PackSliceRoundTrip | src/bytedata.rs:26-55 | packing a slice length and the static flag into the first word and unpacking it gives back the length and the flag, and the tag byte decodes as the slice kind |
| ByteData.TagDecodes | src/bytedata.rs:93-120 | the tag byte of every valid value decodes back to the variant the value is |
| ByteData.IsEmptyAsWrittenAgrees | src/bytedata.rs:433-453 | for every kind but `External`, `is_empty` as written agrees with "length is zero", both directions |
| ByteData.ExternalEmptyRange | src/bytedata.rs:433-453 | a zero-length `External` value, reached through `into_shared_range`, exists and `is_empty` as written calls it non-empty |
| ByteData.Empty | src/bytedata.rs:212-219 | the empty value is an inline chunk with no bytes |
| ByteData.FromChunkSlice | src/bytedata.rs:246-260 | a slice of at most 12 bytes becomes an inline chunk holding exactly those bytes |
| ByteData.FromByte | src/bytedata.rs:262-272 | one byte becomes an inline chunk holding exactly that byte |
| ByteData.FromStatic | src/bytedata.rs:228-244 | a static slice keeps its bytes, is inlined when it fits in a chunk and is otherwise a static borrowed slice |
| ByteData.FromBorrowed | src/bytedata.rs:290-310 | a borrowed slice keeps its bytes, is inlined when it fits and is otherwise a non-static borrowed slice |
| ByteData.FromShared | src/bytedata.rs:312-321 | a shared handle is wrapped as is and shows the same bytes |
| ByteData.FromExternal | src/bytedata.rs:343-349 | an external owner's bytes are inlined when short, otherwise wrapped in a new external handle whose count starts at one; the result owns what it references |
| ByteData.FromOwned | src/bytedata.rs:323-341 | an owned vector keeps its bytes, is inlined when short and otherwise becomes an external handle; the reference counts change only in the second case |
| ByteData.Sliced | src/bytedata.rs:483-532 | `sliced` shows exactly the selected range, becomes an inline chunk when the range fits in 12 bytes and stays a slice of the same staticness otherwise |
| ByteData.SlicedCounts | src/bytedata.rs:483-532 | `sliced` leaves the counts alone for an inline result and takes one more reference on the shared or external allocation otherwise, and the result is owned by the new counts |
| ByteData.SlicedMatchesHandles | src/bytedata.rs:483-532 | slicing a shared or external value agrees with slicing its handle directly |
| ByteData.MakeSliced | src/bytedata.rs:595-657 | `make_sliced` shows exactly the range and keeps the kind, except that a shared or external value whose range fits in a chunk becomes an inline chunk |
| ByteData.MakeSlicedCounts | src/bytedata.rs:595-657 | when `make_sliced` inlines a shared or external value its reference is dropped; otherwise the counts are unchanged and the result is still owned |
| ByteData.IntoShared | src/bytedata.rs:659-693 | `into_shared` keeps the bytes, yields a value that owns its storage, and returns an already owning value unchanged |
| ByteData.IntoSharedRange | src/bytedata.rs:695-755 | `into_shared_range` yields an owning value showing exactly the range; only a borrowed slice is copied, other kinds keep their kind and counts |
| ByteData.IntoSharedRangeLikeIntoSharedThenSliced | src/bytedata.rs:695-755 | the ranged conversion shows the same bytes as converting first and slicing afterwards |
| ByteData.TakeBytes | src/bytedata.rs:757-790 | the taken part is the first `p` bytes, the two parts concatenate to the original, taking nothing leaves the value whole and taking everything leaves the empty value |
| ByteData.PrefixWhile | src/bytedata.rs:772-782 | the length of the longest prefix whose bytes all satisfy the predicate: every byte before it satisfies it and the byte at it does not |
| ByteData.TakeBytesCounts | src/bytedata.rs:757-770 | the receiver's one reference becomes one reference per part that is still a handle: an allocation neither part refers to loses the receiver's reference and is freed when that was the last; other counts are untouched, and both parts are owned by the new counts |
| ByteData.TakeWhile | src/bytedata.rs:772-782 | the taken part and the rest concatenate to the original, every taken byte satisfies the predicate and the rest starts with a byte that does not |
| ByteData.SplitOnceOn | src/bytedata.rs:792-804 | fails, returning the value unchanged, exactly when the needle occurs nowhere; otherwise splits at the first occurrence, the needle starting the second part |
| ByteData.CmpEqualIff | src/bytedata.rs:1077-1081 | two values compare equal exactly when they show the same bytes, whatever their kinds |
| ByteData.IntoSharedPreservesOrder | src/bytedata.rs:659-693 | converting to owned storage does not change how a value compares with any other |
| ConstBytes.ConstEq | src/lib.rs:205-221 | the byte-by-byte loop answers `true` exactly when the two slices are equal |
| ConstBytes.ConstStartsWith | src/lib.rs:223-238 | `true` exactly when the needle is a prefix of the haystack |
| ConstBytes.ConstEndsWith | src/lib.rs:240-261 | `true` exactly when the needle is a suffix of the haystack |
| ConstBytes.ConstSlice | src/lib.rs:263-277 | `Some` exactly when `start <= end <= len`, and then the result holds the bytes `start..end` in order |
| ConstBytes.ConstSliceStrAsWritten | src/lib.rs:339-362 | wherever the code as written does not index past the end, it returns what the corrected slicing returns |
| ConstBytes.SliceStrAtEndPanics | src/lib.rs:350 | for the one-byte string `"a"` and the range `1..1` the code as written reads `data[1]` out of bounds, where an empty success is meant |
| ConstBytes.ConstSliceStr | src/lib.rs:339-362 | `OutOfBounds` exactly for a reversed or too long range, `Success` exactly when both ends lie on character boundaries, and then the bytes of the range |
| ConstBytes.ConstSliceStrValid | src/lib.rs:339-362 | a successful slice of valid UTF-8 is valid UTF-8, which justifies the unchecked conversion |
| ConstBytes.BuildConstBytes | src/lib.rs:384-409 | the inputs are copied back to back to the front of the buffer, the returned position is their total length and the bytes after it are untouched |
| ConstBytes.ConstSplitOnceByte | src/lib.rs:411-426 | `None` exactly when the byte does not occur; otherwise the parts concatenate to the input, the first has no such byte and the second starts with it |
| ConstBytes.ConstFindBytes | src/lib.rs:428-452 | `None` exactly when the needle occurs nowhere; otherwise the position of its first occurrence |
| ConstBytes.ConstSplitOnceBytes | src/lib.rs:454-474 | `None` exactly when the needle occurs nowhere; otherwise the input split at the first occurrence, the second part starting with the needle |
| ConstBytes.ConstSplitOnceStr | src/lib.rs:476-495 | the split at the first occurrence of the needle, as for bytes, and both parts are valid UTF-8 when the haystack and the needle are |
| External.PayloadOffset | src/external.rs:111-113 | the payload starts at or after the wrapper header, at a multiple of the alignment |
| External.PayloadFits | src/external.rs:105-113 | the payload placed at the rounded-up offset fits inside the rounded-up allocation size |
| External.Create | src/external.rs:94-160 | a payload of at most 12 bytes becomes an inline chunk with the counts untouched; a longer one becomes a handle on a new allocation of the given type, showing the payload, whose count starts at one |
| External.MakeSlicedRange | src/external.rs:170-199 | narrowing the handle keeps the same wrapper and shows exactly the range |
| External.SlicedRange | src/external.rs:201-241 | a range of at most 12 bytes is copied into an inline chunk without touching the counts; a longer one shares the wrapper and takes one more reference |
| External.WithInner | src/external.rs:243-264 | the inner value is handed out exactly when the stored type matches the requested one, at the payload offset |
| External.Clone | src/external.rs:298-319 | a clone is the same handle with one more reference on its wrapper |
| External.Drop | src/external.rs:267-295 | the wrapper is freed exactly when the handle held the last reference; otherwise its count drops by one |
| External.SlicedThenDrop | src/external.rs:201-241 | taking a shared sub-range and dropping it leaves the counts as they were, freeing nothing |
| Shared.ComputeStartOffset | src/shared_bytes.rs:54-69 | the data starts after the metadata header, at a multiple of the alignment, less than one alignment past the header |
| Shared.AlignRoundTrip | src/shared_bytes.rs:34-52 | storing a power-of-two alignment as `ilog2(align >> 2)` and reading it back gives the alignment, raised to the metadata's own alignment when smaller |
| Shared.Empty | src/shared_bytes.rs:83-94 | the empty handle references no allocation and shows no bytes |
| Shared.FromSliceAligned | src/shared_bytes.rs:110-163 | an empty slice gives the empty handle; otherwise a new allocation with count one, the requested alignment stored in it and the data at the computed start offset, showing exactly the slice |
| Shared.AlignedAddress | src/shared_bytes.rs:114-140 | an address aligned to a power of two at least the metadata alignment is aligned to the metadata alignment |
| Shared.FromSlice | src/shared_bytes.rs:103-108 | `from_slice` is `from_slice_aligned` with the metadata's alignment: count one, data right after the header |
| Shared.Sliced | src/shared_bytes.rs:245-279 | a zero-length slice is the empty handle; otherwise a handle on the same allocation, one more reference, showing exactly `offset..offset+len` |
| Shared.SlicedRange | src/shared_bytes.rs:281-301 | the range form shows exactly `start..end` and is owned by the new counts |
| Shared.MakeSliced | src/shared_bytes.rs:303-344 | narrowing in place keeps the allocation and shows exactly `offset..offset+len`, with no change to the counts |
| Shared.MakeSlicedRange | src/shared_bytes.rs:346-387 | the range form of narrowing in place shows exactly `start..end` of the same allocation |
| Shared.MakeSlicedTwice | src/shared_bytes.rs:303-344 | narrowing twice is narrowing once by the summed offset |
| Shared.Clone | src/shared_bytes.rs:405-426 | cloning an empty handle gives the empty handle; otherwise the same handle with one more reference |
| Shared.Drop | src/shared_bytes.rs:429-456 | dropping the empty handle changes nothing; otherwise the allocation is freed exactly when the handle held the last reference, and its count drops by one otherwise |
| Shared.CloneThenDrop | src/shared_bytes.rs:405-456 | cloning and dropping the clone leaves the counts as they were and frees nothing |
| Shared.SlicedThenDrop | src/shared_bytes.rs:245-279 | slicing and dropping the slice leaves the counts as they were and frees nothing |
| Shared.CmpEqualIff | src/shared_bytes.rs:723-727 | two handles compare equal exactly when they show the same bytes |
| Shared.CountScenario | src/test/shared_bytes.rs:1-20 | the reference counts of the `from_slice`, `clone`, `sliced`, `drop`, `drop` sequence are 1, 2, 3, 2, 1, and the slice shows `"ello wor"` |
| RefCount.Acquire | src/shared_bytes.rs:416-420 | taking a reference adds one to that allocation's count and changes no other count |
| RefCount.Release | src/shared_bytes.rs:430-456 | releasing frees the allocation exactly when its count was one; otherwise it drops by one, and other counts are untouched |
| RefCount.AcquireRelease | src/shared_bytes.rs:405-456 | taking and releasing a reference restores the counts |
| BytesBuilder.New | src/shared_bytes_builder.rs:15-22 | a new builder has no allocation, its write offset just past the 8-byte header, and is empty |
| BytesBuilder.WithCapacity | src/shared_bytes_builder.rs:24-49 | capacity 0 is the new builder; otherwise an empty builder whose allocation is the capacity plus the header; more than `0xFFFF_FFF7` is the source's panic |
| BytesBuilder.ReserveExact | src/shared_bytes_builder.rs:80-110 | a smaller request changes nothing; a larger one grows the allocation to exactly the request, keeping offset and contents |
| BytesBuilder.ExtendTarget | src/shared_bytes_builder.rs:123-132 | the growth target of `extend_from_slice` covers the new offset: the next power of two (below twice the offset) up to `0x8000`, then the next multiple of `0x8000` above it, capped at `u32::MAX` |
| BytesBuilder.ReserveTarget | src/shared_bytes_builder.rs:65-78 | the growth target of `reserve`: a power of two below twice the offset under `0x8000`, from `0x8000` on the next multiple of `0x8000` above it, capped at `u32::MAX` |
| BytesBuilder.ThresholdsDiffer | src/shared_bytes_builder.rs:65-132 | at exactly `0x8000` the two growth rules disagree: `extend_from_slice` asks for `0x8000`, `reserve` for `0x10000` |
| BytesBuilder.Reserve | src/shared_bytes_builder.rs:65-78 | reserving keeps offset and contents, never shrinks, and leaves room for the requested bytes unless the offset is saturated |
| BytesBuilder.ReserveExtra | src/shared_bytes_builder.rs:51-63 | `reserve_extra` keeps offset and contents and leaves room for at least one more byte unless the offset is saturated |
| BytesBuilder.ExtendFromSlice | src/shared_bytes_builder.rs:112-141 | appending a slice gives the old contents followed by the slice, and the allocation never shrinks; the two overflow panics are excluded by the requires |
| BytesBuilder.ExtendAll | src/shared_bytes_builder.rs:249-254 | extending with a list of slices appends their concatenation |
| BytesBuilder.Build | src/shared_bytes_builder.rs:143-162 | freezing an unallocated builder gives the empty handle; otherwise one reference on the same allocation, data at offset 8, the size word written, showing exactly the builder's contents |
| BytesBuilder.BuildAfterExtends | src/shared_bytes_builder.rs:112-162 | a new builder extended with slices and frozen shows their concatenation |
| BytesBuilder.Drop | src/shared_bytes_builder.rs:201-209 | dropping an unfrozen builder frees its allocation exactly when it has one |
| BytesBuilder.AsSliceAsWritten | src/shared_bytes_builder.rs:174-182 | the code as written reads `off - 8` bytes starting at offset `off`, which fits in the allocation only when it has at least `2 * off - 8` bytes |
| BytesBuilder.AsSliceReadsPastAllocation | src/shared_bytes_builder.rs:179 | with capacity 2 holding `"ab"`, the read as written starts at byte 10 of a 10-byte allocation, where the contents `"ab"` at offset 8 are meant |
| StrBuilder.New | src/shared_str_builder.rs:12-19 | a new string builder holds the empty string |
| StrBuilder.WithCapacity | src/shared_str_builder.rs:21-28 | with any allowed capacity, a new string builder holds the empty string |
| StrBuilder.Push | src/shared_str_builder.rs:30-38 | pushing a character appends its UTF-8 encoding to the bytes and the character to the string |
| StrBuilder.PushStr | src/shared_str_builder.rs:40-44 | pushing a string appends its encoding to the bytes and the string to the contents |
| StrBuilder.PushAllLikePushStr | src/shared_str_builder.rs:30-44 | pushing the characters of a string one by one gives the same bytes as pushing the whole string |
| StrBuilder.Reserve | src/shared_str_builder.rs:46-50 | reserving keeps the contents and leaves room for the requested bytes unless the offset is saturated |
| StrBuilder.Truncate | src/shared_str_builder.rs:58-72 | truncating at or past the length changes nothing; otherwise the first `n` bytes remain, which are valid UTF-8 because byte `n` is not a continuation byte (the panic otherwise) |
| StrBuilder.TryFromBytesBuilder | src/shared_str_builder.rs:206-214 | a bytes builder is accepted exactly when its contents are valid UTF-8, and is then wrapped unchanged |
| StrBuilder.IntoBytesBuilder | src/shared_str_builder.rs:127-133 | unwrapping yields the inner builder with the same bytes |
| StrBuilder.IntoBytesBuilderRoundTrip | src/shared_str_builder.rs:127-214 | unwrapping a string builder and converting back gives the same string builder |
| StrBuilder.Build | src/shared_str_builder.rs:111-125 | freezing gives valid UTF-8 bytes that decode to the builder's string |
| StrBuilder.BuildAfterPushStr | src/shared_str_builder.rs:40-125 | a new builder given one string and frozen decodes to that string |
| StringData.Empty | src/stringdata.rs:24-31 | the empty string value holds no bytes |
| StringData.FromStatic | src/stringdata.rs:33-40 | a static `str` becomes a string value showing its bytes |
| StringData.FromBorrowed | src/stringdata.rs:42-49 | a borrowed `str` becomes a string value showing its bytes |
| StringData.TryFromByteData | src/stringdata.rs:103-114 | succeeds exactly when the bytes are valid UTF-8, wrapping the value unchanged; otherwise hands the input back unchanged |
| StringData.TryFromShared | src/stringdata.rs:86-101 | succeeds exactly when the shared bytes are valid UTF-8, wrapping them as a shared value; otherwise hands the handle back |
| StringData.IntoByteData | src/stringdata.rs:129-142 | the underlying byte value shows the same bytes |
| StringData.IntoByteDataRoundTrip | src/stringdata.rs:103-142 | unwrapping a string value and checking it again succeeds with the same value, so the conversion loses nothing |
| StringData.CheckSlicedKeepsValid | src/stringdata.rs:280-313 | any range that passes `check_sliced` cuts valid UTF-8 into valid UTF-8 |
| StringData.CheckSlicedLikeConstSliceStr | src/stringdata.rs:280-313 | `check_sliced` accepts exactly the ranges for which `const_slice_str` succeeds |
| StringData.Sliced | src/stringdata.rs:315-322 | `sliced` gives a valid string value showing exactly the range |
| StringData.MakeSliced | src/stringdata.rs:324-344 | `make_sliced` and `into_sliced` narrow to exactly the range, stay valid, and keep the view's kind unless the result fits in a chunk |
| StringData.SplitAt | src/stringdata.rs:375-382 | at a character boundary the two parts are valid, are the bytes before and after the position, and concatenate to the original |
| StringData.CharPrefixWhile | src/stringdata.rs:346-359 | the byte length of the longest prefix whose characters all satisfy the predicate: it ends on a boundary, both sides are valid, and the next character fails the predicate |
| StringData.CharPrefixCons | src/stringdata.rs:346-359 | if the first character satisfies the predicate, the longest prefix is that character followed by the longest prefix of the rest |
| StringData.TakeWhile | src/stringdata.rs:346-359 | the taken part and the rest are valid and concatenate to the original, every taken character satisfies the predicate and the rest starts with one that does not |
| StringData.FindNewline | src/stringdata.rs:361-373 | `None` exactly when there is no newline byte; otherwise the position of the first one |
| StringData.TakeLineAsWritten | src/stringdata.rs:361-373 | as written, the line returned has no newline and the newline is left at the front of the rest; without a newline the whole string is taken and the value left empty |
| StringData.TakeLineStuckOnLeadingNewline | src/stringdata.rs:370-372 | on `"\na"` the code as written returns an empty line and leaves the input unchanged, so a loop of `take_line` makes no progress |
| StringData.TakeLine | src/stringdata.rs:361-373 | the line as documented: everything up to and including the first newline (or everything when there is none) is taken, and the rest is what follows |
| StringData.SplitAfterNewline | src/stringdata.rs:361-373 | cutting just after the first newline yields valid parts forming a line split |
| StringData.NewlineBoundary | src/stringdata.rs:280-313 | the byte after a newline in valid UTF-8 is a character boundary, so the cut passes `check_sliced` |
| StringData.SplitOnceOn | src/stringdata.rs:384-396 | fails, returning the input, exactly when the needle occurs nowhere; otherwise splits at its first occurrence into valid parts |
| StringData.IntoShared | src/stringdata.rs:410-420 | the owned conversion keeps the bytes and owns its storage |
| StringData.IntoSharedRange | src/stringdata.rs:422-437 | the ranged owned conversion shows exactly the checked range and owns its storage |
| StringData.CmpLikeByteData | src/stringdata.rs:778-782 | comparing through `as_str` is comparing the bytes, and two values compare equal exactly when their bytes are equal |
| CharIndices.LeadWidthRanges | src/char_indicies.rs:55-63 | the lead-byte masks give width 1 below `0x80`, 0 (an error) for a continuation byte, 2 for `C0..DF`, 3 for `E0..EF`, 4 for `F0..F7` and 0 above |
| CharIndices.LeadWidthOfWellFormed | src/char_indicies.rs:55-63 | on a well-formed character the mask classification agrees with the strict UTF-8 width |
| CharIndices.FirstNonContinuation | src/char_indicies.rs:71-82 | the continuation loop stops at the first position that is not a continuation byte, or at the width |
| CharIndices.New | src/char_indicies.rs:26-28 | a new decoder starts at offset 0 over the whole input |
| CharIndices.Inner | src/char_indicies.rs:54-89 | for a non-ASCII lead byte: success gives a width of 2 to 4 within the input; failure gives an error length of 1 to 4 |
| CharIndices.NextConst | src/char_indicies.rs:91-132 | empty input is the error of length 0 at the current offset with nothing consumed; any other error skips exactly one byte and reports the old offset; success reports the old offset and advances by the width, 1 to 4 bytes |
| CharIndices.NextConstOnValid | src/char_indicies.rs:91-132 | on valid UTF-8 the decoder returns the first decoded character at the old offset and advances by its width |
| CharIndices.Next | src/char_indicies.rs:140-155 | the iterator ends exactly when the input is exhausted (turning the length-0 error into `None`) and otherwise always consumes input |
| CharIndices.SizeHintBoundsItems | src/char_indicies.rs:40-43 | `((n + 3) >> 2, n)` bounds the number of items the iterator yields |
| CharIndices.ItemsOnValid | src/char_indicies.rs:140-155 | on valid UTF-8 the iterator yields only successes, whose characters are exactly the decoded string in order |
| CharIndices.OverlongAccepted | src/char_indicies.rs:54-89 | the overlong pair `C0 80` is not valid UTF-8 but the decoder accepts it as NUL, since it has no shortest-form check |
| CharIndices.InvalidLeadByte | src/char_indicies.rs:192-216 | a lead byte `FF` is an error of length 1 at the current offset and exactly one byte is skipped |
| CharIter.Step | src/queue/char_iter.rs:27-48 | one step consumes at least one byte of a non-empty stream, leaving a suffix; a decoded value consumed exactly the lead byte's width |
| CharIter.StepOnValid | src/queue/char_iter.rs:27-48 | on valid UTF-8 one step yields the code point of the first decoded character and leaves the bytes after it |
| CharIter.ValuesOnValid | src/queue/char_iter.rs:27-48 | on valid UTF-8 the iterator yields exactly the code points of the decoded string |
| CharIter.SizeHintBoundsValues | src/queue/char_iter.rs:50-56 | never more values than bytes, and on valid UTF-8 at least `(n + 3) >> 2` |
| CharIter.IndexedStep | src/queue/char_iter.rs:81-105 | `CharIndecies` decodes as `CharIter` does, reporting the offset the character started at and advancing the offset by the bytes consumed |
| CharIter.IndexedStepOnValid | src/queue/char_iter.rs:81-105 | on valid UTF-8 each index is the old offset and the offset advances by the character's width |
| Ring.New | src/queue/linked_node_data.rs:18-25 | a new node is a valid empty ring of the given capacity |
| Ring.WithItem | src/queue/linked_node_data.rs:27-36 | `with_item` gives a ring holding just that item, starting at slot 0 with length 1 |
| Ring.PushBack | src/queue/linked_node_data.rs:42-49 | fails, handing the item back, exactly when the ring is full; otherwise the items become the old items followed by the new one |
| Ring.PushFront | src/queue/linked_node_data.rs:55-64 | fails, handing the item back, exactly when the ring is full; otherwise the start slot moves back by one modulo the capacity and the new item comes first |
| Ring.PopBack | src/queue/linked_node_data.rs:70-78 | `None` exactly when empty; otherwise the last item is removed and returned and the start slot is kept |
| Ring.PopFront | src/queue/linked_node_data.rs:84-93 | `None` exactly when empty; otherwise the first item is removed and returned and the start slot advances by one modulo the capacity |
| Ring.Front | src/queue/linked_node_data.rs:95-101 | the first item, or `None` exactly when empty |
| Ring.Back | src/queue/linked_node_data.rs:103-111 | the last item, or `None` exactly when empty |
| Ring.Drop | src/queue/linked_node_data.rs:114-126 | dropping releases exactly the live slots, each once, in ring order starting at the start slot, and each holds the corresponding item |
| LinkedRoot.New | src/queue/linked_root.rs:86-95 | a new root holds no chunks |
| LinkedRoot.WithItem | src/queue/linked_root.rs:97-106 | `with_item` puts a non-empty chunk in the chamber and holds nothing for an empty one |
| LinkedRoot.PushBackAlloc | src/queue/linked_root.rs:137-151 | a chunk that did not fit the last node goes into a new last node, after everything else |
| LinkedRoot.PushFrontAlloc | src/queue/linked_root.rs:153-167 | a chunk that did not fit the first node goes into a new first node, after the chamber and before all other nodes |
| LinkedRoot.PushBack | src/queue/linked_root.rs:322-351 | an empty chunk is ignored; otherwise it becomes the last chunk (stored in the chamber when the root is empty), and the chamber of a non-empty root is kept |
| LinkedRoot.PushFront | src/queue/linked_root.rs:353-384 | an empty chunk is ignored; otherwise it is swapped into the chamber and the old chamber moves to the front of the first node, so the new chunk comes first |
| LinkedRoot.PopFront | src/queue/linked_root.rs:192-217 | `None` exactly when no chunks are held; otherwise the first chunk (the chamber if set, else the head of the first node) is removed and returned |
| LinkedRoot.PopFrontStep | src/queue/linked_root.rs:200-216 | taking the head of the first node, and freeing that node when emptied and not the only one, keeps the root valid and removes exactly the first chunk |
| LinkedRoot.PopBack | src/queue/linked_root.rs:169-190 | `None` exactly when no chunks are held; otherwise the last chunk is removed and returned, the chamber only when it is the sole chunk |
| LinkedRoot.PopBackStep | src/queue/linked_root.rs:169-190 | taking the tail of the last node, and freeing that node when emptied and not the only one, keeps the root valid and removes exactly the last chunk |
| LinkedRoot.Front | src/queue/linked_root.rs:219-228 | the first chunk of the content, or `None` exactly when there is none |
| LinkedRoot.Back | src/queue/linked_root.rs:230-239 | the last chunk of the content, or `None` exactly when there is none |
| LinkedRoot.Extend | src/queue/linked_root.rs:386-397 | extending pushes every chunk at the back in order, dropping the empty ones |
| LinkedRoot.NonEmptyOfNonEmpty | src/queue/linked_root.rs:322-325 | filtering out empty chunks leaves a list without empty chunks unchanged |
| LinkedRoot.Clone | src/queue/linked_root.rs:405-409 | a clone holds the same chunks in the same order |
| LinkedRoot.Append | src/queue/linked_root.rs:252-304 | the corrected `append` yields the chunks of the first root followed by those of the second, with the count the sum of both counts |
| LinkedRoot.AppendAsWrittenUndercounts | src/queue/linked_root.rs:270-300 | appending `[z, w]` to `[x, y]` as written holds all four chunks in order but records a count of 3 |
| LinkedRoot.AppendAsWrittenDropsChunk | src/queue/linked_root.rs:270-284 | appending a root whose only chunk is in the chamber, as written, returns the first root unchanged and loses that chunk |
| LinkedRoot.CorePushBack | src/queue/linked_root.rs:322-351 | without `alloc`, the root is one node, and pushing a non-empty chunk onto a node that is not full appends it (a full node is the source's panic) |
| LinkedRoot.CorePushFront | src/queue/linked_root.rs:353-384 | without `alloc`, pushing a non-empty chunk at the front of a node that is not full prepends it |
| LinkedRoot.CoreIsFull | src/queue/byte_queue.rs:41-50 | without `alloc`, the queue is full exactly when its single node holds 23 chunks |
| LinkedIter.New | src/queue/linked_iter.rs:17-27 | a fresh iterator over a chunk list has the list's chunks, front to back, still to yield |
| LinkedIter.ItemLen | src/queue/linked_iter.rs:29-46 | the count the iterator reports is exactly the number of chunks it has yet to yield |
| LinkedIter.Next | src/queue/linked_iter.rs:124-160 | `next` returns None exactly when nothing is left; otherwise it yields the first remaining chunk and the rest stays queued in order |
| LinkedIter.SkipMut | src/queue/linked_iter.rs:74-118 | skipping `n` chunks drops the first min(n, remaining) chunks and keeps the others in order |
| LinkedIter.Nth | src/queue/linked_iter.rs:173-179 | `nth(n)` is None exactly when fewer than n+1 chunks remain; otherwise it is the n-th remaining chunk and the chunks after it stay |
| LinkedIter.Last | src/queue/linked_iter.rs:181-189 | `last` is None exactly on an exhausted iterator, otherwise the final remaining chunk |
| LinkedIter.StrNext | src/queue/linked_iter.rs:220-228 | the string iterator's `next` yields the same chunks as the byte iterator, one at a time in order |
| LinkedIter.StrNth | src/queue/linked_iter.rs:241-247 | the string iterator's `nth` picks the same chunk as the byte iterator's and leaves the same tail |
| LinkedIter.StrLast | src/queue/linked_iter.rs:249-257 | the string iterator's `last` is the final remaining chunk, or None when exhausted |
| LinkedIter.Collect | src/queue/linked_iter.rs:124-160 | calling `next` until None yields every remaining chunk exactly once, in order |
| ChunkIter.Next | src/queue/chunk_iter.rs:22-25 | the owning iterator's `next` yields the front chunk, None exactly when empty, and its length drops by one |
| ChunkIter.NextBack | src/queue/chunk_iter.rs:39-42 | `next_back` yields the back chunk, None exactly when empty, and its length drops by one |
| ChunkIter.Len | src/queue/chunk_iter.rs:27-35 | `len`, `count` and `size_hint` equal the number of chunks not yet yielded |
| ChunkIter.Collect | src/queue/chunk_iter.rs:22-25 | draining with `next` yields the chunks front to back |
| ChunkIter.CollectBack | src/queue/chunk_iter.rs:39-42 | draining with `next_back` yields the chunks in reverse order |
| ChunkIter.StrNext | src/queue/chunk_iter.rs:71-77 | the string chunk iterator's `next` yields the front chunk as string data, None exactly when empty |
| ChunkIter.StrNextBack | src/queue/chunk_iter.rs:91-97 | the string chunk iterator's `next_back` yields the back chunk as string data, None exactly when empty |
| ChunkWalk.Start | src/queue/byte_queue.rs:373-377 | the first cursor over a chunk list still has all of the list's bytes ahead of it |
| ChunkWalk.Advance | src/queue/byte_queue.rs:385-397 | one step of the comparison loop consumes exactly `l` bytes from the front of what is ahead and keeps the cursor well formed |
| ChunkWalk.LexCmpSplit | src/queue/byte_queue.rs:487-518 | comparing two sequences whose heads have equal length gives the heads' order, or the tails' order when the heads are equal |
| ChunkWalk.EqWalk | src/queue/byte_queue.rs:372-404 | the chunk-by-chunk equality loop answers true exactly when the two queues hold the same bytes, however they are split into chunks |
| ChunkWalk.CmpWalk | src/queue/byte_queue.rs:487-518 | the chunk-by-chunk ordering loop gives the lexicographic order of the two queues' whole contents |
| ChunkWalk.ExistsAt | src/queue/byte_queue.rs:211-231 | `exists_at(index, data)` is true exactly when the concatenated chunks contain `data` starting at `index` |
| ByteQueue.ConcatAppend | src/queue/byte_queue.rs:344-368 | the bytes of two chunk lists joined are the bytes of the first followed by the bytes of the second |
| ByteQueue.ConcatEmptyIff | src/queue/byte_queue.rs:100-104 | a list of non-empty chunks holds no bytes exactly when it holds no chunks |
| ByteQueue.New | src/queue/byte_queue.rs:19-26 | a new queue holds no bytes and no chunks |
| ByteQueue.WithItem | src/queue/byte_queue.rs:28-36 | a queue made from one piece of data holds exactly its bytes, and stores no chunk when the data is empty |
| ByteQueue.PushBack | src/queue/byte_queue.rs:52-60 | pushing at the back appends the data's bytes and adds its chunk only when it is non-empty |
| ByteQueue.PushFront | src/queue/byte_queue.rs:62-70 | pushing at the front prepends the data's bytes and adds its chunk only when it is non-empty |
| ByteQueue.PopFront | src/queue/byte_queue.rs:72-78 | `pop_front` is None exactly on an empty queue; otherwise it removes the front chunk, which is non-empty, and the remaining bytes follow its bytes |
| ByteQueue.PopBack | src/queue/byte_queue.rs:80-86 | `pop_back` is None exactly on an empty queue; otherwise it removes the back chunk, which is non-empty, and its bytes end the queue |
| ByteQueue.Front | src/queue/byte_queue.rs:88-92 | `front` is the first chunk, or None exactly when the queue holds no bytes |
| ByteQueue.Back | src/queue/byte_queue.rs:94-98 | `back` is the last chunk, or None exactly when the queue holds no bytes |
| ByteQueue.IsEmpty | src/queue/byte_queue.rs:100-104 | the queue is empty exactly when it holds no bytes, and exactly when it holds no chunks |
| ByteQueue.Len | src/queue/byte_queue.rs:106-110 | the kept byte count equals the number of bytes in the chunks |
| ByteQueue.ChunkLen | src/queue/byte_queue.rs:112-116 | `chunk_len` is the number of chunks stored |
| ByteQueue.ChunksIter | src/queue/byte_queue.rs:118-122 | `chunks` iterates over exactly the stored chunks, front to back |
| ByteQueue.Extend | src/queue/byte_queue.rs:344-368 | extending with a list of data appends all of their bytes in order |
| ByteQueue.Consume | src/queue/byte_queue.rs:124-139 | consuming `cnt` bytes, with `cnt` at most the length, leaves exactly the bytes after the first `cnt` |
| ByteQueue.IntoByteData | src/queue/byte_queue.rs:306-321 | turning a queue into one piece of data keeps its bytes; a queue of at most one chunk becomes that chunk itself |
| ByteQueue.Slice | src/queue/byte_queue.rs:141-191 | slicing with bounds that the panics allow yields exactly the bytes between the start and the end bound |
| ByteQueue.SliceAsWritten | src/queue/byte_queue.rs:141-191 | the slice loop as written ends a partial chunk at `min(max, len - start)` rather than `start + min(max, len - start)`; a bound of `..0` yields an empty queue |
| ByteQueue.PieceAsWritten | src/queue/byte_queue.rs:179-184 | the per-chunk slice as written panics exactly when the start lies past the computed end, and never keeps more than `max` bytes |
| ByteQueue.SliceAsWrittenLosesBytes | src/queue/byte_queue.rs:180 | on a single 16-byte chunk, slicing `2..4` as written returns no bytes where two are due |
| ByteQueue.SliceAsWrittenPanics | src/queue/byte_queue.rs:180 | on a single 8-byte chunk, slicing `5..6`, which the bound checks accept, panics as written |
| ByteQueue.Parts | src/queue/byte_queue.rs:373-376 | the chunk slices the comparison loops walk are non-empty and together are the queue's bytes |
| ByteQueue.ExistsAt | src/queue/byte_queue.rs:211-231 | `exists_at(index, data)` holds exactly when `data` lies within the queue at `index` |
| ByteQueue.StartsWith | src/queue/byte_queue.rs:193-200 | `starts_with` holds exactly when `data` is a prefix of the queue's bytes |
| ByteQueue.EndsWith | src/queue/byte_queue.rs:202-209 | `ends_with` holds exactly when `data` is a suffix of the queue's bytes |
| ByteQueue.Eq | src/queue/byte_queue.rs:371-404 | two queues are equal exactly when they hold the same bytes, whatever their chunking |
| ByteQueue.EqualSlice | src/queue/byte_queue.rs:407-438 | a queue equals a byte slice exactly when its bytes are that slice |
| ByteQueue.Cmp | src/queue/byte_queue.rs:486-518 | queue ordering is the lexicographic order of the queues' bytes |
| ByteQueue.CmpSlice | src/queue/byte_queue.rs:529-560 | comparing a queue with a byte slice gives the lexicographic order of the queue's bytes against the slice |
| ByteQueue.SliceCmp | src/queue/byte_queue.rs:563-571 | comparing a byte slice with a queue gives the lexicographic order of the slice against the queue's bytes |
| ByteQueue.CmpAgreesWithEqual | src/queue/byte_queue.rs:371-526 | `cmp` answers Equal exactly when `eq` answers true, and swapping the operands reverses the order |
| StringQueue.ConcatStr | src/queue/string_queue.rs:5-8 | chunks that are each valid UTF-8 concatenate to valid UTF-8 |
| StringQueue.BytesUtf8 | src/queue/string_queue.rs:5-8 | the bytes of a string queue are always valid UTF-8 |
| StringQueue.New | src/queue/string_queue.rs:10-14 | a new string queue holds no bytes and no chunks |
| StringQueue.WithItem | src/queue/string_queue.rs:16-20 | a queue made from one string holds exactly its bytes |
| StringQueue.PushBack | src/queue/string_queue.rs:128-130 | the push in `from_iter` appends its bytes and keeps every chunk valid UTF-8 |
| StringQueue.PopFront | src/queue/string_queue.rs:22-29 | `pop_front` is None exactly on an empty queue; otherwise it returns the front chunk as valid string data, and the remaining bytes follow it |
| StringQueue.PopBack | src/queue/string_queue.rs:31-38 | `pop_back` is None exactly on an empty queue; otherwise it returns the back chunk as valid string data, and its bytes end the queue |
| StringQueue.IsEmpty | src/queue/string_queue.rs:40-44 | the queue is empty exactly when it holds no bytes |
| StringQueue.Len | src/queue/string_queue.rs:46-50 | the length is the number of bytes held |
| StringQueue.ChunkLen | src/queue/string_queue.rs:52-56 | `chunk_len` is the number of chunks stored |
| StringQueue.StartsWith | src/queue/string_queue.rs:58-62 | `starts_with` holds exactly when the given bytes are a prefix of the queue's bytes |
| StringQueue.EndsWith | src/queue/string_queue.rs:64-68 | `ends_with` holds exactly when the given bytes are a suffix of the queue's bytes |
| StringQueue.IntoIter | src/queue/string_queue.rs:70-74 | the string chunk iterator yields exactly the queue's chunks, each valid UTF-8 |
| StringQueue.FromIter | src/queue/string_queue.rs:125-132 | collecting strings into a queue stores the non-empty ones in order and holds all their bytes concatenated |
| StringQueue.NonEmptyConcat | src/queue/string_queue.rs:125-132 | dropping empty chunks does not change the concatenated bytes |
| StringQueue.IntoStringData | src/queue/string_queue.rs:117-122 | turning a string queue into one piece of string data keeps its bytes, which stay valid UTF-8 |
| ByteIter.New | src/queue/byte_iter.rs:15-23 | the borrowing byte iterator starts with exactly the queue's bytes to yield |
| ByteIter.Len | src/queue/byte_iter.rs:60-65 | `len` is the number of bytes not yet yielded |
| ByteIter.Skip | src/queue/byte_iter.rs:25-48 | skipping `n` drops the first min(n, len) bytes and keeps the others |
| ByteIter.Take | src/queue/byte_iter.rs:50-58 | `take(n)` keeps the first `n` bytes when more than `n` remain, and all of them otherwise |
| ByteIter.Next | src/queue/byte_iter.rs:79-101 | `next` is None exactly when nothing remains; otherwise it yields the first remaining byte and the rest stays in order |
| ByteIter.Nth | src/queue/byte_iter.rs:123-126 | `nth(n)` is the n-th remaining byte, None exactly when fewer remain, and the bytes after it stay |
| ByteIter.Last | src/queue/byte_iter.rs:114-121 | `last` is the final remaining byte, or None when nothing remains |
| ByteIter.Collect | src/queue/byte_iter.rs:79-101 | calling `next` until None yields every remaining byte exactly once, in order |
| ByteIter.OwnedLen | src/queue/byte_iter.rs:196-201 | the owning iterator's `len` is the number of bytes it still holds |
| ByteIter.OwnedNext | src/queue/byte_iter.rs:214-223 | the owning iterator's `next` yields the first byte, None exactly when empty, and keeps the rest |
| ByteIter.OwnedSkip | src/queue/byte_iter.rs:153-177 | the owning iterator's `skip(n)` drops the first min(n, len) bytes |
| ByteIter.SkipQueue | src/queue/byte_iter.rs:161-177 | the chunk-popping skip loop leaves exactly the bytes after the first min(n, len) |
| ByteIter.OwnedNth | src/queue/byte_iter.rs:243-246 | the owning iterator's `nth(n)` is the n-th byte, None exactly when fewer remain, and the bytes after it stay |
| ByteIter.OwnedLast | src/queue/byte_iter.rs:236-241 | the owning iterator's `last` is its final byte, or None when empty |
| ByteIter.OwnedTake | src/queue/byte_iter.rs:179-194 | the corrected `take(n)` keeps the first `n` bytes when more than `n` remain, and all of them otherwise |
| ByteIter.TakeQueue | src/queue/byte_iter.rs:179-194 | the corrected back-popping loop trims a queue to its first `n` bytes |
| ByteIter.OwnedTakeAsWritten | src/queue/byte_iter.rs:179-194 | `take` as written leaves the iterator alone when at most `n` bytes remain |
| ByteIter.OwnedTakeAsWrittenKeepsTooFew | src/queue/byte_iter.rs:189 | on one 6-byte chunk, `take(4)` as written keeps 2 bytes where 4 are due |
| ByteIter.OwnedTakeAsWrittenUnderflows | src/queue/byte_iter.rs:189 | on chunks of 4 and 2 bytes, `take(5)` as written computes `2 - 5` and panics, where the first 5 bytes are due |
| Drain.DoDrain | src/queue/drain.rs:165-210 | draining `start..end` leaves exactly the bytes before `start` followed by the bytes from `end` on; an `end` past the queue removes everything from `start` on |
| Drain.DrainFront | src/queue/drain.rs:166-179 | the front-popping branch removes exactly the first min(end, len) bytes |
| Drain.DrainBack | src/queue/drain.rs:181-194 | the back-popping branch keeps exactly the first `start` bytes |
| Drain.DrainMiddle | src/queue/drain.rs:195-209 | the split, trim and append branch removes exactly the bytes between `start` and `end` |
| Drain.SplitOff | src/queue/drain.rs:195 | `split_off(at)` leaves the first `at` bytes and returns the rest |
| Drain.Append | src/queue/drain.rs:209 | `append` puts the other queue's bytes after this queue's |
| Drain.New | src/queue/drain.rs:11-20 | the drain iterator yields exactly the bytes of the range, cut at the queue's end |
| Drain.Next | src/queue/drain.rs:48-51 | `next` yields the first byte of the range still to come, None exactly when none is left |
| Drain.Len | src/queue/drain.rs:77-81 | `len` and `size_hint` are the number of range bytes still to come |
| Drain.Nth | src/queue/drain.rs:70-73 | `nth(n)` is the n-th byte still to come, None exactly when fewer remain |
| Drain.Last | src/queue/drain.rs:65-68 | `last` is the final byte of the range still to come, or None |
| Drain.Drop | src/queue/drain.rs:31-42 | dropping the drain removes exactly the range from the queue, cut at the queue's end |
| Drain.DrainPartitions | src/queue/drain.rs:11-42 | the kept bytes before `start`, the drained bytes and the kept bytes after them rebuild the original queue |
| Drain.PushFrontThenDrain | fuzz/fuzz_targets/bytequeue.rs:51-61 | pushing 4 bytes in front and then draining `0..5` removes them and the queue's first byte, leaving one byte fewer than before |

## Left out

- Raw memory, `Layout`, pointers and `unsafe` casts: an allocation is a value (an id plus its bytes), and a handle is an offset and a length into it.
- Atomics and memory orderings of the reference counts: counts are a map threaded through the functions, and there is no concurrency.
- `ExtBytesWrapper` size and alignment: they depend on the compiler's layout of the wrapped type, so they are parameters (`External.Layout`).
- Bytes of a fresh allocation that the source leaves uninitialised are modelled as zeros.
- Allocation failure: `SharedBytes` and `ExtBytes` call `handle_alloc_error` on a null allocation, and the model has no failing allocation. The bytes builder does not check what `alloc` and `realloc` return in `with_capacity` and `reserve_exact`. It writes through the result whether or not it is null. When `realloc` fails, its fallback allocates twice and writes the zero word into the block it then leaks, not into the one it keeps. The model's allocations always succeed, so none of this is modelled.
- `usize` overflow of lengths and offsets: lengths are unbounded naturals. The explicit 32-bit and 56-bit limits of the source are kept as `requires`.
- ByteQueue.IntoByteData: requires at most 0xFFFF_FFF7 bytes because the shared builder it uses panics above that.
- StringQueue.IntoStringData: the same bound, for the same reason.
- `trim`, `trim_start`, `trim_end`: they depend on the Unicode White_Space table of the core library.
- The `split_on` iterators of `ByteData` and `StringData`: they repeat the modelled `split_once_on` and add only iteration.
- `StringData::from_concat`, `ByteData::make_shared` and the `Iterator` impls of `ByteData` and `StringData`: they are thin wrappers over modelled operations.
- `StrBuilder` `clear` and `capacity`: the inner builder's `clear` is not part of this model.
- The interning, `std`, `http`, `serde`, `bytes_1`, `nom`, `arbitrary` and `postgres` integrations: glue to other crates.
- `Hash` of `ByteQueue`: it hashes chunk by chunk, so the hash depends on the chunking and is not consistent with equality. It is not modelled.
- The `LowerHex`, `UpperHex` and `Debug` formatting of `ByteQueue`: these are output formats, and the hex rendering is modelled once in `Render`.
- The older `queue.rs`: it is a superseded copy of the queue, and `src/queue/` is modelled instead.
- `queue/split.rs`: it depends on `ByteQueue::find_slice_pos`, which is not part of this model, so its split positions cannot be stated.
- Drain.SplitOff: the source of `ByteQueue::split_off` is not part of this model, so it is given by its two contents.
- Drain.Append: `ByteQueue::append` is given by its contents, and the node-level `append` is modelled separately as `LinkedRoot.Append`.
- Reference counts at the queue level: `LinkedRoot.Clone` and the queue operations track contents, not the counts of the chunks they hold.
- `LinkedRoot` drop: freeing node memory has no observable content.
- The `unreachable!` in `LinkedRoot::append` has no counterpart. `LinkedRoot.Link` requires `other` to hold an item outside its chamber, so `other` has a first node whenever the nodes are linked.
- `DrainChars` and the `CharIter` over a drain: they decode the bytes that `DrainBytes` yields. `DrainBytes` and the decoders are each modelled.
- `OwnedCharIter`: it decodes with the same step as `CharIter`, over an owned queue. The step is modelled once, as `CharIter.Step` and `CharIter.IndexedStep`.
- StrBuilder.TryFromBytesBuilder, StrBuilder.IntoBytesBuilderRoundTrip, and the builder's `AsBytes` and `AsStr`: the source's `try_from` (src/shared_str_builder.rs:210), `as_bytes` (:99) and `as_str` (:106) read the inner builder through its `as_slice`. As written, that slice starts at the write offset (the src/shared_bytes_builder.rs:179 finding), so it shows bytes past the written data, and past the allocation for a builder of capacity 2 holding `"ab"`. These members validate and show the builder's contents instead, as the corrected `as_slice` would.
- StrBuilder.Truncate: `SharedBytesBuilder` defines no `truncate`, so the inner call at src/shared_str_builder.rs:70 has no source here. The model takes it to move the write offset back to `8 + n`. The boundary check at src/shared_str_builder.rs:66-67 reads byte `n` through the builder's `as_slice`. As written, that slice starts at the write offset (the src/shared_bytes_builder.rs:179 finding), so the source checks a byte past the written data. The model checks byte `n` of the builder's contents, as the corrected `as_slice` would.
- ByteData.TakeWhile and ByteData.SplitOnceOn: they return the two views without the counts. Each one calls `take_bytes` at the position its contract names, so its effect on the counts is ByteData.TakeBytesCounts at that position.
- StringData.TakeWhile, StringData.TakeLine, StringData.SplitAt and StringData.SplitOnceOn: they return the two views without the counts. Each one calls `sliced(0..p)` and then `make_sliced(p..)` on its inner `ByteData`. The effect on the counts is ByteData.SlicedCounts followed by ByteData.MakeSlicedCounts, which is ByteData.TakeBytesCounts when `0 < p < len`.
- ByteData.TakeWhile and StringData.TakeWhile: the source takes an `FnMut` closure. The model takes a pure function, so a closure whose answer depends on its earlier calls is not modelled.
- `partial_cmp`: it always returns `Some(cmp)`, so only `cmp` is modelled.
- Parsers for the text forms: the source has none. The model's own inverses (`Render.Unescape`, `Render.ParseHex`) exist only to prove the renderers injective.

## Findings

| source | as written | input that shows it | evidently intended | confidence | as-written member | corrected member |
|---|---|---|---|---|---|---|
| src/lib.rs:350 | `const_slice_str` rejects `start == len` with `start > 0` because it indexes `data[start]` to check the boundary | `data = "a"`, range `1..1` panics | the empty slice at the end is accepted, as `str` slicing does | high, not executed | ConstBytes.SliceStrAtEndPanics | ConstBytes.ConstSliceStr |
| src/bytedata.rs:451 | `is_empty` answers `false` for every external view | an external view sliced to `0..0` has length 0 but is not empty | `is_empty` is `len() == 0` for every kind, which is the model's `ByteData.IsEmpty` (bytedata.dfy:207). The queue's pushes skip values by that predicate, so ByteQueue.IsEmpty (no bytes exactly when no chunks) is where the corrected predicate is relied on | high, not executed | ByteData.ExternalEmptyRange | ByteQueue.IsEmpty |
| src/shared_bytes_builder.rs:179 | `as_slice` starts the slice at `dat + off`, the end of the written bytes, instead of at `dat + 8`, where they begin | `with_capacity(2)` then `extend_from_slice(b"ab")` reads two bytes past the 10-byte allocation | the slice starts at `dat + 8` and has `off - 8` bytes | high, not executed | BytesBuilder.AsSliceReadsPastAllocation | BytesBuilder.BuildAfterExtends |
| src/stringdata.rs:361-373 | `take_line` cuts before the first newline and leaves it at the head of the rest | `"\na"` gives an empty line and leaves `"\na"`, so a loop of `take_line` never advances | the line includes its newline, as the doc comment says | medium, not executed | StringData.TakeLineStuckOnLeadingNewline | StringData.TakeLine |
| src/queue/linked_root.rs:270-300 | after moving `other`'s chamber into `other`'s own first node, `append` still takes one from `other.count`; when that leaves it at 0 it returns early and the moved chunk is dropped with `other` | appending `[z, w]` to `[x, y]` gives four chunks with a count of three; appending a root holding `z` in its chamber and one emptied node returns `[x, y]` | the count is the sum of both counts, and every chunk is kept | high, not executed | LinkedRoot.AppendAsWrittenUndercounts | LinkedRoot.Append |
| src/queue/byte_queue.rs:180 | `slice` ends a partial chunk at `min(max, len - start)`, which is a length, not an end | one 16-byte chunk sliced `2..4` gives no bytes; an 8-byte chunk sliced `5..6` panics | the end is `start + min(max, len - start)` | high, not executed | ByteQueue.SliceAsWrittenLosesBytes | ByteQueue.Slice |
| src/queue/byte_iter.rs:189 | `OwnedByteIter::take` keeps `av.len() - n` bytes of the last chunk | one 6-byte chunk with `take(4)` keeps 2 bytes; chunks of 4 and 2 with `take(5)` underflow | keep `n - self.len()` bytes of that chunk | high, not executed | ByteIter.OwnedTakeAsWrittenKeepsTooFew | ByteIter.OwnedTake |
