/** `ByteStringRender` and `MultiByteStringRender`: byte strings shown as
    escaped text (like `core::ascii::escape_default`), and the hex
    renderers `lower_hex_slice` / `upper_hex_slice`. Formatter plumbing is
    replaced by functions returning the text. */
module Render {
  import opened Bytes
  import opened Wrappers

  /** Every character is printable ASCII (32 to 126). */
  predicate Printable(s: string) {
    forall k :: 0 <= k < |s| ==> 32 <= s[k] as int < 127
  }

  /** The hex digit for `d`, in lower or upper case. */
  function Digit(d: nat, upper: bool): (c: char)
    requires d < 16
    ensures 32 <= c as int < 127
  {
    if d < 10 then (48 + d) as char
    else if upper then (55 + d) as char
    else (87 + d) as char
  }

  /** The value of a hex digit of the given case, if `c` is one. */
  function DigitValue(c: char, upper: bool): (r: Option<nat>)
    ensures r.Some? ==> r.value < 16
  {
    if '0' <= c <= '9' then Some(c as int - 48)
    else if upper && 'A' <= c <= 'F' then Some(c as int - 55)
    else if !upper && 'a' <= c <= 'f' then Some(c as int - 87)
    else None
  }

  lemma DigitRoundTrip(d: nat, upper: bool)
    requires d < 16
    ensures DigitValue(Digit(d, upper), upper) == Some(d)
  {
  }

  /** The two-digit hex form of one byte (`{:02x}` or `{:02X}`). */
  function HexPair(b: byte, upper: bool): (s: string)
    ensures |s| == 2 && Printable(s)
  {
    [Digit(b as int / 16, upper), Digit(b as int % 16, upper)]
  }

  /** The escape of one byte in the `Display` output. */
  function Escape(b: byte): (s: string)
    ensures 1 <= |s| <= 4 && Printable(s)
  {
    var v := b as int;
    if v == 0x5C then "\\\\"
    else if v == 0x22 then "\\\""
    else if v == 0x0A then "\\n"
    else if v == 0x0D then "\\r"
    else if v == 0x09 then "\\t"
    else if 32 <= v < 127 then [v as char]
    else "\\x" + HexPair(b, false)
  }

  /** `Display`: the escapes of the bytes, in order. */
  function Display(bs: seq<byte>): (s: string)
    ensures Printable(s)
    ensures |bs| <= |s| <= 4 * |bs|
    decreases |bs|
  {
    if |bs| == 0 then "" else Escape(bs[0]) + Display(bs[1..])
  }

  /** `Debug`: `b"`, the `Display` text, and `"`. */
  function Debug(bs: seq<byte>): (s: string)
    ensures Printable(s) && |s| >= 3
    ensures s[..2] == "b\"" && s[|s| - 1] == '"' && s[2..|s| - 1] == Display(bs)
  {
    "b\"" + Display(bs) + "\""
  }

  /** The values of the bytes, in order. */
  function Values(bs: seq<byte>): (r: seq<nat>)
    ensures |r| == |bs|
    ensures forall i :: 0 <= i < |bs| ==> r[i] == bs[i] as nat
    decreases |bs|
  {
    if |bs| == 0 then [] else [bs[0] as nat] + Values(bs[1..])
  }

  /** Two byte strings with the same values are equal. */
  lemma ValuesInjective(a: seq<byte>, b: seq<byte>)
    requires Values(a) == Values(b)
    ensures a == b
  {
    forall i | 0 <= i < |a|
      ensures a[i] == b[i]
    {
      SameValue(a[i], b[i], Values(a)[i]);
    }
  }

  lemma SameValue(x: byte, y: byte, v: nat)
    requires x as nat == v && y as nat == v
    ensures x == y
  {
  }

  /** Reads an escaped text back into byte values: the inverse of
      `Display`. */
  function Unescape(s: string): Option<seq<nat>>
    decreases |s|
  {
    if |s| == 0 then Some([])
    else
      match UnescapeOne(s)
      case None => None
      case Some((b, n)) =>
        match Unescape(s[n..])
        case None => None
        case Some(rest) => Some([b] + rest)
  }

  /** The value of the byte at the start of an escaped text and the
      number of characters its escape takes. */
  function UnescapeOne(s: string): (r: Option<(nat, nat)>)
    requires |s| > 0
    ensures r.Some? ==> 1 <= r.value.1 <= |s|
  {
    if s[0] == '\\' then
      if |s| < 2 then None
      else if s[1] == '\\' then Some((0x5C, 2))
      else if s[1] == '"' then Some((0x22, 2))
      else if s[1] == 'n' then Some((0x0A, 2))
      else if s[1] == 'r' then Some((0x0D, 2))
      else if s[1] == 't' then Some((0x09, 2))
      else if s[1] == 'x' && |s| >= 4 then
        var hi, lo := DigitValue(s[2], false), DigitValue(s[3], false);
        if hi.Some? && lo.Some? then Some((hi.value * 16 + lo.value, 4)) else None
      else None
    else if 32 <= s[0] as int < 127 then Some((s[0] as int, 1))
    else None
  }

  lemma UnescapeOneEscape(b: byte, t: string)
    ensures UnescapeOne(Escape(b) + t) == Some((b as nat, |Escape(b)|))
    ensures (Escape(b) + t)[|Escape(b)|..] == t
  {
    var s := Escape(b) + t;
    var v := b as int;
    if v == 0x5C || v == 0x22 || v == 0x0A || v == 0x0D || v == 0x09 {
      assert s[0] == '\\' && s[1] == Escape(b)[1];
    } else if 32 <= v < 127 {
      assert s[0] == v as char;
    } else {
      UnescapeOneHex(b, t);
    }
  }

  lemma UnescapeOneHex(b: byte, t: string)
    requires Escape(b) == "\\x" + HexPair(b, false)
    ensures UnescapeOne(Escape(b) + t) == Some((b as nat, 4))
  {
    var s := Escape(b) + t;
    var u := HexPair(b, false) + t;
    PairDigits(b, false, t);
    NibbleSum(b as nat);
    assert s[0] == '\\' && s[1] == 'x';
    assert s[2] == u[0] && s[3] == u[1];
  }

  /** `Display` loses nothing: every byte string is read back from its
      rendering. */
  lemma {:induction false} UnescapeDisplay(bs: seq<byte>)
    ensures Unescape(Display(bs)) == Some(Values(bs))
    decreases |bs|
  {
    if |bs| > 0 {
      var t := Display(bs[1..]);
      assert Display(bs) == Escape(bs[0]) + t;
      UnescapeOneEscape(bs[0], t);
      UnescapeDisplay(bs[1..]);
    }
  }

  /** Hence different byte strings render differently. */
  lemma DisplayInjective(a: seq<byte>, b: seq<byte>)
    requires Display(a) == Display(b)
    ensures a == b
  {
    UnescapeDisplay(a);
    UnescapeDisplay(b);
    ValuesInjective(a, b);
  }

  /** Rendering a concatenation renders the parts one after the other. */
  lemma {:induction false} DisplayAppend(a: seq<byte>, b: seq<byte>)
    ensures Display(a + b) == Display(a) + Display(b)
    decreases |a|
  {
    if |a| == 0 {
      assert a + b == b;
    } else {
      assert (a + b)[1..] == a[1..] + b;
      DisplayAppend(a[1..], b);
    }
  }

  /** `MultiByteStringRender`'s `Display`: each part's `Display`, in
      order. */
  function MultiDisplay(parts: seq<seq<byte>>): (s: string)
    ensures s == Display(Flatten(parts))
    decreases |parts|
  {
    if |parts| == 0 then ""
    else
      DisplayAppend(parts[0], Flatten(parts[1..]));
      Display(parts[0]) + MultiDisplay(parts[1..])
  }

  /** `MultiByteStringRender`'s `Debug`. */
  function MultiDebug(parts: seq<seq<byte>>): (s: string)
    ensures s == Debug(Flatten(parts))
  {
    "b\"" + MultiDisplay(parts) + "\""
  }

  /** The digit pairs of all bytes. */
  function HexBody(sl: seq<byte>, upper: bool): (s: string)
    ensures |s| == 2 * |sl|
    decreases |sl|
  {
    if |sl| == 0 then "" else HexPair(sl[0], upper) + HexBody(sl[1..], upper)
  }

  /** `lower_hex_slice` / `upper_hex_slice`: with a width, `'0'`s pad the
      output up to it; then two digits per byte. */
  function HexSlice(sl: seq<byte>, width: Option<nat>, upper: bool): (s: string)
    ensures |s| == if width.Some? && width.value > 2 * |sl| then width.value else 2 * |sl|
    ensures forall k :: 0 <= k < |s| - 2 * |sl| ==> s[k] == '0'
    ensures s[|s| - 2 * |sl|..] == HexBody(sl, upper)
  {
    var pad := if width.Some? && width.value > 2 * |sl| then width.value - 2 * |sl| else 0;
    seq(pad, _ => '0') + HexBody(sl, upper)
  }

  function LowerHex(sl: seq<byte>, width: Option<nat>): string {
    HexSlice(sl, width, false)
  }

  function UpperHex(sl: seq<byte>, width: Option<nat>): string {
    HexSlice(sl, width, true)
  }

  /** Reads digit pairs back into byte values. */
  function ParseHex(s: string, upper: bool): Option<seq<nat>>
    decreases |s|
  {
    if |s| == 0 then Some([])
    else if |s| == 1 then None
    else
      var hi, lo, rest := DigitValue(s[0], upper), DigitValue(s[1], upper), ParseHex(s[2..], upper);
      if hi.Some? && lo.Some? && rest.Some? then Some([hi.value * 16 + lo.value] + rest.value) else None
  }

  /** The digits after the padding give back the bytes. */
  lemma {:induction false} ParseHexBody(sl: seq<byte>, upper: bool)
    ensures ParseHex(HexBody(sl, upper), upper) == Some(Values(sl))
    decreases |sl|
  {
    if |sl| > 0 {
      ParseHexPair(sl[0], upper, HexBody(sl[1..], upper));
      ParseHexBody(sl[1..], upper);
    }
  }

  /** One digit pair in front of `t` reads back as its byte's value in
      front of what `t` reads as. */
  lemma ParseHexPair(b: byte, upper: bool, t: string)
    ensures ParseHex(HexPair(b, upper) + t, upper)
      == if ParseHex(t, upper).Some? then Some([b as nat] + ParseHex(t, upper).value) else None
  {
    PairDigits(b, upper, t);
    NibbleSum(b as nat);
  }

  /** The two digits in front of `t` read as the byte's two nibbles. */
  lemma PairDigits(b: byte, upper: bool, t: string)
    ensures var s := HexPair(b, upper) + t;
      && |s| >= 2 && s[2..] == t
      && DigitValue(s[0], upper) == Some(b as nat / 16)
      && DigitValue(s[1], upper) == Some(b as nat % 16)
  {
    var s := HexPair(b, upper) + t;
    DigitRoundTrip(b as nat / 16, upper);
    DigitRoundTrip(b as nat % 16, upper);
    assert s[0] == HexPair(b, upper)[0] && s[1] == HexPair(b, upper)[1];
    assert s[2..] == t;
  }

  lemma NibbleSum(v: nat)
    ensures v / 16 * 16 + v % 16 == v
  {
  }

  /** Hence different byte strings have different hex renderings. */
  lemma HexBodyInjective(a: seq<byte>, b: seq<byte>, upper: bool)
    requires HexBody(a, upper) == HexBody(b, upper)
    ensures a == b
  {
    ParseHexBody(a, upper);
    ParseHexBody(b, upper);
    ValuesInjective(a, b);
  }
}
