/**
 * `encodeURIComponent` and its inverse `decodeURIComponent` (the Encode and
 * Decode operations of section 19.2.6 of ECMA-262): a string is split into
 * code points, every code point outside the unreserved set of section 2.3
 * of RFC 2396 is written as its UTF-8 octets (RFC 3629), and every octet is
 * written as `%` and two upper-case hexadecimal digits (section 2.1 of
 * RFC 3986).
 */
module UriComponent {
  import opened Wrappers
  import opened JsString

  newtype Byte = x: int | 0 <= x < 0x100

  const Percent: CodeUnit := '%' as CodeUnit

  /** A Unicode scalar value: a code point that is not a surrogate. */
  predicate IsScalarValue(cp: int) {
    0 <= cp <= 0x10_FFFF && !(0xD800 <= cp <= 0xDFFF)
  }

  /** Letters, digits and `- _ . ! ~ * ' ( )`: left as they are. */
  predicate IsUnreserved(u: CodeUnit) {
    ('a' as CodeUnit <= u <= 'z' as CodeUnit)
    || ('A' as CodeUnit <= u <= 'Z' as CodeUnit)
    || ('0' as CodeUnit <= u <= '9' as CodeUnit)
    || u == '-' as CodeUnit || u == '_' as CodeUnit || u == '.' as CodeUnit
    || u == '!' as CodeUnit || u == '~' as CodeUnit || u == '*' as CodeUnit
    || u == '\'' as CodeUnit || u == '(' as CodeUnit || u == ')' as CodeUnit
  }

  /**
   * A string without lone surrogates: every high surrogate is followed by
   * a low one and every low surrogate follows a high one.
   */
  predicate IsWellFormed(s: Str)
    decreases |s|
  {
    if s == [] then true
    else if IsHighSurrogate(s[0]) then |s| >= 2 && IsLowSurrogate(s[1]) && IsWellFormed(s[2..])
    else !IsLowSurrogate(s[0]) && IsWellFormed(s[1..])
  }

  /** The code point a surrogate pair stands for. */
  function PairToCodePoint(hi: CodeUnit, lo: CodeUnit): (cp: int)
    requires IsHighSurrogate(hi) && IsLowSurrogate(lo)
    ensures 0x1_0000 <= cp <= 0x10_FFFF
  {
    0x1_0000 + (hi as int - 0xD800) * 0x400 + (lo as int - 0xDC00)
  }

  /** UTF-16 encoding of one code point: one unit, or a surrogate pair. */
  function Utf16Encode(cp: int): (r: Str)
    requires IsScalarValue(cp)
  {
    if cp < 0x1_0000 then [cp as CodeUnit]
    else [(0xD800 + (cp - 0x1_0000) / 0x400) as CodeUnit, (0xDC00 + (cp - 0x1_0000) % 0x400) as CodeUnit]
  }

  /** Re-encoding the code point of a surrogate pair gives the pair back. */
  lemma PairRoundTrip(hi: CodeUnit, lo: CodeUnit)
    requires IsHighSurrogate(hi) && IsLowSurrogate(lo)
    ensures IsScalarValue(PairToCodePoint(hi, lo))
    ensures Utf16Encode(PairToCodePoint(hi, lo)) == [hi, lo]
  {
    var cp := PairToCodePoint(hi, lo);
    var h, l := hi as int - 0xD800, lo as int - 0xDC00;
    assert cp - 0x1_0000 == h * 0x400 + l;
    assert (cp - 0x1_0000) / 0x400 == h;
    assert (cp - 0x1_0000) % 0x400 == l;
  }

  /** UTF-8 encoding of one scalar value (section 3 of RFC 3629). */
  function Utf8Encode(cp: int): (r: seq<Byte>)
    requires IsScalarValue(cp)
    ensures 1 <= |r| <= 4
    ensures |r| == 1 <==> cp < 0x80
  {
    if cp < 0x80 then [cp as Byte]
    else if cp < 0x800 then [(0xC0 + cp / 0x40) as Byte, (0x80 + cp % 0x40) as Byte]
    else if cp < 0x1_0000 then
      [(0xE0 + cp / 0x1000) as Byte, (0x80 + cp / 0x40 % 0x40) as Byte, (0x80 + cp % 0x40) as Byte]
    else
      [(0xF0 + cp / 0x4_0000) as Byte, (0x80 + cp / 0x1000 % 0x40) as Byte,
       (0x80 + cp / 0x40 % 0x40) as Byte, (0x80 + cp % 0x40) as Byte]
  }

  predicate IsContinuation(b: Byte) { 0x80 <= b < 0xC0 }

  /**
   * The number of leading one bits of an octet: 0 for ASCII, 1 for a
   * continuation octet, 2..4 for the lead octet of a multi-octet sequence.
   */
  function LeadingOnes(b: Byte): (n: nat)
    ensures n <= 8
  {
    if b < 0x80 then 0
    else if b < 0xC0 then 1
    else if b < 0xE0 then 2
    else if b < 0xF0 then 3
    else if b < 0xF8 then 4
    else if b < 0xFC then 5
    else if b < 0xFE then 6
    else if b < 0xFF then 7
    else 8
  }

  /** The value of the bits a continuation octet carries. */
  function Bits(b: Byte): int { b as int - 0x80 }

  /**
   * Decodes a multi-octet UTF-8 sequence, rejecting a wrong lead octet, a
   * bad continuation octet, an overlong form, a surrogate and anything above
   * U+10FFFF. What it accepts is exactly the multi-octet sequences
   * Utf8Encode produces.
   */
  function Utf8DecodeOne(o: seq<Byte>): (r: Option<int>)
    ensures r.Some? ==> IsScalarValue(r.value) && Utf8Encode(r.value) == o
  {
    if |o| == 2 && 0xC0 <= o[0] < 0xE0 && IsContinuation(o[1]) then
      var v := (o[0] as int - 0xC0) * 0x40 + Bits(o[1]);
      if 0x80 <= v then
        Utf8Split2(o[0] as int - 0xC0, Bits(o[1]));
        Some(v)
      else None
    else if |o| == 3 && 0xE0 <= o[0] < 0xF0 && IsContinuation(o[1]) && IsContinuation(o[2]) then
      var v := (o[0] as int - 0xE0) * 0x1000 + Bits(o[1]) * 0x40 + Bits(o[2]);
      if 0x800 <= v && !(0xD800 <= v <= 0xDFFF) then
        Utf8Split3(o[0] as int - 0xE0, Bits(o[1]), Bits(o[2]));
        Some(v)
      else None
    else if |o| == 4 && 0xF0 <= o[0] < 0xF8 && IsContinuation(o[1]) && IsContinuation(o[2])
            && IsContinuation(o[3]) then
      var v := (o[0] as int - 0xF0) * 0x4_0000 + Bits(o[1]) * 0x1000 + Bits(o[2]) * 0x40 + Bits(o[3]);
      if 0x1_0000 <= v <= 0x10_FFFF then
        Utf8Split4(o[0] as int - 0xF0, Bits(o[1]), Bits(o[2]), Bits(o[3]));
        Some(v)
      else None
    else None
  }

  /** The 6-bit groups of a two-octet value are its quotient and remainder by 64. */
  lemma Utf8Split2(a: int, b: int)
    requires 0 <= a < 0x20 && 0 <= b < 0x40
    ensures (a * 0x40 + b) / 0x40 == a && (a * 0x40 + b) % 0x40 == b
  {
  }

  lemma Utf8Split3(a: int, b: int, c: int)
    requires 0 <= a < 0x10 && 0 <= b < 0x40 && 0 <= c < 0x40
    ensures var v := a * 0x1000 + b * 0x40 + c;
      v / 0x1000 == a && v / 0x40 % 0x40 == b && v % 0x40 == c
  {
    var v := a * 0x1000 + b * 0x40 + c;
    assert v == (a * 0x40 + b) * 0x40 + c;
    Utf8Split2(a, b);
    assert v / 0x40 == a * 0x40 + b;
    assert v / 0x1000 == v / 0x40 / 0x40;
  }

  lemma Utf8Split4(a: int, b: int, c: int, d: int)
    requires 0 <= a < 0x08 && 0 <= b < 0x40 && 0 <= c < 0x40 && 0 <= d < 0x40
    ensures var v := a * 0x4_0000 + b * 0x1000 + c * 0x40 + d;
      v / 0x4_0000 == a && v / 0x1000 % 0x40 == b && v / 0x40 % 0x40 == c && v % 0x40 == d
  {
    var v := a * 0x4_0000 + b * 0x1000 + c * 0x40 + d;
    var w := a * 0x1000 + b * 0x40 + c;
    assert v == w * 0x40 + d;
    assert v / 0x40 == w;
    Utf8Split3(a, b, c);
    assert v / 0x1000 == w / 0x40;
    assert v / 0x4_0000 == w / 0x1000;
  }

  /** Every multi-octet encoding decodes back to its code point. */
  lemma Utf8RoundTrip(cp: int)
    requires IsScalarValue(cp) && 0x80 <= cp
    ensures LeadingOnes(Utf8Encode(cp)[0]) == |Utf8Encode(cp)|
    ensures Utf8DecodeOne(Utf8Encode(cp)) == Some(cp)
  {
    var o := Utf8Encode(cp);
    if cp < 0x800 {
      assert (o[0] as int - 0xC0) * 0x40 + (o[1] as int - 0x80) == cp;
    } else if cp < 0x1_0000 {
      assert cp / 0x40 == cp / 0x1000 * 0x40 + cp / 0x40 % 0x40;
      assert (o[0] as int - 0xE0) * 0x1000 + (o[1] as int - 0x80) * 0x40 + (o[2] as int - 0x80) == cp;
    } else {
      assert cp / 0x1000 == cp / 0x4_0000 * 0x40 + cp / 0x1000 % 0x40;
      assert cp / 0x40 == cp / 0x1000 * 0x40 + cp / 0x40 % 0x40;
      assert (o[0] as int - 0xF0) * 0x4_0000 + (o[1] as int - 0x80) * 0x1000
             + (o[2] as int - 0x80) * 0x40 + (o[3] as int - 0x80) == cp;
    }
  }

  /** An upper-case hexadecimal digit. */
  function HexDigit(d: int): (u: CodeUnit)
    requires 0 <= d < 16
    ensures ('0' as CodeUnit <= u <= '9' as CodeUnit) || ('A' as CodeUnit <= u <= 'F' as CodeUnit)
    ensures HexValue(u) == Some(d)
  {
    if d < 10 then ('0' as int + d) as CodeUnit else ('A' as int + d - 10) as CodeUnit
  }

  /** The value of a hexadecimal digit of either case. */
  function HexValue(u: CodeUnit): (r: Option<int>)
    ensures r.Some? ==> 0 <= r.value < 16
  {
    if '0' as CodeUnit <= u <= '9' as CodeUnit then Some(u as int - '0' as int)
    else if 'A' as CodeUnit <= u <= 'F' as CodeUnit then Some(u as int - 'A' as int + 10)
    else if 'a' as CodeUnit <= u <= 'f' as CodeUnit then Some(u as int - 'a' as int + 10)
    else None
  }

  /** `%XY` for each octet, with X and Y upper-case hexadecimal digits. */
  function PercentEncode(o: seq<Byte>): (r: Str)
    ensures |r| == 3 * |o|
    ensures forall i :: 0 <= i < |r| ==> r[i] == Percent || IsUnreserved(r[i])
  {
    if o == [] then []
    else [Percent, HexDigit(o[0] as int / 16), HexDigit(o[0] as int % 16)] + PercentEncode(o[1..])
  }

  /**
   * The escape of octet i sits at offset 3i: `%`, then the upper-case
   * digit of its high half, then that of its low half.
   */
  lemma {:induction false} PercentEncodeLayout(o: seq<Byte>, i: nat)
    requires i < |o|
    ensures var r := PercentEncode(o);
      r[3 * i] == Percent && r[3 * i + 1] == HexDigit(o[i] as int / 16) && r[3 * i + 2] == HexDigit(o[i] as int % 16)
    decreases i
  {
    if i > 0 {
      PercentEncodeLayout(o[1..], i - 1);
      assert o[i] == o[1..][i - 1];
    }
  }

  /** Prepends p to a successful result and passes a failure on. */
  function Prepend(p: Str, r: Option<Str>): Option<Str> {
    if r.None? then None else Some(p + r.value)
  }

  /**
   * `encodeURIComponent`. A lone surrogate throws URIError (None here); the
   * string is encodable exactly when it is well formed, and the encoding
   * holds only `%` and unreserved characters, so in particular no `/`, `?`
   * or `#`.
   */
  function EncodeUriComponent(s: Str): (r: Option<Str>)
    ensures r.Some? <==> IsWellFormed(s)
    ensures r.Some? ==> |r.value| >= |s|
    ensures r.Some? ==> forall i :: 0 <= i < |r.value| ==> r.value[i] == Percent || IsUnreserved(r.value[i])
    ensures r.Some? && s != [] ==>
      (IsUnreserved(s[0]) ==> r.value[0] == s[0]) && (!IsUnreserved(s[0]) ==> r.value[0] == Percent)
    decreases |s|
  {
    if s == [] then Some([])
    else if IsUnreserved(s[0]) then Prepend([s[0]], EncodeUriComponent(s[1..]))
    else if IsLowSurrogate(s[0]) then None
    else if IsHighSurrogate(s[0]) then
      if |s| < 2 || !IsLowSurrogate(s[1]) then None
      else Prepend(PercentEncode(Utf8Encode(PairToCodePoint(s[0], s[1]))), EncodeUriComponent(s[2..]))
    else Prepend(PercentEncode(Utf8Encode(s[0] as int)), EncodeUriComponent(s[1..]))
  }

  /** A string made only of unreserved characters is its own encoding. */
  lemma {:induction false} UnreservedUnchanged(s: Str)
    requires forall i :: 0 <= i < |s| ==> IsUnreserved(s[i])
    ensures EncodeUriComponent(s) == Some(s)
    decreases |s|
  {
    if s != [] {
      UnreservedUnchanged(s[1..]);
      assert s == [s[0]] + s[1..];
    }
  }

  /** What one unit that is not a surrogate encodes to. */
  function UnitEncoding(c: CodeUnit): (r: Str)
    requires !IsHighSurrogate(c) && !IsLowSurrogate(c)
  {
    if IsUnreserved(c) then [c] else PercentEncode(Utf8Encode(c as int))
  }

  /** The encoding of a string that starts with a unit that is not a surrogate. */
  lemma EncodeStepUnit(s: Str)
    requires s != [] && !IsHighSurrogate(s[0]) && !IsLowSurrogate(s[0]) && IsWellFormed(s[1..])
    ensures EncodeUriComponent(s) == Some(UnitEncoding(s[0]) + EncodeUriComponent(s[1..]).value)
  {
  }

  /** The encoding of a string that starts with a surrogate pair. */
  lemma EncodeStepPair(s: Str)
    requires |s| >= 2 && IsHighSurrogate(s[0]) && IsLowSurrogate(s[1]) && IsWellFormed(s[2..])
    ensures EncodeUriComponent(s)
         == Some(PercentEncode(Utf8Encode(PairToCodePoint(s[0], s[1]))) + EncodeUriComponent(s[2..]).value)
  {
  }

  /**
   * What one code point encodes to: an unreserved character stays as it
   * is, any other character that is not a surrogate becomes the escapes of
   * its UTF-8 octets, and so does a surrogate pair, as the code point it
   * stands for.
   */
  lemma EncodeCodePoint(c: CodeUnit, hi: CodeUnit, lo: CodeUnit)
    ensures IsUnreserved(c) ==> EncodeUriComponent([c]) == Some([c])
    ensures !IsUnreserved(c) && !IsHighSurrogate(c) && !IsLowSurrogate(c) ==>
      EncodeUriComponent([c]) == Some(PercentEncode(Utf8Encode(c as int)))
    ensures IsHighSurrogate(hi) && IsLowSurrogate(lo) ==>
      EncodeUriComponent([hi, lo]) == Some(PercentEncode(Utf8Encode(PairToCodePoint(hi, lo))))
  {
    if !IsHighSurrogate(c) && !IsLowSurrogate(c) {
      assert [c][1..] == [];
      EncodeStepUnit([c]);
      assert UnitEncoding(c) + [] == UnitEncoding(c);
    }
    if IsHighSurrogate(hi) && IsLowSurrogate(lo) {
      var pair := [hi, lo];
      assert pair[2..] == [];
      EncodeStepPair(pair);
      var e := PercentEncode(Utf8Encode(PairToCodePoint(hi, lo)));
      assert e + [] == e;
    }
  }

  /**
   * The encoding of two well-formed strings one after the other is the
   * encoding of the first followed by that of the second; with
   * `EncodeCodePoint` this fixes the encoding of every string, code point by
   * code point.
   */
  lemma {:induction false} EncodeAppend(a: Str, b: Str)
    requires IsWellFormed(a) && IsWellFormed(b)
    ensures IsWellFormed(a + b)
    ensures EncodeUriComponent(a + b) == Some(EncodeUriComponent(a).value + EncodeUriComponent(b).value)
    decreases |a|
  {
    WellFormedAppend(a, b);
    if a == [] {
      assert a + b == b;
      assert EncodeUriComponent(a) == Some([]);
      assert [] + EncodeUriComponent(b).value == EncodeUriComponent(b).value;
    } else if IsHighSurrogate(a[0]) {
      EncodeAppend(a[2..], b);
      AppendAfterPair(a, b);
    } else {
      EncodeAppend(a[1..], b);
      AppendAfterUnit(a, b);
    }
  }

  /** Two well-formed strings one after the other form a well-formed string. */
  lemma {:induction false} WellFormedAppend(a: Str, b: Str)
    requires IsWellFormed(a) && IsWellFormed(b)
    ensures IsWellFormed(a + b)
    decreases |a|
  {
    if a == [] {
      assert a + b == b;
    } else if IsHighSurrogate(a[0]) {
      WellFormedAppend(a[2..], b);
      assert (a + b)[2..] == a[2..] + b && (a + b)[0] == a[0] && (a + b)[1] == a[1];
    } else {
      WellFormedAppend(a[1..], b);
      assert (a + b)[1..] == a[1..] + b && (a + b)[0] == a[0];
    }
  }

  /** The inductive step of `EncodeAppend` when a starts with a unit that is not a surrogate. */
  lemma AppendAfterUnit(a: Str, b: Str)
    requires a != [] && IsWellFormed(a) && !IsHighSurrogate(a[0]) && IsWellFormed(b)
    requires IsWellFormed(a[1..] + b)
    requires EncodeUriComponent(a[1..] + b) == Some(EncodeUriComponent(a[1..]).value + EncodeUriComponent(b).value)
    ensures EncodeUriComponent(a + b) == Some(EncodeUriComponent(a).value + EncodeUriComponent(b).value)
  {
    var ab := a + b;
    SliceOfAppend(a, b, 1);
    var head := UnitEncoding(a[0]);
    var ea, eb := EncodeUriComponent(a[1..]).value, EncodeUriComponent(b).value;
    EncodeStepUnit(a);
    assert EncodeUriComponent(a) == Some(head + ea);
    EncodeStepUnit(ab);
    assert EncodeUriComponent(ab) == Some(head + (ea + eb));
    ConcatAssoc(head, ea, eb);
  }

  /** The inductive step of `EncodeAppend` when a starts with a surrogate pair. */
  lemma AppendAfterPair(a: Str, b: Str)
    requires a != [] && IsWellFormed(a) && IsHighSurrogate(a[0]) && IsWellFormed(b)
    requires IsWellFormed(a[2..] + b)
    requires EncodeUriComponent(a[2..] + b) == Some(EncodeUriComponent(a[2..]).value + EncodeUriComponent(b).value)
    ensures EncodeUriComponent(a + b) == Some(EncodeUriComponent(a).value + EncodeUriComponent(b).value)
  {
    var ab := a + b;
    SliceOfAppend(a, b, 2);
    var head := PercentEncode(Utf8Encode(PairToCodePoint(a[0], a[1])));
    var ea, eb := EncodeUriComponent(a[2..]).value, EncodeUriComponent(b).value;
    EncodeStepPair(a);
    assert EncodeUriComponent(a) == Some(head + ea);
    EncodeStepPair(ab);
    assert EncodeUriComponent(ab) == Some(head + (ea + eb));
    ConcatAssoc(head, ea, eb);
  }

  /** Dropping k units from a + b drops them from a, and the first k units are a's. */
  lemma SliceOfAppend(a: Str, b: Str, k: nat)
    requires k <= |a|
    ensures (a + b)[k..] == a[k..] + b
    ensures forall i :: 0 <= i < k ==> (a + b)[i] == a[i]
  {
  }

  lemma ConcatAssoc(x: Str, y: Str, z: Str)
    ensures x + (y + z) == (x + y) + z
  {
  }

  /**
   * An example: the CJK ideograph U+5F20 has the UTF-8 octets E5 BC A0 and
   * is written with upper-case digits, and an unreserved character next to
   * it is left as it is.
   */
  lemma EncodeExample()
    ensures EncodeUriComponent([0x5F20 as CodeUnit]) == Some(Units("%E5%BC%A0"))
    ensures EncodeUriComponent(Units("T") + [0x5F20 as CodeUnit]) == Some(Units("T%E5%BC%A0"))
  {
    var c: CodeUnit := 0x5F20;
    EncodeCodePoint(c, c, c);
    assert Utf8Encode(c as int) == [0xE5, 0xBC, 0xA0];
    assert PercentEncode([0xE5, 0xBC, 0xA0]) == Units("%E5%BC%A0");
    var t := Units("T");
    EncodeCodePoint(t[0], c, c);
    assert t == [t[0]];
    EncodeAppend(t, [c]);
    assert Units("T") + Units("%E5%BC%A0") == Units("T%E5%BC%A0");
  }

  /** Reads m escapes `%XY` from the front of t, failing on anything else. */
  function ReadEscapes(t: Str, m: nat): (r: Option<seq<Byte>>)
    ensures r.Some? ==> |r.value| == m && 3 * m <= |t|
    decreases m
  {
    if m == 0 then Some([])
    else if |t| < 3 || t[0] != Percent then None
    else match (HexValue(t[1]), HexValue(t[2]))
      case (Some(hi), Some(lo)) =>
        var rest := ReadEscapes(t[3..], m - 1);
        if rest.None? then None else Some([(hi * 16 + lo) as Byte] + rest.value)
      case _ => None
  }

  /**
   * `decodeURIComponent`: characters other than `%` are copied, an escape
   * of an ASCII octet gives that character, and the escapes of a
   * multi-octet sequence must form one valid UTF-8 encoding, which gives
   * its code point in UTF-16. Anything else throws URIError (None here).
   */
  function DecodeUriComponent(t: Str): (r: Option<Str>)
    decreases |t|
  {
    if t == [] then Some([])
    else if t[0] != Percent then Prepend([t[0]], DecodeUriComponent(t[1..]))
    else
      var first := ReadEscapes(t, 1);
      if first.None? then None
      else
        var n := LeadingOnes(first.value[0]);
        if n == 0 then Prepend([first.value[0] as int as CodeUnit], DecodeUriComponent(t[3..]))
        else if n == 1 || n > 4 then None
        else
          var octets := ReadEscapes(t, n);
          if octets.None? then None
          else
            var cp := Utf8DecodeOne(octets.value);
            if cp.None? then None
            else Prepend(Utf16Encode(cp.value), DecodeUriComponent(t[3 * n..]))
  }

  /** Hexadecimal digits read back as the values they were written from. */
  lemma HexRoundTrip(b: Byte)
    ensures HexValue(HexDigit(b as int / 16)) == Some(b as int / 16)
    ensures HexValue(HexDigit(b as int % 16)) == Some(b as int % 16)
  {
  }

  /** Reading m escapes back from a percent-encoding gives the first m octets. */
  lemma {:induction false} ReadEscapesOfEncoding(o: seq<Byte>, tail: Str, m: nat)
    requires m <= |o|
    ensures ReadEscapes(PercentEncode(o) + tail, m) == Some(o[..m])
    decreases m
  {
    if m > 0 {
      var t := PercentEncode(o) + tail;
      assert t[3..] == PercentEncode(o[1..]) + tail;
      HexRoundTrip(o[0]);
      ReadEscapesOfEncoding(o[1..], tail, m - 1);
      assert o[..m] == [o[0]] + o[1..][..m - 1];
    }
  }

  /** Decoding the escapes of one code point gives its UTF-16 form, then the rest. */
  lemma DecodeEscapedCodePoint(cp: int, tail: Str)
    requires IsScalarValue(cp)
    ensures DecodeUriComponent(PercentEncode(Utf8Encode(cp)) + tail)
         == Prepend(Utf16Encode(cp), DecodeUriComponent(tail))
  {
    var o := Utf8Encode(cp);
    var t := PercentEncode(o) + tail;
    ReadEscapesOfEncoding(o, tail, 1);
    assert t[0] == Percent;
    assert o[..1] == [o[0]];
    if cp < 0x80 {
      assert t[3..] == tail;
    } else {
      Utf8RoundTrip(cp);
      ReadEscapesOfEncoding(o, tail, |o|);
      assert o[..|o|] == o;
      assert t[3 * |o|..] == tail;
    }
  }

  /**
   * Round trip: a well-formed string is encodable, and decoding its
   * encoding gives the string back.
   */
  lemma {:induction false} DecodeEncode(s: Str)
    requires IsWellFormed(s)
    ensures EncodeUriComponent(s).Some?
    ensures DecodeUriComponent(EncodeUriComponent(s).value) == Some(s)
    decreases |s|
  {
    if s != [] {
      if IsUnreserved(s[0]) {
        DecodeEncode(s[1..]);
        var e := EncodeUriComponent(s[1..]).value;
        assert EncodeUriComponent(s).value == [s[0]] + e;
        assert ([s[0]] + e)[1..] == e;
        assert s == [s[0]] + s[1..];
      } else if IsHighSurrogate(s[0]) {
        DecodeEncode(s[2..]);
        var e := EncodeUriComponent(s[2..]).value;
        PairRoundTrip(s[0], s[1]);
        DecodeEscapedCodePoint(PairToCodePoint(s[0], s[1]), e);
        assert s == [s[0], s[1]] + s[2..];
      } else {
        DecodeEncode(s[1..]);
        var e := EncodeUriComponent(s[1..]).value;
        DecodeEscapedCodePoint(s[0] as int, e);
        assert s == [s[0]] + s[1..];
      }
    }
  }

  /** A string with no surrogate code unit at all is well formed. */
  lemma {:induction false} NoSurrogateIsWellFormed(s: Str)
    requires forall i :: 0 <= i < |s| ==> !IsHighSurrogate(s[i]) && !IsLowSurrogate(s[i])
    ensures IsWellFormed(s)
    decreases |s|
  {
    if s != [] {
      NoSurrogateIsWellFormed(s[1..]);
    }
  }
}
