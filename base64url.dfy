/**
 * The unpadded base64url helpers used for WebAuthn challenges and credential ids:
 * the alphabet of RFC 4648 section 5, with the trailing `=` padding stripped on
 * encoding (as section 3.2 of RFC 4648 allows) and restored before decoding.
 */
module Base64Url {
  import opened Wrappers
  import opened Values

  /** The url-safe alphabet: A-Z, a-z, 0-9, '-' and '_'. */
  function CharOf(v: int): (c: char)
    requires 0 <= v < 64
    ensures c != '='
  {
    if v < 26 then ('A' as int + v) as char
    else if v < 52 then ('a' as int + v - 26) as char
    else if v < 62 then ('0' as int + v - 52) as char
    else if v == 62 then '-'
    else '_'
  }

  /** The 6-bit value of an alphabet character, None for every other character. */
  function ValueOf(c: char): (r: Option<int>)
    ensures r.Some? ==> 0 <= r.value < 64 && CharOf(r.value) == c
  {
    if 'A' <= c <= 'Z' then Some(c as int - 'A' as int)
    else if 'a' <= c <= 'z' then Some(c as int - 'a' as int + 26)
    else if '0' <= c <= '9' then Some(c as int - '0' as int + 52)
    else if c == '-' then Some(62)
    else if c == '_' then Some(63)
    else None
  }

  lemma ValueOfCharOf(v: int)
    requires 0 <= v < 64
    ensures ValueOf(CharOf(v)) == Some(v)
  {
  }

  /** n copies of the padding character. */
  function Pad(n: nat): (p: string)
    ensures |p| == n && forall i :: 0 <= i < n ==> p[i] == '='
  {
    if n == 0 then "" else Pad(n - 1) + "="
  }

  /** The four characters that encode three bytes. */
  function Quad(b0: Byte, b1: Byte, b2: Byte): string {
    [CharOf(b0 / 4), CharOf((b0 % 4) * 16 + b1 / 16), CharOf((b1 % 16) * 4 + b2 / 64), CharOf(b2 % 64)]
  }

  /** Standard encoding without padding: full groups, then 2 or 3 characters for a 1- or 2-byte tail. */
  function EncodeCore(b: seq<Byte>): (s: string)
    ensures forall i :: 0 <= i < |s| ==> s[i] != '='
    decreases |b|
  {
    if |b| == 0 then ""
    else if |b| == 1 then [CharOf(b[0] / 4), CharOf((b[0] % 4) * 16)]
    else if |b| == 2 then [CharOf(b[0] / 4), CharOf((b[0] % 4) * 16 + b[1] / 16), CharOf((b[1] % 16) * 4)]
    else Quad(b[0], b[1], b[2]) + EncodeCore(b[3..])
  }

  lemma {:induction false} EncodeCoreLength(b: seq<Byte>)
    ensures |EncodeCore(b)| == 4 * (|b| / 3) + (if |b| % 3 == 0 then 0 else |b| % 3 + 1)
    decreases |b|
  {
    if |b| >= 3 {
      EncodeCoreLength(b[3..]);
      assert |b[3..]| / 3 == |b| / 3 - 1;
    }
  }

  /** `base64.urlsafe_b64encode`: the core encoding padded to a multiple of four. */
  function StdEncode(b: seq<Byte>): (s: string)
    ensures |s| % 4 == 0
  {
    EncodeCoreLength(b);
    PaddedLength(|b|);
    EncodeCore(b) + Pad(if |b| % 3 == 0 then 0 else 3 - |b| % 3)
  }

  /** The core length plus the padding is a whole number of quads. */
  lemma PaddedLength(n: nat)
    ensures (4 * (n / 3) + (if n % 3 == 0 then 0 else n % 3 + 1) + (if n % 3 == 0 then 0 else 3 - n % 3)) % 4 == 0
  {
    var q := n / 3;
    assert 4 * q + (if n % 3 == 0 then 0 else n % 3 + 1) + (if n % 3 == 0 then 0 else 3 - n % 3)
        == 4 * (q + if n % 3 == 0 then 0 else 1);
  }

  /** `rstrip('=')`. */
  function RStripPad(s: string): (r: string)
    ensures r <= s
    ensures r == [] || r[|r| - 1] != '='
    ensures forall i :: |r| <= i < |s| ==> s[i] == '='
  {
    if s != [] && s[|s| - 1] == '=' then RStripPad(s[..|s| - 1]) else s
  }

  /** `_b64url`: the url-safe standard encoding with its trailing `=` characters stripped. */
  function Encode(b: seq<Byte>): string {
    RStripPad(StdEncode(b))
  }

  /** The padding `_decode_b64url` appends: `'=' * (-len(data) % 4)`. */
  function PaddingFor(s: string): (p: string)
    ensures |s + p| % 4 == 0
  {
    Pad((-|s|) % 4)
  }

  /** Decodes one quad of data characters into three bytes. */
  function DecodeQuad(v0: int, v1: int, v2: int, v3: int): seq<Byte>
    requires 0 <= v0 < 64 && 0 <= v1 < 64 && 0 <= v2 < 64 && 0 <= v3 < 64
  {
    [v0 * 4 + v1 / 16, (v1 % 16) * 16 + v2 / 4, (v2 % 4) * 64 + v3]
  }

  /**
   * Decodes the final quad, which may end in "=" (two bytes) or "==" (one byte).
   * Surplus low bits of the last data character are ignored, as Python does.
   */
  function DecodeLast(q: string): Option<seq<Byte>>
    requires |q| == 4
  {
    var a, b, c, d := ValueOf(q[0]), ValueOf(q[1]), ValueOf(q[2]), ValueOf(q[3]);
    if a.None? || b.None? then None
    else if c.Some? && d.Some? then Some(DecodeQuad(a.value, b.value, c.value, d.value))
    else if c.Some? && q[3] == '=' then Some(DecodeQuad(a.value, b.value, c.value, 0)[..2])
    else if q[2] == '=' && q[3] == '=' then Some(DecodeQuad(a.value, b.value, 0, 0)[..1])
    else None
  }

  /**
   * Quad-by-quad decoding of a text whose length is a multiple of four, refusing every
   * character outside the alphabet. On unpadded url-safe text with its padding restored
   * this is what `_decode_b64url` computes (`DecodeAgrees`).
   */
  function DecodePadded(t: string): Option<seq<Byte>>
    requires |t| % 4 == 0
    decreases |t|
  {
    if t == [] then Some([])
    else if |t| == 4 then DecodeLast(t)
    else
      var a, b, c, d := ValueOf(t[0]), ValueOf(t[1]), ValueOf(t[2]), ValueOf(t[3]);
      if a.None? || b.None? || c.None? || d.None? then None
      else match DecodePadded(t[4..])
        case None => None
        case Some(rest) => Some(DecodeQuad(a.value, b.value, c.value, d.value) + rest)
  }

  /** The strict reading of `_decode_b64url`: restore the padding, then decode quad by quad. */
  function DecodeStrict(s: string): Option<seq<Byte>> {
    DecodePadded(s + PaddingFor(s))
  }

  /**
   * The value `binascii.a2b_base64` gives a character once `urlsafe_b64decode` has
   * mapped '-' to '+' and '_' to '/': both spellings of 62 and of 63 are accepted.
   */
  function StdValueOf(c: char): (r: Option<int>)
    ensures r.Some? ==> 0 <= r.value < 64 && c != '='
    ensures ValueOf(c).Some? ==> r == ValueOf(c)
  {
    if c == '+' then Some(62) else if c == '/' then Some(63) else ValueOf(c)
  }

  /**
   * The state of `binascii.a2b_base64`: the position in the current quad, the bits
   * still pending from the last data character, the `=` characters counted, and the
   * bytes written so far.
   */
  datatype Decoder = Decoder(quadPos: int, leftchar: int, pads: int, out: seq<Byte>)

  /** The pending bits are those the position leaves over: none, 6, 4 or 2. */
  predicate Sane(d: Decoder) {
    && 0 <= d.quadPos < 4 && 0 <= d.leftchar
    && (d.quadPos == 0 ==> d.leftchar == 0)
    && (d.quadPos == 1 ==> d.leftchar < 64)
    && (d.quadPos == 2 ==> d.leftchar < 16)
    && (d.quadPos == 3 ==> d.leftchar < 4)
  }

  /** The decoder at a quad boundary with `out` written. */
  function Fresh(out: seq<Byte>): (d: Decoder)
    ensures Sane(d) && d.quadPos == 0
  {
    Decoder(0, 0, 0, out)
  }

  /** A data character of value v: the switch on `quad_pos`, which also resets the pad count. */
  function Feed(d: Decoder, v: int): (e: Decoder)
    requires Sane(d) && 0 <= v < 64
    ensures Sane(e) && e.quadPos == (d.quadPos + 1) % 4 && e.pads == 0
    ensures |e.out| == |d.out| + (if d.quadPos == 0 then 0 else 1) && d.out <= e.out
  {
    if d.quadPos == 0 then Decoder(1, v, 0, d.out)
    else if d.quadPos == 1 then Decoder(2, v % 16, 0, d.out + [d.leftchar * 4 + v / 16])
    else if d.quadPos == 2 then Decoder(3, v % 4, 0, d.out + [d.leftchar * 16 + v / 4])
    else Decoder(0, 0, 0, d.out + [d.leftchar * 64 + v])
  }

  /**
   * `binascii.a2b_base64` in its default, non-strict mode: a character outside the
   * table is skipped, a `=` ends the input once it completes a quad begun with at
   * least two data characters, and input that ends inside a quad is an error.
   */
  function A2b(s: string, d: Decoder): Option<seq<Byte>>
    requires Sane(d)
    decreases |s|
  {
    if s == [] then (if d.quadPos == 0 then Some(d.out) else None)
    else if s[0] == '=' then
      if d.quadPos >= 2 && d.quadPos + d.pads + 1 >= 4 then Some(d.out)
      else A2b(s[1..], if d.quadPos >= 2 then d.(pads := d.pads + 1) else d)
    else match StdValueOf(s[0])
      case None => A2b(s[1..], d)
      case Some(v) => A2b(s[1..], Feed(d, v))
  }

  /** `str.encode('ascii')`, which `urlsafe_b64decode` applies to a str, succeeds. */
  predicate Ascii(s: string) {
    forall i :: 0 <= i < |s| ==> s[i] as int < 128
  }

  /** `_decode_b64url`: restore the padding, then `base64.urlsafe_b64decode`; None where Python raises. */
  function Decode(s: string): Option<seq<Byte>> {
    var t := s + PaddingFor(s);
    if Ascii(t) then A2b(t, Fresh([])) else None
  }

  // ---------------------------------------------------------------------------
  // Properties

  /** Stripping the padding of the standard encoding leaves exactly the core encoding. */
  lemma {:induction false} EncodeIsCore(b: seq<Byte>)
    ensures Encode(b) == EncodeCore(b)
    ensures StdEncode(b) == Encode(b) + PaddingFor(Encode(b))
  {
    var n := if |b| % 3 == 0 then 0 else 3 - |b| % 3;
    StripPadding(EncodeCore(b), n);
    EncodeCoreLength(b);
    PadLength(|b|);
  }

  /** The restored padding length equals the stripped one. */
  lemma PadLength(len: nat)
    ensures (-(4 * (len / 3) + (if len % 3 == 0 then 0 else len % 3 + 1))) % 4
         == (if len % 3 == 0 then 0 else 3 - len % 3)
  {
    var m := len / 3;
    var k := if len % 3 == 0 then 0 else len % 3 + 1;
    assert -(4 * m + k) == 4 * (-m - 1) + (4 - k);
  }

  /** Stripping '=' from a string free of '=' followed by padding removes exactly the padding. */
  lemma {:induction false} StripPadding(core: string, n: nat)
    requires forall i :: 0 <= i < |core| ==> core[i] != '='
    ensures RStripPad(core + Pad(n)) == core
    decreases n
  {
    if n > 0 {
      var s := core + Pad(n);
      assert s[|s| - 1] == '=';
      assert s[..|s| - 1] == core + Pad(n - 1);
      StripPadding(core, n - 1);
    } else {
      assert core + Pad(0) == core;
    }
  }

  lemma QuadRoundTrip(b0: Byte, b1: Byte, b2: Byte)
    ensures DecodeQuad(b0 / 4, (b0 % 4) * 16 + b1 / 16, (b1 % 16) * 4 + b2 / 64, b2 % 64) == [b0, b1, b2]
  {
    assert ((b0 % 4) * 16 + b1 / 16) / 16 == b0 % 4;
    assert ((b0 % 4) * 16 + b1 / 16) % 16 == b1 / 16;
    assert ((b1 % 16) * 4 + b2 / 64) / 4 == b1 % 16;
    assert ((b1 % 16) * 4 + b2 / 64) % 4 == b2 / 64;
  }

  lemma DecodeOneByte(b0: Byte)
    ensures DecodeLast([CharOf(b0 / 4), CharOf((b0 % 4) * 16), '=', '=']) == Some([b0])
  {
    ValueOfCharOf(b0 / 4);
    ValueOfCharOf((b0 % 4) * 16);
    var q := [CharOf(b0 / 4), CharOf((b0 % 4) * 16), '=', '='];
    assert ValueOf(q[0]) == Some(b0 / 4);
    assert ValueOf(q[1]) == Some((b0 % 4) * 16);
    assert ValueOf(q[2]) == None;
    assert ((b0 % 4) * 16) / 16 == b0 % 4;
    assert DecodeQuad(b0 / 4, (b0 % 4) * 16, 0, 0)[..1] == [b0];
  }

  lemma DecodeTwoBytes(b0: Byte, b1: Byte)
    ensures DecodeLast([CharOf(b0 / 4), CharOf((b0 % 4) * 16 + b1 / 16), CharOf((b1 % 16) * 4), '=']) == Some([b0, b1])
  {
    ValueOfCharOf(b0 / 4);
    ValueOfCharOf((b0 % 4) * 16 + b1 / 16);
    ValueOfCharOf((b1 % 16) * 4);
    QuadRoundTrip(b0, b1, 0);
    var q := [CharOf(b0 / 4), CharOf((b0 % 4) * 16 + b1 / 16), CharOf((b1 % 16) * 4), '='];
    assert ValueOf(q[2]) == Some((b1 % 16) * 4);
    assert ValueOf(q[3]) == None;
    assert DecodeQuad(b0 / 4, (b0 % 4) * 16 + b1 / 16, (b1 % 16) * 4, 0)[..2] == [b0, b1];
  }

  /** The four characters of a full quad decode to their values. */
  lemma QuadValues(b0: Byte, b1: Byte, b2: Byte)
    ensures var q := Quad(b0, b1, b2);
      ValueOf(q[0]) == Some(b0 / 4) && ValueOf(q[1]) == Some((b0 % 4) * 16 + b1 / 16) &&
      ValueOf(q[2]) == Some((b1 % 16) * 4 + b2 / 64) && ValueOf(q[3]) == Some(b2 % 64)
  {
    ValueOfCharOf(b0 / 4);
    ValueOfCharOf((b0 % 4) * 16 + b1 / 16);
    ValueOfCharOf((b1 % 16) * 4 + b2 / 64);
    ValueOfCharOf(b2 % 64);
  }

  lemma DecodeLastQuad(b0: Byte, b1: Byte, b2: Byte)
    ensures DecodePadded(Quad(b0, b1, b2)) == Some([b0, b1, b2])
  {
    var q := Quad(b0, b1, b2);
    QuadValues(b0, b1, b2);
    QuadRoundTrip(b0, b1, b2);
    assert DecodeLast(q) == Some(DecodeQuad(b0 / 4, (b0 % 4) * 16 + b1 / 16, (b1 % 16) * 4 + b2 / 64, b2 % 64));
  }

  lemma DecodeInnerQuad(b0: Byte, b1: Byte, b2: Byte, rest: string, tail: seq<Byte>)
    requires |rest| % 4 == 0 && rest != [] && DecodePadded(rest) == Some(tail)
    ensures |Quad(b0, b1, b2) + rest| % 4 == 0 && DecodePadded(Quad(b0, b1, b2) + rest) == Some([b0, b1, b2] + tail)
  {
    QuadDecodes(b0, b1, b2);
    DecodeQuadThenRest(Quad(b0, b1, b2), [b0, b1, b2], rest, tail);
  }

  /** One more quad keeps a length a multiple of four. */
  lemma QuadLengthMod(n: nat)
    requires n % 4 == 0
    ensures (4 + n) % 4 == 0
  {
  }

  /** Four characters of the alphabet that decode to the bytes bs. */
  predicate QuadDecodesTo(q: string, bs: seq<Byte>) {
    |q| == 4 && ValueOf(q[0]).Some? && ValueOf(q[1]).Some? && ValueOf(q[2]).Some? && ValueOf(q[3]).Some? &&
    DecodeQuad(ValueOf(q[0]).value, ValueOf(q[1]).value, ValueOf(q[2]).value, ValueOf(q[3]).value) == bs
  }

  lemma QuadDecodes(b0: Byte, b1: Byte, b2: Byte)
    ensures QuadDecodesTo(Quad(b0, b1, b2), [b0, b1, b2])
  {
    QuadValues(b0, b1, b2);
    QuadRoundTrip(b0, b1, b2);
  }

  /** A full quad in front of a decodable text decodes to its three bytes in front of the text's bytes. */
  lemma DecodeQuadThenRest(q: string, bs: seq<Byte>, rest: string, tail: seq<Byte>)
    requires QuadDecodesTo(q, bs)
    requires |rest| % 4 == 0 && rest != [] && DecodePadded(rest) == Some(tail)
    ensures |q + rest| % 4 == 0 && DecodePadded(q + rest) == Some(bs + tail)
  {
    var t := q + rest;
    QuadLengthMod(|rest|);
    assert t[0] == q[0] && t[1] == q[1] && t[2] == q[2] && t[3] == q[3];
    assert t[4..] == rest;
  }

  lemma StdEncodeSplit(b: seq<Byte>)
    requires |b| >= 3
    ensures StdEncode(b) == Quad(b[0], b[1], b[2]) + StdEncode(b[3..])
  {
    assert |b[3..]| % 3 == |b| % 3;
  }

  lemma DecodeStdOne(b: seq<Byte>)
    requires |b| == 1
    ensures DecodePadded(StdEncode(b)) == Some(b)
  {
    var q := [CharOf(b[0] / 4), CharOf((b[0] % 4) * 16), '=', '='];
    assert EncodeCore(b) == q[..2];
    assert StdEncode(b) == q;
    DecodeOneByte(b[0]);
    assert b == [b[0]];
  }

  lemma DecodeStdTwo(b: seq<Byte>)
    requires |b| == 2
    ensures DecodePadded(StdEncode(b)) == Some(b)
  {
    var q := [CharOf(b[0] / 4), CharOf((b[0] % 4) * 16 + b[1] / 16), CharOf((b[1] % 16) * 4), '='];
    assert EncodeCore(b) == q[..3];
    assert StdEncode(b) == q;
    DecodeTwoBytes(b[0], b[1]);
    assert b == [b[0], b[1]];
  }

  /** Decoding the standard (padded) encoding gives back the bytes. */
  lemma {:induction false} DecodeStd(b: seq<Byte>)
    ensures DecodePadded(StdEncode(b)) == Some(b)
    decreases |b|
  {
    if |b| == 0 {
    } else if |b| == 1 {
      DecodeStdOne(b);
    } else if |b| == 2 {
      DecodeStdTwo(b);
    } else {
      DecodeStd(b[3..]);
      DecodeStdStep(b);
    }
  }

  /** The step of `DecodeStd`: a leading full group decodes in front of the rest. */
  lemma DecodeStdStep(b: seq<Byte>)
    requires |b| >= 3 && DecodePadded(StdEncode(b[3..])) == Some(b[3..])
    ensures DecodePadded(StdEncode(b)) == Some(b)
  {
    var tail := b[3..];
    StdEncodeSplit(b);
    if |tail| == 0 {
      DecodeLastGroup(b);
    } else {
      assert b == [b[0], b[1], b[2]] + tail;
      DecodeInnerQuad(b[0], b[1], b[2], StdEncode(tail), tail);
    }
  }

  /** Three bytes encode to one unpadded quad, which decodes back to them. */
  lemma DecodeLastGroup(b: seq<Byte>)
    requires |b| == 3 && StdEncode(b) == Quad(b[0], b[1], b[2]) + StdEncode(b[3..])
    ensures DecodePadded(StdEncode(b)) == Some(b)
  {
    DecodeLastQuad(b[0], b[1], b[2]);
    assert StdEncode(b[3..]) == "";
    assert StdEncode(b) == Quad(b[0], b[1], b[2]);
    assert b == [b[0], b[1], b[2]];
  }

  /** `_decode_b64url(_b64url(b)) == b` for every byte string. */
  lemma RoundTrip(b: seq<Byte>)
    ensures Decode(Encode(b)) == Some(b)
  {
    EncodeIsCore(b);
    DecodeStd(b);
    EncodeWellFormed(b);
    DecodeAgrees(Encode(b));
  }

  /** `_b64url` never emits a padding character, and its length is never 1 more than a multiple of 4. */
  lemma EncodeShape(b: seq<Byte>)
    ensures forall i :: 0 <= i < |Encode(b)| ==> Encode(b)[i] != '='
    ensures |Encode(b)| % 4 != 1
  {
    EncodeIsCore(b);
    EncodeCoreLength(b);
  }

  /** A text of url-safe characters whose length is 1 more than a multiple of 4 never decodes (Python raises). */
  lemma DecodeRejectsLengthOneMod4(s: string)
    requires forall i :: 0 <= i < |s| ==> ValueOf(s[i]).Some?
    requires |s| % 4 == 1
    ensures Decode(s) == None
  {
    var p := PaddingFor(s);
    assert p == "===";
    FeedAllThen(s, p, Fresh([]));
    var e := FeedAll(Fresh([]), s);
    assert e.quadPos == 1;
    assert A2b(p, e) == A2b(p[1..], e);
    assert A2b(p[1..], e) == A2b(p[2..], e);
    assert A2b(p[2..], e) == A2b([], e);
    if Ascii(s + p) {
      assert Decode(s) == A2b(p, e);
    }
  }

  /** The decoder after the data characters of an alphabet-only text. */
  function FeedAll(d: Decoder, s: string): (e: Decoder)
    requires Sane(d) && forall i :: 0 <= i < |s| ==> ValueOf(s[i]).Some?
    ensures Sane(e) && e.quadPos == (d.quadPos + |s|) % 4
    decreases |s|
  {
    if s == [] then d else FeedAll(Feed(d, ValueOf(s[0]).value), s[1..])
  }

  /** Two alphabet characters, fed one after the other. */
  lemma FeedTwo(s: string, d: Decoder)
    requires Sane(d) && |s| == 2 && forall i :: 0 <= i < 2 ==> ValueOf(s[i]).Some?
    ensures FeedAll(d, s) == Feed(Feed(d, ValueOf(s[0]).value), ValueOf(s[1]).value)
  {
    var d1 := Feed(d, ValueOf(s[0]).value);
    assert s[1..][0] == s[1] && s[1..][1..] == [];
    assert FeedAll(d, s) == FeedAll(d1, s[1..]);
  }

  /** Three alphabet characters, fed one after the other. */
  lemma FeedThree(s: string, d: Decoder)
    requires Sane(d) && |s| == 3 && forall i :: 0 <= i < 3 ==> ValueOf(s[i]).Some?
    ensures FeedAll(d, s) == Feed(Feed(Feed(d, ValueOf(s[0]).value), ValueOf(s[1]).value), ValueOf(s[2]).value)
  {
    var d1 := Feed(d, ValueOf(s[0]).value);
    assert FeedAll(d, s) == FeedAll(d1, s[1..]);
    FeedTwo(s[1..], d1);
  }

  /** Alphabet characters in front of p are consumed one by one. */
  lemma {:induction false} FeedAllThen(s: string, p: string, d: Decoder)
    requires Sane(d) && forall i :: 0 <= i < |s| ==> ValueOf(s[i]).Some?
    ensures A2b(s + p, d) == A2b(p, FeedAll(d, s))
    decreases |s|
  {
    if s != [] {
      var t := s + p;
      assert t[0] == s[0] && t[1..] == s[1..] + p;
      FeedAllThen(s[1..], p, Feed(d, ValueOf(s[0]).value));
    } else {
      assert s + p == p;
    }
  }

  /** A character `binascii.a2b_base64` skips: ASCII, not `=`, and in neither alphabet. */
  predicate Foreign(c: char) {
    c as int < 128 && c != '=' && StdValueOf(c).None?
  }

  /** A skipped character leaves the decoder as it was. */
  lemma A2bSkip(c: char, rest: string, d: Decoder)
    requires Sane(d) && c != '=' && StdValueOf(c).None?
    ensures A2b([c] + rest, d) == A2b(rest, d)
  {
    assert ([c] + rest)[1..] == rest;
  }

  /** A data character is fed to the decoder. */
  lemma A2bData(c: char, rest: string, d: Decoder)
    requires Sane(d) && StdValueOf(c).Some?
    ensures A2b([c] + rest, d) == A2b(rest, Feed(d, StdValueOf(c).value))
  {
    assert ([c] + rest)[1..] == rest;
  }

  /** A `=` before the third character of a quad is passed over. */
  lemma A2bEarlyPad(rest: string, d: Decoder)
    requires Sane(d) && d.quadPos < 2
    ensures A2b("=" + rest, d) == A2b(rest, d)
  {
    assert ("=" + rest)[1..] == rest;
  }

  /** Three `=`, seen at a quad boundary, are passed over to the end of the text. */
  lemma PadsAtBoundary(out: seq<Byte>)
    ensures A2b("===", Fresh(out)) == Some(out)
  {
    var d := Fresh(out);
    assert "===" == "=" + ("=" + ("=" + ""));
    A2bEarlyPad("==", d);
    A2bEarlyPad("=", d);
    A2bEarlyPad("", d);
  }

  /**
   * The non-validating decoder skips a character outside the alphabet after a full quad,
   * where the strict reading refuses the text.
   */
  lemma DecodeSkipsForeign(q: string, c: char)
    requires |q| == 4 && forall i :: 0 <= i < 4 ==> ValueOf(q[i]).Some?
    requires Foreign(c)
    ensures Decode(q + [c]) == Some(QuadValuesOf(q))
    ensures DecodeStrict(q + [c]) == None
  {
    var s := q + [c];
    assert PaddingFor(s) == Pad(3);
    assert Pad(3) == "===";
    var t := s + "===";
    assert t == q + ([c] + "===");
    assert Ascii(t) by {
      forall i | 0 <= i < |t| ensures t[i] as int < 128 {
        if i < 4 {
          assert t[i] == q[i] && ValueOf(q[i]).Some?;
        }
      }
    }
    var vs := QuadValuesOf(q);
    FeedQuad(q, [c] + "===", []);
    assert [] + vs == vs;
    A2bSkip(c, "===", Fresh(vs));
    PadsAtBoundary(vs);
    assert t[4..] == [c] + "===" && ValueOf(c).None?;
    assert DecodePadded(t[4..]) == None;
  }

  /**
   * The non-validating decoder skips a character outside the alphabet inside a quad and
   * completes the quad with the next data character; the strict reading refuses the text.
   */
  lemma DecodeSkipsInsideQuad(p: string, c: char, x: char)
    requires |p| == 3 && forall i :: 0 <= i < 3 ==> ValueOf(p[i]).Some?
    requires Foreign(c) && ValueOf(x).Some?
    ensures Decode(p + [c, x]) == Some(QuadValuesOf(p + [x]))
    ensures DecodeStrict(p + [c, x]) == None
  {
    var s := p + [c, x];
    assert PaddingFor(s) == Pad(3);
    assert Pad(3) == "===";
    var t := s + "===";
    assert t == p + ([c] + ([x] + "==="));
    assert Ascii(t) by {
      forall i | 0 <= i < |t| ensures t[i] as int < 128 {
        if i < 3 {
          assert t[i] == p[i] && ValueOf(p[i]).Some?;
        } else if i == 4 {
          assert ValueOf(x).Some?;
        }
      }
    }
    var q := p + [x];
    FeedAllThen(p, [c] + ([x] + "==="), Fresh([]));
    var v0, v1, v2, v3 := ValueOf(p[0]).value, ValueOf(p[1]).value, ValueOf(p[2]).value, ValueOf(x).value;
    var d3 := Feed(Feed(Feed(Fresh([]), v0), v1), v2);
    FeedThree(p, Fresh([]));
    A2bSkip(c, [x] + "===", d3);
    A2bData(x, "===", d3);
    assert q[0] == p[0] && q[1] == p[1] && q[2] == p[2] && q[3] == x;
    assert Feed(d3, v3) == Fresh(QuadValuesOf(q));
    PadsAtBoundary(QuadValuesOf(q));
    assert t[3] == c && ValueOf(c).None?;
    assert DecodePadded(t) == None;
  }

  /**
   * The non-validating decoder stops at the `=` that completes a quad and ignores what
   * follows; the strict reading refuses padding before the end.
   */
  lemma DecodeStopsAtPadding(p: string, rest: string)
    requires |p| == 2 && forall i :: 0 <= i < 2 ==> ValueOf(p[i]).Some?
    requires |rest| % 4 == 0 && Ascii(rest) && rest != []
    ensures Decode(p + "==" + rest) == Some(DecodeQuad(ValueOf(p[0]).value, ValueOf(p[1]).value, 0, 0)[..1])
    ensures DecodeStrict(p + "==" + rest) == None
  {
    var s := p + "==" + rest;
    assert |s| == |rest| + 4;
    DropQuadMod(|s|);
    assert PaddingFor(s) == Pad(0) == "";
    assert s + "" == s;
    assert s == p + ("=" + ("=" + rest));
    assert Ascii(s) by {
      forall i | 0 <= i < |s| ensures s[i] as int < 128 {
        if i < 2 {
          assert s[i] == p[i] && ValueOf(p[i]).Some?;
        } else if i >= 4 {
          assert s[i] == rest[i - 4];
        }
      }
    }
    FeedAllThen(p, "=" + ("=" + rest), Fresh([]));
    var v0, v1 := ValueOf(p[0]).value, ValueOf(p[1]).value;
    var d2 := Feed(Feed(Fresh([]), v0), v1);
    FeedTwo(p, Fresh([]));
    assert d2.out == DecodeQuad(v0, v1, 0, 0)[..1];
    assert ("=" + ("=" + rest))[1..] == "=" + rest;
    assert A2b("=" + ("=" + rest), d2) == A2b("=" + rest, d2.(pads := 1));
    assert A2b("=" + rest, d2.(pads := 1)) == Some(d2.out);
    assert Decode(s) == A2b(s, Fresh([]));
    assert s[2] == '=' && ValueOf('=').None?;
    assert DecodePadded(s) == None;
  }

  /** Unpadded base64url text: alphabet characters only, and a length that is not 1 more than a multiple of 4. */
  predicate WellFormed(s: string) {
    (forall i :: 0 <= i < |s| ==> ValueOf(s[i]).Some?) && |s| % 4 != 1
  }

  /** Everything `_b64url` produces is well formed. */
  lemma EncodeWellFormed(b: seq<Byte>)
    ensures WellFormed(Encode(b))
  {
    EncodeIsCore(b);
    EncodeShape(b);
    var s := EncodeCore(b);
    forall i | 0 <= i < |s|
      ensures ValueOf(s[i]).Some?
    {
      EncodeCoreAlphabet(b, i);
    }
  }

  lemma {:induction false} EncodeCoreAlphabet(b: seq<Byte>, i: nat)
    requires i < |EncodeCore(b)|
    ensures ValueOf(EncodeCore(b)[i]).Some?
    decreases |b|
  {
    if |b| == 1 {
      ValueOfCharOf(b[0] / 4);
      ValueOfCharOf((b[0] % 4) * 16);
    } else if |b| == 2 {
      ValueOfCharOf(b[0] / 4);
      ValueOfCharOf((b[0] % 4) * 16 + b[1] / 16);
      ValueOfCharOf((b[1] % 16) * 4);
    } else if |b| >= 3 {
      if i < 4 {
        QuadValues(b[0], b[1], b[2]);
      } else {
        EncodeCoreAlphabet(b[3..], i - 4);
      }
    }
  }

  lemma DecodeLastSome(q: string)
    requires |q| == 4 && ValueOf(q[0]).Some? && ValueOf(q[1]).Some?
    requires (ValueOf(q[2]).Some? && (ValueOf(q[3]).Some? || q[3] == '=')) || (q[2] == '=' && q[3] == '=')
    ensures DecodeLast(q).Some?
  {
  }

  lemma DecodePaddedStep(t: string)
    requires |t| % 4 == 0 && |t| > 4
    requires ValueOf(t[0]).Some? && ValueOf(t[1]).Some? && ValueOf(t[2]).Some? && ValueOf(t[3]).Some?
    requires DecodePadded(t[4..]).Some?
    ensures DecodePadded(t).Some?
  {
  }

  /** Every well-formed string decodes: `_decode_b64url` does not raise on it. */
  lemma WellFormedDecodes(s: string)
    requires WellFormed(s)
    ensures Decode(s).Some?
  {
    StrictDecodes(s);
    DecodeAgrees(s);
  }

  /** Every well-formed string decodes under the strict reading. */
  lemma {:induction false} StrictDecodes(s: string)
    requires WellFormed(s)
    ensures DecodeStrict(s).Some?
    decreases |s|
  {
    if |s| > 4 {
      StrictDecodes(s[4..]);
      WellFormedStep(s);
    } else {
      WellFormedShort(s);
    }
  }

  /** The step of `StrictDecodes`: four leading alphabet characters in front of a decodable rest. */
  lemma WellFormedStep(s: string)
    requires WellFormed(s) && |s| > 4 && DecodeStrict(s[4..]).Some?
    ensures DecodeStrict(s).Some?
  {
    var t := s + PaddingFor(s);
    var s' := s[4..];
    assert (-|s'|) % 4 == (-|s|) % 4 by {
      assert -|s'| == -|s| + 4;
    }
    assert t[4..] == s' + PaddingFor(s');
    assert t[0] == s[0] && t[1] == s[1] && t[2] == s[2] && t[3] == s[3];
    DecodePaddedStep(t);
  }

  /** A well-formed string of at most four characters decodes. */
  lemma WellFormedShort(s: string)
    requires WellFormed(s) && |s| <= 4
    ensures DecodeStrict(s).Some?
  {
    var t := s + PaddingFor(s);
    if |s| == 4 {
      assert t == s;
      DecodeLastSome(t);
    } else if |s| == 3 {
      assert t == s + "=";
      assert t[0] == s[0] && t[1] == s[1] && t[2] == s[2];
      DecodeLastSome(t);
    } else if |s| == 2 {
      assert t == s + "==";
      assert t[0] == s[0] && t[1] == s[1];
      DecodeLastSome(t);
    } else {
      assert t == [];
    }
  }

  /**
   * On well-formed text Python's lenient decoder and the strict reading agree: there is
   * nothing to skip, and the restored padding ends the last quad exactly.
   */
  lemma DecodeAgrees(s: string)
    requires WellFormed(s)
    ensures Decode(s) == DecodeStrict(s)
  {
    var p := PaddingFor(s);
    var t := s + p;
    var n := (-|s|) % 4;
    assert n <= 2 by {
      assert |s| % 4 != 1;
      assert (|s| + n) % 4 == 0;
    }
    assert p == Pad(n);
    forall i | 0 <= i < |t|
      ensures t[i] as int < 128
    {
      if i < |s| {
        assert ValueOf(s[i]).Some?;
      }
    }
    A2bPadded(s, n, []);
    if DecodePadded(t).Some? {
      assert [] + DecodePadded(t).value == DecodePadded(t).value;
    }
  }

  /** Alphabet text followed by at most two `=` decodes, under both readings, to the same bytes after `out`. */
  lemma {:induction false} A2bPadded(s: string, n: nat, out: seq<Byte>)
    requires forall i :: 0 <= i < |s| ==> ValueOf(s[i]).Some?
    requires n <= 2 && (|s| + n) % 4 == 0 && (n > 0 ==> |s| % 4 == 4 - n)
    ensures |s + Pad(n)| % 4 == 0
    ensures A2b(s + Pad(n), Fresh(out)) ==
      Prepend(out, DecodePadded(s + Pad(n)))
    decreases |s|
  {
    var t := s + Pad(n);
    if |t| == 0 {
      assert out + [] == out;
    } else if |t| == 4 {
      LastQuadAgrees(s, n, out);
    } else {
      A2bPadded(s[4..], n, out + QuadValuesOf(s[..4]));
      A2bPaddedStep(s, n, out);
    }
  }

  /** The step of `A2bPadded`: a leading quad of alphabet characters in front of the rest. */
  lemma A2bPaddedStep(s: string, n: nat, out: seq<Byte>)
    requires forall i :: 0 <= i < |s| ==> ValueOf(s[i]).Some?
    requires n <= 2 && (|s| + n) % 4 == 0 && |s| > 4
    requires A2b(s[4..] + Pad(n), Fresh(out + QuadValuesOf(s[..4]))) ==
      Prepend(out + QuadValuesOf(s[..4]), DecodePadded(s[4..] + Pad(n)))
    ensures A2b(s + Pad(n), Fresh(out)) == Prepend(out, DecodePadded(s + Pad(n)))
  {
    var t := s + Pad(n);
    var q := s[..4];
    var rest := s[4..] + Pad(n);
    assert |rest| == (|s| + n) - 4;
    DropQuadMod(|s| + n);
    assert t == q + rest;
    assert t[4..] == rest;
    FeedQuad(q, rest, out);
    var vs := QuadValuesOf(q);
    assert t[0] == q[0] && t[1] == q[1] && t[2] == q[2] && t[3] == q[3];
    DecodePaddedQuad(t, vs);
    PrependTwice(out, vs, DecodePadded(rest));
  }

  lemma DropQuadMod(x: int)
    ensures (x - 4) % 4 == x % 4
  {
  }

  /** Bytes written in front of a decoding result, failure staying failure. */
  function Prepend(p: seq<Byte>, r: Option<seq<Byte>>): (e: Option<seq<Byte>>)
    ensures e.Some? <==> r.Some?
    ensures e.Some? ==> e.value == p + r.value
  {
    match r
    case None => None
    case Some(bs) => Some(p + bs)
  }

  lemma PrependTwice(p: seq<Byte>, q: seq<Byte>, r: Option<seq<Byte>>)
    ensures Prepend(p, Prepend(q, r)) == Prepend(p + q, r)
  {
    if r.Some? {
      assert p + (q + r.value) == p + q + r.value;
    }
  }

  /** A leading quad of alphabet characters decodes in front of the rest. */
  lemma DecodePaddedQuad(t: string, vs: seq<Byte>)
    requires |t| % 4 == 0 && |t| > 4
    requires ValueOf(t[0]).Some? && ValueOf(t[1]).Some? && ValueOf(t[2]).Some? && ValueOf(t[3]).Some?
    requires vs == DecodeQuad(ValueOf(t[0]).value, ValueOf(t[1]).value, ValueOf(t[2]).value, ValueOf(t[3]).value)
    ensures DecodePadded(t) == Prepend(vs, DecodePadded(t[4..]))
  {
  }

  /** The bytes of four alphabet characters. */
  function QuadValuesOf(q: string): seq<Byte>
    requires |q| == 4 && forall i :: 0 <= i < 4 ==> ValueOf(q[i]).Some?
  {
    DecodeQuad(ValueOf(q[0]).value, ValueOf(q[1]).value, ValueOf(q[2]).value, ValueOf(q[3]).value)
  }

  /** Four alphabet characters move the decoder from one quad boundary to the next, writing their three bytes. */
  lemma FeedQuad(q: string, rest: string, out: seq<Byte>)
    requires |q| == 4 && forall i :: 0 <= i < 4 ==> ValueOf(q[i]).Some?
    ensures A2b(q + rest, Fresh(out)) == A2b(rest, Fresh(out + QuadValuesOf(q)))
  {
    FeedAllThen(q, rest, Fresh(out));
    var v0, v1, v2, v3 := ValueOf(q[0]).value, ValueOf(q[1]).value, ValueOf(q[2]).value, ValueOf(q[3]).value;
    var d1 := Feed(Fresh(out), v0);
    var d2 := Feed(d1, v1);
    var d3 := Feed(d2, v2);
    var d4 := Feed(d3, v3);
    assert FeedAll(Fresh(out), q) == FeedAll(d1, q[1..]) == FeedAll(d2, q[2..]) == FeedAll(d3, q[3..]) == d4;
    assert d4 == Fresh(out + QuadValuesOf(q));
  }

  /** The last quad, with its zero, one or two `=`, decodes alike under both readings. */
  lemma LastQuadAgrees(s: string, n: nat, out: seq<Byte>)
    requires forall i :: 0 <= i < |s| ==> ValueOf(s[i]).Some?
    requires n <= 2 && |s| + n == 4
    ensures A2b(s + Pad(n), Fresh(out)) ==
      Prepend(out, DecodePadded(s + Pad(n)))
  {
    if n == 0 {
      assert s + Pad(n) == s + [];
      FeedQuad(s, [], out);
    } else if n == 1 {
      LastQuadOnePad(s, out);
    } else {
      LastQuadTwoPads(s, out);
    }
  }

  /** Three data characters and one `=`: two bytes. */
  lemma LastQuadOnePad(s: string, out: seq<Byte>)
    requires |s| == 3 && forall i :: 0 <= i < 3 ==> ValueOf(s[i]).Some?
    ensures A2b(s + Pad(1), Fresh(out)) == Prepend(out, DecodePadded(s + Pad(1)))
  {
    assert Pad(1) == "=";
    FeedAllThen(s, "=", Fresh(out));
    ThreeFed(s, out);
    OnePadEnds(FeedAll(Fresh(out), s));
    DecodeOnePad(s + Pad(1));
  }

  /** Three data characters leave the decoder one short of a quad, with two bytes written. */
  lemma ThreeFed(s: string, out: seq<Byte>)
    requires |s| == 3 && forall i :: 0 <= i < 3 ==> ValueOf(s[i]).Some?
    ensures FeedAll(Fresh(out), s).quadPos == 3 && FeedAll(Fresh(out), s).pads == 0
    ensures FeedAll(Fresh(out), s).out == out + DecodeQuad(ValueOf(s[0]).value, ValueOf(s[1]).value, ValueOf(s[2]).value, 0)[..2]
  {
    FeedThree(s, Fresh(out));
  }

  /** A `=` one short of a quad ends the text. */
  lemma OnePadEnds(d: Decoder)
    requires Sane(d) && d.quadPos == 3 && d.pads >= 0
    ensures A2b("=", d) == Some(d.out)
  {
    assert "="[0] == '=';
  }

  lemma DecodeOnePad(t: string)
    requires |t| == 4 && forall i :: 0 <= i < 3 ==> ValueOf(t[i]).Some?
    requires t[3] == '='
    ensures DecodePadded(t) == Some(DecodeQuad(ValueOf(t[0]).value, ValueOf(t[1]).value, ValueOf(t[2]).value, 0)[..2])
  {
    assert ValueOf('=') == None;
  }

  /** Two data characters and two `=`: one byte. */
  lemma LastQuadTwoPads(s: string, out: seq<Byte>)
    requires |s| == 2 && forall i :: 0 <= i < 2 ==> ValueOf(s[i]).Some?
    ensures A2b(s + Pad(2), Fresh(out)) == Prepend(out, DecodePadded(s + Pad(2)))
  {
    assert Pad(2) == "==";
    FeedAllThen(s, "==", Fresh(out));
    var v0, v1 := ValueOf(s[0]).value, ValueOf(s[1]).value;
    var d2 := Feed(Feed(Fresh(out), v0), v1);
    FeedTwo(s, Fresh(out));
    assert d2.out == out + DecodeQuad(v0, v1, 0, 0)[..1];
    assert "=="[1..] == "=";
    assert A2b("==", d2) == A2b("=", d2.(pads := 1)) == Some(d2.out);
    DecodeTwoPads(s + Pad(2));
  }

  lemma DecodeTwoPads(t: string)
    requires |t| == 4 && forall i :: 0 <= i < 2 ==> ValueOf(t[i]).Some?
    requires t[2] == '=' && t[3] == '='
    ensures DecodePadded(t) == Some(DecodeQuad(ValueOf(t[0]).value, ValueOf(t[1]).value, 0, 0)[..1])
  {
    assert ValueOf('=') == None;
  }

  /** The bytes of a well-formed string, for callers that already know it decodes. */
  function DecodeValid(s: string): (b: seq<Byte>)
    requires WellFormed(s)
    ensures Decode(s) == Some(b)
  {
    WellFormedDecodes(s);
    Decode(s).value
  }
}
