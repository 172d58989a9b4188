/** Byte strings and the parts of Go's unicode/utf8 that fleetctl and the token code rest on. */
module Utf8 {
  type byte = b: int | 0 <= b < 256
  type Bytes = seq<byte>

  const RUNE_ERROR := 0xFFFD

  /** The bytes of an ASCII literal. */
  function Ascii(s: string): (r: Bytes)
    requires forall i :: 0 <= i < |s| ==> s[i] as int < 128
    ensures |r| == |s| && forall i :: 0 <= i < |s| ==> r[i] == s[i] as int
  {
    seq(|s|, i requires 0 <= i < |s| => s[i] as int)
  }

  predicate ValidRune(r: int) {
    0 <= r < 0xD800 || 0xDFFF < r <= 0x10FFFF
  }

  predicate Continuation(b: byte) {
    0x80 <= b <= 0xBF
  }

  /** The second byte of a three-byte sequence: no overlong forms, no surrogates. */
  predicate Second3(b0: byte, b1: byte) {
    if b0 == 0xE0 then 0xA0 <= b1 <= 0xBF
    else if b0 == 0xED then 0x80 <= b1 <= 0x9F
    else Continuation(b1)
  }

  /** The second byte of a four-byte sequence: no overlong forms, nothing above U+10FFFF. */
  predicate Second4(b0: byte, b1: byte) {
    if b0 == 0xF0 then 0x90 <= b1 <= 0xBF
    else if b0 == 0xF4 then 0x80 <= b1 <= 0x8F
    else Continuation(b1)
  }

  function Rune2(b0: int, b1: int): int {
    (b0 - 0xC0) * 64 + (b1 - 0x80)
  }

  function Rune3(b0: int, b1: int, b2: int): int {
    (b0 - 0xE0) * 4096 + (b1 - 0x80) * 64 + (b2 - 0x80)
  }

  function Rune4(b0: int, b1: int, b2: int, b3: int): int {
    (b0 - 0xF0) * 262144 + (b1 - 0x80) * 4096 + (b2 - 0x80) * 64 + (b3 - 0x80)
  }

  /** How many bytes the rune at the front of a string takes; 1 for a bad byte. */
  function Width(s: Bytes): (w: nat)
    ensures w <= |s| && w <= 4 && (s != [] ==> 1 <= w)
  {
    if s == [] then 0
    else if |s| >= 2 && 0xC2 <= s[0] <= 0xDF && Continuation(s[1]) then 2
    else if |s| >= 3 && 0xE0 <= s[0] <= 0xEF && Second3(s[0], s[1]) && Continuation(s[2]) then 3
    else if |s| >= 4 && 0xF0 <= s[0] <= 0xF4 && Second4(s[0], s[1]) && Continuation(s[2]) && Continuation(s[3]) then 4
    else 1
  }

  /** utf8.DecodeRuneInString: the first rune and its width; an invalid byte is (U+FFFD, 1). */
  function DecodeRune(s: Bytes): (r: (int, nat))
    ensures r.1 == Width(s)
  {
    match Width(s)
    case 0 => (RUNE_ERROR, 0)
    case 1 => (if s[0] < 0x80 then s[0] else RUNE_ERROR, 1)
    case 2 => (Rune2(s[0], s[1]), 2)
    case 3 => (Rune3(s[0], s[1], s[2]), 3)
    case _ => (Rune4(s[0], s[1], s[2], s[3]), 4)
  }

  /** utf8.AppendRune: anything that is not a rune is written as U+FFFD. */
  function EncodeRune(r: int): Bytes {
    if 0 <= r < 0x80 then [r]
    else if 0 <= r < 0x800 then [0xC0 + r / 64, 0x80 + r % 64]
    else if !ValidRune(r) then [0xEF, 0xBF, 0xBD]
    else if r < 0x10000 then [0xE0 + r / 4096, 0x80 + r / 64 % 64, 0x80 + r % 64]
    else [0xF0 + r / 262144, 0x80 + r / 4096 % 64, 0x80 + r / 64 % 64, 0x80 + r % 64]
  }

  /** The first byte of `s` does not start a rune. A genuine U+FFFD is three bytes wide. */
  predicate BadByte(s: Bytes) {
    s != [] && DecodeRune(s) == (RUNE_ERROR, 1)
  }

  predicate WellFormed(s: Bytes) {
    s == [] || (!BadByte(s) && WellFormed(s[DecodeRune(s).1..]))
  }

  lemma DivideRune2(b0: int, b1: int)
    requires 0x80 <= b1 <= 0xBF
    ensures Rune2(b0, b1) / 64 == b0 - 0xC0 && Rune2(b0, b1) % 64 == b1 - 0x80
  {
  }

  lemma DivideRune3(b0: int, b1: int, b2: int)
    requires 0x80 <= b1 <= 0xBF && 0x80 <= b2 <= 0xBF
    ensures Rune3(b0, b1, b2) / 4096 == b0 - 0xE0
    ensures Rune3(b0, b1, b2) / 64 % 64 == b1 - 0x80 && Rune3(b0, b1, b2) % 64 == b2 - 0x80
  {
    assert Rune3(b0, b1, b2) / 64 == (b0 - 0xE0) * 64 + (b1 - 0x80);
  }

  lemma DivideRune4(b0: int, b1: int, b2: int, b3: int)
    requires 0x80 <= b1 <= 0xBF && 0x80 <= b2 <= 0xBF && 0x80 <= b3 <= 0xBF
    ensures Rune4(b0, b1, b2, b3) / 262144 == b0 - 0xF0
    ensures Rune4(b0, b1, b2, b3) / 4096 % 64 == b1 - 0x80
    ensures Rune4(b0, b1, b2, b3) / 64 % 64 == b2 - 0x80 && Rune4(b0, b1, b2, b3) % 64 == b3 - 0x80
  {
    assert Rune4(b0, b1, b2, b3) / 64 == (b0 - 0xF0) * 4096 + (b1 - 0x80) * 64 + (b2 - 0x80);
    assert Rune4(b0, b1, b2, b3) / 4096 == (b0 - 0xF0) * 64 + (b1 - 0x80);
  }

  lemma DivideTwice(r: int)
    requires 0 <= r
    ensures r == r / 64 * 64 + r % 64 && r / 64 == r / 4096 * 64 + r / 64 % 64
    ensures r / 4096 == r / 262144 * 64 + r / 4096 % 64
  {
    assert r / 64 / 64 == r / 4096;
    assert r / 4096 / 64 == r / 262144;
  }

  lemma EncodeThenDecode(r: int, rest: Bytes)
    requires ValidRune(r)
    ensures DecodeRune(EncodeRune(r) + rest) == (r, |EncodeRune(r)|)
    ensures !BadByte(EncodeRune(r) + rest)
  {
    var e := EncodeRune(r);
    var s := e + rest;
    DivideTwice(r);
    if r < 0x80 {
      assert s[0] == e[0];
    } else if r < 0x800 {
      assert s[0] == e[0] && s[1] == e[1];
      assert Width(s) == 2;
    } else if r < 0x10000 {
      assert s[0] == e[0] && s[1] == e[1] && s[2] == e[2];
      assert Second3(e[0], e[1]);
      assert Width(s) == 3;
    } else {
      assert s[0] == e[0] && s[1] == e[1] && s[2] == e[2] && s[3] == e[3];
      assert Second4(e[0], e[1]);
      assert Width(s) == 4;
    }
  }

  lemma DecodeThenEncode(s: Bytes)
    requires s != [] && !BadByte(s)
    ensures ValidRune(DecodeRune(s).0)
    ensures EncodeRune(DecodeRune(s).0) == s[..DecodeRune(s).1]
  {
    match Width(s)
    case 1 =>
    case 2 =>
      DivideRune2(s[0], s[1]);
    case 3 =>
      DivideRune3(s[0], s[1], s[2]);
    case _ =>
      DivideRune4(s[0], s[1], s[2], s[3]);
  }

  /** Decoding looks at no byte past the rune it finds. */
  lemma DecodeIsLocal(s: Bytes, rest: Bytes)
    requires s != [] && !BadByte(s)
    ensures DecodeRune(s[..DecodeRune(s).1] + rest) == DecodeRune(s)
  {
    DecodeThenEncode(s);
    EncodeThenDecode(DecodeRune(s).0, rest);
  }

  /** Encodings of one to four bytes, and bytes that encode nothing: an overlong form, a surrogate, a rune
      above U+10FFFF, a continuation byte on its own, and a rune that breaks off. */
  lemma KnownEncodings()
    ensures EncodeRune(0x41) == [0x41] && EncodeRune(0xE9) == [0xC3, 0xA9]
    ensures EncodeRune(0x20AC) == [0xE2, 0x82, 0xAC] && EncodeRune(0x1F600) == [0xF0, 0x9F, 0x98, 0x80]
    ensures BadByte([0xC0, 0x80]) && BadByte([0xED, 0xA0, 0x80]) && BadByte([0xF4, 0x90, 0x80, 0x80])
    ensures BadByte([0x80]) && BadByte([0xE2, 0x82])
  {
  }

  /** What encoding/json writes for a string, read back: every bad byte has become U+FFFD. */
  function Sanitize(s: Bytes): Bytes {
    if s == [] then []
    else
      var w := DecodeRune(s).1;
      (if BadByte(s) then EncodeRune(RUNE_ERROR) else s[..w]) + Sanitize(s[w..])
  }

  lemma {:induction false} SanitizeKeepsExactlyWellFormed(s: Bytes)
    ensures |s| <= |Sanitize(s)|
    ensures Sanitize(s) == s <==> WellFormed(s)
  {
    if s != [] {
      var w := DecodeRune(s).1;
      SanitizeKeepsExactlyWellFormed(s[w..]);
      assert s == s[..w] + s[w..];
      if !BadByte(s) && Sanitize(s) == s {
        assert Sanitize(s)[w..] == Sanitize(s[w..]);
      }
    }
  }

  lemma {:induction false} SanitizeIsWellFormed(s: Bytes)
    ensures WellFormed(Sanitize(s))
  {
    if s != [] {
      var w := DecodeRune(s).1;
      SanitizeIsWellFormed(s[w..]);
      var head := if BadByte(s) then EncodeRune(RUNE_ERROR) else s[..w];
      if BadByte(s) {
        EncodeThenDecode(RUNE_ERROR, Sanitize(s[w..]));
      } else {
        DecodeIsLocal(s, Sanitize(s[w..]));
      }
      assert Sanitize(s)[|head|..] == Sanitize(s[w..]);
    }
  }
}
