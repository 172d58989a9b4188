/** strconv.Quote and strconv.Unquote over bytes. IsPrint is concrete for Latin-1; above it, the Unicode
    tables are a parameter, and nothing is assumed about them. */
module Strconv {
  import opened Wrappers
  import opened Utf8
  import opened GoStrings

  const QUOTE: byte := 0x22
  const SINGLE: byte := 0x27
  const BACKQUOTE: byte := 0x60
  const BACKSLASH: byte := 0x5C

  /** Which runes above U+00FF count as printable. */
  type Printable = int -> bool

  predicate IsPrint(r: int, wide: Printable) {
    if r <= 0xFF then 0x20 <= r < 0x7F || (0xA1 <= r && r != 0xAD) else wide(r)
  }

  // ---- Hexadecimal digits ----

  function HexDigit(d: int): byte
    requires 0 <= d < 16
  {
    if d < 10 then 0x30 + d else 0x61 + d - 10
  }

  function Unhex(b: byte): Option<int> {
    if 0x30 <= b <= 0x39 then Some(b - 0x30)
    else if 0x61 <= b <= 0x66 then Some(b - 0x61 + 10)
    else if 0x41 <= b <= 0x46 then Some(b - 0x41 + 10)
    else None
  }

  /** The low `n` hexadecimal digits of a value, most significant first. */
  function Hex(v: nat, n: nat): (h: Bytes)
    ensures |h| == n
  {
    if n == 0 then [] else Hex(v / 16, n - 1) + [HexDigit(v % 16)]
  }

  function UnhexAll(s: Bytes): Option<nat> {
    if s == [] then Some(0)
    else
      match (UnhexAll(s[..|s|-1]), Unhex(s[|s|-1]))
      case (Some(v), Some(d)) => Some(v * 16 + d)
      case _ => None
  }

  function Pow16(n: nat): nat {
    if n == 0 then 1 else 16 * Pow16(n - 1)
  }

  lemma {:induction false} UnhexOfHex(v: nat, n: nat)
    requires v < Pow16(n)
    ensures UnhexAll(Hex(v, n)) == Some(v)
    ensures forall b :: b in Hex(v, n) ==> b >= 0x30
  {
    if n > 0 {
      UnhexOfHex(v / 16, n - 1);
      assert Hex(v, n)[..n-1] == Hex(v / 16, n - 1);
    }
  }

  // ---- Quote ----

  /** The one-letter escapes: \a \b \f \n \r \t \v. */
  function Letter(r: int): Option<byte> {
    if r == 0x07 then Some(0x61)
    else if r == 0x08 then Some(0x62)
    else if r == 0x0C then Some(0x66)
    else if r == 0x0A then Some(0x6E)
    else if r == 0x0D then Some(0x72)
    else if r == 0x09 then Some(0x74)
    else if r == 0x0B then Some(0x76)
    else None
  }

  function HexByte(v: int): Bytes
    requires 0 <= v < 256
  {
    [BACKSLASH, 0x78] + Hex(v, 2)
  }

  /** appendEscapedRune with '"' as the quote. */
  function EscapeRune(r: int, wide: Printable): Bytes
    requires ValidRune(r)
  {
    if r == QUOTE || r == BACKSLASH then [BACKSLASH, r]
    else if IsPrint(r, wide) then EncodeRune(r)
    else if Letter(r).Some? then [BACKSLASH, Letter(r).value]
    else if r < 0x20 || r == 0x7F then HexByte(r)
    else if r < 0x10000 then [BACKSLASH, 0x75] + Hex(r, 4)
    else [BACKSLASH, 0x55] + Hex(r, 8)
  }

  /** The quoted form of the first rune, or of the first byte if that is not part of a rune. */
  function Escape(s: Bytes, wide: Printable): Bytes
    requires s != []
  {
    if BadByte(s) then HexByte(s[0])
    else
      DecodeThenEncode(s);
      EscapeRune(DecodeRune(s).0, wide)
  }

  function QuoteBody(s: Bytes, wide: Printable): Bytes {
    if s == [] then [] else Escape(s, wide) + QuoteBody(s[Width(s)..], wide)
  }

  function Quote(s: Bytes, wide: Printable): Bytes {
    [QUOTE] + QuoteBody(s, wide) + [QUOTE]
  }

  // ---- Unquote ----

  /** One unquoted character: its value, whether to write it as a rune, and the rest of the input. */
  datatype Unquoted = Unquoted(value: nat, multibyte: bool, tail: Bytes)

  function UnquoteHex(s: Bytes, n: nat): Option<nat> {
    if |s| < n then None else UnhexAll(s[..n])
  }

  predicate OctalDigit(b: byte) {
    0x30 <= b <= 0x37
  }

  /** UnquoteChar after a backslash and the letter `c`. */
  function UnquoteEscape(c: byte, s: Bytes, quote: byte): Option<Unquoted> {
    if c == 0x61 then Some(Unquoted(0x07, false, s))
    else if c == 0x62 then Some(Unquoted(0x08, false, s))
    else if c == 0x66 then Some(Unquoted(0x0C, false, s))
    else if c == 0x6E then Some(Unquoted(0x0A, false, s))
    else if c == 0x72 then Some(Unquoted(0x0D, false, s))
    else if c == 0x74 then Some(Unquoted(0x09, false, s))
    else if c == 0x76 then Some(Unquoted(0x0B, false, s))
    else if c == 0x78 || c == 0x75 || c == 0x55 then
      var n := if c == 0x78 then 2 else if c == 0x75 then 4 else 8;
      match UnquoteHex(s, n)
      case None => None
      case Some(v) =>
        if c == 0x78 then Some(Unquoted(v, false, s[n..]))
        else if ValidRune(v) then Some(Unquoted(v, true, s[n..]))
        else None
    else if OctalDigit(c) then
      if |s| < 2 || !OctalDigit(s[0]) || !OctalDigit(s[1]) then None
      else
        var v: int := (c as int - 0x30) * 64 + (s[0] as int - 0x30) * 8 + (s[1] as int - 0x30);
        if v > 255 then None else Some(Unquoted(v, false, s[2..]))
    else if c == BACKSLASH then Some(Unquoted(BACKSLASH, false, s))
    else if c == SINGLE || c == QUOTE then
      if c != quote then None else Some(Unquoted(c, false, s))
    else None
  }

  function UnquoteChar(s: Bytes, quote: byte): (r: Option<Unquoted>)
    ensures r.Some? ==> |r.value.tail| < |s|
  {
    if s == [] then None
    else if s[0] == quote && (quote == SINGLE || quote == QUOTE) then None
    else if s[0] >= 0x80 then
      assert DecodeRune(s).0 >= 0 by { if !BadByte(s) { DecodeThenEncode(s); } }
      Some(Unquoted(DecodeRune(s).0, true, s[Width(s)..]))
    else if s[0] != BACKSLASH then Some(Unquoted(s[0], false, s[1..]))
    else if |s| <= 1 then None
    else UnquoteEscape(s[1], s[2..], quote)
  }

  /** What an unquoted character adds to the result. */
  function Put(value: nat, multibyte: bool): Bytes {
    if value < 0x80 || !multibyte then [value % 256] else EncodeRune(value)
  }

  /** The loop over a quoted string after its opening quote: the unquoted bytes, and what follows the
      closing quote. A single-quoted string holds at most one character. */
  function UnquoteLoop(s: Bytes, quote: byte): Option<(Bytes, Bytes)>
    decreases |s|
  {
    if s == [] then None
    else if s[0] == quote then Some(([], s[1..]))
    else
      match UnquoteChar(s, quote)
      case None => None
      case Some(Unquoted(value, multibyte, tail)) =>
        if s[0] == NEWLINE then None
        else if quote == SINGLE then
          if tail != [] && tail[0] == quote then Some((Put(value, multibyte), tail[1..])) else None
        else
          match UnquoteLoop(tail, quote)
          case None => None
          case Some((out, rest)) => Some((Put(value, multibyte) + out, rest))
  }

  function DropCRs(s: Bytes): Bytes {
    if s == [] then []
    else if s[0] == CARRIAGE_RETURN then DropCRs(s[1..])
    else [s[0]] + DropCRs(s[1..])
  }

  /** The shortcut for a quoted string without escapes. */
  predicate PlainBody(body: Bytes, quote: byte) {
    && BACKSLASH !in body && NEWLINE !in body
    && (if quote == QUOTE then WellFormed(body) else Width(body) == |body| && !BadByte(body))
  }

  /** strconv.Unquote. */
  function Unquote(s: Bytes): Option<Bytes> {
    if |s| < 2 then None
    else
      var quote := s[0];
      var i := IndexByte(s[1..], quote);
      if i < 0 then None
      else if quote == BACKQUOTE then
        if s[i+2..] == [] then Some(DropCRs(s[1..i+1])) else None
      else if quote == QUOTE || quote == SINGLE then
        if PlainBody(s[1..i+1], quote) then
          if s[i+2..] == [] then Some(s[1..i+1]) else None
        else
          match UnquoteLoop(s[1..], quote)
          case Some((out, rest)) => if rest == [] then Some(out) else None
          case None => None
      else None
  }

  // ---- The shortcut changes nothing ----

  /** One round of the loop on a rune that is not escaped. */
  lemma LoopOnPlain(body: Bytes, rest: Bytes)
    requires body != [] && !BadByte(body)
    requires body[0] != BACKSLASH && body[0] != QUOTE && body[0] != NEWLINE
    ensures UnquoteLoop(body + rest, QUOTE) ==
              match UnquoteLoop(body[Width(body)..] + rest, QUOTE)
              case None => None
              case Some((out, left)) => Some((body[..Width(body)] + out, left))
  {
    var w := Width(body);
    DecodeIsLocal(body, body[w..] + rest);
    DecodeThenEncode(body);
    assert body[..w] + (body[w..] + rest) == body + rest;
    assert (body + rest)[w..] == body[w..] + rest;
    assert Put(DecodeRune(body).0, body[0] >= 0x80) == body[..w];
  }

  lemma {:induction false} PlainLoop(body: Bytes, rest: Bytes)
    requires QUOTE !in body && PlainBody(body, QUOTE)
    ensures UnquoteLoop(body + ([QUOTE] + rest), QUOTE) == Some((body, rest))
    decreases |body|
  {
    if body == [] {
      assert (body + ([QUOTE] + rest))[1..] == rest;
    } else {
      hide UnquoteLoop, DecodeRune, Width;
      var w := Width(body);
      assert body[0] in body && forall b :: b in body[w..] ==> b in body;
      assert body == body[..w] + body[w..];
      LoopOnPlain(body, [QUOTE] + rest);
      PlainLoop(body[w..], rest);
    }
  }

  lemma PlainSingle(body: Bytes, rest: Bytes)
    requires SINGLE !in body && PlainBody(body, SINGLE)
    ensures UnquoteLoop(body + [SINGLE] + rest, SINGLE) == Some((body, rest))
  {
    var s := body + [SINGLE] + rest;
    if body == [] {
      assert s[1..] == rest;
    } else {
      assert s[0] == body[0] && body[0] in body;
      DecodeIsLocal(body, [SINGLE] + rest);
      assert body[..Width(body)] + ([SINGLE] + rest) == s;
      DecodeThenEncode(body);
      assert s[|body|..] == [SINGLE] + rest && ([SINGLE] + rest)[1..] == rest;
      assert Put(DecodeRune(s).0, s[0] >= 0x80) == body[..Width(body)] == body;
    }
  }

  /** Unquoting a quoted string is what the escape loop alone computes. */
  lemma ShortcutAgreesWithLoop(s: Bytes)
    requires |s| >= 2 && (s[0] == QUOTE || s[0] == SINGLE)
    ensures
      match UnquoteLoop(s[1..], s[0])
      case Some((out, rest)) => Unquote(s) == (if rest == [] then Some(out) else None)
      case None => Unquote(s) == None
  {
    var i := IndexByte(s[1..], s[0]);
    if i < 0 {
      NoCloseNoLoop(s[1..], s[0]);
    } else if PlainBody(s[1..i+1], s[0]) {
      assert s[1..][..i] == s[1..i+1];
      assert s[1..] == s[1..i+1] + [s[0]] + s[i+2..];
      if s[0] == QUOTE {
        assert s[1..] == s[1..i+1] + ([s[0]] + s[i+2..]);
        PlainLoop(s[1..i+1], s[i+2..]);
      } else {
        PlainSingle(s[1..i+1], s[i+2..]);
      }
    }
  }

  lemma {:induction false} NoCloseNoLoop(s: Bytes, quote: byte)
    requires quote !in s
    ensures UnquoteLoop(s, quote) == None
    decreases |s|
  {
    if s != [] && UnquoteChar(s, quote).Some? {
      var tail := UnquoteChar(s, quote).value.tail;
      TailIsSuffix(s, quote);
      NoCloseNoLoop(tail, quote);
    }
  }

  lemma TailIsSuffix(s: Bytes, quote: byte)
    requires UnquoteChar(s, quote).Some?
    ensures var tail := UnquoteChar(s, quote).value.tail; forall b :: b in tail ==> b in s
  {
  }

  // ---- Round trip ----

  /** One quoted character reads back as the bytes it was made from, and is at most four times as long. */
  lemma EscapeReadsBack(s: Bytes, wide: Printable, rest: Bytes)
    requires s != []
    ensures Escape(s, wide) != [] && Escape(s, wide)[0] != QUOTE && Escape(s, wide)[0] != NEWLINE
    ensures var r := UnquoteChar(Escape(s, wide) + rest, QUOTE);
            r.Some? && r.value.tail == rest && Put(r.value.value, r.value.multibyte) == s[..Width(s)]
  {
    if BadByte(s) {
      HexByteReadsBack(s[0], rest);
    } else {
      DecodeThenEncode(s);
      RuneReadsBack(DecodeRune(s).0, wide, rest);
    }
  }

  lemma HexReadsBack(c: byte, n: nat, v: nat, rest: Bytes)
    requires v < Pow16(n) && ((c == 0x78 && n == 2) || (ValidRune(v) && ((c == 0x75 && n == 4) || (c == 0x55 && n == 8))))
    ensures UnquoteChar([BACKSLASH, c] + Hex(v, n) + rest, QUOTE) == Some(Unquoted(v, c != 0x78, rest))
  {
    hide Hex, UnhexAll;
    UnhexOfHex(v, n);
    var s := [BACKSLASH, c] + Hex(v, n) + rest;
    assert s[2..] == Hex(v, n) + rest;
    assert s[2..][..n] == Hex(v, n) && s[2..][n..] == rest;
  }

  lemma HexByteReadsBack(b: byte, rest: Bytes)
    ensures UnquoteChar(HexByte(b) + rest, QUOTE) == Some(Unquoted(b, false, rest))
  {
    assert Pow16(2) == 256;
    HexReadsBack(0x78, 2, b, rest);
  }

  /** A rune that is written as it is reads back as itself. */
  lemma PrintableReadsBack(r: int, rest: Bytes)
    requires ValidRune(r) && r >= 0x20 && r != QUOTE && r != BACKSLASH
    ensures EncodeRune(r)[0] != QUOTE && EncodeRune(r)[0] != NEWLINE
    ensures UnquoteChar(EncodeRune(r) + rest, QUOTE) == Some(Unquoted(r, r >= 0x80, rest))
  {
    EncodeThenDecode(r, rest);
    assert (EncodeRune(r) + rest)[|EncodeRune(r)|..] == rest;
  }

  lemma RuneReadsBack(r: int, wide: Printable, rest: Bytes)
    requires ValidRune(r)
    ensures var e := EscapeRune(r, wide); e != [] && e[0] != QUOTE && e[0] != NEWLINE
    ensures var u := UnquoteChar(EscapeRune(r, wide) + rest, QUOTE);
            u.Some? && u.value.tail == rest && Put(u.value.value, u.value.multibyte) == EncodeRune(r)
  {
    var s := EscapeRune(r, wide) + rest;
    if r == QUOTE || r == BACKSLASH {
      assert s[2..] == rest;
    } else if IsPrint(r, wide) {
      PrintableReadsBack(r, rest);
    } else if Letter(r).Some? {
      assert s[2..] == rest;
    } else if r < 0x20 || r == 0x7F {
      HexByteReadsBack(r, rest);
    } else if r < 0x10000 {
      assert Pow16(4) == 0x10000;
      HexReadsBack(0x75, 4, r, rest);
    } else {
      assert Pow16(8) == 0x100000000;
      HexReadsBack(0x55, 8, r, rest);
    }
  }

  /** One round of the loop on an escaped rune or byte. */
  lemma LoopOnEscape(s: Bytes, wide: Printable, rest: Bytes)
    requires s != []
    ensures UnquoteLoop(Escape(s, wide) + rest, QUOTE) ==
              match UnquoteLoop(rest, QUOTE)
              case None => None
              case Some((out, left)) => Some((s[..Width(s)] + out, left))
  {
    hide Escape, UnquoteChar, Put, Width;
    EscapeReadsBack(s, wide, rest);
    assert (Escape(s, wide) + rest)[0] == Escape(s, wide)[0];
  }

  lemma {:induction false} BodyReadsBack(s: Bytes, wide: Printable)
    ensures UnquoteLoop(QuoteBody(s, wide) + [QUOTE], QUOTE) == Some((s, []))
    decreases |s|
  {
    if s == [] {
      var close: Bytes := [QUOTE];
      assert QuoteBody(s, wide) + close == close && close[1..] == [];
    } else {
      hide Escape, UnquoteLoop, Width;
      var head, tail := Escape(s, wide), QuoteBody(s[Width(s)..], wide);
      assert QuoteBody(s, wide) + [QUOTE] == head + (tail + [QUOTE]);
      LoopOnEscape(s, wide, tail + [QUOTE]);
      BodyReadsBack(s[Width(s)..], wide);
      assert s == s[..Width(s)] + s[Width(s)..];
    }
  }

  /** Unquote inverts Quote on every byte string, whatever counts as printable. */
  lemma UnquoteOfQuote(s: Bytes, wide: Printable)
    ensures Unquote(Quote(s, wide)) == Some(s)
  {
    BodyReadsBack(s, wide);
    assert Quote(s, wide)[1..] == QuoteBody(s, wide) + [QUOTE];
    ShortcutAgreesWithLoop(Quote(s, wide));
  }

  lemma HexSize(v: nat, n: nat)
    requires v < Pow16(n)
    ensures |Hex(v, n)| == n && NEWLINE !in Hex(v, n)
  {
    UnhexOfHex(v, n);
  }

  lemma EscapeRuneSize(r: int, wide: Printable)
    requires ValidRune(r)
    ensures |EscapeRune(r, wide)| <= 4 * |EncodeRune(r)| && NEWLINE !in EscapeRune(r, wide)
  {
    if r != QUOTE && r != BACKSLASH && !IsPrint(r, wide) && Letter(r).None? {
      if r < 0x20 || r == 0x7F {
        assert Pow16(2) == 256;
        HexSize(r, 2);
      } else if r < 0x10000 {
        assert Pow16(4) == 0x10000;
        HexSize(r, 4);
      } else {
        assert Pow16(8) == 0x100000000;
        HexSize(r, 8);
      }
    }
  }

  lemma EscapeSize(s: Bytes, wide: Printable)
    requires s != []
    ensures |Escape(s, wide)| <= 4 * Width(s) && NEWLINE !in Escape(s, wide)
  {
    if BadByte(s) {
      assert Pow16(2) == 256;
      HexSize(s[0], 2);
    } else {
      DecodeThenEncode(s);
      EscapeRuneSize(DecodeRune(s).0, wide);
    }
  }

  lemma {:induction false} BodySize(s: Bytes, wide: Printable)
    ensures |QuoteBody(s, wide)| <= 4 * |s| && NEWLINE !in QuoteBody(s, wide)
    decreases |s|
  {
    if s != [] {
      EscapeSize(s, wide);
      BodySize(s[Width(s)..], wide);
    }
  }

  /** A quoted string is one line, begins and ends with a quote, and is at most 4n + 2 bytes long. */
  lemma QuoteSize(s: Bytes, wide: Printable)
    ensures |Quote(s, wide)| <= 4 * |s| + 2
    ensures NEWLINE !in Quote(s, wide)
  {
    BodySize(s, wide);
  }

  // ---- What Quote prints ----

  /** Runes that Quote leaves as they are: ASCII from space to tilde, the printable ones of Latin-1, and
      the wider ones that are printable; but no quote and no backslash. */
  predicate StandsForItself(r: int, wide: Printable) {
    && r != 0x22 && r != 0x5C
    && (0x20 <= r <= 0x7E || 0xA1 <= r <= 0xAC || 0xAE <= r <= 0xFF || (0xFF < r && wide(r)))
  }

  predicate AllPlain(s: Bytes, wide: Printable) {
    s == [] || (!BadByte(s) && StandsForItself(DecodeRune(s).0, wide) && AllPlain(s[Width(s)..], wide))
  }

  /** A rune stands for itself or is written in a longer form. */
  lemma EscapeIsPlainOrLonger(s: Bytes, wide: Printable)
    requires s != []
    ensures if !BadByte(s) && StandsForItself(DecodeRune(s).0, wide) then Escape(s, wide) == s[..Width(s)]
            else |Escape(s, wide)| > Width(s)
  {
    if !BadByte(s) {
      DecodeThenEncode(s);
    }
  }

  lemma {:induction false} BodyIsPlain(s: Bytes, wide: Printable)
    ensures |QuoteBody(s, wide)| >= |s|
    ensures QuoteBody(s, wide) == s <==> AllPlain(s, wide)
    decreases |s|
  {
    if s != [] {
      hide Escape, Width, DecodeRune, StandsForItself;
      var w := Width(s);
      EscapeIsPlainOrLonger(s, wide);
      BodyIsPlain(s[w..], wide);
      assert s == s[..w] + s[w..];
      if Escape(s, wide) == s[..w] {
        assert QuoteBody(s, wide)[w..] == QuoteBody(s[w..], wide);
      }
    }
  }

  /** Quoting only puts quotes around a string exactly if all of its runes stand for themselves. */
  lemma QuoteIsPlain(s: Bytes, wide: Printable)
    ensures Quote(s, wide) == [0x22] + s + [0x22] <==> AllPlain(s, wide)
  {
    BodyIsPlain(s, wide);
    if Quote(s, wide) == [0x22] + s + [0x22] {
      assert |QuoteBody(s, wide)| == |s|;
      assert QuoteBody(s, wide) == Quote(s, wide)[1..|s|+1] == s;
    }
  }

  lemma {:induction false} AsciiIsPlain(s: Bytes, wide: Printable)
    requires forall i :: 0 <= i < |s| ==> 0x20 <= s[i] <= 0x7E && s[i] != 0x22 && s[i] != 0x5C
    ensures AllPlain(s, wide)
    decreases |s|
  {
    if s != [] {
      assert Width(s) == 1;
      AsciiIsPlain(s[1..], wide);
    }
  }

  /** The escapes that have a character of their own: quote, backslash, a, b, f, n, r, t and v. */
  lemma LetterEscapes(wide: Printable)
    ensures EscapeRune(0x22, wide) == [0x5C, 0x22] && EscapeRune(0x5C, wide) == [0x5C, 0x5C]
    ensures EscapeRune(0x07, wide) == [0x5C, 0x61] && EscapeRune(0x08, wide) == [0x5C, 0x62]
    ensures EscapeRune(0x0C, wide) == [0x5C, 0x66] && EscapeRune(0x0A, wide) == [0x5C, 0x6E]
    ensures EscapeRune(0x0D, wide) == [0x5C, 0x72] && EscapeRune(0x09, wide) == [0x5C, 0x74]
    ensures EscapeRune(0x0B, wide) == [0x5C, 0x76]
  {
  }

  /** Any other rune that does not stand for itself is written as \x and two hexadecimal digits if it is
      ASCII, \u and four up to U+FFFF, and \U and eight above; a byte that belongs to no rune, as \x and
      two. Examples: \x00, \x7f, \u00ad, \xff. */
  lemma HexEscapes(r: int, wide: Printable)
    requires ValidRune(r) && !StandsForItself(r, wide) && !(0x07 <= r <= 0x0D) && r != 0x22 && r != 0x5C
    ensures EscapeRune(r, wide) ==
            if r <= 0x7F then [0x5C, 0x78] + Hex(r, 2)
            else if r <= 0xFFFF then [0x5C, 0x75] + Hex(r, 4)
            else [0x5C, 0x55] + Hex(r, 8)
    ensures Hex(0x00, 2) == [0x30, 0x30] && Hex(0x7F, 2) == [0x37, 0x66] && Hex(0xFF, 2) == [0x66, 0x66]
    ensures Hex(0xAD, 4) == [0x30, 0x30, 0x61, 0x64]
    ensures Escape([0xFF], wide) == [0x5C, 0x78, 0x66, 0x66]
  {
    hide Hex;
    HexDigits2(0x00);
    HexDigits2(0x7F);
    HexDigits2(0xFF);
    HexDigits4(0xAD);
    var bad: Bytes := [0xFF];
    assert BadByte(bad);
  }

  lemma HexDigits2(v: nat)
    ensures Hex(v, 2) == [HexDigit(v / 16 % 16), HexDigit(v % 16)]
  {
    assert Hex(v / 16 / 16, 0) == [];
    assert Hex(v / 16, 1) == [HexDigit(v / 16 % 16)];
  }

  lemma HexDigits4(v: nat)
    ensures Hex(v, 4) == [HexDigit(v / 4096 % 16), HexDigit(v / 256 % 16), HexDigit(v / 16 % 16), HexDigit(v % 16)]
  {
    HexDigits2(v / 256);
    assert v / 256 / 16 == v / 4096 && v / 16 / 16 == v / 256;
    assert Hex(v / 16, 3) == Hex(v / 256, 2) + [HexDigit(v / 16 % 16)];
  }

  lemma HexDigits8(v: nat)
    ensures Hex(v, 8) == Hex(v / 65536, 4) + Hex(v, 4)
  {
    HexDigits4(v);
    var a, b, c := v / 16, v / 256, v / 4096;
    assert a / 16 == b && b / 16 == c && c / 16 == v / 65536;
    assert Hex(c, 5) == Hex(v / 65536, 4) + [HexDigit(c % 16)];
    assert Hex(b, 6) == Hex(c, 5) + [HexDigit(b % 16)];
    assert Hex(a, 7) == Hex(b, 6) + [HexDigit(a % 16)];
  }

  // ---- What Unquote accepts besides its own output ----

  /** Only a string between two equal quotes, of one of the three kinds, is unquoted. */
  lemma UnquoteNeedsQuotes(s: Bytes)
    ensures Unquote(s).Some? ==> |s| >= 2 && s[0] == s[|s|-1] && s[0] in {0x22, 0x27, 0x60}
  {
    if Unquote(s).Some? && s[0] != BACKQUOTE {
      ShortcutAgreesWithLoop(s);
      LoopEndsInQuote(s[1..], s[0]);
      assert s[1..][|s|-2] == s[|s|-1];
    }
  }

  lemma {:induction false} LoopEndsInQuote(s: Bytes, quote: byte)
    requires UnquoteLoop(s, quote).Some? && UnquoteLoop(s, quote).value.1 == []
    ensures s != [] && s[|s|-1] == quote
    decreases |s|
  {
    if s[0] != quote {
      var tail := UnquoteChar(s, quote).value.tail;
      TailIsEnd(s, quote);
      if quote != SINGLE {
        LoopEndsInQuote(tail, quote);
      }
    }
  }

  lemma TailIsEnd(s: Bytes, quote: byte)
    requires UnquoteChar(s, quote).Some?
    ensures var tail := UnquoteChar(s, quote).value.tail; |tail| < |s| && tail == s[|s|-|tail|..]
  {
  }

  /** Single quotes hold exactly one rune. */
  lemma SingleRunes(r: int)
    requires ValidRune(r) && r != 0x27 && r != 0x5C && r != 0x0A
    ensures Unquote([0x27] + EncodeRune(r) + [0x27]) == Some(EncodeRune(r))
  {
    var e := EncodeRune(r);
    var q := [0x27] + e + [0x27];
    assert q[1..] == e + [0x27] + [];
    EncodeThenDecode(r, []);
    assert e + [] == e && 0x27 !in e && 0x5C !in e && 0x0A !in e;
    IndexOfFirst(e, 0x27, []);
    assert q[1..|e|+1] == e && q[|e|+2..] == [];
  }

  /** Escapes that Quote does not write: octal up to \377, hexadecimal digits in capitals; and some that are
      no escapes: octal above that, a surrogate, the other kind of quote, an unknown letter. */
  lemma OtherEscapes(s: Bytes)
    ensures UnquoteEscape(0x31, [0x30, 0x31] + s, QUOTE) == Some(Unquoted(0x41, false, s))
    ensures UnquoteEscape(0x33, [0x37, 0x37] + s, QUOTE) == Some(Unquoted(0xFF, false, s))
    ensures UnquoteEscape(0x78, [0x45, 0x39] + s, QUOTE) == Some(Unquoted(0xE9, false, s))
    ensures UnquoteEscape(0x34, [0x30, 0x30] + s, QUOTE) == None
    ensures UnquoteEscape(0x75, [0x44, 0x38, 0x30, 0x30] + s, QUOTE) == None
    ensures UnquoteEscape(0x27, s, QUOTE) == None && UnquoteEscape(0x22, s, SINGLE) == None
    ensures UnquoteEscape(0x71, s, QUOTE) == None
  {
    hide ValidRune;
    assert ([0x30, 0x31] + s)[2..] == s && ([0x37, 0x37] + s)[2..] == s && ([0x45, 0x39] + s)[2..] == s;
    TwoDigits(0x45, 0x39);
    assert ([0x45, 0x39] + s)[..2] == [0x45, 0x39];
    Surrogate();
    assert ([0x44, 0x38, 0x30, 0x30] + s)[..4] == [0x44, 0x38, 0x30, 0x30];
  }

  lemma TwoDigits(a: byte, b: byte)
    requires Unhex(a).Some? && Unhex(b).Some?
    ensures UnhexAll([a, b]) == Some(Unhex(a).value * 16 + Unhex(b).value)
  {
    var one, two := [a], [a, b];
    assert two[..1] == one && one[..0] == [];
    assert UnhexAll(one[..0]) == Some(0) && UnhexAll(one) == Unhex(a);
  }

  lemma Surrogate()
    ensures UnhexAll([0x44, 0x38, 0x30, 0x30]) == Some(0xD800) && !ValidRune(0xD800)
  {
    var four: Bytes := [0x44, 0x38, 0x30, 0x30];
    var three: Bytes := [0x44, 0x38, 0x30];
    assert four[..3] == three && three[..2] == [0x44, 0x38];
    TwoDigits(0x44, 0x38);
    assert UnhexAll(three) == Some(0xD80);
  }

  /** Between back quotes nothing is escaped. */
  lemma RawStrings(s: Bytes)
    requires 0x60 !in s && 0x0D !in s
    ensures Unquote([0x60] + s + [0x60]) == Some(s)
  {
    var q := [0x60] + s + [0x60];
    assert q[1..] == s + [0x60] + [];
    IndexOfFirst(s, 0x60, []);
    assert q[1..|s|+1] == s && q[|s|+2..] == [];
    NoCRsToDrop(s);
  }

  lemma {:induction false} NoCRsToDrop(s: Bytes)
    requires 0x0D !in s
    ensures DropCRs(s) == s
  {
    if s != [] {
      NoCRsToDrop(s[1..]);
    }
  }
}
