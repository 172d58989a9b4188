/** The parts of Go's strings package used by the config parser, the principals and UncommentCode. */
module GoStrings {
  import opened Utf8

  const NEWLINE: byte := 0x0A
  const CARRIAGE_RETURN: byte := 0x0D
  const SPACE: byte := 0x20
  const COLON: byte := 0x3A

  function IndexByte(s: Bytes, b: byte): (i: int)
    ensures -1 <= i < |s|
    ensures i >= 0 ==> s[i] == b && b !in s[..i]
    ensures i < 0 ==> b !in s
  {
    if s == [] then -1
    else if s[0] == b then 0
    else
      var i := IndexByte(s[1..], b);
      if i < 0 then -1 else i + 1
  }

  lemma {:induction false} IndexOfFirst(head: Bytes, b: byte, tail: Bytes)
    requires b !in head
    ensures IndexByte(head + [b] + tail, b) == |head|
  {
    if head != [] {
      IndexOfFirst(head[1..], b, tail);
      assert (head + [b] + tail)[1..] == head[1..] + [b] + tail;
    }
  }

  predicate OccursAt(s: Bytes, target: Bytes, i: int) {
    0 <= i && i + |target| <= |s| && s[i..i+|target|] == target
  }

  /** strings.Index: the first place where `target` occurs, or -1. */
  function Index(s: Bytes, target: Bytes): (i: int)
    ensures -1 <= i && (i >= 0 ==> i + |target| <= |s|)
  {
    if OccursAt(s, target, 0) then 0
    else if s == [] then -1
    else
      var i := Index(s[1..], target);
      if i < 0 then -1 else i + 1
  }

  lemma OccursLater(s: Bytes, target: Bytes, j: int)
    requires s != [] && 0 < j
    ensures OccursAt(s, target, j) <==> OccursAt(s[1..], target, j - 1)
  {
    if j + |target| <= |s| {
      assert s[j..j+|target|] == s[1..][j-1..j-1+|target|];
    }
  }

  lemma {:induction false} IndexFindsFirst(s: Bytes, target: Bytes, j: int)
    ensures var i := Index(s, target);
            (i >= 0 ==> OccursAt(s, target, i)) && (OccursAt(s, target, j) ==> 0 <= i <= j)
    decreases |s|
  {
    NotBeforeStart(s, target, j);
    if !OccursAt(s, target, 0) && s != [] {
      hide OccursAt;
      IndexFindsFirst(s[1..], target, j - 1);
      if Index(s[1..], target) >= 0 {
        OccursLater(s, target, Index(s[1..], target) + 1);
      }
      if j > 0 {
        OccursLater(s, target, j);
      }
    }
  }

  lemma NotBeforeStart(s: Bytes, target: Bytes, j: int)
    ensures OccursAt(s, target, j) ==> 0 <= j && (s == [] ==> j == 0)
  {
  }

  lemma IndexFindsAny(s: Bytes, target: Bytes)
    ensures (exists j :: OccursAt(s, target, j)) <==> Index(s, target) >= 0
  {
    hide OccursAt, Index;
    IndexFindsFirst(s, target, Index(s, target));
    if j :| OccursAt(s, target, j) {
      IndexFindsFirst(s, target, j);
    }
  }

  function TrimPrefix(s: Bytes, prefix: Bytes): Bytes {
    if |prefix| <= |s| && s[..|prefix|] == prefix then s[|prefix|..] else s
  }

  function Join(parts: seq<Bytes>, sep: Bytes): Bytes {
    if parts == [] then []
    else if |parts| == 1 then parts[0]
    else parts[0] + sep + Join(parts[1..], sep)
  }

  /** unicode.IsSpace. */
  predicate IsSpace(r: int) {
    || 0x09 <= r <= 0x0D
    || r in {0x20, 0x85, 0xA0, 0x1680, 0x2028, 0x2029, 0x202F, 0x205F, 0x3000}
    || 0x2000 <= r <= 0x200A
  }

  /** How far from the end the last rune could start: the nearest non-continuation byte before the
      last byte, at most four back; 0 if there is none. */
  function LookBack(s: Bytes): (k: nat)
    ensures k <= |s| && k <= 4
  {
    var n := |s|;
    if n >= 2 && !Continuation(s[n-2]) then 2
    else if n >= 3 && !Continuation(s[n-3]) then 3
    else if n >= 4 && !Continuation(s[n-4]) then 4
    else 0
  }

  /** utf8.DecodeLastRuneInString. */
  function DecodeLastRune(s: Bytes): (r: (int, nat))
    ensures r.1 <= |s| && (s != [] ==> 1 <= r.1 <= 4)
  {
    if s == [] then (RUNE_ERROR, 0)
    else if s[|s|-1] < 0x80 then (s[|s|-1], 1)
    else
      var last := DecodeRune(s[|s|-LookBack(s)..]);
      if LookBack(s) != 0 && last.1 == LookBack(s) then last else (RUNE_ERROR, 1)
  }

  function TrimLeft(s: Bytes): Bytes {
    if s == [] || !IsSpace(DecodeRune(s).0) then s else TrimLeft(s[DecodeRune(s).1..])
  }

  function TrimRight(s: Bytes): Bytes {
    if s == [] || !IsSpace(DecodeLastRune(s).0) then s else TrimRight(s[..|s| - DecodeLastRune(s).1])
  }

  function TrimSpace(s: Bytes): Bytes {
    TrimRight(TrimLeft(s))
  }

  /** Trimming stops at ASCII bytes that are not spaces. */
  lemma TrimKeeps(s: Bytes)
    requires s != [] && s[0] < 0x80 && !IsSpace(s[0]) && s[|s|-1] < 0x80 && !IsSpace(s[|s|-1])
    ensures TrimSpace(s) == s && TrimSpace([SPACE] + s) == s
  {
    assert ([SPACE] + s)[1..] == s;
  }

  lemma SpaceAtFront(s: Bytes, tail: Bytes)
    requires s != [] && IsSpace(DecodeRune(s).0)
    ensures DecodeRune(s + tail) == DecodeRune(s)
  {
    var w := DecodeRune(s).1;
    DecodeIsLocal(s, s[w..] + tail);
    assert s[..w] + (s[w..] + tail) == s + tail;
  }

  /** Trimming from the right never eats past a first rune that is not a space. */
  lemma {:induction false} TrimRightKeepsFirst(s: Bytes)
    requires s != [] && !IsSpace(DecodeRune(s).0)
    ensures TrimRight(s) != [] && !IsSpace(DecodeRune(TrimRight(s)).0)
    decreases |s|
  {
    var (r, k) := DecodeLastRune(s);
    if IsSpace(r) {
      var shorter := s[..|s|-k];
      assert s[0..] == s && shorter != [];
      assert s == shorter + s[|s|-k..];
      if IsSpace(DecodeRune(shorter).0) {
        SpaceAtFront(shorter, s[|s|-k..]);
        assert false;
      }
      TrimRightKeepsFirst(shorter);
    }
  }

  /** Blank strings are the ones made of space runes only, whichever side is trimmed first. */
  lemma {:induction false} BlankIsTrimLeft(s: Bytes)
    ensures TrimSpace(s) == [] <==> TrimLeft(s) == []
  {
    TrimLeftStops(s);
    if TrimLeft(s) != [] {
      TrimRightKeepsFirst(TrimLeft(s));
    }
  }

  lemma {:induction false} TrimLeftStops(s: Bytes)
    ensures TrimLeft(s) != [] ==> !IsSpace(DecodeRune(TrimLeft(s)).0)
    decreases |s|
  {
    if s != [] && IsSpace(DecodeRune(s).0) {
      TrimLeftStops(s[DecodeRune(s).1..]);
    }
  }

  lemma {:induction false} TrimRightStops(s: Bytes)
    ensures TrimRight(TrimRight(s)) == TrimRight(s)
    decreases |s|
  {
    if s != [] && IsSpace(DecodeLastRune(s).0) {
      TrimRightStops(s[..|s| - DecodeLastRune(s).1]);
    }
  }

  /** What was trimmed has no space left around it. */
  lemma TrimSpaceTwice(s: Bytes)
    ensures TrimSpace(TrimSpace(s)) == TrimSpace(s)
  {
    hide DecodeRune, DecodeLastRune, IsSpace;
    TrimLeftStops(s);
    TrimRightStops(TrimLeft(s));
    if TrimLeft(s) != [] {
      TrimRightKeepsFirst(TrimLeft(s));
    }
  }

  /** Everything Unicode calls white space. */
  const WHITE_SPACE: set<int> := {
    0x09, 0x0A, 0x0B, 0x0C, 0x0D, 0x20, 0x85, 0xA0, 0x1680,
    0x2000, 0x2001, 0x2002, 0x2003, 0x2004, 0x2005, 0x2006, 0x2007, 0x2008, 0x2009, 0x200A,
    0x2028, 0x2029, 0x202F, 0x205F, 0x3000
  }

  lemma SpaceTable(r: int)
    ensures IsSpace(r) <==> r in WHITE_SPACE
  {
  }

  /** The encodings of some runes, one after the other. */
  function Encoded(rs: seq<int>): Bytes {
    if rs == [] then [] else Encoded(rs[..|rs|-1]) + EncodeRune(rs[|rs|-1])
  }

  lemma SpaceBytes(r: int)
    requires IsSpace(r)
    ensures ValidRune(r)
    ensures var e := EncodeRune(r);
            && 1 <= |e| <= 3 && !Continuation(e[0]) && (|e| == 3 ==> Continuation(e[1]))
            && (|e| == 1 <==> e[|e|-1] < 0x80) && (|e| == 1 ==> e == [r])
  {
  }

  lemma SpaceAtBack(s: Bytes, r: int)
    requires IsSpace(r)
    ensures DecodeLastRune(s + EncodeRune(r)) == (r, |EncodeRune(r)|)
  {
    hide IsSpace, EncodeRune, DecodeRune, ValidRune;
    var e, t := EncodeRune(r), s + EncodeRune(r);
    SpaceBytes(r);
    EncodeThenDecode(r, []);
    assert e + [] == e && t[|s|..] == e;
    assert t[|t|-1] == e[|e|-1];
    assert |e| >= 2 ==> LookBack(t) == |e|;
  }

  lemma {:induction false} TrimRightOfSpaces(s: Bytes, back: seq<int>)
    requires forall r :: r in back ==> IsSpace(r)
    ensures TrimRight(s + Encoded(back)) == TrimRight(s)
    decreases |back|
  {
    if back == [] {
      assert s + Encoded(back) == s;
    } else {
      var init, r := back[..|back|-1], back[|back|-1];
      var t := s + Encoded(init);
      assert s + Encoded(back) == t + EncodeRune(r);
      SpaceAtBack(t, r);
      assert (t + EncodeRune(r))[..|t|] == t;
      TrimRightOfSpaces(s, init);
    }
  }

  lemma {:induction false} TrimLeftOfSpaces(front: seq<int>, s: Bytes)
    requires forall r :: r in front ==> IsSpace(r)
    ensures TrimLeft(Encoded(front) + s) == TrimLeft(s)
    decreases |front|
  {
    if front == [] {
      assert Encoded(front) + s == s;
    } else {
      var init, r := front[..|front|-1], front[|front|-1];
      var e := EncodeRune(r);
      assert Encoded(front) + s == Encoded(init) + (e + s);
      TrimLeftOfSpaces(init, e + s);
      assert IsSpace(r);
      EncodeThenDecode(r, s);
      assert (e + s)[|e|..] == s;
    }
  }

  /** Bytes that cannot continue a rune do not turn the first rune of what they follow into a space. */
  lemma FrontStays(s: Bytes, tail: Bytes)
    requires s != [] && (tail != [] ==> !Continuation(tail[0]))
    requires IsSpace(DecodeRune(s + tail).0)
    ensures IsSpace(DecodeRune(s).0)
  {
    var t := s + tail;
    var w := Width(t);
    assert w <= |s|;
    DecodeIsLocal(t, s[w..]);
    assert t[..w] + s[w..] == s;
  }

  lemma {:induction false} SpacesDoNotContinue(rs: seq<int>)
    requires forall r :: r in rs ==> IsSpace(r)
    ensures Encoded(rs) != [] ==> !Continuation(Encoded(rs)[0])
  {
    if rs != [] {
      SpacesDoNotContinue(rs[..|rs|-1]);
    }
  }

  /** Trimming takes off white space at both ends, whatever there is of it, and nothing else. */
  lemma TrimSpaceOfPadded(front: seq<int>, s: Bytes, back: seq<int>)
    requires (forall r :: r in front ==> r in WHITE_SPACE) && (forall r :: r in back ==> r in WHITE_SPACE)
    requires s != [] ==> DecodeRune(s).0 !in WHITE_SPACE && DecodeLastRune(s).0 !in WHITE_SPACE
    ensures TrimSpace(Encoded(front) + s + Encoded(back)) == s
  {
    hide EncodeRune, DecodeRune, DecodeLastRune, IsSpace;
    forall r ensures IsSpace(r) <==> r in WHITE_SPACE {
      SpaceTable(r);
    }
    var b := Encoded(back);
    assert Encoded(front) + s + b == Encoded(front) + (s + b);
    TrimLeftOfSpaces(front, s + b);
    if s == [] {
      TrimLeftOfSpaces(back, []);
      assert s + b == b && b + [] == b;
    } else {
      SpacesDoNotContinue(back);
      if IsSpace(DecodeRune(s + b).0) {
        FrontStays(s, b);
      }
      TrimRightOfSpaces(s, back);
    }
  }

  /** A prefix is taken off once where there is one, and nothing where there is none. */
  lemma TrimPrefixIsExact(s: Bytes, prefix: Bytes)
    ensures TrimPrefix(prefix + s, prefix) == s
    ensures (forall rest: Bytes :: s != prefix + rest) ==> TrimPrefix(s, prefix) == s
  {
    assert (prefix + s)[..|prefix|] == prefix;
    if |prefix| <= |s| && s[..|prefix|] == prefix {
      assert s == prefix + s[|prefix|..];
    }
  }

  /** Reading a string back from JSON does not change whether it is blank. */
  lemma {:induction false} SanitizeKeepsBlank(s: Bytes)
    ensures TrimSpace(Sanitize(s)) == [] <==> TrimSpace(s) == []
    decreases |s|
  {
    BlankIsTrimLeft(s);
    BlankIsTrimLeft(Sanitize(s));
    if s != [] {
      var (r, w) := DecodeRune(s);
      var rest := Sanitize(s[w..]);
      if BadByte(s) {
        EncodeThenDecode(RUNE_ERROR, rest);
      } else {
        DecodeIsLocal(s, rest);
        assert Sanitize(s)[w..] == rest;
      }
      SanitizeKeepsBlank(s[w..]);
      BlankIsTrimLeft(s[w..]);
      BlankIsTrimLeft(rest);
    }
  }
}
