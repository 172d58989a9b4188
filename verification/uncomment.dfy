/** UncommentCode: find a block of text in a file and write the file back with a prefix taken off each
    line of the block. The block is split by a line scanner, so its newline at the end, a carriage return
    before a newline, and everything from an over-long line on do not come back. */
module Uncomment {
  import opened Utf8
  import opened GoStrings
  import opened LineScanner

  class TextFile {
    var content: Bytes

    constructor (content: Bytes)
      ensures this.content == content
    {
      this.content := content;
    }
  }

  function StripAll(lines: seq<Bytes>, prefix: Bytes): (stripped: seq<Bytes>)
    ensures |stripped| == |lines|
  {
    if lines == [] then [] else [TrimPrefix(lines[0], prefix)] + StripAll(lines[1..], prefix)
  }

  lemma {:induction false} StripAllAt(lines: seq<Bytes>, prefix: Bytes)
    ensures forall i :: 0 <= i < |lines| ==> StripAll(lines, prefix)[i] == TrimPrefix(lines[i], prefix)
  {
    if lines != [] {
      StripAllAt(lines[1..], prefix);
    }
  }

  /** Line by line: a line loses the prefix once if it begins with it, and otherwise stays as it is. */
  lemma StripIsExact(lines: seq<Bytes>, prefix: Bytes, i: nat)
    requires i < |lines|
    ensures forall rest: Bytes :: lines[i] == prefix + rest ==> StripAll(lines, prefix)[i] == rest
    ensures (forall rest: Bytes :: lines[i] != prefix + rest) ==> StripAll(lines, prefix)[i] == lines[i]
  {
    hide TrimPrefix;
    StripAllAt(lines, prefix);
    TrimPrefixIsExact(lines[i], prefix);
    forall rest: Bytes | lines[i] == prefix + rest ensures StripAll(lines, prefix)[i] == rest {
      TrimPrefixIsExact(rest, prefix);
    }
  }

  /** The file after uncommenting: only the first occurrence changes, and only if the scanner delivers a
      line of the target at all. */
  function Uncommented(content: Bytes, target: Bytes, prefix: Bytes): Bytes
    requires Index(content, target) >= 0
  {
    var i := Index(content, target);
    var lines := ScanAll(target).lines;
    if lines == [] then content
    else content[..i] + Join(StripAll(lines, prefix), [NEWLINE]) + content[i+|target|..]
  }

  /** What the loop has yet to write when the scanner holds `token` and `more` lines follow. */
  function Pending(token: Bytes, more: seq<Bytes>, prefix: Bytes): Bytes
    decreases |more|
  {
    if more == [] then TrimPrefix(token, prefix)
    else TrimPrefix(token, prefix) + [NEWLINE] + Pending(more[0], more[1..], prefix)
  }

  lemma {:induction false} PendingIsJoin(lines: seq<Bytes>, prefix: Bytes)
    requires lines != []
    ensures Pending(lines[0], lines[1..], prefix) == Join(StripAll(lines, prefix), [NEWLINE])
    decreases |lines|
  {
    var stripped := StripAll(lines, prefix);
    assert stripped[0] == TrimPrefix(lines[0], prefix) && stripped[1..] == StripAll(lines[1..], prefix);
    if |lines| > 1 {
      PendingIsJoin(lines[1..], prefix);
    }
  }

  lemma Appended(out: Bytes, line: Bytes, rest: Bytes)
    ensures out + (line + [NEWLINE] + rest) == out + line + [NEWLINE] + rest
  {
  }

  /** The loop over the target's lines: strip each one and append it to the buffer, with newlines in
      between. Nothing is appended if the scanner delivers no line. */
  method AppendStripped(start: Bytes, target: Bytes, prefix: Bytes) returns (any: bool, out: Bytes)
    ensures any <==> ScanAll(target).lines != []
    ensures any ==> out == start + Join(StripAll(ScanAll(target).lines, prefix), [NEWLINE])
  {
    out := start;
    var scanner := new Scanner(target);
    any := scanner.Scan();
    if !any {
      return;
    }
    PendingIsJoin(ScanAll(target).lines, prefix);
    ghost var whole := start + Pending(scanner.token, scanner.todo.lines, prefix);
    while true
      invariant fresh(scanner) && scanner.Valid()
      invariant out + Pending(scanner.token, scanner.todo.lines, prefix) == whole
      decreases |scanner.todo.lines|
    {
      ghost var rest := scanner.todo.lines;
      ghost var line := TrimPrefix(scanner.token, prefix);
      if rest != [] {
        Appended(out, line, Pending(rest[0], rest[1..], prefix));
      }
      out := out + TrimPrefix(scanner.token, prefix);
      var more := scanner.Scan();
      if !more {
        break;
      }
      out := out + [NEWLINE];
    }
  }

  method UncommentCode(file: TextFile, target: Bytes, prefix: Bytes) returns (found: bool)
    modifies file
    ensures found <==> exists j :: OccursAt(old(file.content), target, j)
    ensures file.content == if Index(old(file.content), target) >= 0
                            then Uncommented(old(file.content), target, prefix) else old(file.content)
    ensures !found || ScanAll(target).lines == [] ==> file.content == old(file.content)
  {
    hide OccursAt;
    var content := file.content;
    var idx := Index(content, target);
    IndexFindsAny(content, target);
    if idx < 0 {
      return false;
    }
    var any, out := AppendStripped(content[..idx], target, prefix);
    if any {
      file.content := out + content[idx+|target|..];
    }
    return true;
  }

  // ---- Commenting and uncommenting ----

  /** Put the prefix in front of every line. */
  function CommentAll(lines: seq<Bytes>, prefix: Bytes): (commented: seq<Bytes>)
    ensures |commented| == |lines|
    ensures forall i :: 0 <= i < |lines| ==> commented[i] == prefix + lines[i]
  {
    seq(|lines|, i requires 0 <= i < |lines| => prefix + lines[i])
  }

  predicate EndsInCR(s: Bytes) {
    s != [] && s[|s|-1] == CARRIAGE_RETURN
  }

  /** A line that survives being commented, scanned and uncommented. */
  predicate Survives(line: Bytes, prefix: Bytes) {
    !EndsInCR(prefix + line) || (line == [] && prefix == [CARRIAGE_RETURN])
  }

  /** The exact condition for one line: the scanner finds no carriage return to drop. */
  lemma LineComesBack(line: Bytes, prefix: Bytes)
    requires prefix != []
    ensures TrimPrefix(DropCR(prefix + line), prefix) == line <==> Survives(line, prefix)
  {
    var c := prefix + line;
    if !EndsInCR(c) {
      assert c[..|prefix|] == prefix && c[|prefix|..] == line;
    } else if line != [] {
      assert DropCR(c)[..|prefix|] == prefix;
    } else {
      assert c == prefix;
    }
  }

  function DropAll(lines: seq<Bytes>): (dropped: seq<Bytes>)
    ensures |dropped| == |lines|
    ensures forall i :: 0 <= i < |lines| ==> dropped[i] == DropCR(lines[i])
  {
    seq(|lines|, i requires 0 <= i < |lines| => DropCR(lines[i]))
  }

  /** How many lines the scanner gets through before one does not fit its buffer. */
  function FittingLines(lines: seq<Bytes>): (n: nat)
    ensures n <= |lines|
    ensures n == |lines| <==> forall i :: 0 <= i < |lines| ==> Fits(lines[i])
  {
    if lines == [] || !Fits(lines[0]) then 0
    else
      assert forall i :: 0 < i < |lines| ==> lines[i] == lines[1..][i-1];
      1 + FittingLines(lines[1..])
  }

  /** Scanning lines that were joined by newlines delivers them again without their carriage returns, up
      to the first one that is too long. A newline at the very end makes no difference. */
  lemma {:induction false} ScanJoined(lines: seq<Bytes>, end: Bytes)
    requires lines != [] && (end == [] || end == [NEWLINE])
    requires forall i :: 0 <= i < |lines| ==> lines[i] != [] && NEWLINE !in lines[i]
    ensures ScanAll(Join(lines, [NEWLINE]) + end) ==
              Delivery(DropAll(lines[..FittingLines(lines)]), FittingLines(lines) < |lines|)
    decreases |lines|
  {
    hide ScanAll, Fits;
    var head, tail := lines[0], lines[1..];
    FittingStep(lines);
    if tail == [] {
      assert Join(lines, [NEWLINE]) == head;
      ScanEnd(head, end);
    } else {
      ScanJoined(tail, end);
      ScanStep(head, tail, end);
    }
  }

  /** What the lines in front of the first unfitting one are made of. */
  lemma FittingStep(lines: seq<Bytes>)
    requires lines != []
    ensures !Fits(lines[0]) ==> FittingLines(lines) == 0 && DropAll(lines[..0]) == []
    ensures Fits(lines[0]) ==>
              var m := FittingLines(lines[1..]);
              FittingLines(lines) == m + 1 && DropAll(lines[..m+1]) == [DropCR(lines[0])] + DropAll(lines[1..][..m])
  {
    hide Fits, DropCR;
    var m := FittingLines(lines[1..]);
    if Fits(lines[0]) {
      DropAllOfMore(lines[0], lines[1..][..m]);
      assert lines[..m+1] == [lines[0]] + lines[1..][..m];
    }
  }

  lemma DropAllOfMore(line: Bytes, lines: seq<Bytes>)
    ensures DropAll([line] + lines) == [DropCR(line)] + DropAll(lines)
  {
    hide DropCR;
  }

  /** Scanning goes past one line of many. */
  lemma ScanStep(head: Bytes, tail: seq<Bytes>, end: Bytes)
    requires tail != [] && NEWLINE !in head
    ensures ScanAll(Join([head] + tail, [NEWLINE]) + end) ==
            (if !Fits(head) then Delivery([], true)
             else var rest := ScanAll(Join(tail, [NEWLINE]) + end);
                  Delivery([DropCR(head)] + rest.lines, rest.tooLong))
  {
    var rest := Join(tail, [NEWLINE]) + end;
    assert ([head] + tail)[1..] == tail;
    assert Join([head] + tail, [NEWLINE]) + end == head + [NEWLINE] + rest;
    ScanLine(head, rest);
  }

  lemma ScanEnd(line: Bytes, end: Bytes)
    requires line != [] && NEWLINE !in line && (end == [] || end == [NEWLINE])
    ensures ScanAll(line + end) == if Fits(line) then Delivery([DropCR(line)], false) else Delivery([], true)
  {
    if end == [] {
      assert line + end == line;
      ScanLastLine(line);
    } else {
      assert line + end == line + [NEWLINE] + [];
      ScanLine(line, []);
      assert ScanAll([]) == Delivery([], false);
    }
  }

  /** What uncommenting makes of lines that were commented out; `end` is a newline that the target may
      have behind its last line. */
  function Restored(lines: seq<Bytes>, end: Bytes, prefix: Bytes): seq<Bytes> {
    StripAll(ScanAll(Join(CommentAll(lines, prefix), [NEWLINE]) + end).lines, prefix)
  }

  /** A line comes back: it fits the scanner's buffer with its prefix, and loses no carriage return. */
  predicate ComesBack(line: Bytes, prefix: Bytes) {
    Fits(prefix + line) && Survives(line, prefix)
  }

  lemma RestoredLines(lines: seq<Bytes>, end: Bytes, prefix: Bytes)
    requires lines != [] && prefix != [] && NEWLINE !in prefix && (end == [] || end == [NEWLINE])
    requires forall l :: l in lines ==> NEWLINE !in l
    ensures var back, n := Restored(lines, end, prefix), FittingLines(CommentAll(lines, prefix));
            |back| == n && forall i :: 0 <= i < n ==> back[i] == TrimPrefix(DropCR(prefix + lines[i]), prefix)
  {
    var commented := CommentAll(lines, prefix);
    forall i | 0 <= i < |commented| ensures commented[i] != [] && NEWLINE !in commented[i] {
      assert lines[i] in lines;
    }
    ScanJoined(commented, end);
    StripAllAt(DropAll(commented[..FittingLines(commented)]), prefix);
  }

  /** Comment lines out with a prefix and uncomment the block: the lines come back if and only if every
      commented line fits the scanner's buffer and none ends in a carriage return (short of a lone one that
      is the whole prefix). */
  lemma UncommentingRestoresLines(lines: seq<Bytes>, end: Bytes, prefix: Bytes)
    requires lines != [] && prefix != [] && NEWLINE !in prefix && (end == [] || end == [NEWLINE])
    requires forall l :: l in lines ==> NEWLINE !in l
    ensures Restored(lines, end, prefix) == lines <==> forall l :: l in lines ==> ComesBack(l, prefix)
  {
    hide Restored, Survives;
    var back, commented := Restored(lines, end, prefix), CommentAll(lines, prefix);
    RestoredLines(lines, end, prefix);
    forall i | 0 <= i < |lines|
      ensures TrimPrefix(DropCR(prefix + lines[i]), prefix) == lines[i] <==> Survives(lines[i], prefix)
    {
      LineComesBack(lines[i], prefix);
    }
    assert FittingLines(commented) == |lines| <==> forall i :: 0 <= i < |lines| ==> Fits(prefix + lines[i]);
    assert back == lines <==> forall i :: 0 <= i < |lines| ==> ComesBack(lines[i], prefix);
    assert (forall i :: 0 <= i < |lines| ==> ComesBack(lines[i], prefix)) <==> forall l :: l in lines ==> ComesBack(l, prefix);
  }

  // ---- Whole files ----

  /** Newline-free lines can be told from what they are joined to. */
  lemma {:induction false} JoinIsInjective(a: seq<Bytes>, b: seq<Bytes>)
    requires a != [] && b != []
    requires (forall l :: l in a ==> NEWLINE !in l) && (forall l :: l in b ==> NEWLINE !in l)
    requires Join(a, [NEWLINE]) == Join(b, [NEWLINE])
    ensures a == b
    decreases |a|
  {
    FirstNewline(a);
    FirstNewline(b);
    var text, i := Join(a, [NEWLINE]), |a[0]|;
    assert a[0] == text[..|a[0]|] && b[0] == text[..|b[0]|];
    assert a == [a[0]] + a[1..] && b == [b[0]] + b[1..];
    if |a| > 1 {
      assert text[i+1..] == Join(a[1..], [NEWLINE]) == Join(b[1..], [NEWLINE]);
      JoinIsInjective(a[1..], b[1..]);
    }
  }

  lemma FirstNewline(lines: seq<Bytes>)
    requires lines != [] && forall l :: l in lines ==> NEWLINE !in l
    ensures IndexByte(Join(lines, [NEWLINE]), NEWLINE) == if |lines| == 1 then -1 else |lines[0]|
    ensures |lines[0]| <= |Join(lines, [NEWLINE])| && Join(lines, [NEWLINE])[..|lines[0]|] == lines[0]
    ensures |lines| > 1 ==> |lines[0]| < |Join(lines, [NEWLINE])| &&
                            Join(lines, [NEWLINE])[|lines[0]|+1..] == Join(lines[1..], [NEWLINE])
  {
    assert lines[0] in lines;
    if |lines| > 1 {
      IndexOfFirst(lines[0], NEWLINE, Join(lines[1..], [NEWLINE]));
    }
  }

  lemma {:induction false} CommentingLengthens(lines: seq<Bytes>, prefix: Bytes)
    requires lines != [] && prefix != []
    ensures |Join(CommentAll(lines, prefix), [NEWLINE])| > |Join(lines, [NEWLINE])|
    decreases |lines|
  {
    if |lines| > 1 {
      CommentingLengthens(lines[1..], prefix);
      assert CommentAll(lines, prefix)[1..] == CommentAll(lines[1..], prefix);
    }
  }

  lemma RestoredIsNewlineFree(lines: seq<Bytes>, end: Bytes, prefix: Bytes)
    requires lines != [] && prefix != [] && NEWLINE !in prefix && (end == [] || end == [NEWLINE])
    requires forall l :: l in lines ==> NEWLINE !in l
    ensures |Restored(lines, end, prefix)| <= |lines|
    ensures forall l :: l in Restored(lines, end, prefix) ==> NEWLINE !in l
  {
    hide Restored;
    RestoredLines(lines, end, prefix);
    var back := Restored(lines, end, prefix);
    forall i | 0 <= i < |back| ensures NEWLINE !in back[i] {
      assert lines[i] in lines && NEWLINE !in prefix + lines[i];
    }
  }

  /** The text of a block that has been commented out, and of a file around it. */
  function Block(lines: seq<Bytes>, end: Bytes, prefix: Bytes): Bytes {
    Join(CommentAll(lines, prefix), [NEWLINE]) + end
  }

  /** The file that uncommenting the block leaves. */
  lemma UncommentedFile(before: Bytes, lines: seq<Bytes>, end: Bytes, after: Bytes, prefix: Bytes)
    requires lines != [] && Index(before + Block(lines, end, prefix) + after, Block(lines, end, prefix)) == |before|
    ensures
      Uncommented(before + Block(lines, end, prefix) + after, Block(lines, end, prefix), prefix) ==
      if Restored(lines, end, prefix) == [] then before + Block(lines, end, prefix) + after
      else before + Join(Restored(lines, end, prefix), [NEWLINE]) + after
  {
    var target := Block(lines, end, prefix);
    var content := before + target + after;
    assert content[..|before|] == before && content[|before|+|target|..] == after;
  }

  lemma SameMiddle(before: Bytes, x: Bytes, y: Bytes, after: Bytes)
    ensures before + x + after == before + y + after <==> x == y
  {
    if before + x + after == before + y + after {
      assert |x| == |y|;
      assert x == (before + x + after)[|before|..|before|+|x|];
      assert y == (before + y + after)[|before|..|before|+|y|];
    }
  }

  /** A block commented out in the middle of a file is restored in place if and only if every commented
      line fits the scanner's buffer and none loses a carriage return. */
  lemma UncommentingRestoresFile(before: Bytes, lines: seq<Bytes>, after: Bytes, prefix: Bytes)
    requires lines != [] && prefix != [] && NEWLINE !in prefix
    requires forall l :: l in lines ==> NEWLINE !in l
    requires Index(before + Block(lines, [], prefix) + after, Block(lines, [], prefix)) == |before|
    ensures
      Uncommented(before + Block(lines, [], prefix) + after, Block(lines, [], prefix), prefix)
        == before + Join(lines, [NEWLINE]) + after
      <==> forall l :: l in lines ==> ComesBack(l, prefix)
  {
    hide Uncommented, Restored, ComesBack, Join, Index;
    var back := Restored(lines, [], prefix);
    UncommentedFile(before, lines, [], after, prefix);
    UncommentingRestoresLines(lines, [], prefix);
    CommentingLengthens(lines, prefix);
    SameMiddle(before, if back == [] then Block(lines, [], prefix) else Join(back, [NEWLINE]), Join(lines, [NEWLINE]), after);
    RestoredIsNewlineFree(lines, [], prefix);
    if back != [] && Join(back, [NEWLINE]) == Join(lines, [NEWLINE]) {
      JoinIsInjective(back, lines);
    }
  }

  /** A block whose target ends in a newline is never restored: whatever the lines are, that newline does
      not come back. What comes instead is the block without it, under the same condition as before. */
  lemma FinalNewlineIsLost(before: Bytes, lines: seq<Bytes>, after: Bytes, prefix: Bytes)
    requires lines != [] && prefix != [] && NEWLINE !in prefix
    requires forall l :: l in lines ==> NEWLINE !in l
    requires Index(before + Block(lines, [NEWLINE], prefix) + after, Block(lines, [NEWLINE], prefix)) == |before|
    ensures
      var result := Uncommented(before + Block(lines, [NEWLINE], prefix) + after, Block(lines, [NEWLINE], prefix), prefix);
      && result != before + (Join(lines, [NEWLINE]) + [NEWLINE]) + after
      && (result == before + Join(lines, [NEWLINE]) + after <==> forall l :: l in lines ==> ComesBack(l, prefix))
  {
    hide Uncommented, Restored, ComesBack, Join, Index;
    var back := Restored(lines, [NEWLINE], prefix);
    var middle := if back == [] then Block(lines, [NEWLINE], prefix) else Join(back, [NEWLINE]);
    UncommentedFile(before, lines, [NEWLINE], after, prefix);
    UncommentingRestoresLines(lines, [NEWLINE], prefix);
    CommentingLengthens(lines, prefix);
    SameMiddle(before, middle, Join(lines, [NEWLINE]), after);
    SameMiddle(before, middle, Join(lines, [NEWLINE]) + [NEWLINE], after);
    RestoredIsNewlineFree(lines, [NEWLINE], prefix);
    if back != [] {
      if Join(back, [NEWLINE]) == Join(lines, [NEWLINE]) {
        JoinIsInjective(back, lines);
      }
      if Join(back, [NEWLINE]) == Join(lines, [NEWLINE]) + [NEWLINE] {
        JoinEmptyLine(lines);
        JoinIsInjective(back, lines + [[]]);
      }
    }
  }

  lemma {:induction false} JoinEmptyLine(lines: seq<Bytes>)
    requires lines != []
    ensures Join(lines + [[]], [NEWLINE]) == Join(lines, [NEWLINE]) + [NEWLINE]
    decreases |lines|
  {
    if |lines| == 1 {
      assert (lines + [[]])[1..] == [[]];
    } else {
      JoinEmptyLine(lines[1..]);
      assert (lines + [[]])[1..] == lines[1..] + [[]];
    }
  }
}
