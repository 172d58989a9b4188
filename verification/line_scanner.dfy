/** bufio.Scanner with its default split function and buffer: lines without their newline and without one
    trailing carriage return, and an error at the first line that does not fit the buffer. */
module LineScanner {
  import opened Utf8
  import opened GoStrings

  /** bufio.MaxScanTokenSize: the buffer that must hold a line together with its newline. */
  const MAX_TOKEN := 65536

  function DropCR(line: Bytes): Bytes {
    if line != [] && line[|line|-1] == CARRIAGE_RETURN then line[..|line|-1] else line
  }

  predicate Fits(line: Bytes) {
    |line| < MAX_TOKEN
  }

  /** Everything a scan over `data` delivers: the lines, and whether it ended with ErrTooLong. */
  datatype Delivery = Delivery(lines: seq<Bytes>, tooLong: bool)

  function ScanAll(data: Bytes): Delivery
    decreases |data|
  {
    if data == [] then Delivery([], false)
    else
      var i := IndexByte(data, NEWLINE);
      var line := if i < 0 then data else data[..i];
      if !Fits(line) then Delivery([], true)
      else
        var rest := ScanAll(if i < 0 then [] else data[i+1..]);
        Delivery([DropCR(line)] + rest.lines, rest.tooLong)
  }

  /** One more line in front of the data. */
  lemma ScanLine(line: Bytes, rest: Bytes)
    requires NEWLINE !in line
    ensures ScanAll(line + [NEWLINE] + rest) ==
              if Fits(line) then Delivery([DropCR(line)] + ScanAll(rest).lines, ScanAll(rest).tooLong)
              else Delivery([], true)
  {
    var data := line + [NEWLINE] + rest;
    IndexOfFirst(line, NEWLINE, rest);
    assert data[..|line|] == line && data[|line|+1..] == rest;
  }

  /** A last line that no newline ends. */
  lemma ScanLastLine(line: Bytes)
    requires NEWLINE !in line && line != []
    ensures ScanAll(line) == if Fits(line) then Delivery([DropCR(line)], false) else Delivery([], true)
  {
    assert ScanAll([]) == Delivery([], false);
  }

  /** The scanner object: `rest` is the input not delivered yet, and `todo` what it will deliver. */
  class Scanner {
    var rest: Bytes
    var token: Bytes
    var tooLong: bool
    ghost var todo: Delivery

    ghost predicate Valid()
      reads this
    {
      todo == if tooLong then Delivery([], true) else ScanAll(rest)
    }

    constructor (data: Bytes)
      ensures Valid() && todo == ScanAll(data)
    {
      rest, token, tooLong, todo := data, [], false, ScanAll(data);
    }

    method Scan() returns (more: bool)
      requires Valid()
      modifies this
      ensures Valid()
      ensures more <==> old(todo).lines != []
      ensures more ==> token == old(todo).lines[0] && todo == Delivery(old(todo).lines[1..], old(todo).tooLong)
      ensures !more ==> todo == old(todo) && tooLong == todo.tooLong
    {
      if tooLong || rest == [] {
        return false;
      }
      var i := IndexByte(rest, NEWLINE);
      var line := if i < 0 then rest else rest[..i];
      if |line| >= MAX_TOKEN {
        tooLong := true;
        return false;
      }
      token := DropCR(line);
      rest := if i < 0 then [] else rest[i+1..];
      todo := Delivery(todo.lines[1..], todo.tooLong);
      return true;
    }
  }
}
