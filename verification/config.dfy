/** fleetctl's configuration file: Options.Load, Options.Save, and the login command that reads, changes
    and rewrites the file. */
module Config {
  import opened Wrappers
  import opened Utf8
  import opened GoStrings
  import opened Strconv
  import opened LineScanner

  const SERVER_KEY: Bytes := Ascii("server")
  const TOKEN_KEY: Bytes := Ascii("token")
  const DEFAULT_SERVER: Bytes := Ascii("http://localhost:8080")

  datatype Config = Config(server: Bytes, token: Bytes)

  /** What os.Open finds at the configured path. */
  datatype File = Missing | Unreadable | Contents(data: Bytes)

  datatype Error = NoError | NoPath | OpenFailed | LineTooLong | SaveFailed | LoginFailed

  // ---- What a file says ----

  /** The key and value of a line, if it has a colon: both trimmed, the value unquoted if it can be. */
  function Binding(line: Bytes): Option<(Bytes, Bytes)> {
    var i := IndexByte(line, COLON);
    if i < 0 then None
    else
      var value := TrimSpace(line[i+1..]);
      var unquoted := Unquote(value);
      Some((TrimSpace(line[..i]), if unquoted.Some? then unquoted.value else value))
  }

  predicate Binds(line: Bytes, key: Bytes) {
    Binding(line).Some? && Binding(line).value.0 == key
  }

  /** The value of the last line that binds `key`. */
  function LastBinding(lines: seq<Bytes>, key: Bytes, default: Bytes): Bytes {
    if lines == [] then default
    else if Binds(lines[|lines|-1], key) then Binding(lines[|lines|-1]).value.1
    else LastBinding(lines[..|lines|-1], key, default)
  }

  /** What Load returns for a file: the last binding of each key wins, unknown keys and lines without a
      colon are ignored, and --server overrides the file unless reading it failed. */
  function Effective(file: File, override: Bytes): (Config, Error) {
    var server := if override != [] then override else DEFAULT_SERVER;
    match file
    case Missing => (Config(server, []), NoError)
    case Unreadable => (Config(DEFAULT_SERVER, []), OpenFailed)
    case Contents(data) =>
      var scan := ScanAll(data);
      var cfg := Config(LastBinding(scan.lines, SERVER_KEY, DEFAULT_SERVER), LastBinding(scan.lines, TOKEN_KEY, []));
      if scan.tooLong then (cfg, LineTooLong)
      else (if override != [] then cfg.(server := override) else cfg, NoError)
  }

  /** The line has a colon, and what is in front of the first one is `key` with space around it. */
  predicate HasKey(line: Bytes, key: Bytes) {
    exists i :: 0 <= i < |line| && line[i] == 0x3A && 0x3A !in line[..i] && TrimSpace(line[..i]) == key
  }

  /** And what is behind it is `value` with space around it, and `value` does not begin with a quote. */
  predicate LineSays(line: Bytes, key: Bytes, value: Bytes) {
    && (exists i :: && 0 <= i < |line| && line[i] == 0x3A && 0x3A !in line[..i]
                    && TrimSpace(line[..i]) == key && TrimSpace(line[i+1..]) == value)
    && (value != [] ==> value[0] !in {0x22, 0x27, 0x60})
  }

  /** The last line with this key says `value`, or there is none and `value` is the default. */
  predicate LastSays(lines: seq<Bytes>, key: Bytes, default: Bytes, value: Bytes) {
    || ((forall l :: l in lines ==> !HasKey(l, key)) && value == default)
    || exists k :: 0 <= k < |lines| && LineSays(lines[k], key, value) && forall j :: k < j < |lines| ==> !HasKey(lines[j], key)
  }

  lemma FirstColon(line: Bytes, i: int)
    requires 0 <= i < |line| && line[i] == 0x3A && 0x3A !in line[..i]
    ensures IndexByte(line, COLON) == i
  {
    IndexOfFirst(line[..i], COLON, line[i+1..]);
    assert line == line[..i] + [COLON] + line[i+1..];
  }

  lemma HasKeyIsBinds(line: Bytes, key: Bytes)
    ensures HasKey(line, key) <==> Binds(line, key)
  {
    hide TrimSpace, Unquote;
    if i :| 0 <= i < |line| && line[i] == 0x3A && 0x3A !in line[..i] && TrimSpace(line[..i]) == key {
      FirstColon(line, i);
    }
  }

  lemma LineSaysBinds(line: Bytes, key: Bytes, value: Bytes)
    requires LineSays(line, key, value)
    ensures Binding(line) == Some((key, value))
  {
    hide TrimSpace, Unquote;
    var i :| 0 <= i < |line| && line[i] == 0x3A && 0x3A !in line[..i]
             && TrimSpace(line[..i]) == key && TrimSpace(line[i+1..]) == value;
    FirstColon(line, i);
    UnquoteNeedsQuotes(value);
  }

  lemma {:induction false} NoKeyNoBinding(lines: seq<Bytes>, key: Bytes, default: Bytes)
    requires forall l :: l in lines ==> !HasKey(l, key)
    ensures LastBinding(lines, key, default) == default
  {
    if lines != [] {
      hide HasKey, Binds;
      assert lines[|lines|-1] in lines && forall l :: l in lines[..|lines|-1] ==> l in lines;
      HasKeyIsBinds(lines[|lines|-1], key);
      NoKeyNoBinding(lines[..|lines|-1], key, default);
    }
  }

  lemma {:induction false} LastLineWins(lines: seq<Bytes>, key: Bytes, default: Bytes, k: nat, value: Bytes)
    requires k < |lines| && LineSays(lines[k], key, value) && forall j :: k < j < |lines| ==> !HasKey(lines[j], key)
    ensures LastBinding(lines, key, default) == value
    decreases |lines|
  {
    hide HasKey, LineSays, TrimSpace, Unquote;
    if k == |lines| - 1 {
      LineSaysBinds(lines[k], key, value);
    } else {
      hide Binds;
      HasKeyIsBinds(lines[|lines|-1], key);
      LastLineWins(lines[..|lines|-1], key, default, k, value);
    }
  }

  lemma LastBindingSays(lines: seq<Bytes>, key: Bytes, default: Bytes, value: Bytes)
    requires LastSays(lines, key, default, value)
    ensures LastBinding(lines, key, default) == value
  {
    hide HasKey, LineSays, LastBinding;
    if k :| 0 <= k < |lines| && LineSays(lines[k], key, value) && forall j :: k < j < |lines| ==> !HasKey(lines[j], key) {
      LastLineWins(lines, key, default, k, value);
    } else {
      NoKeyNoBinding(lines, key, default);
    }
  }

  /** `key: "value"`, as Save formats it. */
  function Line(key: Bytes, value: Bytes, wide: Printable): Bytes {
    key + [COLON, SPACE] + Quote(value, wide)
  }

  function ServerLine(cfg: Config, wide: Printable): Bytes {
    Line(SERVER_KEY, cfg.server, wide)
  }

  function TokenLine(cfg: Config, wide: Printable): Bytes {
    Line(TOKEN_KEY, cfg.token, wide)
  }

  /** The text that Save writes. */
  function Printed(cfg: Config, wide: Printable): Bytes {
    ServerLine(cfg, wide) + [NEWLINE] + TokenLine(cfg, wide) + [NEWLINE]
  }

  // ---- The commands ----

  /** What the file system does with a Save. */
  datatype WriteOutcome = Written | MkdirFails | OpenFails | Truncated(kept: nat)

  class Disk {
    var file: File

    constructor (file: File)
      ensures this.file == file
    {
      this.file := file;
    }
  }

  class Options {
    const disk: Disk
    /** path() finds a file name: --config was given or there is a home directory. */
    const located: bool
    const server: Bytes
    const wide: Printable

    constructor (disk: Disk, located: bool, server: Bytes, wide: Printable)
      ensures this.disk == disk && this.located == located && this.server == server && this.wide == wide
    {
      this.disk, this.located, this.server, this.wide := disk, located, server, wide;
    }

    /** The body of the scanner loop: a line may assign one of the two fields. */
    method Assign(cfg: Config, text: Bytes) returns (next: Config)
      ensures next.server == if Binds(text, SERVER_KEY) then Binding(text).value.1 else cfg.server
      ensures next.token == if Binds(text, TOKEN_KEY) then Binding(text).value.1 else cfg.token
    {
      hide Unquote, TrimSpace, Ascii;
      next := cfg;
      var i := IndexByte(text, COLON);
      if i < 0 {
        return;
      }
      var value := TrimSpace(text[i+1..]);
      var unquoted := Unquote(value);
      if unquoted.Some? {
        value := unquoted.value;
      }
      var key := TrimSpace(text[..i]);
      KeysDiffer();
      if key == SERVER_KEY {
        next := next.(server := value);
      } else if key == TOKEN_KEY {
        next := next.(token := value);
      }
    }

    /** The scanner loop assigns the two fields line by line; the result is the last binding of each. */
    method ReadLines(data: Bytes) returns (cfg: Config, tooLong: bool)
      ensures var scan := ScanAll(data);
              && cfg == Config(LastBinding(scan.lines, SERVER_KEY, DEFAULT_SERVER), LastBinding(scan.lines, TOKEN_KEY, []))
              && tooLong == scan.tooLong
    {
      hide Binds, Binding, Ascii, ScanAll;
      cfg := Config(DEFAULT_SERVER, []);
      var scanner := new Scanner(data);
      ghost var all := ScanAll(data);
      ghost var done := 0;
      var more := scanner.Scan();
      while more
        invariant fresh(scanner) && scanner.Valid()
        invariant more ==> done < |all.lines| && scanner.token == all.lines[done]
        invariant more ==> scanner.todo == Delivery(all.lines[done+1..], all.tooLong)
        invariant !more ==> done == |all.lines| && scanner.tooLong == all.tooLong
        invariant cfg.server == LastBinding(all.lines[..done], SERVER_KEY, DEFAULT_SERVER)
        invariant cfg.token == LastBinding(all.lines[..done], TOKEN_KEY, [])
        decreases |all.lines| - done, more
      {
        cfg := Assign(cfg, scanner.token);
        LastBindingOfPrefix(all.lines, done, SERVER_KEY, DEFAULT_SERVER);
        LastBindingOfPrefix(all.lines, done, TOKEN_KEY, []);
        done := done + 1;
        more := scanner.Scan();
      }
      assert all.lines[..done] == all.lines;
      tooLong := scanner.tooLong;
    }

    /** What it says is stated twice: as `Effective`, and in terms of the lines of the file. */
    method Load() returns (cfg: Config, err: Error)
      ensures !located ==> err == NoPath && cfg == Config(DEFAULT_SERVER, [])
      ensures located ==> (cfg, err) == Effective(disk.file, server)
      ensures located && disk.file.Missing? ==>
                err == NoError && cfg == Config(if server != [] then server else Ascii("http://localhost:8080"), [])
      ensures located && disk.file.Unreadable? ==> err == OpenFailed && cfg == Config(Ascii("http://localhost:8080"), [])
      ensures located && disk.file.Contents? ==> err == if ScanAll(disk.file.data).tooLong then LineTooLong else NoError
      ensures located && disk.file.Contents? ==>
                && (forall value | LastSays(ScanAll(disk.file.data).lines, Ascii("token"), [], value) :: cfg.token == value)
                && (forall value | LastSays(ScanAll(disk.file.data).lines, Ascii("server"), Ascii("http://localhost:8080"), value) ::
                      cfg.server == if server != [] && err == NoError then server else value)
    {
      FileSays(disk.file, server);
      hide LastBinding, ScanAll, LastSays, Ascii;
      cfg := Config(DEFAULT_SERVER, []);
      if !located {
        return cfg, NoPath;
      }
      if disk.file.Missing? {
        if server != [] {
          cfg := cfg.(server := server);
        }
        return cfg, NoError;
      }
      if disk.file.Unreadable? {
        return cfg, OpenFailed;
      }
      var tooLong: bool;
      cfg, tooLong := ReadLines(disk.file.data);
      if tooLong {
        return cfg, LineTooLong;
      }
      if server != [] {
        cfg := cfg.(server := server);
      }
      return cfg, NoError;
    }

    method Save(cfg: Config, outcome: WriteOutcome) returns (err: Error)
      modifies disk
      ensures !located ==> err == NoPath && disk.file == old(disk.file)
      ensures located ==> (err == NoError <==> outcome.Written?) && (err == NoError || err == SaveFailed)
      ensures located && outcome.Written? ==> disk.file == Contents(Printed(cfg, wide))
      ensures outcome.MkdirFails? || outcome.OpenFails? ==> disk.file == old(disk.file)
      ensures located && outcome.Written? && AllPlain(cfg.server, wide) && AllPlain(cfg.token, wide) ==>
                disk.file == Contents(Ascii("server: \"") + cfg.server + Ascii("\"\ntoken: \"") + cfg.token + Ascii("\"\n"))
    {
      PlainText(cfg, wide);
      if !located {
        return NoPath;
      }
      if outcome.MkdirFails? || outcome.OpenFails? {
        return SaveFailed;
      }
      var content := Printed(cfg, wide);
      if outcome.Truncated? && outcome.kept < |content| {
        disk.file := Contents(content[..outcome.kept]);
        return SaveFailed;
      }
      disk.file := Contents(content);
      return if outcome.Written? then NoError else SaveFailed;
    }

    /** The login command: the first Load picks the server to ask, and the answer is a token or nothing.
        The file is read again before it is rewritten. */
    method Login(answer: Bytes -> Option<Bytes>, outcome: WriteOutcome) returns (err: Error)
      modifies disk
      ensures located && Effective(old(disk.file), server).1 == NoError ==>
                var before := Effective(old(disk.file), server).0;
                && (answer(before.server).None? ==> err == LoginFailed && disk.file == old(disk.file))
                && (answer(before.server).Some? && outcome.Written? ==>
                      err == NoError && disk.file == Contents(Printed(before.(token := answer(before.server).value), wide)))
      ensures !located || Effective(old(disk.file), server).1 != NoError ==>
                err != NoError && disk.file == old(disk.file)
      ensures err == NoError ==> outcome.Written?
    {
      var client, loadErr := Load();
      if loadErr != NoError {
        return loadErr;
      }
      var token := answer(client.server);
      if token.None? {
        return LoginFailed;
      }
      var cfg, againErr := Load();
      if againErr != NoError {
        return againErr;
      }
      cfg := cfg.(token := token.value);
      err := Save(cfg, outcome);
    }
  }

  /** What a file without quotes says, in terms of its lines. */
  lemma FileSays(file: File, override: Bytes)
    ensures file.Contents? ==>
              var (cfg, err) := Effective(file, override);
              && (forall value | LastSays(ScanAll(file.data).lines, Ascii("token"), [], value) :: cfg.token == value)
              && (forall value | LastSays(ScanAll(file.data).lines, Ascii("server"), Ascii("http://localhost:8080"), value) ::
                    cfg.server == if override != [] && err == NoError then override else value)
  {
    hide LastSays, LastBinding, ScanAll;
    if file.Contents? {
      var lines := ScanAll(file.data).lines;
      forall value | LastSays(lines, TOKEN_KEY, [], value) ensures LastBinding(lines, TOKEN_KEY, []) == value {
        LastBindingSays(lines, TOKEN_KEY, [], value);
      }
      forall value | LastSays(lines, SERVER_KEY, DEFAULT_SERVER, value)
        ensures LastBinding(lines, SERVER_KEY, DEFAULT_SERVER) == value
      {
        LastBindingSays(lines, SERVER_KEY, DEFAULT_SERVER, value);
      }
    }
  }

  // ---- Reading back what was written ----

  /** Each printed line fits the scanner's buffer. */
  predicate PrintsShort(cfg: Config, wide: Printable) {
    Fits(ServerLine(cfg, wide)) && Fits(TokenLine(cfg, wide))
  }

  lemma KeysDiffer()
    ensures SERVER_KEY != TOKEN_KEY
  {
    assert SERVER_KEY[0] != TOKEN_KEY[0];
  }

  lemma LastBindingOfPrefix(lines: seq<Bytes>, n: nat, key: Bytes, default: Bytes)
    requires n < |lines|
    ensures LastBinding(lines[..n+1], key, default) ==
              if Binds(lines[n], key) then Binding(lines[n]).value.1 else LastBinding(lines[..n], key, default)
  {
    assert lines[..n+1][..n] == lines[..n];
  }

  lemma QuoteEnds(value: Bytes, wide: Printable)
    ensures var q := Quote(value, wide); |q| >= 2 && q[0] == QUOTE && q[|q|-1] == QUOTE
  {
  }

  /** A line `key: "..."` binds the key to the string that was quoted. */
  lemma QuotedLineBinds(key: Bytes, value: Bytes, wide: Printable)
    requires COLON !in key && NEWLINE !in key && TrimSpace(key) == key
    ensures Binding(Line(key, value, wide)) == Some((key, value))
    ensures DropCR(Line(key, value, wide)) == Line(key, value, wide)
    ensures NEWLINE !in Line(key, value, wide)
  {
    hide Quote, Unquote, TrimSpace;
    QuoteEnds(value, wide);
    var q, line := Quote(value, wide), Line(key, value, wide);
    assert line == key + [COLON] + ([SPACE] + q);
    IndexOfFirst(key, COLON, [SPACE] + q);
    assert line[..|key|] == key && line[|key|+1..] == [SPACE] + q;
    TrimKeeps(q);
    UnquoteOfQuote(value, wide);
    QuoteSize(value, wide);
    assert line[|line|-1] == q[|q|-1];
  }

  lemma KeysArePlain(key: Bytes)
    requires key == SERVER_KEY || key == TOKEN_KEY
    ensures COLON !in key && NEWLINE !in key && TrimSpace(key) == key
  {
    assert key[0] == 0x73 || key[0] == 0x74;
    assert key[|key|-1] == 0x72 || key[|key|-1] == 0x6E;
    TrimKeeps(key);
    assert forall i :: 0 <= i < |key| ==> 0x61 <= key[i] <= 0x7A;
  }

  lemma PrintedLinesBind(cfg: Config, wide: Printable)
    ensures Binding(ServerLine(cfg, wide)) == Some((SERVER_KEY, cfg.server))
    ensures Binding(TokenLine(cfg, wide)) == Some((TOKEN_KEY, cfg.token))
    ensures ScanAll(Printed(cfg, wide)) ==
              if !Fits(ServerLine(cfg, wide)) then Delivery([], true)
              else if !Fits(TokenLine(cfg, wide)) then Delivery([ServerLine(cfg, wide)], true)
              else Delivery([ServerLine(cfg, wide), TokenLine(cfg, wide)], false)
  {
    KeysArePlain(SERVER_KEY);
    KeysArePlain(TOKEN_KEY);
    QuotedLineBinds(SERVER_KEY, cfg.server, wide);
    QuotedLineBinds(TOKEN_KEY, cfg.token, wide);
    TwoLines(ServerLine(cfg, wide), TokenLine(cfg, wide));
  }

  lemma TwoLines(first: Bytes, second: Bytes)
    requires NEWLINE !in first && NEWLINE !in second
    ensures ScanAll(first + [NEWLINE] + second + [NEWLINE]) ==
              if !Fits(first) then Delivery([], true)
              else if !Fits(second) then Delivery([DropCR(first)], true)
              else Delivery([DropCR(first), DropCR(second)], false)
  {
    assert first + [NEWLINE] + second + [NEWLINE] == first + [NEWLINE] + (second + [NEWLINE] + []);
    ScanLine(first, second + [NEWLINE] + []);
    ScanLine(second, []);
    assert ScanAll([]) == Delivery([], false);
  }

  /** Load after Save. It gives back the saved configuration, byte for byte, exactly if both printed
      lines fit the scanner's buffer, and otherwise an error; --server still overrides. */
  lemma LoadAfterSave(cfg: Config, wide: Printable, override: Bytes)
    ensures PrintsShort(cfg, wide) ==>
              Effective(Contents(Printed(cfg, wide)), override) ==
              (if override != [] then cfg.(server := override) else cfg, NoError)
    ensures !PrintsShort(cfg, wide) ==> Effective(Contents(Printed(cfg, wide)), override).1 == LineTooLong
  {
    hide ServerLine, TokenLine, Binding, ScanAll, Printed, Ascii;
    PrintedLinesBind(cfg, wide);
    var first, second := ServerLine(cfg, wide), TokenLine(cfg, wide);
    KeysDiffer();
    var one, two := [first], [first, second];
    assert one[..0] == [] && two[..1] == one;
    assert LastBinding(one, SERVER_KEY, DEFAULT_SERVER) == cfg.server;
  }

  /** Fields of up to 16381 bytes always survive, whatever is in them. */
  lemma ShortFieldsSurvive(cfg: Config, wide: Printable)
    requires |cfg.server| <= 16381 && |cfg.token| <= 16381
    ensures Effective(Contents(Printed(cfg, wide)), []) == (cfg, NoError)
  {
    QuoteSize(cfg.server, wide);
    QuoteSize(cfg.token, wide);
    LoadAfterSave(cfg, wide, []);
  }

  lemma {:induction false} EscapesQuadruple(n: nat, wide: Printable)
    ensures |QuoteBody(seq(n, i => 0), wide)| == 4 * n
  {
    if n > 0 {
      var s: Bytes := seq(n, i => 0);
      assert s[Width(s)..] == seq(n - 1, i => 0);
      EscapesQuadruple(n - 1, wide);
    }
  }

  /** 16381 is the best such bound: one more byte can already be too many. */
  lemma BoundIsTight(wide: Printable)
    ensures
      var cfg := Config(seq(16382, i => 0), []);
      Effective(Contents(Printed(cfg, wide)), []).1 == LineTooLong
  {
    EscapesQuadruple(16382, wide);
    LoadAfterSave(Config(seq(16382, i => 0), []), wide, []);
  }

  /** Login on an arbitrary file that can be read: afterwards the configuration is the new token with the
      overriding server if one was given, and with the server that was in effect before otherwise. */
  lemma LoadAfterLogin(file: File, override: Bytes, token: Bytes, wide: Printable)
    requires Effective(file, override).1 == NoError
    requires PrintsShort(Effective(file, override).0.(token := token), wide)
    ensures
      var saved := Contents(Printed(Effective(file, override).0.(token := token), wide));
      var inEffect := if override != [] then override else Effective(file, []).0.server;
      Effective(saved, []) == (Config(inEffect, token), NoError)
  {
    LoadAfterSave(Effective(file, override).0.(token := token), wide, []);
  }

  // ---- Plain fields ----

  /** What Save writes for fields that need no escapes: the two lines as a person would write them. */
  lemma PlainText(cfg: Config, wide: Printable)
    ensures Printed(cfg, wide) ==
              Ascii("server: ") + Quote(cfg.server, wide) + Ascii("\ntoken: ") + Quote(cfg.token, wide) + Ascii("\n")
    ensures AllPlain(cfg.server, wide) && AllPlain(cfg.token, wide) ==>
              Printed(cfg, wide) ==
              Ascii("server: \"") + cfg.server + Ascii("\"\ntoken: \"") + cfg.token + Ascii("\"\n")
  {
    TextPieces();
    hide Quote, AllPlain, Ascii;
    QuoteIsPlain(cfg.server, wide);
    QuoteIsPlain(cfg.token, wide);
  }

  lemma TextPieces()
    ensures Ascii("server: ") == SERVER_KEY + [COLON, SPACE] && Ascii("\n") == [NEWLINE]
    ensures Ascii("\ntoken: ") == [NEWLINE] + (TOKEN_KEY + [COLON, SPACE])
    ensures Ascii("server: \"") == Ascii("server: ") + [0x22] && Ascii("\"\n") == [0x22] + Ascii("\n")
    ensures Ascii("\"\ntoken: \"") == [0x22] + Ascii("\ntoken: ") + [0x22]
  {
  }

  /** Plain fields come back exactly if each is a few bytes shorter than the scanner's buffer. */
  lemma PlainFieldsSurvive(cfg: Config, wide: Printable)
    requires AllPlain(cfg.server, wide) && AllPlain(cfg.token, wide)
    ensures Effective(Contents(Printed(cfg, wide)), []) == (cfg, NoError) <==>
              |cfg.server| <= 65525 && |cfg.token| <= 65526
  {
    hide Effective, Printed, Quote, AllPlain;
    QuoteIsPlain(cfg.server, wide);
    QuoteIsPlain(cfg.token, wide);
    LoadAfterSave(cfg, wide, []);
  }
}
