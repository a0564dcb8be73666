/**
 The logger: it receives the output of the remote scripts in chunks of any size, cuts
 it into lines, forwards the event lines to the event pipe that gates the task
 protocol, and shows or logs each line according to the verbosity.
 */
module Logger {
  import opened Wrappers
  import opened Text

  const SWC_VERBOSE_1 := 1
  const SWC_VERBOSE_3 := 3
  const SWC_VERBOSE_6 := 6

  /**
   What the logger is told at start, the event table, and the outcome of each write:
   `sinkOk(n)` says whether the n-th write to an output succeeds.
   */
  datatype Config = Config(
    verbose: int,                      // verbose_level
    logLevel: int,                     // loglevelM
    shownFrom: int,                    // g_verbose_threshold
    swbisFrom: int,                    // verbose_swbis_event_thresholdG
    eventPipe: bool,                   // swi_event_fd >= 0
    outOpen: bool,                     // vofd >= 0
    logOpen: bool,                     // logfdM > 0
    eventLevel: string -> Option<int>, // the verbosity from which an event is shown
    isError: string -> bool,           // swevent_is_error
    status: string -> int,             // the status in the event line
    sinkOk: nat -> bool)

  /** Everything the logger changes but its line buffer. */
  datatype State = State(
    inScript: bool,                    // is_in_control_script
    events: seq<string>,               // lines handed to the event pipe
    out: seq<string>,
    err: seq<string>,
    log: seq<string>,
    writes: nat)

  // ------------------------------------------------------------ classifying a line

  /** What the logger looks for in a line. */
  datatype Kind = Kind(
    begins: bool, ends: bool,                // marks of a control script
    posix: bool, swi: bool, swbis: bool,     // the three families of events
    unixError: bool, sshError: bool,
    sshPrefixed: bool)                       // already says "ssh: "
  {
    /** is_event */
    predicate Event() { posix || swi || swbis }
  }

  function Classify(line: string): Kind
  {
    Kind(Contains(line, "SW_CONTROL_SCRIPT_BEGINS"), Contains(line, "SW_CONTROL_SCRIPT_ENDS"),
         Contains(line, ": SW_"), Contains(line, ": SWI_"), Contains(line, ": SWBIS_"),
         IsUnixSysError(line), IsSshSysError(line),
         Contains(line, "ssh: "))
  }

  const SSH_ERRORS := [
    "DOING SOMETHING NASTY!", "man-in-the-middle attack!", "Offending key in", "Offending key for",
    "Connection refused", " Name or service not known"]

  predicate IsSshSysError(line: string)
  {
    exists i | 0 <= i < |SSH_ERRORS| :: Contains(line, SSH_ERRORS[i])
  }

  const UNIX_ERRORS := [
    "bnormal termination", "bnormal Termination", "SIGABRT", "SIGINT", "ermission denied", "ot permitted",
    " input/output", " Input/Output", " i/o", " I/O", "i/o ", "I/O ", " error", " Error", "error ", "Error ",
    "roken pipe", "ead-only", "ead only", "o such file", "o such device", "o space", "ccess denied",
    "out of memory", "ot enough space", "format error", "Bad ", "bad file", "Too many ", "too many ",
    "oo large ", "nvalid arg", "Unexpected EOF in archive", "nexpected eof in archive", "NUL blocks at start"]

  predicate IsUnixSysError(line: string)
  {
    exists i | 0 <= i < |UNIX_ERRORS| :: Contains(line, UNIX_ERRORS[i])
  }

  /** An event line, one that is forwarded to the event pipe. */
  predicate IsEvent(line: string)
  {
    Classify(line).Event()
  }

  /** detect_special_verbose_status */
  function ScriptFlag(flag: bool, k: Kind): bool
  {
    if k.begins then true else if k.ends then false else flag
  }

  /** The status of an event line: an error event that carries none counts as failed. */
  function EventStatus(cfg: Config, line: string): int
  {
    if cfg.isError(line) && cfg.status(line) == 0 then -1 else cfg.status(line)
  }

  /** swlib_test_verbose; the event structure is only looked up when there is an event pipe. */
  predicate EventShown(cfg: Config, k: Kind, line: string)
  {
    || (cfg.eventPipe && cfg.eventLevel(line).Some? && cfg.verbose >= cfg.eventLevel(line).value)
    || (cfg.verbose >= SWC_VERBOSE_1 && EventStatus(cfg, line) != 0)
    || (cfg.verbose >= SWC_VERBOSE_3 && k.posix)
    || (cfg.verbose >= cfg.swbisFrom && k.swbis)
    || (cfg.verbose >= SWC_VERBOSE_6 && k.swi)
    || (cfg.verbose >= cfg.swbisFrom && !k.swi)
  }

  // ------------------------------------------------------------ where a line goes

  /** Where the text of a line is written: the errors or the output, if shown, and the log file. */
  datatype Route = Route(toErr: bool, shown: bool, logged: bool, text: string)

  function RouteOf(cfg: Config, inScript: bool, k: Kind, line: string): Route
  {
    if k.Event() then
      var failed := EventStatus(cfg, line) != 0;
      var reachable := failed || cfg.outOpen;
      Route(failed, reachable && EventShown(cfg, k, line), reachable && !k.swi, line)
    else
      var trouble := k.unixError || k.sshError || cfg.verbose >= SWC_VERBOSE_6;
      var prefix := if k.sshError && !k.unixError && !k.sshPrefixed then "ssh: " else "";
      Route(trouble,
            cfg.verbose > 0 && (trouble || cfg.verbose >= cfg.shownFrom || inScript),
            cfg.verbose > 0 && (if trouble then cfg.logLevel > 0 else cfg.logLevel >= 2 || inScript),
            prefix + line)
  }

  /** The writes of one line, each of which may fail; a failed log write wins over a failed display. */
  function Deliver(cfg: Config, st: State, r: Route): (State, int)
  {
    var okShow := cfg.sinkOk(st.writes);
    var st1 := if !r.shown then st
      else if !okShow then st.(writes := st.writes + 1)
      else if r.toErr then st.(writes := st.writes + 1, err := st.err + [r.text])
      else st.(writes := st.writes + 1, out := st.out + [r.text]);
    var eret := if !r.shown then 0 else if okShow then |r.text| else -1;
    if r.logged && cfg.logOpen then
      var okLog := cfg.sinkOk(st1.writes);
      var st2 := st1.(writes := st1.writes + 1, log := if okLog then st1.log + [r.text] else st1.log);
      (st2, if okLog then eret else -1)
    else (st1, eret)
  }

  /** What one line does. */
  function LineStep(cfg: Config, st: State, line: string): (State, int)
  {
    var k := Classify(line);
    var flag := ScriptFlag(st.inScript, k);
    var events := if k.Event() && cfg.eventPipe then st.events + [line] else st.events;
    Deliver(cfg, st.(inScript := flag, events := events), RouteOf(cfg, flag, k, line))
  }

  // ------------------------------------------------------------ what a chunk does

  /** The result of handling a buffer: the new state, what stays in the buffer, and the value returned. */
  datatype Fed = Fed(st: State, residue: string, ret: int)
  {
    /** The same with `n` more bytes written before; a failure stays a failure. */
    function Plus(n: int): Fed
    {
      if ret < 0 then this else this.(ret := ret + n)
    }
  }

  /** What is done with one line. */
  type Step = (State, string) -> (State, int)

  /** Handle the complete lines at the front of the buffer, one by one; stop at the first one that cannot be written. */
  function Drain(step: Step, st: State, buf: string): Fed
    decreases |buf|
  {
    var k := IndexOf(buf, '\n');
    if k == |buf| then Fed(st, buf, 0)
    else
      var (st', ret) := step(st, buf[..k + 1]);
      if ret < 0 then Fed(st', buf[..k + 1], -1)
      else
        Drain(step, st', buf[k + 1..]).Plus(ret)
  }

  lemma DrainNext(step: Step, st: State, buf: string, st': State, ret: int, tot: nat)
    requires '\n' in buf
    requires (st', ret) == step(st, buf[..IndexOf(buf, '\n') + 1])
    ensures ret < 0 ==> Drain(step, st, buf).Plus(tot) == Fed(st', buf[..IndexOf(buf, '\n') + 1], -1)
    ensures ret >= 0 ==> Drain(step, st, buf).Plus(tot) == Drain(step, st', buf[IndexOf(buf, '\n') + 1..]).Plus(tot + ret)
  {
  }

  /** The part of a chunk that strncat appends. */
  function Cut(chunk: string): string
  {
    chunk[..IndexOf(chunk, '\0')]
  }

  /** The line handler of a logger. */
  function Handler(cfg: Config): Step
  {
    (st, line) => LineStep(cfg, st, line)
  }

  // ------------------------------------------------------------ the code

  class LogReader {
    const cfg: Config
    var linebuf: string
    var inControlScript: bool
    var events: seq<string>
    var out: seq<string>
    var err: seq<string>
    var log: seq<string>
    var writes: nat

    constructor (cfg: Config)
      ensures this.cfg == cfg && linebuf == "" && Now() == State(false, [], [], [], [], 0)
    {
      this.cfg := cfg;
      linebuf, inControlScript, events, out, err, log, writes := "", false, [], [], [], [], 0;
    }

    ghost function Now(): State
      reads this
    {
      State(inControlScript, events, out, err, log, writes)
    }

    /** writeline */
    method WriteLine(doStderr: bool, doLog: bool, toErr: bool, msgPrefix: string, line: string) returns (ret: int)
      modifies this`out, this`err, this`log, this`writes
      ensures var text := if msgPrefix != "" && !Contains(line, msgPrefix) then msgPrefix + line else line;
              (Now(), ret) == Deliver(cfg, old(Now()), Route(toErr, doStderr, doLog, text))
    {
      var text := line;
      if msgPrefix != "" && !Contains(line, msgPrefix) {
        text := msgPrefix + line;
      }
      var eret, lret := 0, 0;
      if doStderr {
        if !cfg.sinkOk(writes) {
          eret := -1;
        } else {
          eret := |text|;
          if toErr {
            err := err + [text];
          } else {
            out := out + [text];
          }
        }
        writes := writes + 1;
      }
      if doLog && cfg.logOpen {
        if !cfg.sinkOk(writes) {
          lret := -1;
        } else {
          log := log + [text];
        }
        writes := writes + 1;
      }
      ret := if lret < 0 then lret else eret;
    }

    /** The event branch of write_error_line. */
    method WriteEventLine(k: Kind, line: string) returns (ret: int)
      requires k.Event()
      modifies this`events, this`out, this`err, this`log, this`writes
      ensures (Now(), ret) ==
              var st := old(Now());
              Deliver(cfg, if cfg.eventPipe then st.(events := st.events + [line]) else st,
                      RouteOf(cfg, inControlScript, k, line))
    {
      ret := 0;
      if cfg.eventPipe {
        events := events + [line];
      }
      var doLog := !k.swi;
      var doStderr := EventShown(cfg, k, line);
      if doLog || doStderr {
        if EventStatus(cfg, line) != 0 {
          ret := WriteLine(doStderr, doLog, true, "", line);
        } else if cfg.outOpen {
          ret := WriteLine(doStderr, doLog, false, "", line);
        }
      }
    }

    /** The other branch of write_error_line. */
    method WriteTextLine(k: Kind, line: string) returns (ret: int)
      requires !k.Event() && k.sshPrefixed == Contains(line, "ssh: ")
      modifies this`out, this`err, this`log, this`writes
      ensures (Now(), ret) == Deliver(cfg, old(Now()), RouteOf(cfg, inControlScript, k, line))
    {
      ret := 0;
      var doLog := cfg.logLevel > 0;
      if cfg.verbose > 0 {
        var isSsh := !k.unixError && k.sshError;
        if k.unixError || isSsh || cfg.verbose >= SWC_VERBOSE_6 {
          ret := WriteLine(true, doLog, true, if isSsh then "ssh: " else "", line);
        } else {
          doLog := cfg.logLevel >= 2 || inControlScript;
          var doStderr := cfg.verbose >= cfg.shownFrom || inControlScript;
          ret := WriteLine(doStderr, doLog, false, "", line);
        }
      }
      assert "" + line == line;
    }

    /** write_error_line: one line, which is all `linebuf` holds at the moment. */
    method WriteErrorLine() returns (ret: int)
      modifies this`inControlScript, this`events, this`out, this`err, this`log, this`writes
      ensures (Now(), ret) == LineStep(cfg, old(Now()), linebuf)
    {
      var k := Classify(linebuf);
      if k.begins {
        inControlScript := true;
      } else if k.ends {
        inControlScript := false;
      }
      if k.Event() {
        ret := WriteEventLine(k, linebuf);
      } else {
        ret := WriteTextLine(k, linebuf);
      }
    }

    /** One turn of write_log: the text after the newline is put aside while the line is written. */
    method HandleLine(k: nat) returns (r: int)
      requires k == IndexOf(linebuf, '\n') < |linebuf|
      modifies this
      ensures r < 0 ==> Drain(Handler(cfg), old(Now()), old(linebuf)) == Fed(Now(), linebuf, -1)
      ensures r >= 0 ==> |linebuf| < old(|linebuf|)
      ensures r >= 0 ==> Drain(Handler(cfg), old(Now()), old(linebuf)) == Drain(Handler(cfg), Now(), linebuf).Plus(r)
    {
      var rest := linebuf[k + 1..];
      assert linebuf == linebuf[..k + 1] + rest;
      linebuf := linebuf[..k + 1];
      r := WriteErrorLine();
      DrainNext(Handler(cfg), old(Now()), old(linebuf), Now(), r, 0);
      if r >= 0 {
        linebuf := rest;
      }
    }

    /** write_log */
    method WriteLog(chunk: string) returns (ret: int)
      modifies this
      ensures Fed(Now(), linebuf, ret) == Drain(Handler(cfg), old(Now()), old(linebuf) + Cut(chunk))
    {
      linebuf := linebuf + chunk[..IndexOf(chunk, '\0')];
      ghost var all := Drain(Handler(cfg), Now(), linebuf);
      var tot := 0;
      var k := IndexOf(linebuf, '\n');
      while k < |linebuf|
        invariant k == IndexOf(linebuf, '\n') && tot >= 0
        invariant all == Drain(Handler(cfg), Now(), linebuf).Plus(tot)
        decreases |linebuf|
      {
        var r := HandleLine(k);
        if r < 0 {
          return -1;
        }
        if r > 0 {
          tot := tot + r;
        }
        k := IndexOf(linebuf, '\n');
      }
      ret := tot;
    }
  }

  // ------------------------------------------------------------ a stream of lines

  /** One line after the other, with no failure. */
  function Fold(step: Step, st: State, lines: seq<string>): State
    decreases |lines|
  {
    if lines == [] then st else Fold(step, step(st, lines[0]).0, lines[1..])
  }

  lemma {:induction false} FoldAppend(step: Step, st: State, a: seq<string>, b: seq<string>)
    ensures Fold(step, st, a + b) == Fold(step, Fold(step, st, a), b)
    decreases |a|
  {
    if a == [] {
      assert a + b == b;
    } else {
      assert (a + b)[1..] == a[1..] + b;
      FoldAppend(step, step(st, a[0]).0, a[1..], b);
    }
  }

  ghost predicate NeverFails(step: Step)
  {
    forall st: State, line: string :: step(st, line).1 >= 0
  }

  /** Handling a buffer is handling its complete lines and keeping the rest. */
  lemma {:induction false} DrainIsFold(step: Step, st: State, buf: string)
    requires NeverFails(step)
    ensures Drain(step, st, buf).ret >= 0
    ensures Drain(step, st, buf).st == Fold(step, st, Lines(buf))
    ensures Drain(step, st, buf).residue == Residue(buf)
    decreases |buf|
  {
    var k := IndexOf(buf, '\n');
    if k == |buf| {
    } else {
      var st' := step(st, buf[..k + 1]).0;
      DrainIsFold(step, st', buf[k + 1..]);
      assert ([buf[..k + 1]] + Lines(buf[k + 1..]))[1..] == Lines(buf[k + 1..]);
    }
  }

  /** Chunk after chunk, as `WriteLog` is called. */
  function FeedAll(step: Step, st: State, buf: string, chunks: seq<string>): Fed
    decreases |chunks|
  {
    if chunks == [] then Fed(st, buf, 0)
    else
      var f := Drain(step, st, buf + Cut(chunks[0]));
      FeedAll(step, f.st, f.residue, chunks[1..])
  }

  ghost predicate AllWritesSucceed(cfg: Config)
  {
    forall n: nat :: cfg.sinkOk(n)
  }

  lemma HandlerNeverFails(cfg: Config)
    requires AllWritesSucceed(cfg)
    ensures NeverFails(Handler(cfg))
  {
  }

  /** What is appended to the buffer, chunk after chunk. */
  function CutAll(chunks: seq<string>): string
  {
    if chunks == [] then "" else Cut(chunks[0]) + CutAll(chunks[1..])
  }

  /** A buffer that arrives in two parts. */
  lemma DrainInTwo(step: Step, st: State, a: string, b: string)
    requires NeverFails(step)
    ensures var f := Drain(step, st, a);
            && '\n' !in f.residue
            && Fold(step, f.st, Lines(f.residue + b)) == Fold(step, st, Lines(a + b))
            && Residue(f.residue + b) == Residue(a + b)
  {
    DrainIsFold(step, st, a);
    SplittingConserves(a);
    LinesAppend(a, b);
    FoldAppend(step, st, Lines(a), Lines(Residue(a) + b));
  }

  lemma {:induction false} FeedAllIsFold(step: Step, st: State, buf: string, chunks: seq<string>)
    requires NeverFails(step) && '\n' !in buf
    ensures var f := FeedAll(step, st, buf, chunks);
            && f.st == Fold(step, st, Lines(buf + CutAll(chunks)))
            && f.residue == Residue(buf + CutAll(chunks))
    decreases |chunks|
  {
    if chunks == [] {
      assert buf + "" == buf;
      IndexOfIs(buf, '\n', |buf|);
    } else {
      var c := Cut(chunks[0]);
      var f := Drain(step, st, buf + c);
      DrainInTwo(step, st, buf + c, CutAll(chunks[1..]));
      FeedAllIsFold(step, f.st, f.residue, chunks[1..]);
      Assoc(buf, c, CutAll(chunks[1..]));
    }
  }

  /** Nothing but NUL bytes follows a NUL byte. */
  predicate NoTextAfterNul(s: string)
  {
    forall j :: IndexOf(s, '\0') <= j < |s| ==> s[j] == '\0'
  }

  lemma CutLater(c: string, rest: string)
    requires '\0' !in c
    ensures Cut(c) == c && Cut(c + rest) == c + Cut(rest)
    ensures NoTextAfterNul(c + rest) ==> NoTextAfterNul(rest)
  {
    var s, k := c + rest, IndexOf(rest, '\0');
    IndexOfIs(c, '\0', |c|);
    assert s[..|c| + k] == c + rest[..k];
    IndexOfIs(s, '\0', |c| + k);
    forall j | k <= j < |rest| && NoTextAfterNul(s) ensures rest[j] == '\0' {
      assert rest[j] == s[|c| + j];
    }
  }

  lemma CutEarlier(c: string, rest: string)
    requires '\0' in c
    ensures Cut(c + rest) == Cut(c)
    ensures NoTextAfterNul(c + rest) ==> Cut(rest) == "" && NoTextAfterNul(rest)
  {
    var s, k := c + rest, IndexOf(c, '\0');
    assert s[..k] == c[..k];
    IndexOfIs(s, '\0', k);
    forall j | 0 <= j < |rest| && NoTextAfterNul(s) ensures rest[j] == '\0' {
      assert rest[j] == s[|c| + j];
    }
  }

  lemma {:induction false} CutsAddUp(chunks: seq<string>)
    requires NoTextAfterNul(Concat(chunks))
    ensures CutAll(chunks) == Cut(Concat(chunks))
  {
    if chunks == [] {
    } else {
      var c, rest := chunks[0], Concat(chunks[1..]);
      if '\0' in c {
        CutEarlier(c, rest);
      } else {
        CutLater(c, rest);
      }
      CutsAddUp(chunks[1..]);
    }
  }

  lemma TwoParts(a: string, b: string)
    ensures Concat([a, b]) == a + b && CutAll([a, b]) == Cut(a) + Cut(b)
  {
    var one := [b];
    assert one[1..] == [];
    assert Concat(one) == b && CutAll(one) == Cut(b) by {
      assert b + "" == b && Cut(b) + "" == Cut(b);
    }
    assert [a, b][1..] == one;
  }

  lemma CutParts(s: string, j: nat)
    requires IndexOf(s, '\0') <= j < |s| && s[j] != '\0'
    ensures Cut(s[..j]) == Cut(s) && Cut(s[j..]) != ""
  {
    var k := IndexOf(s, '\0');
    var a := s[..j];
    assert a[..k] == s[..k];
    IndexOfIs(a, '\0', k);
    assert s[j..][0] == s[j];
  }

  /** Text after a NUL byte: the stream in one chunk loses it, and in these two chunks it does not. */
  lemma TwoChunks(s: string, j: nat)
    requires IndexOf(s, '\0') <= j < |s| && s[j] != '\0'
    ensures Concat([s[..j], s[j..]]) == s
    ensures CutAll([s[..j], s[j..]]) == Cut(s) + Cut(s[j..]) && Cut(s[j..]) != ""
  {
    TwoParts(s[..j], s[j..]);
    CutParts(s, j);
    assert s[..j] + s[j..] == s;
  }

  /** However a stream is cut, the same text is handled: if and only if no text follows a NUL byte in it. */
  lemma CutsAgreeIff(s: string)
    ensures (forall chunks :: Concat(chunks) == s ==> CutAll(chunks) == Cut(s)) <==> NoTextAfterNul(s)
  {
    if NoTextAfterNul(s) {
      forall chunks | Concat(chunks) == s ensures CutAll(chunks) == Cut(s) {
        CutsAddUp(chunks);
      }
    } else {
      var j :| IndexOf(s, '\0') <= j < |s| && s[j] != '\0';
      TwoChunks(s, j);
      assert CutAll([s[..j], s[j..]]) != Cut(s);
    }
  }

  /** Fed in these chunks, the logger ends as if the stream had arrived at once. */
  ghost predicate AsAtOnce(cfg: Config, st: State, chunks: seq<string>)
  {
    var f, once := FeedAll(Handler(cfg), st, "", chunks), Drain(Handler(cfg), st, Cut(Concat(chunks)));
    f.st == once.st && f.residue == once.residue
  }

  lemma AtOnce(cfg: Config, st: State, chunks: seq<string>)
    requires AllWritesSucceed(cfg) && NoTextAfterNul(Concat(chunks))
    ensures AsAtOnce(cfg, st, chunks)
  {
    HandlerNeverFails(cfg);
    FeedAllIsFold(Handler(cfg), st, "", chunks);
    CutsAddUp(chunks);
    DrainIsFold(Handler(cfg), st, Cut(Concat(chunks)));
    assert "" + CutAll(chunks) == CutAll(chunks);
  }

  /** A logger that shows every line on the error output. */
  function Talkative(): (cfg: Config)
    ensures AllWritesSucceed(cfg)
  {
    Config(SWC_VERBOSE_6, 0, 0, 0, false, true, false, _ => None, _ => false, _ => 1, _ => true)
  }

  lemma {:induction false} OneWriteEach(st: State, lines: seq<string>)
    ensures Fold(Handler(Talkative()), st, lines).writes == st.writes + |lines|
    decreases |lines|
  {
    if lines == [] {
    } else {
      OneWriteEach(Handler(Talkative())(st, lines[0]).0, lines[1..]);
    }
  }

  /** More text makes more lines or a longer residue. */
  lemma MoreText(a: string, b: string)
    requires b != ""
    ensures |Lines(a + b)| > |Lines(a)| || |Residue(a + b)| > |Residue(a)|
  {
    LinesAppend(a, b);
    SplittingConserves(a);
    if '\n' !in b {
      var r := Residue(a) + b;
      IndexOfIs(r, '\n', |r|);
    } else {
      assert '\n' in Residue(a) + b;
    }
  }

  /** What a talkative logger has written and keeps tells how much text it was given. */
  lemma TalkativeEnd(st: State, chunks: seq<string>)
    ensures var f := FeedAll(Handler(Talkative()), st, "", chunks);
            f.st.writes == st.writes + |Lines(CutAll(chunks))| && f.residue == Residue(CutAll(chunks))
  {
    HandlerNeverFails(Talkative());
    FeedAllIsFold(Handler(Talkative()), st, "", chunks);
    assert "" + CutAll(chunks) == CutAll(chunks);
    OneWriteEach(st, Lines(CutAll(chunks)));
  }

  lemma TalkativeOnce(st: State, buf: string)
    ensures var f := Drain(Handler(Talkative()), st, buf);
            f.st.writes == st.writes + |Lines(buf)| && f.residue == Residue(buf)
  {
    HandlerNeverFails(Talkative());
    DrainIsFold(Handler(Talkative()), st, buf);
    OneWriteEach(st, Lines(buf));
  }

  lemma NotAsAtOnce(st: State, chunks: seq<string>, more: string)
    requires CutAll(chunks) == Cut(Concat(chunks)) + more && more != ""
    ensures !AsAtOnce(Talkative(), st, chunks)
  {
    TalkativeEnd(st, chunks);
    TalkativeOnce(st, Cut(Concat(chunks)));
    MoreText(Cut(Concat(chunks)), more);
  }

  /**
   Chunk invariance: however a stream is cut into chunks, every logger whose writes succeed ends in the same state and
   with the same residue as if the stream had arrived at once.  This holds if and only if no text follows a NUL byte.
   */
  lemma ChunkInvariance(s: string)
    ensures (forall cfg: Config, st: State, chunks: seq<string> ::
               AllWritesSucceed(cfg) && Concat(chunks) == s ==> AsAtOnce(cfg, st, chunks)) <==>
            NoTextAfterNul(s)
  {
    if NoTextAfterNul(s) {
      forall cfg: Config, st: State, chunks: seq<string> | AllWritesSucceed(cfg) && Concat(chunks) == s
        ensures AsAtOnce(cfg, st, chunks)
      {
        AtOnce(cfg, st, chunks);
      }
    } else {
      var j :| IndexOf(s, '\0') <= j < |s| && s[j] != '\0';
      TwoChunks(s, j);
      NotAsAtOnce(State(false, [], [], [], [], 0), [s[..j], s[j..]], Cut(s[j..]));
    }
  }

  /** A failed write drops the rest of the buffer: it is not in the residue, and nothing was done with it. */
  lemma FailedWriteDropsTheRest(step: Step, st: State, line: string, rest: string)
    requires IsLine(line) && step(st, line).1 < 0
    ensures Drain(step, st, line + rest) == Fed(step(st, line).0, line, -1)
  {
    LinesCons(line, rest);
    assert (line + rest)[..|line|] == line;
  }

  // ------------------------------------------------------------ the event pipe and the control script flag

  function EventLines(lines: seq<string>): seq<string>
  {
    if lines == [] then [] else (if IsEvent(lines[0]) then [lines[0]] else []) + EventLines(lines[1..])
  }

  /** The flag after some lines: the last mark decides. */
  function FlagAfter(flag: bool, lines: seq<string>): bool
    decreases |lines|
  {
    if lines == [] then flag else FlagAfter(ScriptFlag(flag, Classify(lines[0])), lines[1..])
  }

  /** Only the first two effects of a line reach the event pipe and the flag, whether its writes succeed or not. */
  lemma StepEffects(cfg: Config, st: State, line: string)
    ensures var st' := Handler(cfg)(st, line).0;
            && st'.events == st.events + (if cfg.eventPipe && IsEvent(line) then [line] else [])
            && st'.inScript == ScriptFlag(st.inScript, Classify(line))
  {
  }

  lemma {:induction false} FoldEffects(cfg: Config, st: State, lines: seq<string>)
    ensures var st' := Fold(Handler(cfg), st, lines);
            && st'.events == st.events + (if cfg.eventPipe then EventLines(lines) else [])
            && st'.inScript == FlagAfter(st.inScript, lines)
    decreases |lines|
  {
    if lines == [] {
    } else {
      var st1 := Handler(cfg)(st, lines[0]).0;
      StepEffects(cfg, st, lines[0]);
      FoldEffects(cfg, st1, lines[1..]);
      var one := if cfg.eventPipe && IsEvent(lines[0]) then [lines[0]] else [];
      Assoc(st.events, one, EventLines(lines[1..]));
    }
  }

  /**
   What goes into the event pipe is exactly the event lines of the text that is handled, in order and once each, for every
   verbosity, log level and chunking; and the control script flag is what the last mark in it says.  The text is the
   stream up to its first NUL byte if nothing but NUL bytes follows that.
   */
  lemma EventStream(cfg: Config, st: State, chunks: seq<string>)
    requires AllWritesSucceed(cfg)
    ensures var f, lines := FeedAll(Handler(cfg), st, "", chunks), Lines(CutAll(chunks));
            && (cfg.eventPipe ==> f.st.events == st.events + EventLines(lines))
            && (!cfg.eventPipe ==> f.st.events == st.events)
            && f.st.inScript == FlagAfter(st.inScript, lines)
    ensures NoTextAfterNul(Concat(chunks)) ==> CutAll(chunks) == Cut(Concat(chunks))
  {
    HandlerNeverFails(cfg);
    FeedAllIsFold(Handler(cfg), st, "", chunks);
    assert "" + CutAll(chunks) == CutAll(chunks);
    FoldEffects(cfg, st, Lines(CutAll(chunks)));
    if NoTextAfterNul(Concat(chunks)) {
      CutsAddUp(chunks);
    }
  }

  /** How many lines of a buffer are handled before one of them cannot be written; that one counts too. */
  function Handled(step: Step, st: State, lines: seq<string>): (n: nat)
    ensures n <= |lines|
    decreases |lines|
  {
    if lines == [] then 0
    else if step(st, lines[0]).1 < 0 then 1
    else 1 + Handled(step, step(st, lines[0]).0, lines[1..])
  }

  /** Failing writes or not, a call handles the first lines of the buffer, each once. */
  lemma {:induction false} DrainHandlesAPrefix(step: Step, st: State, buf: string)
    ensures var lines := Lines(buf);
            Drain(step, st, buf).st == Fold(step, st, lines[..Handled(step, st, lines)])
    decreases |buf|
  {
    if IndexOf(buf, '\n') == |buf| {
    } else {
      var line, rest := FirstLine(buf);
      LinesCons(line, rest);
      var lines := [line] + Lines(rest);
      assert lines[1..] == Lines(rest);
      var (st1, ret) := step(st, line);
      if ret < 0 {
        assert lines[..1][1..] == [];
      } else {
        DrainHandlesAPrefix(step, st1, rest);
        assert lines[..1 + Handled(step, st1, Lines(rest))][1..] == Lines(rest)[..Handled(step, st1, Lines(rest))];
      }
    }
  }

  /**
   Even when writes fail, what reaches the event pipe is the event lines of the part of the buffer that was
   handled.
   */
  lemma EventsNeverInvented(cfg: Config, st: State, buf: string)
    ensures var lines := Lines(buf);
            Drain(Handler(cfg), st, buf).st.events ==
            st.events + (if cfg.eventPipe then EventLines(lines[..Handled(Handler(cfg), st, lines)]) else [])
  {
    DrainHandlesAPrefix(Handler(cfg), st, buf);
    var lines := Lines(buf);
    FoldEffects(cfg, st, lines[..Handled(Handler(cfg), st, lines)]);
  }
}
