/**
 Where the lines of a stream end up: what the error output, the output and the log file get, each as one selection of the lines
 of the stream in order, for every verbosity, log level and cutting into chunks.
 */
module LoggerRoutes {
  import opened Text
  import opened Logger

  // ------------------------------------------------------------ by destination

  /** What the logger looks for, in the text of the line. */
  lemma KindMeans(line: string)
    ensures var k := Classify(line);
            && (k.Event() <==> Contains(line, ": SW_") || Contains(line, ": SWI_") || Contains(line, ": SWBIS_"))
            && (k.posix <==> Contains(line, ": SW_")) && (k.swi <==> Contains(line, ": SWI_"))
            && (IsError(k) <==> (exists i :: 0 <= i < |UNIX_ERRORS| && Contains(line, UNIX_ERRORS[i])) ||
                                (exists i :: 0 <= i < |SSH_ERRORS| && Contains(line, SSH_ERRORS[i])))
            && (k.begins <==> Contains(line, "SW_CONTROL_SCRIPT_BEGINS"))
            && (k.ends <==> Contains(line, "SW_CONTROL_SCRIPT_ENDS"))
  {
  }

  /** A line with the text of a system error or an error of ssh. */
  predicate IsError(k: Kind)
  {
    k.unixError || k.sshError
  }

  /** An error of ssh says so. */
  function ErrorText(k: Kind, line: string): string
  {
    if k.sshError && !k.unixError && !k.sshPrefixed then "ssh: " + line else line
  }

  predicate Failed(cfg: Config, line: string)
  {
    EventStatus(cfg, line) != 0
  }

  /** The error output gets the failed events that are shown, and of the other lines the errors, or all from verbosity 6 on. */
  function ErrPart(cfg: Config, k: Kind, line: string): seq<string>
  {
    if k.Event() then if Failed(cfg, line) && EventShown(cfg, k, line) then [line] else []
    else if cfg.verbose <= 0 then []
    else if IsError(k) then [ErrorText(k, line)]
    else if cfg.verbose >= 6 then [line]
    else []
  }

  /** The output gets the other events that are shown, and the other lines at the threshold or from a control script. */
  function OutPart(cfg: Config, inScript: bool, k: Kind, line: string): seq<string>
  {
    if k.Event() then if !Failed(cfg, line) && cfg.outOpen && EventShown(cfg, k, line) then [line] else []
    else if 1 <= cfg.verbose < 6 && !IsError(k) && (cfg.verbose >= cfg.shownFrom || inScript) then [line]
    else []
  }

  /**
   The log file gets the events that are not internal, if there is an output or they failed; and unless the program is silent,
   the errors at any log level, and the other lines from level 2 on or from a control script, or at level 1 from verbosity 6 on.
   */
  function LogPart(cfg: Config, inScript: bool, k: Kind, line: string): seq<string>
  {
    if !cfg.logOpen then []
    else if k.Event() then if !k.swi && (Failed(cfg, line) || cfg.outOpen) then [line] else []
    else if cfg.verbose <= 0 then []
    else if IsError(k) then if cfg.logLevel > 0 then [ErrorText(k, line)] else []
    else if cfg.verbose >= 6 then if cfg.logLevel > 0 then [line] else []
    else if cfg.logLevel >= 2 || inScript then [line]
    else []
  }

  /** What the error output gets of the lines of a stream, with the control script flag as it stands after each mark. */
  function Errs(cfg: Config, inScript: bool, lines: seq<string>): seq<string>
    decreases |lines|
  {
    if lines == [] then []
    else
      var flag := ScriptFlag(inScript, Classify(lines[0]));
      ErrPart(cfg, Classify(lines[0]), lines[0]) + Errs(cfg, flag, lines[1..])
  }

  /** What the output gets. */
  function Outs(cfg: Config, inScript: bool, lines: seq<string>): seq<string>
    decreases |lines|
  {
    if lines == [] then []
    else
      var flag := ScriptFlag(inScript, Classify(lines[0]));
      OutPart(cfg, flag, Classify(lines[0]), lines[0]) + Outs(cfg, flag, lines[1..])
  }

  /** What the log file gets. */
  function Logs(cfg: Config, inScript: bool, lines: seq<string>): seq<string>
    decreases |lines|
  {
    if lines == [] then []
    else
      var flag := ScriptFlag(inScript, Classify(lines[0]));
      LogPart(cfg, flag, Classify(lines[0]), lines[0]) + Logs(cfg, flag, lines[1..])
  }

  // ------------------------------------------------------------ one line

  /** The writes of one line: which are tried, which succeed, and that the value returned tells whether one of them failed. */
  lemma DeliverMeans(cfg: Config, st: State, r: Route)
    ensures var (st', ret) := Deliver(cfg, st, r);
            var shows, logs := if r.shown then 1 else 0, if r.logged && cfg.logOpen then 1 else 0;
            && st'.writes == st.writes + shows + logs && st'.events == st.events && st'.inScript == st.inScript
            && st'.err == st.err + (if r.shown && r.toErr && cfg.sinkOk(st.writes) then [r.text] else [])
            && st'.out == st.out + (if r.shown && !r.toErr && cfg.sinkOk(st.writes) then [r.text] else [])
            && st'.log == st.log + (if logs == 1 && cfg.sinkOk(st.writes + shows) then [r.text] else [])
            && (ret < 0 <==> (r.shown && !cfg.sinkOk(st.writes)) || (logs == 1 && !cfg.sinkOk(st.writes + shows)))
            && (ret >= 0 ==> ret == if r.shown then |r.text| else 0)
  {
  }

  /** The characters of some lines. */
  function Size(lines: seq<string>): nat
  {
    if lines == [] then 0 else |lines[0]| + Size(lines[1..])
  }

  lemma SizeOne(line: string)
    ensures Size([line]) == |line| && Size([]) == 0
  {
    assert [line][1..] == [];
  }

  lemma RouteMeans(cfg: Config, inScript: bool, k: Kind, line: string)
    ensures var r := RouteOf(cfg, inScript, k, line);
            && ErrPart(cfg, k, line) == (if r.shown && r.toErr then [r.text] else [])
            && OutPart(cfg, inScript, k, line) == (if r.shown && !r.toErr then [r.text] else [])
            && LogPart(cfg, inScript, k, line) == (if r.logged && cfg.logOpen then [r.text] else [])
  {
    assert "" + line == line;
  }

  lemma LineMeans(cfg: Config, st: State, line: string)
    requires AllWritesSucceed(cfg)
    ensures var (st', ret) := LineStep(cfg, st, line);
            var k := Classify(line);
            && st'.inScript == ScriptFlag(st.inScript, k)
            && st'.err == st.err + ErrPart(cfg, k, line)
            && st'.out == st.out + OutPart(cfg, st'.inScript, k, line)
            && st'.log == st.log + LogPart(cfg, st'.inScript, k, line)
            && ret == Size(ErrPart(cfg, k, line)) + Size(OutPart(cfg, st'.inScript, k, line))
  {
    var k := Classify(line);
    var flag := ScriptFlag(st.inScript, k);
    var r := RouteOf(cfg, flag, k, line);
    RouteMeans(cfg, flag, k, line);
    DeliverMeans(cfg, st.(inScript := flag, events := if k.Event() && cfg.eventPipe then st.events + [line] else st.events), r);
    SizeOne(r.text);
  }

  // ------------------------------------------------------------ streams

  lemma {:induction false} FoldPicks(cfg: Config, st: State, lines: seq<string>)
    requires AllWritesSucceed(cfg)
    ensures var st' := Fold(Handler(cfg), st, lines);
            && st'.err == st.err + Errs(cfg, st.inScript, lines)
            && st'.out == st.out + Outs(cfg, st.inScript, lines)
            && st'.log == st.log + Logs(cfg, st.inScript, lines)
    decreases |lines|
  {
    if lines == [] {
    } else {
      LineMeans(cfg, st, lines[0]);
      var st1 := Handler(cfg)(st, lines[0]).0;
      FoldPicks(cfg, st1, lines[1..]);
      var k := Classify(lines[0]);
      Assoc(st.err, ErrPart(cfg, k, lines[0]), Errs(cfg, st1.inScript, lines[1..]));
      Assoc(st.out, OutPart(cfg, st1.inScript, k, lines[0]), Outs(cfg, st1.inScript, lines[1..]));
      Assoc(st.log, LogPart(cfg, st1.inScript, k, lines[0]), Logs(cfg, st1.inScript, lines[1..]));
    }
  }

  /**
   However a stream is cut: each destination gets its lines of the text that is handled, in order and once each, and no other.
   */
  lemma Streams(cfg: Config, st: State, chunks: seq<string>)
    requires AllWritesSucceed(cfg)
    ensures var st', lines := FeedAll(Handler(cfg), st, "", chunks).st, Lines(CutAll(chunks));
            && st'.err == st.err + Errs(cfg, st.inScript, lines)
            && st'.out == st.out + Outs(cfg, st.inScript, lines)
            && st'.log == st.log + Logs(cfg, st.inScript, lines)
  {
    HandlerNeverFails(cfg);
    FeedAllIsFold(Handler(cfg), st, "", chunks);
    assert "" + CutAll(chunks) == CutAll(chunks);
    FoldPicks(cfg, st, Lines(CutAll(chunks)));
  }

  lemma {:induction false} SizeAppend(a: seq<string>, b: seq<string>)
    ensures Size(a + b) == Size(a) + Size(b)
  {
    if a == [] {
      assert a + b == b;
    } else {
      assert (a + b)[1..] == a[1..] + b;
      SizeAppend(a[1..], b);
    }
  }

  /** A call returns the number of characters that it showed. */
  lemma {:induction false} DrainCounts(cfg: Config, st: State, buf: string)
    requires AllWritesSucceed(cfg)
    ensures Drain(Handler(cfg), st, buf).ret ==
            Size(Errs(cfg, st.inScript, Lines(buf))) + Size(Outs(cfg, st.inScript, Lines(buf)))
    decreases |buf|
  {
    HandlerNeverFails(cfg);
    if IndexOf(buf, '\n') == |buf| {
    } else {
      var line, rest := FirstLine(buf);
      LinesCons(line, rest);
      LineMeans(cfg, st, line);
      var st1 := Handler(cfg)(st, line).0;
      DrainCounts(cfg, st1, rest);
      assert ([line] + Lines(rest))[1..] == Lines(rest);
      SizeAppend(ErrPart(cfg, Classify(line), line), Errs(cfg, st1.inScript, Lines(rest)));
      SizeAppend(OutPart(cfg, st1.inScript, Classify(line), line), Outs(cfg, st1.inScript, Lines(rest)));
    }
  }

  // ------------------------------------------------------------ events and marks

  /** An event has failed if it is an error event or carries a status that is not 0. */
  lemma FailedIff(cfg: Config, line: string)
    ensures Failed(cfg, line) <==> cfg.isError(line) || cfg.status(line) != 0
  {
  }

  /**
   Whoever is not silent sees the failures, and asking for more never shows less; an event that is no failure and has no entry
   in the table stays hidden below every threshold.
   */
  lemma EventShownMeans(cfg: Config, k: Kind, line: string, v: int)
    ensures Failed(cfg, line) && cfg.verbose >= 1 ==> EventShown(cfg, k, line)
    ensures EventShown(cfg, k, line) && v >= cfg.verbose ==> EventShown(cfg.(verbose := v), k, line)
    ensures cfg.eventPipe && cfg.eventLevel(line).Some? && cfg.verbose >= cfg.eventLevel(line).value ==>
              EventShown(cfg, k, line)
    ensures k.Event() && !Failed(cfg, line) && !(cfg.eventPipe && cfg.eventLevel(line).Some?) ==>
              (EventShown(cfg, k, line) <==>
                 || (k.posix && cfg.verbose >= 3) || (k.swi && cfg.verbose >= 6)
                 || ((k.swbis || !k.swi) && cfg.verbose >= cfg.swbisFrom))
  {
  }

  predicate Opens(line: string)
  {
    Contains(line, "SW_CONTROL_SCRIPT_BEGINS")
  }

  /** A line with both marks opens. */
  predicate Closes(line: string)
  {
    Contains(line, "SW_CONTROL_SCRIPT_ENDS") && !Opens(line)
  }

  ghost predicate NoneClosesFrom(lines: seq<string>, i: nat)
  {
    forall j :: i <= j < |lines| ==> !Closes(lines[j])
  }

  ghost predicate OpenedLast(lines: seq<string>)
  {
    exists i :: 0 <= i < |lines| && Opens(lines[i]) && NoneClosesFrom(lines, i)
  }

  lemma OpenedCons(line: string, lines: seq<string>)
    ensures OpenedLast([line] + lines) <==> OpenedLast(lines) || (Opens(line) && NoneClosesFrom(lines, 0))
    ensures NoneClosesFrom([line] + lines, 0) <==> !Closes(line) && NoneClosesFrom(lines, 0)
  {
    var all := [line] + lines;
    forall i: nat ensures NoneClosesFrom(all, i + 1) <==> NoneClosesFrom(lines, i) {
      if NoneClosesFrom(all, i + 1) {
        forall j | i <= j < |lines| ensures !Closes(lines[j]) {
          assert all[j + 1] == lines[j];
        }
      }
    }
    if OpenedLast(lines) {
      var i :| 0 <= i < |lines| && Opens(lines[i]) && NoneClosesFrom(lines, i);
      assert all[i + 1] == lines[i] && NoneClosesFrom(all, i + 1);
    }
    if OpenedLast(all) {
      var i :| 0 <= i < |all| && Opens(all[i]) && NoneClosesFrom(all, i);
      if i > 0 {
        assert all[i] == lines[i - 1] && NoneClosesFrom(lines, i - 1);
      } else {
        assert NoneClosesFrom(all, 1) && NoneClosesFrom(lines, 0);
      }
    }
    if Opens(line) && NoneClosesFrom(lines, 0) {
      assert all[0] == line && NoneClosesFrom(all, 1);
      assert NoneClosesFrom(all, 0);
    }
    assert all[0] == line;
    if NoneClosesFrom(lines, 0) {
      assert NoneClosesFrom(all, 1);
    }
    if NoneClosesFrom(all, 0) {
      assert NoneClosesFrom(all, 1);
    }
  }

  /** A control script is being run if and only if a mark opened one and none closed it since, or none closed the first. */
  lemma {:induction false} FlagMeans(inScript: bool, lines: seq<string>)
    ensures FlagAfter(inScript, lines) <==> OpenedLast(lines) || (inScript && NoneClosesFrom(lines, 0))
    decreases |lines|
  {
    if lines == [] {
    } else {
      var line, rest := lines[0], lines[1..];
      assert lines == [line] + rest;
      OpenedCons(line, rest);
      FlagMeans(ScriptFlag(inScript, Classify(line)), rest);
    }
  }
}
