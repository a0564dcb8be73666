/**
 The host's side of an install as the program has it: main from the first query on, and the archive loop and
 the guarded tasks of arfinstall_tar, with the alarm that failed checks and signals raise.  Whatever it hears, it sends the
 script that TaskProtocol walks out.
 */
module InstallHost {
  import opened Wrappers
  import opened TaskProtocol
  import opened Lockstep

  /** The master alarm: clear, raised, or raised and announced to the target. */
  datatype Alarm = Clear | StepOne | StepTwo

  const ENOUGH := 24

  function Rest(c: Choices, i: nat, r: Reaction, answers: seq<Reply>): seq<Message>
  {
    match r
    case Halt(k) => Aborts(k)
    case On(s) => Walk(c, i + 1, s, answers)
  }

  lemma WalkStep(c: Choices, i: nat, s: Stance, answers: seq<Reply>)
    requires i < |Slots(c.mode)| && answers != [] && Enter(c, Slots(c.mode)[i], s).Send?
    ensures var task := Slots(c.mode)[i];
            Walk(c, i, s, answers) == [Message(task, Enter(c, task, s).body)] +
                                      Rest(c, i, Hear(c, i, s, answers[0]), answers[1..])
  {
  }

  /** One message on: what is left to send follows from the answer. */
  lemma Advance(c: Choices, answers: seq<Reply>, sent: seq<Message>, h: nat, i: nat, s: Stance)
    requires i < |Slots(c.mode)| && h < |answers| && Enter(c, Slots(c.mode)[i], s).Send?
    requires sent + Walk(c, i, s, answers[h..]) == Script(c, answers)
    ensures var task := Slots(c.mode)[i];
            sent + [Message(task, Enter(c, task, s).body)] +
            Rest(c, i, Hear(c, i, s, answers[h]), answers[h + 1..]) == Script(c, answers)
  {
    assert answers[h..][1..] == answers[h + 1..];
    WalkStep(c, i, s, answers[h..]);
    var w := Walk(c, i, s, answers[h..]);
    assert w == [w[0]] + w[1..];
    assert sent + w == sent + [w[0]] + w[1..];
  }

  lemma FilesetReaction(c: Choices, s: Stance, r: Reply)
    requires c.mode == Install
    ensures Hear(c, LOAD_FILESET, s, r) ==
            if !c.clearToSend || c.storage != 0 || r.status != 0 then Halt(0)
            else if c.interrupted || r.signal then Halt(1) else On(s)
  {
    assert Slots(Install)[LOAD_FILESET] == LoadFileset;
  }

  lemma FilesetAdvance(c: Choices, answers: seq<Reply>, sent: seq<Message>, h: nat, s: Stance)
    requires c.mode == Install && h < |answers| && sent + Walk(c, 20, s, answers[h..]) == Script(c, answers)
    ensures sent + [Message(LoadFileset, Work)] + Rest(c, 20, Hear(c, 20, s, answers[h]), answers[h + 1..]) == Script(c, answers)
  {
    assert Slots(Install)[20] == LoadFileset;
    Advance(c, answers, sent, h, 20, s);
  }

  /** One of the two tasks of the catalog section: the next look is the one that would see a signal. */
  lemma MemberReaction(c: Choices, slot: nat, s: Stance, look: nat, r: Reply)
    requires c.mode == Install && (slot == 11 || slot == 12)
    requires Some(look) == if slot == 11 then Scanned(c).catalog else Scanned(c).signatures
    ensures Hear(c, slot, s, r) ==
            if r.status != 0 then Halt(0)
            else if r.signal then Halt(if Broken(c.archive, look) then 0 else 1) else On(s)
  {
    assert Slots(Install)[11] == LoadCatalog && Slots(Install)[12] == LoadSignatures;
  }

  lemma RemovalReaction(c: Choices, s: Stance, r: Reply)
    requires c.mode == Install
    ensures Hear(c, 7, s, r) ==
            if r.signal then Halt(1) else On(if r.status != 0 then s.(restorable := false) else s)
  {
    assert Slots(Install)[7] == RemoveEntry;
  }

  lemma GuardReaction(c: Choices, i: nat, s: Stance, r: Reply)
    requires i == (if c.mode == ToStdout then 2 else 8)
    ensures i < |Slots(c.mode)| && Slots(c.mode)[i] == CheckStatus
    ensures Hear(c, i, s, r) == if r.signal then Halt(Fall(c, i + 1)) else On(s)
  {
  }

  /** The slots of the tasks that end the run if they fail. */
  predicate IsStrict(i: nat)
  {
    i == 9 || 13 <= i <= 15 || i == 19 || 21 <= i < ENOUGH
  }

  lemma StrictReaction(c: Choices, i: nat, s: Stance, r: Reply)
    requires c.mode == Install && IsStrict(i)
    ensures Hear(c, i, s, r) ==
            if r.status != 0 then Halt(0) else if r.signal then Halt(if i == 23 then 0 else 1) else On(s)
  {
  }

  /** The loop over the archive stops where it sees a signal. */
  lemma SignalCuts(a: Archive, i: nat, s: Scan)
    requires i <= |a.members| && !Broken(a, i) && Raised(a.signal, i)
    ensures ScanFrom(a, i, s) == s.(cut := true)
  {
  }

  lemma AbortsStep(k: nat)
    requires k > 0
    ensures Aborts(k) == [ABORT] + Aborts(k - 1)
  {
  }

  lemma AbortsNone(m: seq<Message>)
    ensures m + Aborts(0) == m
  {
  }

  lemma AbortsNext(m: seq<Message>, k: nat)
    requires k > 0
    ensures m + Aborts(k) == m + [ABORT] + Aborts(k - 1)
  {
    AbortsStep(k);
  }

  class Host {
    const c: Choices
    /** What the host hears after each message. */
    const answers: seq<Reply>

    var sent: seq<Message>
    var heard: nat
    var alarm: Alarm
    /** g_signal_flag */
    var flag: bool
    var didAbort: bool
    /** The payload bytes put on the channel. */
    var payload: nat

    constructor (c: Choices, answers: seq<Reply>)
      requires |answers| >= ENOUGH
      ensures this.c == c && this.answers == answers && Starts()
    {
      this.c, this.answers := c, answers;
      sent, heard, alarm, flag, didAbort, payload := [], 0, if c.early then StepOne else Clear, c.early, false, 0;
      new;
      assert answers[0..] == answers;
    }

    /** Before the first message; a signal may have come already. */
    ghost predicate Starts()
      reads this
    {
      if c.early then Struck(1) else At(0, AT_START)
    }

    /** The host is about to enter slot `i`. */
    ghost predicate At(i: nat, s: Stance)
      reads this
    {
      && i <= |Slots(c.mode)| && heard <= i && ENOUGH <= |answers|
      && alarm.Clear? && !flag && !didAbort && Paid() && (i <= LOAD_FILESET ==> !Loaded(sent))
      && sent + Walk(c, i, s, answers[heard..]) == Script(c, answers)
    }

    /** The payload is what goes with the messages. */
    ghost predicate Paid()
      reads this
    {
      payload == PayloadOf(c, sent)
    }

    /** So many aborts are left to send. */
    ghost predicate Owes(k: nat)
      reads this
    {
      Paid() && sent + Aborts(k) == Script(c, answers)
    }

    /** The same, and no check has failed yet. */
    ghost predicate Owing(k: nat)
      reads this
    {
      !didAbort && Owes(k)
    }

    /** A signal raised the alarm, and the target has not been told. */
    ghost predicate Struck(k: nat)
      reads this
    {
      alarm.StepOne? && flag && Owing(k)
    }

    /** A signal raised the alarm, and the target has been told. */
    ghost predicate Fallen(k: nat)
      reads this
    {
      alarm.StepTwo? && flag && Owing(k)
    }

    /** The host is about to enter slot `i`, or a signal came on the way. */
    ghost predicate Comes(i: nat, s: Stance)
      reads this
    {
      At(i, s) || Struck(Fall(c, i))
    }

    ghost predicate Over()
      reads this
    {
      Paid() && sent == Script(c, answers)
    }

    /** Nothing more can be sent, and nothing more is to be. */
    ghost predicate Quiet()
      reads this
    {
      alarm.StepTwo? && Over()
    }

    /** The abort that a signal in the archive may still bring about in preview. */
    ghost function Extra(): nat
      reads this
    {
      if flag then 0 else Anew(c)
    }

    /** Under the alarm of a failed check, with the abort still to be sent or already sent. */
    ghost predicate Doomed()
      reads this
    {
      didAbort && ((alarm.StepOne? && Owes(1 + Extra())) || (alarm.StepTwo? && Owes(Extra())))
    }

    /** A refused reinstall: the abort is sent, and asking for the replaced entry will send another. */
    ghost predicate Refusing()
      reads this
    {
      didAbort && alarm.StepTwo? && Owes(if c.displaced then 1 else 0)
    }

    /** What hearing `r` for slot `i` has led to. */
    ghost predicate Told(i: nat, s: Stance, r: Reply)
      requires i < |Slots(c.mode)|
      reads this
    {
      && (if r.signal then alarm.StepOne? && flag else alarm.Clear? && !flag)
      && match Hear(c, i, s, r)
         case Halt(k) => Owing(k)
         case On(s') => At(i + 1, s')
    }

    // ---------------------------------------------------------- sending

    /** swicol_rpsh_task_send_script2 */
    method SendScript(task: Task, body: Body) returns (ret: int)
      modifies this`sent, this`alarm
      ensures ret == if old(alarm).Clear? then 0 else -1
      ensures alarm == if old(alarm).Clear? then Clear else StepTwo
      ensures sent == old(sent) + match old(alarm)
                                  case Clear => [Message(task, body)]
                                  case StepOne => [ABORT]
                                  case StepTwo => []
      ensures task != LoadFileset ==> Loaded(sent) == old(Loaded(sent))
    {
      LoadedSnoc(sent, Message(task, body));
      LoadedSnoc(sent, ABORT);
      if alarm == StepTwo {
        return -1;
      } else if alarm == StepOne {
        alarm := StepTwo;
        sent := sent + [ABORT];
        return -1;
      }
      sent := sent + [Message(task, body)];
      return 0;
    }

    /** safe_sig_handler */
    method OnSignal()
      modifies this`alarm, this`flag
      ensures alarm == StepOne && flag
    {
      flag := true;
      alarm := StepOne;
    }

    /** Wait for the end of a task that was sent. */
    method Expect() returns (ret: int, ghost r: Reply)
      requires heard < |answers|
      modifies this`heard, this`alarm, this`flag
      ensures heard == old(heard) + 1 && r == answers[old(heard)] && ret == r.status
      ensures if r.signal then alarm.StepOne? && flag else alarm == old(alarm) && flag == old(flag)
    {
      r := answers[heard];
      ret := answers[heard].status;
      if answers[heard].signal {
        OnSignal();
      }
      heard := heard + 1;
    }

    /** Send a task and wait for its end. */
    method SendAndExpect(task: Task, body: Body) returns (ret: int, ghost r: Reply)
      requires alarm.Clear? ==> heard < |answers| && !flag
      modifies this`sent, this`alarm, this`heard, this`flag
      ensures old(alarm).Clear? ==>
                && heard == old(heard) + 1 && r == answers[old(heard)] && ret == r.status
                && (if r.signal then alarm.StepOne? && flag else alarm.Clear? && !flag)
                && sent == old(sent) + [Message(task, body)]
      ensures !old(alarm).Clear? ==>
                && heard == old(heard) && flag == old(flag) && ret == -1 && alarm.StepTwo?
                && sent == old(sent) + if old(alarm).StepOne? then [ABORT] else []
      ensures task != LoadFileset ==> Loaded(sent) == old(Loaded(sent))
    {
      ret := SendScript(task, body);
      r := GOOD;
      if ret == 0 {
        ret, r := Expect();
      }
    }

    /** The same for the message of the slot the host is at. */
    method Ask(task: Task, body: Body, ghost i: nat, ghost s: Stance) returns (ret: int, ghost r: Reply)
      requires At(i, s) && i < |Slots(c.mode)| && i < ENOUGH
      requires task == Slots(c.mode)[i] && Enter(c, task, s) == Send(body) && task != LoadFileset
      modifies this`sent, this`alarm, this`heard, this`flag
      ensures ret == r.status && Told(i, s, r)
      ensures Loaded(sent) == old(Loaded(sent))
    {
      Advance(c, answers, sent, heard, i, s);
      ret, r := SendAndExpect(task, body);
    }

    /** The same for a host that may be under the alarm already. */
    method Tell(task: Task, body: Body, ghost i: nat, ghost s: Stance, ghost k: nat) returns (ret: int, ghost r: Reply)
      requires At(i, s) || (Struck(k) && k > 0) || alarm.StepTwo?
      requires alarm.Clear? ==> i < |Slots(c.mode)| && i < ENOUGH && task == Slots(c.mode)[i] && Enter(c, task, s) == Send(body)
      requires task != LoadFileset
      modifies this`sent, this`alarm, this`heard, this`flag
      ensures old(alarm.Clear?) ==> i < |Slots(c.mode)| && ret == r.status && Told(i, s, r)
      ensures old(alarm.StepOne?) ==> ret == -1 && Fallen(k - 1)
      ensures old(alarm.StepTwo?) ==> ret == -1 && alarm.StepTwo? && sent == old(sent) && flag == old(flag)
    {
      if alarm == Clear {
        ret, r := Ask(task, body, i, s);
      } else {
        if alarm == StepOne {
          AbortsNext(sent, k);
        }
        ret, r := SendAndExpect(task, body);
      }
    }

    /** abort_script: raise the alarm, once. */
    method AbortScript()
      modifies this`alarm, this`didAbort
      ensures didAbort && alarm == if old(didAbort) then old(alarm) else StepOne
    {
      if didAbort {
        return;
      }
      alarm := StepOne;
      didAbort := true;
    }

    /** abort_script and swpl_send_abort, as nearly all failed checks of an install do. */
    method GiveUp()
      requires c.mode == Install && (Owing(1) || Doomed())
      modifies this
      ensures Doomed() && alarm.StepTwo? && Over()
    {
      AbortsNext(sent, 1);
      AbortsNone(sent);
      AbortsNone(sent + [ABORT]);
      AbortScript();
      var _ := SendScript(IntentionalAbort, Nothing(SW_ERROR));
    }

    // ---------------------------------------------------------- main

    /** The uname and catalog permission queries, and the check for a relocation. */
    method Opening() returns (go: bool)
      requires Starts()
      modifies this
      ensures if go then Comes(2, AT_START) || (c.mode != Install && Fallen(0)) else Over()
    {
      AbortsNone(sent);
      var ret, r := Tell(Uts, Work, 0, AT_START, 1);
      AbortsNone(sent);
      if ret != 0 {
        return false;
      }
      ret, r := Tell(CatalogPerms, Work, 1, AT_START, 1);
      AbortsNone(sent);
      if ret != 0 && c.mode == Install {
        return false;
      }
      if !c.locatable {
        if c.mode == Install {
          GiveUp();
          return false;
        }
      }
      return true;
    }

    /** The aborts to come once the target has been told of a signal in main. */
    ghost function Later(): nat
    {
      if c.mode == Install then 1 else FallLate(c) - 1
    }

    /** After the first guard and the tests: still going, or silenced by a signal. */
    ghost predicate Tested()
      reads this
    {
      Comes(4, AT_START) || Fallen(if c.mode != Install && c.displaced then 0 else Later())
    }

    /** The catalog query and the guard after it, up to the admission tests. */
    method QueryCatalog() returns (go: bool)
      requires c.mode != ToStdout && (Comes(2, AT_START) || (c.mode != Install && Fallen(0)))
      modifies this
      ensures if go then Tested() || (c.mode == Install && Refusing()) else Over()
    {
      AbortsNone(sent);
      if alarm == Clear {
        var ret, r := Ask(IscsListing, Work, 2, AT_START);
        if ret != 0 || !c.listingData {
          if c.mode == Install {
            GiveUp();
            return false;
          }
        }
      } else {
        go := NoListing();
        return;
      }
      go := FirstGuard();
    }

    /** Under the alarm the catalog is not asked for; in preview the analysis of no response ends the program. */
    method NoListing() returns (go: bool)
      requires c.mode != ToStdout && (Struck(1) || (c.mode != Install && Fallen(0)))
      modifies this
      ensures !go && Over()
    {
      if c.mode == Install {
        GiveUp();
        return false;
      }
      AbortsNone(sent);
      var _, _ := Tell(DoNothing, Nothing(SW_SUCCESS), 3, AT_START, 1);
      AbortsNone(sent);
      return false;
    }

    method FirstGuard() returns (go: bool)
      requires c.mode != ToStdout && Comes(3, AT_START)
      modifies this
      ensures if go then Tested() || (c.mode == Install && Refusing()) else Over()
    {
      var _, _ := Tell(DoNothing, Nothing(SW_SUCCESS), 3, AT_START, Fall(c, 3));
      AbortsNone(sent);
      if !c.analyzed {
        return false;
      }
      go := AdmissionTests();
    }

    /** The admission tests; a refused reinstall does not leave at once. */
    method AdmissionTests() returns (go: bool)
      requires c.mode != ToStdout && c.analyzed
      requires match AfterFirst(c, AT_START)
               case Halt(k) => c.mode == Install && Owing(k)
               case On(_) => Tested()
      modifies this
      ensures if go then Tested() || (c.mode == Install && Refusing()) else Over()
    {
      if c.mode == Install {
        if !c.downdateOk {
          GiveUp();
          return false;
        }
        if !c.reinstallOk {
          go := RefuseReinstall();
          return;
        }
        if !c.singleOk || !c.selected {
          GiveUp();
          return false;
        }
      }
      return true;
    }

    /** A refused reinstall: the abort is sent, and the next test may still end the run. */
    method RefuseReinstall() returns (go: bool)
      requires c.mode == Install && Owing(if !c.singleOk || !c.selected || !c.displaced then 1 else 2)
      modifies this
      ensures if go then Refusing() else Over()
    {
      AbortsNext(sent, if !c.singleOk || !c.selected || !c.displaced then 1 else 2);
      AbortScript();
      var _ := SendScript(IntentionalAbort, Nothing(SW_ERROR));
      if !c.singleOk || !c.selected {
        AbortsNone(sent);
        AbortScript();
        var _ := SendScript(IntentionalAbort, Nothing(SW_ERROR));
        return false;
      }
      return true;
    }

    /** swpl_get_catalog_tar: the status of the task is not looked at; failing to send it raises the alarm anew. */
    method GetCatalogTar() returns (ret: int, ghost r: Reply)
      requires alarm.Clear? ==> heard < |answers| && !flag
      modifies this`sent, this`alarm, this`heard, this`flag
      ensures old(alarm).Clear? ==>
                && heard == old(heard) + 1 && r == answers[old(heard)] && (ret < 0 <==> !c.entryData)
                && (if r.signal then alarm.StepOne? && flag else alarm.Clear? && !flag)
                && sent == old(sent) + [Message(IscsEntry, Work)]
      ensures !old(alarm).Clear? ==>
                && heard == old(heard) && flag == old(flag) && ret < 0 && alarm.StepOne?
                && sent == old(sent) + if old(alarm).StepOne? then [ABORT] else []
      ensures Loaded(sent) == old(Loaded(sent))
    {
      r := GOOD;
      ret := SendScript(IscsEntry, Work);
      if ret != 0 {
        alarm := StepOne;
        return -2, r;
      }
      ret, r := Expect();
      ret := if c.entryData then 0 else -1;
    }

    /** The stance of a host that knows which entry it replaces. */
    ghost function Knowing(): Stance
    {
      AT_START.(restorable := c.displaced)
    }

    /** The replaced entry: its content is fetched, and in preview the program does not survive that this fails. */
    method FetchDisplaced() returns (go: bool)
      requires c.mode != ToStdout && c.displaced && (Tested() || (c.mode == Install && Refusing()))
      modifies this
      ensures if go then Comes(5, Knowing()) else Over()
    {
      if alarm == Clear {
        Advance(c, answers, sent, heard, 4, AT_START);
      } else if alarm == StepOne {
        AbortsNext(sent, Fall(c, 4));
      }
      var ret, r := GetCatalogTar();
      AbortsNone(sent);
      if ret < 0 {
        if c.mode == Install {
          GiveUp();
        }
        return false;
      }
      return true;
    }

    /** The replaced entry, or nothing. */
    method FetchReplaced() returns (go: bool)
      requires c.mode != ToStdout && (Tested() || (c.mode == Install && Refusing()))
      modifies this
      ensures if go then Comes(5, Knowing()) || Fallen(Later()) || (c.mode == Install && Doomed() && alarm.StepTwo?)
              else Over()
    {
      if c.displaced {
        go := FetchDisplaced();
      } else {
        var _, _ := Tell(IscsEntry, Nothing(SW_SUCCESS), 4, AT_START, Fall(c, 4));
        return true;
      }
    }

    /** The test for existing files. */
    method Overwrites() returns (go: bool)
      requires c.mode != ToStdout
      requires Comes(5, Knowing()) || Fallen(Later()) || (c.mode == Install && Doomed() && alarm.StepTwo?)
      modifies this
      ensures if go then Comes(6, Knowing()) || (c.mode != Install && Fallen(Later())) else Over()
    {
      var ret, r := Tell(CheckOverwrite, Work, 5, Knowing(), Fall(c, 5));
      if ret == 0 && !c.overwriteData {
        ret := -3;
      }
      if ret != 0 && c.mode == Install {
        GiveUp();
        return false;
      }
      var conflicts := if c.displaced then false else c.conflicts;
      if conflicts {
        if c.mode == Install {
          GiveUp();
          return false;
        }
      }
      return true;
    }

    /** After the second guard: the checks will fail, or the host goes on, or a signal has silenced it. */
    ghost predicate Guarded()
      reads this
    {
      match AfterSecond(c, Knowing())
      case Halt(_) => Owing(1 + Extra())
      case On(_) => Comes(7, Knowing()) || Fallen(0)
    }

    /** The second guard. */
    method SecondGuard()
      requires c.mode != ToStdout && (Comes(6, Knowing()) || (c.mode != Install && Fallen(Later())))
      modifies this`sent, this`alarm, this`heard, this`flag
      ensures Guarded()
    {
      var _, _ := Tell(DoNothing, Nothing(SW_SUCCESS), 6, Knowing(), Fall(c, 6));
    }

    /**
     The second guard, the requisites, the catalog path and the compatibility; a bad path or host only raises
     the alarm.
     */
    method LastChecks() returns (go: bool, retval: nat)
      requires c.mode != ToStdout && (Comes(6, Knowing()) || (c.mode != Install && Fallen(Later())))
      modifies this
      ensures if go then Doomed() || (retval == 0 && (Comes(7, Knowing()) || Fallen(0))) else Over()
      ensures go ==> (retval > 0 <==> c.compatibility.Ambiguous?)
      ensures go && c.mode != Install && Doomed() ==> !c.compatibility.Compatible?
    {
      retval := 0;
      SecondGuard();
      if !c.requisitesOk && c.mode == Install {
        GiveUp();
        return false, 0;
      }
      if !c.instanceOk && c.mode == Install {
        AbortScript();
      }
      if !c.pathOk && c.mode == Install {
        GiveUp();
      }
      if c.compatibility.Ambiguous? {
        AbortScript();
        retval := retval + 1;
      } else if c.compatibility.Incompatible? {
        AbortScript();
      }
      return true, retval;
    }

    /** swpl_remove_catalog_entry: bad names return before anything is sent. */
    method RemoveCatalogEntry(ghost k: nat) returns (ret: int, ghost r: Reply)
      requires c.mode == Install && c.displaced
      requires At(7, Knowing()) || (Struck(k) && k > 0) || Doomed() || alarm.StepTwo?
      modifies this`sent, this`alarm, this`heard, this`flag
      ensures ret >= 0
      ensures !c.namesOk ==> ret > 0 && sent == old(sent) && alarm == old(alarm) && heard == old(heard) && flag == old(flag)
      ensures c.namesOk && old(alarm).Clear? ==> Told(7, Knowing(), r) && (ret == 0 <==> r.status == 0)
      ensures c.namesOk && !old(alarm).Clear? ==>
                && ret > 0 && alarm.StepTwo? && flag == old(flag)
                && sent == old(sent) + if old(alarm).StepOne? then [ABORT] else []
      ensures Loaded(sent) == old(Loaded(sent))
    {
      r := GOOD;
      if !c.namesOk {
        return 1, r;
      }
      if alarm == Clear {
        ret, r := Ask(RemoveEntry, Work, 7, Knowing());
      } else {
        ret, r := SendAndExpect(RemoveEntry, Work);
      }
      ret := if ret != 0 then 2 else 0;
    }

    /** Coming to the removal with names that cannot be used. */
    ghost method PassRemoval()
      requires c.mode == Install && c.displaced && !c.namesOk && At(7, Knowing())
      ensures At(8, AT_START)
    {
      assert Slots(Install)[7] == RemoveEntry;
    }

    /** The removal of the replaced entry; if that fails there is nothing to restore later. */
    method RemoveReplaced() returns (up: bool)
      requires c.mode == Install && c.displaced && (Doomed() || Comes(7, Knowing()) || Fallen(0))
      modifies this`sent, this`alarm, this`heard, this`flag
      ensures Doomed() || Comes(8, AT_START.(restorable := up)) || Fallen(0)
      ensures old(Doomed()) ==> Doomed()
    {
      if alarm == StepOne {
        AbortsNext(sent, 1);
      } else if alarm == Clear && !c.namesOk {
        PassRemoval();
      }
      var ret, r := RemoveCatalogEntry(1);
      RemovalReaction(c, Knowing(), r);
      up := ret == 0;
    }

    /** Moving the replaced entry out of the way, if there is one. */
    method MoveAside() returns (up: bool)
      requires c.mode != ToStdout && (Doomed() || Comes(7, Knowing()) || Fallen(0))
      modifies this`sent, this`alarm, this`heard, this`flag
      ensures Doomed() || Comes(8, AT_START.(restorable := up)) || Fallen(0)
      ensures old(Doomed()) ==> Doomed()
    {
      up := c.displaced;
      if c.displaced && c.mode == Install {
        up := RemoveReplaced();
      } else if alarm == Clear {
        var _, _ := Ask(RemoveEntry, Nothing(SW_SUCCESS), 7, Knowing());
      } else {
        if alarm == StepOne {
          AbortsNext(sent, if didAbort then 1 + Extra() else 1);
        }
        var _, _ := SendAndExpect(RemoveEntry, Nothing(SW_SUCCESS));
      }
    }

    // ---------------------------------------------------------- arfinstall_tar

    /** Coming to a slot without a message for it. */
    ghost method Pass(i: nat, s: Stance)
      requires At(i, s) && i < |Slots(c.mode)| && Enter(c, Slots(c.mode)[i], s).PassOver?
      requires Slots(c.mode)[i] != RemoveEntry
      ensures At(i + 1, s)
    {
      assert s.(restorable := s.restorable) == s;
    }

    /** Coming to a slot with the alarm up: an abort takes its place. */
    ghost method Stricken(i: nat, s: Stance)
      requires At(i, s) && i < |Slots(c.mode)| && Enter(c, Slots(c.mode)[i], s).Strike?
      ensures Owing(1)
    {
    }

    /** Coming to a slot where the archive makes the host return. */
    ghost method Quits(i: nat, s: Stance)
      requires At(i, s) && i < |Slots(c.mode)| && Enter(c, Slots(c.mode)[i], s).Quit?
      ensures Over()
    {
      assert sent + [] == sent;
    }

    /** The slot that the catalog section is at. */
    function SectionSlot(didCatalog: bool, didSignatures: bool): nat
    {
      if !didCatalog then 11 else if !didSignatures then 12 else 13
    }

    /** The end of the catalog section: the tasks whose members did not come are passed over. */
    ghost method PassRest(s: Stance)
      requires c.mode == Install && !Scanned(c).cut
      requires At(SectionSlot(Scanned(c).catalog.Some?, Scanned(c).signatures.Some?), s)
      ensures At(13, s)
    {
      SignaturesComeSecond(c.archive, 0, NOTHING_SEEN);
      assert Slots(Install)[11] == LoadCatalog && Slots(Install)[12] == LoadSignatures;
      if Scanned(c).catalog.None? {
        Pass(11, s);
      }
      if Scanned(c).signatures.None? {
        Pass(12, s);
      }
    }

    /** What is left to send when a signal in the loop is seen by look `i`. */
    ghost function AtLook(i: nat): nat
    {
      if Broken(c.archive, i) then 0 else 1
    }

    /** What holds at look `i` of the loop over the catalog section while tasks are sent. */
    ghost predicate InSection(i: nat, retval: nat, scan: Scan, s: Stance)
      reads this
    {
      if retval > 0 then Over()
      else At(SectionSlot(scan.catalog.Some?, scan.signatures.Some?), s) || Struck(AtLook(i))
    }

    /** The loop knows what it has met, unless a signal has come. */
    ghost predicate Seen(i: nat, scan: Scan)
      requires i <= |c.archive.members|
      reads this
    {
      && (scan.signatures.Some? ==> scan.catalog.Some?)
      && (!flag ==> ScanFrom(c.archive, i, scan) == Scanned(c) && scan.rc == 0 && !scan.cut)
    }

    /** One of the two tasks that a member sets off. */
    method ActOn(task: Task, body: Body, i: nat, retval: nat, ghost scan: Scan, ghost next: Scan, ghost s: Stance)
      returns (retval': nat)
      requires c.mode == Install && i < |c.archive.members| && retval == 0 && !flag && InSection(i, 0, scan, s)
      requires ScanFrom(c.archive, i + 1, next) == Scanned(c)
      requires
        || (task == LoadCatalog && body == Work && scan.catalog.None? && next == scan.(catalog := Some(i + 1)))
        || (task == LoadSignatures && body == (if c.archive.isSigned then Work else Nothing(SW_SUCCESS)) &&
            scan.catalog.Some? && scan.signatures.None? && next == scan.(signatures := Some(i + 1)))
      requires scan.signatures.Some? ==> scan.catalog.Some?
      modifies this`sent, this`heard, this`alarm, this`flag
      ensures InSection(i + 1, retval', next, s)
    {
      ghost var slot := if task == LoadCatalog then 11 else 12;
      assert Slots(Install)[11] == LoadCatalog && Slots(Install)[12] == LoadSignatures;
      var ret, r := Ask(task, body, slot, s);
      MemberReaction(c, slot, s, i + 1, r);
      AbortsNone(sent);
      retval' := if ret != 0 then 1 else 0;
    }

    /** The member is looked at, and its task is sent if it sets one off and no earlier one failed. */
    method LookAt(m: CatalogMember, sending: bool, i: nat, retval: nat, didCatalog: bool, didSignatures: bool,
                  ghost scan: Scan, ghost s: Stance)
      returns (retval': nat, didCatalog': bool, didSignatures': bool, ghost scan': Scan)
      requires i < |c.archive.members| && m == c.archive.members[i] && m.readable && (m.isCatalog || !m.isStorage)
      requires !Broken(c.archive, i) && !Raised(c.archive.signal, i) && !flag
      requires Seen(i, scan) && didCatalog == scan.catalog.Some? && didSignatures == scan.signatures.Some?
      requires sending ==> c.mode == Install && InSection(i, retval, scan, s)
      requires !sending ==> retval == 0
      modifies this`sent, this`heard, this`alarm, this`flag
      ensures Seen(i + 1, scan') && didCatalog' == scan'.catalog.Some? && didSignatures' == scan'.signatures.Some?
      ensures sending ==> InSection(i + 1, retval', scan', s)
      ensures !sending ==> retval' == 0 && sent == old(sent) && heard == old(heard) && alarm == old(alarm) && !flag
    {
      retval', didCatalog', didSignatures', scan' := retval, didCatalog, didSignatures, scan;
      if !didCatalog && m.isCatalog && m.isIndex {
        didCatalog' := true;
        scan' := scan.(catalog := Some(i + 1));
        if sending && retval == 0 {
          retval' := ActOn(LoadCatalog, Work, i, retval, scan, scan', s);
        }
      } else if didCatalog && !didSignatures && m.isCatalog && (!c.archive.isSigned || m.isSignature) {
        didSignatures' := true;
        scan' := scan.(signatures := Some(i + 1));
        if sending && retval == 0 {
          retval' := ActOn(LoadSignatures, if c.archive.isSigned then Work else Nothing(SW_SUCCESS), i, retval, scan,
                           scan', s);
        }
      }
    }

    /** A signal that comes before look `i` of the archive loop. */
    method BeforeLook(i: nat)
      modifies this`alarm, this`flag
      ensures !old(flag) && !Broken(c.archive, i) && Raised(c.archive.signal, i) ==> flag && alarm == StepOne
      ensures old(flag) || Broken(c.archive, i) || !Raised(c.archive.signal, i) ==> flag == old(flag) && alarm == old(alarm)
    {
      if !flag && !Broken(c.archive, i) && Raised(c.archive.signal, i) {
        OnSignal();
      }
    }

    /** What holds when the loop is about to look at member `i`, with the flag as it finds it. */
    ghost predicate Looking(i: nat, sending: bool, retval: nat, scan: Scan, s: Stance, wasRaised: bool)
      requires i <= |c.archive.members|
      reads this
    {
      && Seen(i, scan)
      && (!flag && !Broken(c.archive, i) ==> !Raised(c.archive.signal, i))
      && (sending ==> c.mode == Install && InSection(i, retval, scan, s))
      && (!sending ==> retval == 0)
      && (!sending && flag && !wasRaised ==>
            !Broken(c.archive, i) && Scanned(c).cut && Scanned(c).rc == 0 && alarm == StepOne)
    }

    /** The look at the flag. */
    method LookForSignal(i: nat, ghost sending: bool, ghost retval: nat, ghost scan: Scan, ghost s: Stance,
                         ghost wasRaised: bool)
      requires i <= |c.archive.members| && Seen(i, scan)
      requires sending ==> c.mode == Install && InSection(i, retval, scan, s)
      requires !sending ==> retval == 0 && (flag ==> wasRaised)
      modifies this`alarm, this`flag
      ensures Looking(i, sending, retval, scan, s, wasRaised) && (old(flag) ==> flag)
      ensures !sending && (old(flag) || !flag) ==> flag == old(flag) && alarm == old(alarm)
    {
      if !flag && !Broken(c.archive, i) && Raised(c.archive.signal, i) {
        SignalCuts(c.archive, i, scan);
        if sending && retval == 0 {
          Stricken(SectionSlot(scan.catalog.Some?, scan.signatures.Some?), s);
        }
      }
      BeforeLook(i);
    }

    /** How the loop over the catalog section leaves the host while tasks are sent. */
    ghost predicate SectionDone(retval: nat, rc: int, s: Stance)
      reads this
    {
      if retval == 0 && rc >= 0 then (At(13, s) && rc == Scanned(c).rc && !Scanned(c).cut) || Struck(1) else Over()
    }

    /** The end of the loop. */
    ghost method EndSection(i: nat, retval: nat, rc: int, scan: Scan, s: Stance)
      requires c.mode == Install && i <= |c.archive.members| && Seen(i, scan) && InSection(i, retval, scan, s)
      requires if flag then rc == if Broken(c.archive, i) then -50 else 0
               else Scanned(c) == scan.(rc := rc)
      ensures SectionDone(retval, rc, s)
    {
      AbortsNone(sent);
      if retval == 0 && !flag {
        PassRest(s);
        if rc < 0 {
          Quits(13, s);
        }
      }
    }

    /** The loop over the catalog section; `sending` is off in preview. */
    method CatalogSection(sending: bool, ghost s: Stance) returns (retval: nat, rc: int)
      requires sending ==> c.mode == Install && (At(11, s) || Struck(AtLook(0)))
      modifies this`sent, this`heard, this`alarm, this`flag
      ensures sending ==> SectionDone(retval, rc, s)
      ensures !sending ==> retval == 0 && sent == old(sent) && heard == old(heard)
      ensures !sending && old(flag) ==> flag && alarm == old(alarm) && (rc < 0 <==> Broken(c.archive, 0))
      ensures !sending && !old(flag) ==>
                && rc == Scanned(c).rc && flag == Scanned(c).cut
                && alarm == if Scanned(c).cut then StepOne else old(alarm)
    {
      retval, rc := 0, 0;
      var didCatalog, didSignatures := false, false;
      ghost var scan := NOTHING_SEEN;
      var i := 0;
      LookForSignal(0, sending, 0, scan, s, flag);
      while !Broken(c.archive, i) && !flag
        invariant 0 <= i <= |c.archive.members| && rc == 0
        invariant didCatalog == scan.catalog.Some? && didSignatures == scan.signatures.Some?
        invariant Looking(i, sending, retval, scan, s, old(flag))
        invariant !sending ==> sent == old(sent) && heard == old(heard)
        invariant !sending && (old(flag) || !flag) ==> flag == old(flag) && alarm == old(alarm)
        invariant old(flag) ==> flag && i == 0
        decreases |c.archive.members| - i
      {
        if i == |c.archive.members| {
          if c.archive.hasPayload {
            rc := -36;
          }
          break;
        }
        var m := c.archive.members[i];
        if !m.readable {
          rc := -38;
          break;
        }
        if !m.isCatalog && m.isStorage {
          break;
        }
        retval, didCatalog, didSignatures, scan := LookAt(m, sending, i, retval, didCatalog, didSignatures, scan, s);
        i := i + 1;
        LookForSignal(i, sending, retval, scan, s, old(flag));
      }
      if Broken(c.archive, i) {
        rc := -50;
      }
      if sending {
        EndSection(i, retval, rc, scan, s);
      }
    }

    /** One of the tasks that end the run if they fail: 0, or 1 more error. */
    method LoadOne(task: Task, body: Body, ghost i: nat, ghost s: Stance) returns (retval: nat)
      requires c.mode == Install && (At(i, s) || Struck(1)) && IsStrict(i) && task == Slots(Install)[i]
      requires alarm.Clear? ==> Enter(c, task, s) == Send(body)
      modifies this`sent, this`heard, this`alarm, this`flag
      ensures if retval == 0 then Comes(i + 1, s) else Over()
    {
      var ret, r := Tell(task, body, i, s, 1);
      AbortsNone(sent);
      StrictReaction(c, i, s, r);
      retval := if ret != 0 then 1 else 0;
    }

    /** The catalog directory and the lock. */
    method PrepareCatalog(ghost s: Stance) returns (go: bool)
      requires c.mode == Install && (At(9, s) || Struck(1) || Quiet())
      modifies this`sent, this`heard, this`alarm, this`flag
      ensures if go then At(11, s) || Struck(AtLook(0)) else Over()
    {
      if alarm == StepTwo {
        var _, _ := SendAndExpect(MakeCatalogDir, Work);
        return false;
      }
      var ret := LoadOne(MakeCatalogDir, Work, 9, s);
      if ret != 0 {
        return false;
      }
      go := Lock(s);
    }

    method Lock(ghost s: Stance) returns (go: bool)
      requires c.mode == Install && (At(10, s) || Struck(1))
      modifies this`sent, this`heard, this`alarm, this`flag
      ensures if go then At(11, s) || Struck(AtLook(0)) else Over()
    {
      var ret, r := Tell(LockedSession, Work, 10, s, 1);
      AbortsNone(sent);
      if ret < 0 {
        return false;
      } else if ret > 0 {
        if !c.forceLocks {
          return false;
        }
      }
      return true;
    }

    /** What the end of the checkinstall script and its status mean for the install. */
    method Judge(ret: int) returns (retval: nat, doCheckAbort: bool)
      ensures doCheckAbort <==> ret >= 0 && Vetoed(c)
      ensures retval == if ret < 0 || !Recognized(c.checkStatus) then 1 else 0
    {
      retval, doCheckAbort := 0, false;
      if ret < 0 {
        retval := retval + 1;
      } else if c.checkStatus == SW_SUCCESS || c.checkStatus == SW_WARNING {
      } else if c.checkStatus == SW_ERROR {
        if c.enforceScripts {
          doCheckAbort := true;
        }
      } else if c.checkStatus == SW_DESELECT {
        if !c.force {
          doCheckAbort := true;
        }
      } else if c.checkStatus == -1 {
      } else {
        retval := retval + 1;
      }
    }

    /** The checkinstall script. */
    method RunCheck(ghost s: Stance) returns (retval: nat, doCheckAbort: bool)
      requires c.mode == Install && (At(16, s) || Struck(1))
      modifies this`sent, this`heard, this`alarm, this`flag
      ensures doCheckAbort ==> retval == 0
      ensures At(17, s.(veto := doCheckAbort, failed := retval > 0)) || Struck(1) || (Fallen(0) && retval > 0)
    {
      var ret, r := Tell(Analysis002, Work, 16, s, 1);
      retval, doCheckAbort := Judge(ret);
    }

    /** The restoring of the replaced entry, or nothing in its place. */
    method RestoreIfVetoed(up: bool, doCheckAbort: bool, retval: nat, ghost s: Stance) returns (retval': nat)
      requires c.mode == Install && s == Stance(up, doCheckAbort, retval > 0)
      requires At(17, s) || Struck(1) || (Fallen(0) && retval > 0)
      modifies this`sent, this`heard, this`alarm, this`flag
      ensures At(18, s) || Struck(1) || Fallen(0)
      ensures retval' > 0 <==> retval > 0 || (up && doCheckAbort)
    {
      retval' := retval;
      if up && doCheckAbort && retval == 0 {
        var _, _ := Tell(RestoreEntry, Work, 17, s, 1);
        retval' := retval' + 1;
      } else {
        var _, _ := Tell(RestoreEntry, Nothing(SW_SUCCESS), 17, s, 1);
      }
    }

    /** The task that lets the target go on, or fails. */
    method LetGoOn(doCheckAbort: bool, retval: nat, ghost s: Stance) returns (retval': nat)
      requires c.mode == Install && (At(18, s) || Struck(1) || Fallen(0))
      requires s.veto == doCheckAbort && (doCheckAbort || (s.failed <==> retval > 0))
      modifies this`sent, this`heard, this`alarm, this`flag
      ensures if retval' == 0 then Comes(19, s) && !s.veto && !s.failed else Over()
    {
      retval' := retval;
      var status: nat := SW_SUCCESS;
      if doCheckAbort {
        retval' := retval' + 1;
        status := SW_ERROR;
      }
      var ret, r := Tell(ContinueTask, Nothing(status), 18, s, 1);
      AbortsNone(sent);
      ContinueReaction(c, s, ret);
      if ret != 0 {
        retval' := retval' + 1;
      }
    }

    /** The analysis, the restoring of the replaced entry, and the task that lets the target go on. */
    method Analyze(up: bool, ghost s: Stance) returns (retval: nat)
      requires c.mode == Install && (At(16, s) || Struck(1)) && s == AT_START.(restorable := up)
      modifies this`sent, this`heard, this`alarm, this`flag
      ensures if retval == 0 then Comes(19, s) else Over()
    {
      var doCheckAbort;
      retval, doCheckAbort := RunCheck(s);
      ghost var s' := s.(veto := doCheckAbort, failed := retval > 0);
      retval := RestoreIfVetoed(up, doCheckAbort, retval, s');
      retval := LetGoOn(doCheckAbort, retval, s');
    }

    /** The task for the fileset, and its answer, whenever it is looked at. */
    method AskFileset(ghost s: Stance) returns (end: int, came: bool, ghost r: Reply)
      requires c.mode == Install && At(20, s)
      modifies this`sent, this`heard, this`alarm
      ensures alarm.Clear? && !flag && !didAbort && Loaded(sent) && payload == 0 && heard <= 21
      ensures r == Reply(end, came)
      ensures sent + Rest(c, 20, Hear(c, 20, s, r), answers[heard..]) == Script(c, answers)
    {
      FilesetAdvance(c, answers, sent, heard, s);
      LoadedSnoc(sent, Message(LoadFileset, Work));
      var ret := SendScript(LoadFileset, Work);
      end, came, r := answers[heard].status, answers[heard].signal, answers[heard];
      heard := heard + 1;
    }

    /** The fileset: its task is sent, then its bytes once the far end is ready, and then its end is waited for. */
    method SendFileset(ghost s: Stance) returns (ok: bool)
      requires c.mode == Install && (At(20, s) || Struck(1))
      modifies this`sent, this`heard, this`alarm, this`payload, this`flag
      ensures if ok then Comes(21, s) else Over()
    {
      if alarm != Clear {
        AbortsNext(sent, 1);
        var _ := SendScript(LoadFileset, Work);
        AbortsNone(sent);
        LoadedSnoc(old(sent), ABORT);
        return false;
      }
      var end, came, r := AskFileset(s);
      FilesetReaction(c, s, r);
      AbortsNone(sent);
      if !c.clearToSend {
        return false;
      }
      payload := payload + c.bytes;
      if c.interrupted || came {
        OnSignal();
      }
      if c.storage != 0 {
        return false;
      }
      ok := end == 0;
    }

    /** The tasks from the unpacking of the catalog to the control script. */
    method LoadControls(ghost s: Stance) returns (retval: nat)
      requires c.mode == Install && ((At(13, s) && Scanned(c).rc >= 0 && !Scanned(c).cut) || Struck(1))
      modifies this`sent, this`heard, this`alarm, this`flag
      ensures if retval == 0 then Comes(16, s) else Over()
    {
      retval := LoadOne(CatalogUnpack, Work, 13, s);
      if retval == 0 {
        retval := LoadOptions(s);
      }
    }

    method LoadOptions(ghost s: Stance) returns (retval: nat)
      requires c.mode == Install && Comes(14, s)
      modifies this`sent, this`heard, this`alarm, this`flag
      ensures if retval == 0 then Comes(16, s) else Over()
    {
      retval := LoadOne(SessionOptions, Work, 14, s);
      if retval == 0 {
        retval := LoadOne(ControlSh, Work, 15, s);
      }
    }

    /** arfinstall_tar outside preview. */
    method Load(up: bool)
      requires c.mode == Install && (Comes(9, AT_START.(restorable := up)) || Quiet())
      modifies this`sent, this`heard, this`alarm, this`payload, this`flag
      ensures Over()
    {
      ghost var s := AT_START.(restorable := up);
      var go := PrepareCatalog(s);
      if !go {
        return;
      }
      var retval, rc := CatalogSection(true, s);
      if rc < 0 {
        return;
      }
      if retval == 0 {
        retval := LoadControls(s);
      }
      if retval == 0 {
        retval := Analyze(up, s);
      }
      if retval == 0 {
        Execute(s);
      }
    }

    /** From the transient INSTALLED file on. */
    method Execute(ghost s: Stance)
      requires c.mode == Install && Comes(19, s)
      modifies this`sent, this`heard, this`alarm, this`payload, this`flag
      ensures Over()
    {
      var retval := LoadOne(LoadInstalled90, Index(false), 19, s);
      if retval == 0 {
        var ok := SendFileset(s);
        if !ok {
          return;
        }
        Finish(s);
      }
    }

    /** From the removal of the unpacked catalog on. */
    method Finish(ghost s: Stance)
      requires c.mode == Install && Comes(21, s)
      modifies this`sent, this`heard, this`alarm, this`flag
      ensures Over()
    {
      var retval := LoadOne(CatalogDirRemove, Work, 21, s);
      if retval == 0 {
        GoLive(s);
      }
    }

    /** The INSTALLED file with state installed, and its renaming. */
    method GoLive(ghost s: Stance)
      requires c.mode == Install && Comes(22, s)
      modifies this`sent, this`heard, this`alarm, this`flag
      ensures Over()
    {
      var retval := LoadOne(LoadInstalled91, Index(true), 22, s);
      if retval == 0 {
        MakeItLive(s);
      }
    }

    method MakeItLive(ghost s: Stance)
      requires c.mode == Install && Comes(23, s)
      modifies this`sent, this`heard, this`alarm, this`flag
      ensures Over()
    {
      var retval := LoadOne(MakeLive, Work, 23, s);
      AbortsNone(sent);
      AtEnd(s);
    }

    /** Nothing comes after the last slot. */
    ghost method AtEnd(s: Stance)
      ensures At(24, s) && c.mode == Install ==> Over()
    {
      assert sent + [] == sent;
    }

    /** A host that comes to the preview task, or has been silenced: it may still owe an abort for a signal in the archive. */
    ghost predicate AtPreview(i: nat, s: Stance)
      reads this
    {
      Comes(i, s) || (alarm.StepTwo? && Owes(if flag then 0 else if !Lost(c) && Cut(c) then 1 else 0))
    }

    /** What a host in preview owes that has not seen a signal. */
    ghost predicate Undecided(i: nat, s: Stance)
      reads this
    {
      At(i, s) || (alarm.StepTwo? && Owes(if !Lost(c) && Cut(c) then 1 else 0))
    }

    /** arfinstall_tar in preview: nothing is sent but the task that ends the script. */
    method PreviewOnly(ghost i: nat, ghost s: Stance)
      requires c.mode != Install && i < |Slots(c.mode)| && Slots(c.mode)[i] == PreviewTask && AtPreview(i, s)
      modifies this`sent, this`heard, this`alarm, this`flag
      ensures Over()
    {
      AbortsNone(sent);
      if flag {
        PreviewAfterSignal(i, s);
      } else {
        PreviewArchive(i, s);
      }
    }

    /** The archive is not read, but its first header is. */
    method PreviewAfterSignal(ghost i: nat, ghost s: Stance)
      requires c.mode != Install && flag && i < |Slots(c.mode)| && Slots(c.mode)[i] == PreviewTask
      requires Struck(AtLook(0)) || Quiet()
      modifies this`sent, this`heard, this`alarm, this`flag
      ensures Over()
    {
      AbortsNone(sent);
      var _, rc := CatalogSection(false, s);
      if rc < 0 {
        return;
      }
      if alarm == StepOne {
        AbortsNext(sent, 1);
      }
      var _, _ := SendAndExpect(PreviewTask, Nothing(SW_SUCCESS));
      AbortsNone(sent);
    }

    /** The two sections of the archive, and the preview task. */
    method PreviewArchive(ghost i: nat, ghost s: Stance)
      requires c.mode != Install && !flag && i < |Slots(c.mode)| && Slots(c.mode)[i] == PreviewTask && Undecided(i, s)
      modifies this`sent, this`heard, this`alarm, this`flag
      ensures Over()
    {
      AbortsNone(sent);
      if alarm == Clear {
        if Lost(c) {
          Quits(i, s);
        } else if Cut(c) {
          Stricken(i, s);
        }
      }
      var _, rc := CatalogSection(false, s);
      if rc < 0 {
        return;
      }
      if !flag {
        if c.storage < 0 {
          return;
        }
        if c.interrupted {
          OnSignal();
        }
      }
      if alarm == StepOne {
        AbortsNext(sent, 1);
      }
      if alarm == Clear {
        var _, _ := Ask(PreviewTask, Nothing(SW_SUCCESS), i, s);
      } else {
        var _, _ := SendAndExpect(PreviewTask, Nothing(SW_SUCCESS));
      }
      AbortsNone(sent);
    }

    /** Ready for the last guard, under the alarm of a failed check or of a signal, or not. */
    ghost predicate Ready(up: bool, i: nat)
      reads this
    {
      && i == (if c.mode == ToStdout then 2 else 8)
      && (Doomed() || At(i, AT_START.(restorable := up)) || (i == 8 && Struck(1)) || Fallen(0))
    }

    /** What the last guard leaves. */
    ghost predicate Settled(up: bool, i: nat)
      reads this
    {
      if c.mode == Install then Comes(i + 1, AT_START.(restorable := up)) || Quiet()
      else AtPreview(i + 1, AT_START.(restorable := up))
    }

    /** The last guard of main. */
    method LastGuard(ghost up: bool, ghost i: nat)
      requires Ready(up, i) && (c.mode != Install && Doomed() ==> c.compatibility.Incompatible?)
      modifies this`sent, this`alarm, this`heard, this`flag
      ensures Settled(up, i)
    {
      ghost var s := AT_START.(restorable := up);
      if alarm == Clear {
        GuardReaction(c, i, s, answers[heard]);
        var _, _ := Ask(CheckStatus, Nothing(SW_SUCCESS), i, s);
      } else {
        GuardUnderAlarm(up, i);
      }
    }

    /** The last guard of a host under the alarm. */
    method GuardUnderAlarm(ghost up: bool, ghost i: nat)
      requires Ready(up, i) && !alarm.Clear? && (c.mode != Install && Doomed() ==> c.compatibility.Incompatible?)
      modifies this`sent, this`alarm, this`heard, this`flag
      ensures Settled(up, i)
    {
      AbortsNone(sent);
      if alarm == StepOne {
        AbortsNext(sent, if didAbort then 1 + Extra() else 1);
      }
      var _, _ := SendAndExpect(CheckStatus, Nothing(SW_SUCCESS));
      AbortsNone(sent);
    }

    /** The last guard and the install, unless a check has made that useless. */
    method Conclude(retval: nat, up: bool, ghost i: nat)
      requires Ready(up, i) && (retval > 0 ==> Doomed())
      requires c.mode != Install && Doomed() ==> if retval == 0 then c.compatibility.Incompatible? else Extra() == 0
      modifies this
      ensures Over()
    {
      if retval == 0 {
        LastGuard(up, i);
        if c.mode != Install {
          PreviewOnly(i + 1, AT_START.(restorable := up));
        } else {
          Load(up);
        }
      } else {
        AbortsNext(sent, 1);
        var _, _ := SendAndExpect(IntentionalAbort, Nothing(SW_SUCCESS));
        AbortsNone(sent);
      }
    }

    /** The whole conversation. */
    method Run()
      requires Starts()
      modifies this
      ensures sent == Script(c, answers) && payload == PayloadOf(c, sent)
    {
      var go := Opening();
      if !go {
        return;
      }
      if c.mode == ToStdout {
        AbortsNone(sent);
        if alarm == Clear {
          Conclude(0, false, 2);
        }
        return;
      }
      go := QueryCatalog();
      if !go {
        return;
      }
      Continue();
    }

    /** From the replaced entry on. */
    method Continue()
      requires c.mode != ToStdout && (Tested() || (c.mode == Install && Refusing()))
      modifies this
      ensures Over()
    {
      var go := FetchReplaced();
      if !go {
        return;
      }
      go := Overwrites();
      if !go {
        return;
      }
      Prepare();
    }

    /** From the second guard on. */
    method Prepare()
      requires c.mode != ToStdout && (Comes(6, Knowing()) || (c.mode != Install && Fallen(Later())))
      modifies this
      ensures Over()
    {
      var go, retval := LastChecks();
      if !go {
        return;
      }
      var up := MoveAside();
      Conclude(retval, up, 8);
    }
  }
}
