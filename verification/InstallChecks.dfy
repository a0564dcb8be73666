/**
 What the messages of an install tell of the host's checks, and of the answers it heard: nothing that changes the target is
 sent unless every check passed, and a check that fails is told to the target.
 */
module InstallChecks {
  import opened TaskProtocol
  import opened Lockstep

  // ------------------------------------------------------------ coming by a slot

  /** What must hold for the host to go on from slot `i`. */
  predicate Checked(c: Choices, i: nat)
  {
    match c.mode
    case Install =>
      && (i == 1 ==> c.locatable) && (i == 2 ==> c.listingData)
      && (i == 3 ==> c.analyzed && c.downdateOk && c.reinstallOk && c.singleOk && c.selected)
      && (i == 4 ==> (c.displaced ==> c.entryData))
      && (i == 5 ==> c.overwriteData && (c.conflicts ==> c.displaced))
      && (i == 6 ==> c.requisitesOk && c.instanceOk && c.pathOk && c.compatibility.Compatible?)
      && (i == 13 ==> Scanned(c).rc >= 0 && !Scanned(c).cut)
    case Preview =>
      && (i == 3 ==> c.analyzed) && (i == 4 ==> (c.displaced ==> c.entryData))
      && (i == 6 ==> c.compatibility.Compatible?)
    case ToStdout => true
  }

  lemma PassMeans(c: Choices, i: nat, s: Stance, r: Reply)
    requires i < |Slots(c.mode)| && Enter(c, Slots(c.mode)[i], s).Send? && Hear(c, i, s, r).On?
    ensures !r.signal && Checked(c, i)
    ensures Slots(c.mode)[i] != Analysis002 ==> Takes(c, Slots(c.mode)[i], r.status)
  {
    TaskMeans(c, Slots(c.mode)[i], i == SECOND_GUARD, s, r.status);
  }

  /** The same by task. */
  lemma TaskMeans(c: Choices, task: Task, second: bool, s: Stance, r: int)
    requires React(c, task, second, s, r).On?
    ensures task != Analysis002 ==> Takes(c, task, r)
  {
  }

  /** The slots that are passed over have no check. */
  lemma LeaveChecked(c: Choices, answers: seq<Reply>, i: nat, p: Place)
    requires i < |Slots(c.mode)| && Leave(c, answers, i, p).Some?
    ensures Checked(c, i)
  {
    if Enter(c, Slots(c.mode)[i], p.s).Send? {
      PassMeans(c, i, p.s, answers[p.heard]);
    } else {
      PassableSlots(c, i, p.s);
    }
  }

  lemma ComesBy(c: Choices, answers: seq<Reply>, i: nat, j: nat)
    requires i < j <= |Slots(c.mode)| && Arrive(c, answers, j).Some?
    ensures Checked(c, i)
  {
    ArriveBefore(c, answers, i + 1, j);
    ArriveStep(c, answers, i);
    LeaveChecked(c, answers, i, Arrive(c, answers, i).value);
  }

  // ------------------------------------------------------------ nothing is changed unless every check passed

  lemma AllPassed(c: Choices, answers: seq<Reply>, j: nat)
    requires c.mode == Install && 7 <= j <= 24 && Arrive(c, answers, j).Some?
    ensures Admitted(c)
  {
    ComesBy(c, answers, 1, j);
    ComesBy(c, answers, 2, j);
    ComesBy(c, answers, 3, j);
    ComesBy(c, answers, 4, j);
    ComesBy(c, answers, 5, j);
    ComesBy(c, answers, 6, j);
  }

  /** The tasks from the removal of the replaced entry on are for slots of their own. */
  lemma ChangingSlot(i: nat)
    requires i < 24 && (Slots(Install)[i] in Slots(Install)[9..] || Slots(Install)[i] == RemoveEntry)
    ensures i >= 7
  {
    assert Slots(Install)[i] == TaskAt(Install, i);
    forall k | 0 <= k < |Slots(Install)[9..]| ensures Slots(Install)[9..][k] == LoadingTask(9 + k) {
      assert Slots(Install)[9..][k] == Slots(Install)[9 + k];
    }
  }

  /**
   No message of an install removes the replaced entry, or is for a slot after the checks, unless every check passed; for every
   host and whatever it hears.
   */
  lemma OnlyAdmitted(c: Choices, answers: seq<Reply>, q: nat)
    requires c.mode == Install && q < |Script(c, answers)|
    requires Script(c, answers)[q].task in Slots(Install)[9..] || Script(c, answers)[q].task == RemoveEntry
    ensures c.locatable && c.listingData && c.analyzed && c.overwriteData && (c.conflicts ==> c.displaced)
    ensures c.downdateOk && c.reinstallOk && c.singleOk && c.selected && (c.displaced ==> c.entryData)
    ensures c.requisitesOk && c.instanceOk && c.pathOk && c.compatibility.Compatible?
  {
    NoAbortSlot(Install);
    var j := PlaceOf(c, answers, q);
    ChangingSlot(j);
    AllPassed(c, answers, j);
  }

  // ------------------------------------------------------------ the answers before a message

  /** A later message that is no abort: the slot got its message, and the answer let the host go on. */
  lemma GoesOnTo(c: Choices, i: nat, s: Stance, answers: seq<Reply>, q: nat)
    requires i < |Slots(c.mode)| && !Enter(c, Slots(c.mode)[i], s).PassOver?
    requires 0 < q < |Walk(c, i, s, answers)| && Walk(c, i, s, answers)[q] != ABORT
    ensures Enter(c, Slots(c.mode)[i], s).Send? && answers != [] && Hear(c, i, s, answers[0]).On?
  {
  }

  /** The answer to message `p` is no signal, and one that the host can live with, as far as that shows at once. */
  predicate IsTaken(c: Choices, m: seq<Message>, answers: seq<Reply>, p: nat)
  {
    && p < |m| && p < |answers| && !answers[p].signal
    && (m[p].task != Analysis002 ==> Takes(c, m[p].task, answers[p].status))
  }

  lemma TakenCons(c: Choices, x: Message, m: seq<Message>, answers: seq<Reply>, p: nat)
    requires answers != [] && IsTaken(c, m, answers[1..], p)
    ensures IsTaken(c, [x] + m, answers, p + 1)
  {
  }

  /** What was heard before a message that is no abort. */
  lemma {:induction false} HeardBefore(c: Choices, i: nat, s: Stance, answers: seq<Reply>, p: nat, q: nat)
    requires i < |Slots(c.mode)| && p < q < |Walk(c, i, s, answers)| && Walk(c, i, s, answers)[q] != ABORT
    ensures IsTaken(c, Walk(c, i, s, answers), answers, p)
    decreases |Slots(c.mode)| - i
  {
    var e := Enter(c, Slots(c.mode)[i], s);
    if e.PassOver? {
      HeardBefore(c, i + 1, Passed(s, Slots(c.mode)[i]), answers, p, q);
    } else {
      GoesOnTo(c, i, s, answers, q);
      AnsweredSlot(c, i, s, answers);
      var h, x := Hear(c, i, s, answers[0]), Message(Slots(c.mode)[i], e.body);
      if p == 0 {
        PassMeans(c, i, s, answers[0]);
      } else {
        HeardBefore(c, i + 1, h.s, answers[1..], p - 1, q - 1);
        TakenCons(c, x, Walk(c, i + 1, h.s, answers[1..]), answers, p - 1);
      }
    }
  }

  lemma AnswersTaken(c: Choices, answers: seq<Reply>, p: nat, q: nat)
    requires p < q < |Script(c, answers)| && Script(c, answers)[q] != ABORT
    ensures p < |answers| && !answers[p].signal
    ensures var task := Script(c, answers)[p].task; task != Analysis002 ==> Takes(c, task, answers[p].status)
  {
    HeardBefore(c, 0, AT_START, answers, p, q);
  }

  /** A lock that is held is not ignored without the option: whatever is sent after the lock task. */
  lemma LockRespected(c: Choices, answers: seq<Reply>, p: nat, q: nat)
    requires p < q < |Script(c, answers)| && Script(c, answers)[q] != ABORT
    requires Script(c, answers)[p].task == LockedSession
    ensures p < |answers| && (answers[p].status == 0 || (answers[p].status > 0 && c.forceLocks))
  {
    AnswersTaken(c, answers, p, q);
  }

  lemma LoadingSlot(i: nat)
    requires i < 24 && Slots(Install)[i] in Slots(Install)[19..]
    ensures i >= 19
  {
    var k :| 0 <= k < |Slots(Install)[19..]| && Slots(Install)[19..][k] == Slots(Install)[i];
    assert Slots(Install)[19..][k] == Slots(Install)[19 + k] == LoadingTask(19 + k);
    assert Slots(Install)[i] == TaskAt(Install, i);
  }

  /**
   The checkinstall script was not there (-1), succeeded (0) or warned (2); or it failed (1) and need not be heeded; or it asked to
   be left out (3) and is forced in.
   */
  predicate CheckPassed(c: Choices)
  {
    || c.checkStatus == -1 || c.checkStatus == 0 || c.checkStatus == 2
    || (c.checkStatus == 1 && !c.enforceScripts) || (c.checkStatus == 3 && c.force)
  }

  lemma CheckPassedIff(c: Choices)
    ensures CheckPassed(c) <==> !Vetoed(c) && Recognized(c.checkStatus)
  {
  }

  /** What comes after the continue task comes only after an analysis that ended, with a status known and not a veto. */
  lemma AnalysisRespected(c: Choices, answers: seq<Reply>, p: nat, q: nat)
    requires c.mode == Install && q < |Script(c, answers)| && Script(c, answers)[q].task in Slots(Install)[19..]
    requires p < |Script(c, answers)| && Script(c, answers)[p].task == Analysis002
    ensures p < |answers| && answers[p].status >= 0 && CheckPassed(c)
  {
    NoAbortSlot(Install);
    var jq := PlaceOf(c, answers, q);
    LoadingSlot(jq);
    var jp := PlaceOf(c, answers, p);
    OneSlot(jp);
    ArriveBefore(c, answers, 19, jq);
    CalmAnalysis(c, answers);
    CheckPassedIff(c);
  }

  lemma CalmAnalysis(c: Choices, answers: seq<Reply>)
    requires c.mode == Install && Arrive(c, answers, 19).Some?
    ensures Arrive(c, answers, 16).Some? && Arrive(c, answers, 16).value.heard < |answers|
    ensures answers[Arrive(c, answers, 16).value.heard].status >= 0 && !Vetoed(c) && Recognized(c.checkStatus)
  {
    LateStep(c, answers, 18);
    var p := Arrive(c, answers, 18).value;
    ContinueReaction(c, p.s, answers[p.heard].status);
    StanceAfterAnalysis(c, answers, 18);
  }

  /** A message of a later slot comes after that of every slot that is not passed over. */
  lemma MessageBefore(c: Choices, answers: seq<Reply>, i: nat, j: nat, q: nat) returns (p: nat)
    requires c.mode == Install && i < j < 24 && i != 7 && i != 11 && i != 12
    requires Arrive(c, answers, j).Some? && Arrive(c, answers, j).value.heard == q <= |Script(c, answers)|
    ensures p < q && Script(c, answers)[p].task == Slots(Install)[i]
  {
    ArriveBefore(c, answers, i + 1, j);
    ArriveStep(c, answers, i);
    var here := Arrive(c, answers, i).value;
    if Enter(c, Slots(Install)[i], here.s).PassOver? {
      PassableSlots(c, i, here.s);
    }
    p := here.heard;
    ScriptFrom(c, answers, i);
    WalkLeave(c, answers, i, here);
    HeardGrows(c, answers, i + 1, j);
    assert Script(c, answers)[p] == Script(c, answers)[p..][0];
  }

  lemma {:induction false} HeardGrows(c: Choices, answers: seq<Reply>, i: nat, j: nat)
    requires i <= j <= |Slots(c.mode)| && Arrive(c, answers, j).Some?
    ensures Arrive(c, answers, i).Some? && Arrive(c, answers, i).value.heard <= Arrive(c, answers, j).value.heard
    decreases j
  {
    if i == j {
    } else {
      ArriveStep(c, answers, j - 1);
      HeardGrows(c, answers, i, j - 1);
    }
  }

  /** The tasks that write to the catalog or to the target, or run the package's scripts. */
  predicate IsBehindTheLock(task: Task)
  {
    || task == LoadCatalog || task == LoadSignatures || task == CatalogUnpack || task == SessionOptions
    || task == ControlSh || task == Analysis002 || task == RestoreEntry || task == ContinueTask
    || task == LoadInstalled90 || task == LoadFileset || task == CatalogDirRemove || task == LoadInstalled91 || task == MakeLive
  }

  lemma LockSlot(i: nat)
    requires i < 24
    ensures IsBehindTheLock(Slots(Install)[i]) ==> i > 10
    ensures Slots(Install)[i] == LockedSession <==> i == 10
    ensures Slots(Install)[i] == Analysis002 <==> i == 16
    ensures Slots(Install)[i] == ControlSh <==> i == 15
    ensures Slots(Install)[i] == CatalogUnpack <==> i == 13
  {
    assert Slots(Install)[i] == TaskAt(Install, i);
  }

  /** Nothing is written and no script is run before the target took the lock, or the lock was ignored by request. */
  lemma WorksBehindTheLock(c: Choices, answers: seq<Reply>, q: nat) returns (p: nat)
    requires c.mode == Install && q < |Script(c, answers)| && IsBehindTheLock(Script(c, answers)[q].task)
    ensures p < q && p < |answers| && Script(c, answers)[p].task == LockedSession
    ensures answers[p].status == 0 || (answers[p].status > 0 && c.forceLocks)
  {
    var j := PlaceOf(c, answers, q);
    LockSlot(j);
    LockSlot(10);
    p := MessageBefore(c, answers, 10, j, q);
    LockRespected(c, answers, p, q);
  }

  /** The catalog is unpacked and the control script loaded, both without error, before the package is analyzed with it. */
  lemma AnalysisIsPrepared(c: Choices, answers: seq<Reply>, q: nat) returns (u: nat, s: nat)
    requires c.mode == Install && q < |Script(c, answers)| && Script(c, answers)[q].task == Analysis002
    ensures u < s < q <= |answers| && answers[u].status == 0 && answers[s].status == 0
    ensures Script(c, answers)[u].task == CatalogUnpack && Script(c, answers)[s].task == ControlSh
  {
    var j := PlaceOf(c, answers, q);
    LockSlot(j);
    LockSlot(13);
    LockSlot(15);
    s := MessageBefore(c, answers, 15, j, q);
    var k := PlaceOf(c, answers, s);
    LockSlot(k);
    u := MessageBefore(c, answers, 13, k, s);
    AnswersTaken(c, answers, s, q);
    AnswersTaken(c, answers, u, q);
    AnswersTaken(c, answers, q - 1, q);
  }

  /** Payload bytes go out only after the fileset task was sent and the far end is ready, and then all of them. */
  lemma PayloadMeans(c: Choices, answers: seq<Reply>)
    ensures PayloadOf(c, Script(c, answers)) > 0 ==> c.clearToSend && Loaded(Script(c, answers))
    ensures c.clearToSend && Loaded(Script(c, answers)) ==> PayloadOf(c, Script(c, answers)) == c.bytes
  {
  }

  /** For every host: make_live means that all checks passed and all steps went well. */
  lemma LiveMeansAllWell(c: Choices, answers: seq<Reply>, q: nat)
    requires c.mode == Install && q < |Script(c, answers)| && Script(c, answers)[q].task == MakeLive
    ensures AllWell(c) && Undisturbed(c)
  {
    var j := PlaceOf(c, answers, q);
    OneSlot(j);
    AllPassed(c, answers, j);
    ArriveBefore(c, answers, 19, j);
    CalmAnalysis(c, answers);
    ComesBy(c, answers, 13, j);
    MakeLiveLast(c, answers, q);
    ArriveBefore(c, answers, 0, j);
  }

  // ------------------------------------------------------------ when a run is complete

  /** The message of the last slot is sent. */
  ghost predicate Completes(c: Choices, answers: seq<Reply>)
  {
    exists q :: 0 <= q < |Script(c, answers)| && Script(c, answers)[q].task == Slots(c.mode)[|Slots(c.mode)| - 1]
  }

  lemma LastSlot(mode: Mode, i: nat)
    requires i < |Slots(mode)| && Slots(mode)[i] == Slots(mode)[|Slots(mode)| - 1]
    ensures i == |Slots(mode)| - 1
  {
    assert Slots(mode)[i] == TaskAt(mode, i);
  }

  /** A host in step has heard as many answers as it has come by slots. */
  lemma {:induction false} InStepHeard(c: Choices, answers: seq<Reply>, j: nat)
    requires InStep(c) && j <= |Slots(c.mode)| && Arrive(c, answers, j).Some?
    ensures Arrive(c, answers, j).value.heard == j
  {
    if j == 0 {
    } else {
      ArriveStep(c, answers, j - 1);
      InStepHeard(c, answers, j - 1);
      NoPassOver(c, j - 1, Arrive(c, answers, j - 1).value.s);
    }
  }

  /** Before a message of a host in step come those of the slots before. */
  lemma SlotBefore(c: Choices, answers: seq<Reply>, p: nat, q: nat)
    requires InStep(c) && p <= q < |Script(c, answers)| && Script(c, answers)[q] != ABORT
    ensures p < |Slots(c.mode)| && Script(c, answers)[p].task == Slots(c.mode)[p]
  {
    var m := Script(c, answers);
    if !c.early {
      WalkFills(c, 0, AT_START, answers);
      var k: nat :| Filled(Slots(c.mode), 0, m, k);
      assert m[p].task == Slots(c.mode)[0 + p];
    }
  }

  lemma PreviewEnd(c: Choices, s: Stance)
    requires Enter(c, PreviewTask, s).Send?
    ensures Scanned(c).rc >= 0 && c.storage >= 0 && !Scanned(c).cut && !c.interrupted
  {
  }

  lemma PreviewMeansAllWell(c: Choices, answers: seq<Reply>, j: nat)
    requires c.mode != Install && j == |Slots(c.mode)| - 1 && Arrive(c, answers, j).Some?
    requires Enter(c, PreviewTask, Arrive(c, answers, j).value.s).Send?
    ensures AllWell(c) && Undisturbed(c)
  {
    PreviewEnd(c, Arrive(c, answers, j).value.s);
    ArriveBefore(c, answers, 0, j);
    if c.mode == Preview {
      ComesBy(c, answers, 3, j);
      ComesBy(c, answers, 4, j);
      ComesBy(c, answers, 6, j);
    }
  }

  /** The host has sent the message of the last slot `j`, as message `j`. */
  ghost predicate EndsAt(c: Choices, answers: seq<Reply>, j: nat)
  {
    j == |Slots(c.mode)| - 1 && IsPlace(c, answers, j, j) && Script(c, answers)[j] != ABORT
  }

  lemma EndPlace(c: Choices, answers: seq<Reply>)
    requires InStep(c) && Completes(c, answers)
    ensures EndsAt(c, answers, |Slots(c.mode)| - 1)
  {
    var slots, m := Slots(c.mode), Script(c, answers);
    var q :| 0 <= q < |m| && m[q].task == slots[|slots| - 1];
    assert slots[|slots| - 1] in slots;
    NoAbortSlot(c.mode);
    var j := PlaceOf(c, answers, q);
    LastSlot(c.mode, j);
    InStepHeard(c, answers, j);
  }

  lemma EndMeansAllWell(c: Choices, answers: seq<Reply>, j: nat)
    requires EndsAt(c, answers, j)
    ensures AllWell(c) && Undisturbed(c)
  {
    if c.mode == Install {
      assert Slots(Install)[j] == TaskAt(Install, j) == MakeLive;
      LiveMeansAllWell(c, answers, j);
    } else {
      assert Slots(c.mode)[j] == TaskAt(c.mode, j) == PreviewTask;
      PreviewMeansAllWell(c, answers, j);
    }
  }

  lemma AnswerBefore(c: Choices, answers: seq<Reply>, p: nat, j: nat)
    requires InStep(c) && EndsAt(c, answers, j) && p < j
    ensures p < |answers| && Takes(c, Slots(c.mode)[p], answers[p].status) && !answers[p].signal
  {
    AnswersTaken(c, answers, p, j);
    SlotBefore(c, answers, p, j);
    CheckPassedIff(c);
    if Slots(c.mode)[p] == Analysis002 {
      AnalysisSlot(c.mode, p);
      AnalysisRespected(c, answers, p, j);
    }
  }

  lemma AnalysisSlot(mode: Mode, p: nat)
    requires p < |Slots(mode)| && Slots(mode)[p] == Analysis002
    ensures mode == Install && |Slots(mode)| == 24 && Slots(mode)[23] in Slots(Install)[19..]
  {
    assert Slots(mode)[p] == TaskAt(mode, p);
    assert Slots(Install)[19..][4] == Slots(Install)[23];
  }

  lemma CompleteMeans(c: Choices, answers: seq<Reply>)
    requires InStep(c) && Completes(c, answers)
    ensures AllWell(c) && Undisturbed(c)
    ensures |answers| >= |Slots(c.mode)| - 1 && Willing(c, 0, answers[..|Slots(c.mode)| - 1])
  {
    var last := |Slots(c.mode)| - 1;
    EndPlace(c, answers);
    EndMeansAllWell(c, answers, last);
    forall p: nat | p < last
      ensures p < |answers| && Takes(c, Slots(c.mode)[p], answers[p].status) && !answers[p].signal
    {
      AnswerBefore(c, answers, p, last);
    }
    assert last - 1 < |answers|;
  }

  /**
   The message of the last slot is sent (make_live in an install, the task that scuttles the script in preview) if and only if
   every check passed, every step went well, no signal came, and every answer before was one that the host can live with.
   */
  lemma CompletesIff(c: Choices, answers: seq<Reply>)
    requires InStep(c)
    ensures Completes(c, answers) <==>
            && AllWell(c) && Undisturbed(c)
            && |answers| >= |Slots(c.mode)| - 1 && Willing(c, 0, answers[..|Slots(c.mode)| - 1])
  {
    var last := |Slots(c.mode)| - 1;
    if Completes(c, answers) {
      CompleteMeans(c, answers);
    }
    if AllWell(c) && Undisturbed(c) && |answers| >= last && Willing(c, 0, answers[..last]) {
      CompleteRun(c, answers[..last]);
      GrowsAll(c, answers, last);
      assert Script(c, answers[..last])[last] == Script(c, answers)[last];
    }
  }

  /** Hearing any number of answers more only adds messages. */
  lemma {:induction false} GrowsAll(c: Choices, answers: seq<Reply>, k: nat)
    requires k <= |answers|
    ensures Script(c, answers[..k]) <= Script(c, answers)
    decreases |answers| - k
  {
    if k == |answers| {
      assert answers[..k] == answers;
    } else {
      GrowsAll(c, answers, k + 1);
      assert answers[..k + 1] == answers[..k] + [answers[k]];
      ScriptGrows(c, answers[..k], answers[k]);
    }
  }

  // ------------------------------------------------------------ what the messages do

  /** There is nothing for the task to do but exit. */
  predicate NothingToDo(c: Choices, task: Task)
  {
    || task == DoNothing || task == CheckStatus || task == PreviewTask
    || (task == IscsEntry && !c.displaced)
    || (task == RemoveEntry && (!c.displaced || c.mode != Install))
    || (task == LoadSignatures && !c.archive.isSigned)
  }

  /** Tasks whose work depends on what was heard, or is to load a state. */
  predicate IsSpecial(task: Task)
  {
    task == RestoreEntry || task == ContinueTask || task == LoadInstalled90 || task == LoadInstalled91
  }

  lemma EntryBody(c: Choices, i: nat, s: Stance)
    requires i < |Slots(c.mode)| && Enter(c, Slots(c.mode)[i], s).Send? && !IsSpecial(Slots(c.mode)[i])
    ensures Enter(c, Slots(c.mode)[i], s).body == if NothingToDo(c, Slots(c.mode)[i]) then Nothing(SW_SUCCESS) else Work
  {
    assert Slots(c.mode)[i] == TaskAt(c.mode, i);
  }

  /**
   Every task that has something to do is sent to do it, and the others only exit with 0: the replaced entry is really asked for
   and removed, the signatures of a signed package are loaded, and everything that is loaded is.
   */
  lemma WorkIsDone(c: Choices, answers: seq<Reply>, q: nat)
    requires q < |Script(c, answers)| && Script(c, answers)[q] != ABORT && !IsSpecial(Script(c, answers)[q].task)
    ensures var m := Script(c, answers)[q]; m.body == if NothingToDo(c, m.task) then Nothing(SW_SUCCESS) else Work
  {
    var j := PlaceOf(c, answers, q);
    EntryBody(c, j, Arrive(c, answers, j).value.s);
  }

  /** The continue task fails exactly when the analysis, two messages before, ended and is vetoed. */
  lemma ContinueMeans(c: Choices, answers: seq<Reply>, q: nat)
    requires c.mode == Install && q < |Script(c, answers)| && Script(c, answers)[q].task == ContinueTask
    ensures 2 <= q && q - 2 < |answers| && Script(c, answers)[q - 2].task == Analysis002
    ensures Script(c, answers)[q].body ==
            Nothing(if answers[q - 2].status >= 0 && Vetoed(c) then SW_ERROR else SW_SUCCESS)
  {
    var j := PlaceOf(c, answers, q);
    OneSlot(j);
    StanceAfterAnalysis(c, answers, j);
    AnalysisBefore(c, answers);
  }

  lemma AnalysisBefore(c: Choices, answers: seq<Reply>)
    requires c.mode == Install && Arrive(c, answers, 18).Some?
    ensures Arrive(c, answers, 16).Some?
    ensures var q := Arrive(c, answers, 16).value.heard;
            q < |Script(c, answers)| && Script(c, answers)[q].task == Analysis002
  {
    LateStep(c, answers, 17);
    LateStep(c, answers, 16);
  }

  // ------------------------------------------------------------ a refused install is told

  predicate NoSignal(answers: seq<Reply>)
  {
    forall k :: 0 <= k < |answers| ==> !answers[k].signal
  }

  /** The target answered the first two queries well, as far as they are still to come. */
  predicate Reachable(i: nat, answers: seq<Reply>)
  {
    forall k :: 0 <= k < |answers| && i + k < 2 ==> answers[k].status == 0
  }

  /** How a refusal ends the script: with an abort, and with two only for a refused reinstall. */
  predicate Told(c: Choices, m: seq<Message>)
  {
    && m != [] && m[|m| - 1] == ABORT
    && (|m| > 1 && m[|m| - 2] == ABORT ==> !c.reinstallOk && c.displaced && (|m| > 2 ==> m[|m| - 3] != ABORT))
  }

  /** The script was given up and the target told, or it goes on to the loading. */
  predicate Resolved(c: Choices, m: seq<Message>)
  {
    (Told(c, m) && forall q :: 0 <= q < |m| ==> m[q].task != MakeCatalogDir) || Message(MakeCatalogDir, Work) in m
  }

  lemma ResolvedCons(c: Choices, x: Message, m: seq<Message>)
    requires Resolved(c, m) && x != ABORT && x.task != MakeCatalogDir
    ensures Resolved(c, [x] + m)
  {
    if Message(MakeCatalogDir, Work) !in m && |m| <= 2 {
      assert [x] + m == if |m| == 1 then [x, m[0]] else [x, m[0], m[1]];
    }
  }

  lemma ResolvedHalt(c: Choices, x: Message, k: nat)
    requires k == 1 || (k == 2 && !c.reinstallOk && c.displaced)
    requires x != ABORT && x.task != MakeCatalogDir
    ensures Resolved(c, [x] + Aborts(k))
  {
    assert [x] + Aborts(k) == if k == 1 then [x, ABORT] else [x, ABORT, ABORT];
  }

  /** What the host does about an answer to one of the first nine messages. */
  lemma EarlyReaction(c: Choices, i: nat, s: Stance, r: Reply)
    requires c.mode == Install && c.analyzed && i < 9 && !r.signal && (i < 2 ==> r.status == 0)
    ensures var h := Hear(c, i, s, r);
            h.Halt? ==> h.aborts == 1 || (h.aborts == 2 && !c.reinstallOk && c.displaced)
  {
  }

  lemma EarlyEntry(c: Choices, i: nat, s: Stance)
    requires c.mode == Install && i < 9
    ensures var e := Enter(c, Slots(Install)[i], s); e.Send? || (e.PassOver? && i == 7)
    ensures Slots(Install)[i] != MakeCatalogDir
  {
  }

  lemma {:induction false} RefusalToldFrom(c: Choices, i: nat, s: Stance, answers: seq<Reply>)
    requires c.mode == Install && c.analyzed && i <= 9 && NoSignal(answers) && Reachable(i, answers) && |answers| >= 9 - i
    ensures Resolved(c, Walk(c, i, s, answers))
    decreases 9 - i
  {
    if i == 9 {
      assert Slots(Install)[9] == MakeCatalogDir;
      HeadMessage(c, 9, s, answers);
    } else {
      EarlyEntry(c, i, s);
      if Enter(c, Slots(Install)[i], s).PassOver? {
        RefusalToldFrom(c, i + 1, Passed(s, Slots(Install)[i]), answers);
      } else {
        AnsweredSlot(c, i, s, answers);
        EarlyReaction(c, i, s, answers[0]);
        NoAbortSlot(Install);
        assert Slots(Install)[i] in Slots(Install);
        var h, m := Hear(c, i, s, answers[0]), Message(Slots(Install)[i], Enter(c, Slots(Install)[i], s).body);
        if h.On? {
          RefusalToldFrom(c, i + 1, h.s, answers[1..]);
          ResolvedCons(c, m, Walk(c, i + 1, h.s, answers[1..]));
        } else {
          ResolvedHalt(c, m, h.aborts);
        }
      }
    }
  }

  /**
   When nothing disturbs it and the target can be reached, an install goes on to the loading, or it ends with an abort for the
   target, of which there are two only after a refused reinstall.
   */
  lemma RefusalIsTold(c: Choices, answers: seq<Reply>)
    requires c.mode == Install && c.analyzed && !c.early && NoSignal(answers) && Reachable(0, answers) && |answers| >= 9
    ensures Resolved(c, Script(c, answers))
  {
    RefusalToldFrom(c, 0, AT_START, answers);
  }

  /** After message `p` come `k` aborts and nothing else. */
  predicate EndsWithAborts(m: seq<Message>, p: nat, k: nat)
  {
    |m| == p + 1 + k && forall q :: p < q < |m| ==> m[q] == ABORT
  }

  lemma EndsCons(x: Message, m: seq<Message>, p: nat, k: nat)
    requires EndsWithAborts(m, p, k)
    ensures EndsWithAborts([x] + m, p + 1, k)
  {
  }

  lemma PreviewReaction(c: Choices, i: nat, s: Stance, r: Reply)
    requires c.mode == Preview && i < 7 && !r.signal && (i == 0 ==> r.status == 0)
    requires c.analyzed && (c.displaced ==> c.entryData) && !c.compatibility.Compatible?
    ensures Enter(c, Slots(Preview)[i], s).Send?
    ensures if i < 6 then Hear(c, i, s, r).On? else Hear(c, i, s, r) == Halt(1 + Anew(c))
  {
  }

  lemma {:induction false} PreviewRefusedFrom(c: Choices, i: nat, s: Stance, answers: seq<Reply>)
    requires c.mode == Preview && i < 7 && NoSignal(answers) && |answers| >= 7 - i && (i == 0 ==> answers[0].status == 0)
    requires c.analyzed && (c.displaced ==> c.entryData) && !c.compatibility.Compatible?
    ensures EndsWithAborts(Walk(c, i, s, answers), 6 - i, 1 + Anew(c))
    decreases 7 - i
  {
    PreviewReaction(c, i, s, answers[0]);
    AnsweredSlot(c, i, s, answers);
    var h := Hear(c, i, s, answers[0]);
    if i == 6 {
    } else {
      PreviewRefusedFrom(c, i + 1, h.s, answers[1..]);
      EndsCons(Message(Slots(Preview)[i], Enter(c, Slots(Preview)[i], s).body), Walk(c, i + 1, h.s, answers[1..]), 5 - i,
               1 + Anew(c));
    }
  }

  /**
   A preview for an incompatible host ends with an abort after the second guard; one more follows when the archive is looked at
   all the same, which an ambiguous host keeps it from, and a signal is seen there.
   */
  lemma PreviewRefusal(c: Choices, answers: seq<Reply>)
    requires c.mode == Preview && !c.early && NoSignal(answers) && |answers| >= 7 && answers[0].status == 0
    requires c.analyzed && (c.displaced ==> c.entryData) && !c.compatibility.Compatible?
    ensures EndsWithAborts(Script(c, answers), 6, 1) || EndsWithAborts(Script(c, answers), 6, 2)
    ensures EndsWithAborts(Script(c, answers), 6, 2) <==>
            && c.compatibility.Incompatible? && (Scanned(c).cut || (Scanned(c).rc >= 0 && c.storage >= 0 && c.interrupted))
  {
    PreviewRefusedFrom(c, 0, AT_START, answers);
  }

  // ------------------------------------------------------------ a signal is told

  /** The target is told twice where the replaced entry is still to be asked for. */
  function Tellings(i: nat): nat
  {
    if 2 <= i <= 4 then 2 else 1
  }

  lemma SignalReaction(c: Choices, i: nat, s: Stance, r: Reply)
    requires c.mode == Install && AllWell(c) && Undisturbed(c) && c.archive.ending.EndOfArchive? && Calm(s) && i < MAKE_LIVE
    requires Takes(c, Slots(Install)[i], r.status) && r.signal
    ensures Hear(c, i, s, r) == Halt(Tellings(i))
  {
    WellReaction(c, i, s, r.(signal := false));
    WellFall(c, i + 1);
  }

  lemma WellFall(c: Choices, i: nat)
    requires c.mode == Install && AllWell(c) && c.archive.ending.EndOfArchive? && 0 < i < 24
    ensures Fall(c, i) == Tellings(i - 1)
  {
  }

  lemma {:induction false} SignalToldFrom(c: Choices, i: nat, s: Stance, answers: seq<Reply>, p: nat)
    requires c.mode == Install && AllWell(c) && Undisturbed(c) && InStep(c) && c.archive.ending.EndOfArchive? && Calm(s)
    requires p < |answers| && i + p < MAKE_LIVE && Willing(c, i, answers[..p])
    requires answers[p].signal && Takes(c, Slots(Install)[i + p], answers[p].status)
    ensures EndsWithAborts(Walk(c, i, s, answers), p, Tellings(i + p))
    decreases p
  {
    NoPassOver(c, i, s);
    WellEntry(c, i, s);
    AnsweredSlot(c, i, s, answers);
    if p == 0 {
      SignalReaction(c, i, s, answers[0]);
    } else {
      WillingStep(c, i, answers[..p]);
      WellReaction(c, i, s, answers[0]);
      assert answers[..p][1..] == answers[1..][..p - 1];
      var s' := Hear(c, i, s, answers[0]).s;
      SignalToldFrom(c, i + 1, s', answers[1..], p - 1);
      EndsCons(Message(Slots(Install)[i], Enter(c, Slots(Install)[i], s).body), Walk(c, i + 1, s', answers[1..]), p - 1,
               Tellings(i + p));
    }
  }

  /** When all else is well, a signal that comes with any answer but the last is told to the target. */
  lemma SignalIsTold(c: Choices, answers: seq<Reply>, p: nat)
    requires c.mode == Install && AllWell(c) && Undisturbed(c) && InStep(c) && c.archive.ending.EndOfArchive?
    requires p < |answers| && p < MAKE_LIVE && Willing(c, 0, answers[..p])
    requires answers[p].signal && Takes(c, Slots(Install)[p], answers[p].status)
    ensures EndsWithAborts(Script(c, answers), p, Tellings(p))
  {
    SignalToldFrom(c, 0, AT_START, answers, p);
  }
}
