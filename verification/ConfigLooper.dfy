/**
 One turn of swconfig's looper: the tasks of the locked region, sent for one catalog entry.

 Preview, a refused signature or an unreadable entry turn the work of the tasks into nothing, but every task is
 sent all the same, because the target's script has a slot for each.
 */
module ConfigLooper {

  // ------------------------------------------------------------ the region and its messages

  datatype Task =
    | ReportStatus | CatalogUnpack | Analysis002 | LoadTransient | RunConfigure | CatalogDirRemove
    | LoadInstalled90 | MakeLive

  /** The slots of looper_locked_region. */
  const REGION: seq<Task> :=
    [ReportStatus, CatalogUnpack, Analysis002, LoadTransient, RunConfigure, CatalogDirRemove, LoadInstalled90, MakeLive]

  /** A task does real work, or nothing; the first reports the status the script has by then. */
  datatype Body = Nothing | Work | Report

  datatype Message = Message(task: Task, body: Body)

  const SWP_RP_STATUS_NO_INTEGRITY := 54

  /** What is known of the entry before the first task, and the options. */
  datatype Flags = Flags(preview: bool, verified: bool, accepted: bool, readable: bool, indexReadable: bool, merged: bool)

  /** Nothing is to be done for this entry. */
  predicate Idle(f: Flags)
  {
    f.preview || Skips(f)
  }

  predicate Skips(f: Flags)
  {
    !f.accepted || !f.readable || !f.indexReadable || !f.merged
  }

  /**
   How many tasks are sent once so many have been answered: up to the first that fails or that is still to be answered, or
   the first alone if the go-ahead does not come.
   */
  function Sent(clearToSend: int, answers: seq<int>): (n: nat)
    ensures 1 <= n <= |REGION|
  {
    if answers == [] || answers[0] != 0 || clearToSend != 0 then 1 else 1 + Good(answers, 1)
  }

  /** The tasks from `k` on, with the first that fails or is not answered yet. */
  function Good(answers: seq<int>, k: nat): (n: nat)
    requires k <= |REGION|
    ensures n <= |REGION| - k && (k < |REGION| ==> n >= 1)
    decreases |REGION| - k
  {
    if k == |REGION| then 0 else if k >= |answers| || answers[k] != 0 then 1 else 1 + Good(answers, k + 1)
  }

  function BodyOf(f: Flags, task: Task): Body
  {
    if task == ReportStatus then Report else if task == Analysis002 || Idle(f) then Nothing else Work
  }

  function Messages(f: Flags, n: nat): (m: seq<Message>)
    requires n <= |REGION|
    ensures |m| == n && forall i :: 0 <= i < n ==> m[i] == Message(REGION[i], BodyOf(f, REGION[i]))
  {
    seq(n, i requires 0 <= i < n => Message(REGION[i], BodyOf(f, REGION[i])))
  }

  /** What the turn returns, and the status it reports for the entry. */
  datatype Codes = Codes(retval: int, rstatus: int)

  /** The status before the first task. */
  function StartStatus(f: Flags): int
  {
    if !f.accepted then SWP_RP_STATUS_NO_INTEGRITY else if !f.verified then 3 else 0
  }

  /** The codes when slot `k` fails with `r`. */
  function FailCodes(f: Flags, k: nat, r: int): Codes
    requires k < |REGION|
  {
    var idle := Idle(f);
    if k == 0 then Codes(-4, 6)
    else if k == 1 then if idle then Codes(-8, -2) else Codes(-9, -3)
    else if k == 2 then Codes(-10, -4)
    else if k == 3 then if idle then Codes(-11, -5) else Codes(-12, -6)
    else if k == 4 then if idle then Codes(-13, -7) else if r < 0 then Codes(-14, -8) else Codes(0, 9)
    else if k == 5 then if idle then Codes(-15, -10) else Codes(-16, -12)
    else if k == 6 then if idle then Codes(-17, -13) else Codes(-18, -14)
    else if idle then Codes(-1, StartStatus(f)) else Codes(-19, -15)
  }

  function CodesOf(f: Flags, clearToSend: int, answers: seq<int>): Codes
    requires |answers| >= |REGION|
  {
    var k := Sent(clearToSend, answers) - 1;
    if answers[k] != 0 then FailCodes(f, k, answers[k])
    else if clearToSend != 0 then Codes(-5, -1)
    else Codes(0, StartStatus(f))
  }

  /** No preview, and the signatures, the entry, its INSTALLED file and the merging of the two were fine. */
  predicate Real(f: Flags)
  {
    !f.preview && f.accepted && f.readable && f.indexReadable && f.merged
  }

  /** The messages do the work if and only if there is some to do; the report and the analysis are the same in any case. */
  predicate Works(f: Flags, m: seq<Message>)
  {
    forall i :: 0 <= i < |m| ==>
      if m[i].task == ReportStatus then m[i].body == Report
      else if m[i].task == Analysis002 then m[i].body == Nothing
      else m[i].body == if Real(f) then Work else Nothing
  }

  lemma MessagesWork(f: Flags, n: nat)
    requires n <= |REGION|
    ensures Works(f, Messages(f, n))
  {
  }

  // ------------------------------------------------------------ the code

  class Looper {
    const f: Flags
    const answers: seq<int>
    var sent: seq<Message>
    var retval: int
    var rstatus: int
    var doSkipEntry: bool

    constructor (f: Flags, answers: seq<int>)
      requires |answers| >= |REGION|
      ensures this.f == f && this.answers == answers && sent == []
    {
      this.f, this.answers := f, answers;
      sent, retval, rstatus, doSkipEntry := [], 0, 0, false;
    }

    ghost predicate InStep(n: nat)
      reads this
    {
      n <= |REGION| <= |answers| && sent == Messages(f, n)
    }

    /** Send a task and wait for its end. */
    method Send(task: Task, body: Body) returns (ret: int)
      requires |sent| < |answers|
      modifies this`sent
      ensures sent == old(sent) + [Message(task, body)] && ret == answers[old(|sent|)]
    {
      ret := answers[|sent|];
      sent := sent + [Message(task, body)];
    }

    /** One of the guarded tasks: real work unless preview or the skipping of the entry turns it into nothing. */
    method Guarded(task: Task, idleCodes: Codes, workCodes: Codes) returns (ok: bool)
      requires InStep(|sent|) && |sent| < |REGION| && task == REGION[|sent|]
      requires task != ReportStatus && task != Analysis002 && doSkipEntry == Skips(f)
      modifies this`sent, this`retval, this`rstatus
      ensures InStep(|sent|) && |sent| == old(|sent|) + 1
      ensures ok == (answers[old(|sent|)] == 0)
      ensures ok ==> retval == old(retval) && rstatus == old(rstatus)
      ensures !ok ==> Codes(retval, rstatus) == if Idle(f) then idleCodes else workCodes
    {
      ok := true;
      if f.preview || doSkipEntry {
        var ret := Send(task, Nothing);
        if ret != 0 {
          retval, rstatus := idleCodes.retval, idleCodes.rstatus;
          ok := false;
        }
      } else {
        var ret := Send(task, Work);
        if ret != 0 {
          retval, rstatus := workCodes.retval, workCodes.rstatus;
          ok := false;
        }
      }
    }

    /** The signature policy and the opening of the entry, before the first task. */
    method Prepare()
      modifies this`rstatus, this`retval, this`doSkipEntry
      ensures rstatus == StartStatus(f) && retval == 0 && doSkipEntry == (!f.accepted || !f.readable)
    {
      retval, rstatus, doSkipEntry := 0, 0, false;
      if !f.verified {
        rstatus := 3;
      }
      if !f.accepted {
        rstatus := SWP_RP_STATUS_NO_INTEGRITY;
        doSkipEntry := true;
      }
      if !f.readable {
        doSkipEntry := true;
      }
    }

    /** The report of the script, and the wait for its go-ahead. */
    method Report(clearToSend: int) returns (go: bool)
      requires InStep(0) && retval == 0 && rstatus == StartStatus(f) && doSkipEntry == (!f.accepted || !f.readable)
      modifies this`sent, this`retval, this`rstatus, this`doSkipEntry
      ensures InStep(1) && go == (answers[0] == 0 && clearToSend == 0)
      ensures if go then retval == 0 && rstatus == StartStatus(f) && doSkipEntry == Skips(f)
              else Codes(retval, rstatus) == CodesOf(f, clearToSend, answers)
    {
      var ret := Send(ReportStatus, Body.Report);
      if ret != 0 {
        rstatus := 6;
        retval := -4;
        doSkipEntry := true;
        return false;
      }
      if clearToSend != 0 {
        rstatus := -1;
        retval := -5;
        return false;
      }
      if f.indexReadable {
        if !f.merged {
          doSkipEntry := true;
        }
      } else {
        doSkipEntry := true;
      }
      return true;
    }

    /** From the unpacking of the catalog to the loading of the transient state. */
    method FirstTasks() returns (go: bool)
      requires InStep(1) && retval == 0 && rstatus == StartStatus(f) && doSkipEntry == Skips(f)
      modifies this`sent, this`retval, this`rstatus
      ensures go ==> InStep(4) && retval == 0 && rstatus == StartStatus(f)
      ensures go ==> answers[1] == 0 && answers[2] == 0 && answers[3] == 0
      ensures !go ==> Ended(1)
    {
      go := Guarded(CatalogUnpack, Codes(-8, -2), Codes(-9, -3));
      if !go {
        return;
      }
      var ret := Send(Analysis002, Nothing);
      if ret != 0 {
        rstatus := -4;
        retval := -10;
        return false;
      }
      go := Guarded(LoadTransient, Codes(-11, -5), Codes(-12, -6));
    }

    /** The run stopped at the first task from `k` on that failed, with that task's codes. */
    ghost predicate Ended(k: nat)
      requires k <= |REGION|
      reads this
    {
      && |answers| >= |REGION|
      && var n := k + Good(answers, k);
         n > 0 && InStep(n) &&
         Codes(retval, rstatus) ==
         if answers[n - 1] != 0 then FailCodes(f, n - 1, answers[n - 1]) else Codes(0, StartStatus(f))
    }

    /** do_run_configure: a failing script is told from an internal error and leaves the return value alone. */
    method Configure() returns (go: bool)
      requires InStep(4) && retval == 0 && rstatus == StartStatus(f) && doSkipEntry == Skips(f)
      modifies this`sent, this`retval, this`rstatus
      ensures go ==> InStep(5) && retval == 0 && rstatus == StartStatus(f) && answers[4] == 0
      ensures !go ==> Ended(4)
    {
      if f.preview || doSkipEntry {
        var ret := Send(RunConfigure, Nothing);
        if ret != 0 {
          rstatus := -7;
          retval := -13;
          return false;
        }
      } else {
        var ret := Send(RunConfigure, Work);
        if ret < 0 {
          rstatus := -8;
          retval := -14;
          return false;
        } else if ret > 0 {
          rstatus := 9;
          return false;
        }
      }
      return true;
    }

    /** From the removal of the unpacked catalog to the renaming of the INSTALLED file. */
    method LastTasks()
      requires InStep(5) && retval == 0 && rstatus == StartStatus(f) && doSkipEntry == Skips(f) && answers[4] == 0
      modifies this`sent, this`retval, this`rstatus
      ensures Ended(5)
    {
      var go := Guarded(CatalogDirRemove, Codes(-15, -10), Codes(-16, -12));
      if !go {
        return;
      }
      go := Guarded(LoadInstalled90, Codes(-17, -13), Codes(-18, -14));
      if !go {
        return;
      }
      var ignored := Guarded(MakeLive, Codes(-1, rstatus), Codes(-19, -15));
    }

    /** The part of swconfig_looper_sr_payload from the signature policy on. */
    method Payload(clearToSend: int)
      requires sent == [] && |answers| >= |REGION|
      modifies this
      ensures sent == Messages(f, Sent(clearToSend, answers))
      ensures Codes(retval, rstatus) == CodesOf(f, clearToSend, answers)
      ensures Works(f, sent)
    {
      MessagesWork(f, Sent(clearToSend, answers));
      Prepare();
      var go := Report(clearToSend);
      if !go {
        return;
      }
      go := FirstTasks();
      if !go {
        return;
      }
      go := Configure();
      if !go {
        return;
      }
      LastTasks();
    }
  }

  // ------------------------------------------------------------ what a turn tells

  lemma {:induction false} GoodEnds(answers: seq<int>, k: nat, j: nat)
    requires |answers| >= |REGION| && k <= j < |REGION|
    ensures k + Good(answers, k) > j + 1 ==> answers[j] == 0
    ensures k + Good(answers, k) == j + 1 < |REGION| ==> answers[j] != 0
    decreases |REGION| - k
  {
    if k == j || answers[k] != 0 {
    } else {
      GoodEnds(answers, k + 1, j);
    }
  }

  /**
   The entry is made live only after every other task ended well; a failed script leaves it in the transient
   state.
   */
  lemma LiveAfterAll(clearToSend: int, answers: seq<int>, j: nat)
    requires |answers| >= |REGION| && Sent(clearToSend, answers) == |REGION| && j < |REGION| - 1
    ensures answers[j] == 0 && clearToSend == 0
  {
    if j > 0 {
      GoodEnds(answers, 1, j);
    }
  }

  /** The return value is 0 exactly for a complete turn, or one whose script failed; the status tells these apart. */
  lemma ReturnMeans(f: Flags, clearToSend: int, answers: seq<int>)
    requires |answers| >= |REGION|
    ensures var k := Sent(clearToSend, answers) - 1; var r := CodesOf(f, clearToSend, answers);
            && (r.retval == 0 <==> (k == 7 && answers[7] == 0) || (k == 4 && answers[4] > 0 && !Idle(f)))
            && (r.retval == 0 && r.rstatus == 9 <==> k == 4 && answers[4] > 0 && !Idle(f))
  {
    var k := Sent(clearToSend, answers) - 1;
    if clearToSend == 0 && answers[0] == 0 {
      GoodEnds(answers, 1, k);
    }
  }

  lemma FailCodesTell(f: Flags, g: Flags, k: nat, l: nat, r: int, s: int)
    requires k < |REGION| && l < |REGION| && FailCodes(f, k, r).retval == FailCodes(g, l, s).retval < 0
    ensures k == l && (k != 0 && k != 2 ==> (Idle(f) <==> Idle(g)))
  {
  }

  /** A turn that returns an error ended at a task that failed, or at the wait for the go-ahead. */
  lemma ErrorMeans(f: Flags, clearToSend: int, answers: seq<int>)
    requires |answers| >= |REGION| && CodesOf(f, clearToSend, answers).retval < 0
    ensures var k := Sent(clearToSend, answers) - 1;
            if answers[k] != 0 then CodesOf(f, clearToSend, answers) == FailCodes(f, k, answers[k])
            else k == 0 && CodesOf(f, clearToSend, answers).retval == -5
  {
    if clearToSend == 0 && answers[0] == 0 {
      GoodEnds(answers, 1, Sent(clearToSend, answers) - 1);
    }
  }

  /** The task that ended the turn: an error value of one turn is never that of another task, nor of idle and real work. */
  lemma CodesTell(f: Flags, g: Flags, clearToSend: int, cts: int, answers: seq<int>, others: seq<int>)
    requires |answers| >= |REGION| && |others| >= |REGION|
    requires CodesOf(f, clearToSend, answers).retval == CodesOf(g, cts, others).retval < 0
    ensures var k, l := Sent(clearToSend, answers) - 1, Sent(cts, others) - 1;
            k == l && (k != 0 && k != 2 ==> (Idle(f) <==> Idle(g))) && (answers[k] == 0 <==> others[l] == 0)
  {
    var k, l := Sent(clearToSend, answers) - 1, Sent(cts, others) - 1;
    ErrorMeans(f, clearToSend, answers);
    ErrorMeans(g, cts, others);
    if answers[k] != 0 && others[l] != 0 {
      FailCodesTell(f, g, k, l, answers[k], others[l]);
    }
  }

  /** The status of a complete turn says what was wrong with the signatures. */
  lemma StatusTells(f: Flags, clearToSend: int, answers: seq<int>)
    requires |answers| >= |REGION| && Sent(clearToSend, answers) == |REGION| && answers[7] == 0
    ensures var r := CodesOf(f, clearToSend, answers);
            && r.retval == 0 && (r.rstatus == SWP_RP_STATUS_NO_INTEGRITY <==> !f.accepted)
            && (r.rstatus == 0 <==> f.accepted && f.verified) && (r.rstatus == 3 <==> f.accepted && !f.verified)
  {
    LiveAfterAll(clearToSend, answers, 0);
  }
}
