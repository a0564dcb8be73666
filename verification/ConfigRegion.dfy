/**
 The target's side of one turn of swconfig's looper, and the two sides together.

 looper_locked_region has a slot for each task.  A slot opens only while swexec_status is 0; an open slot reads one message
 and runs it if its id is the slot's.  The host and the target take steps in any order, and what the host hears need not
 be what a task ended with.
 */
module ConfigRegion {
  import opened ConfigLooper

  /** A message that was run, and its exit status. */
  datatype Ran = Ran(message: Message, status: nat)

  /** The script is before slot `at`; `status` is swexec_status. */
  datatype Target = Target(at: nat, status: nat, ran: seq<Ran>)

  /** What the host has heard, the messages on their way, those the target has read, and the target. */
  datatype World = World(heard: seq<int>, tasks: seq<Message>, read: seq<Message>, target: Target)

  /** The entry, what the wait for the go-ahead comes to, and swexec_status before the region. */
  datatype Turn = Turn(flags: Flags, clearToSend: int, status: nat)

  /** All that the host has sent. */
  function Script(t: Turn, heard: seq<int>): seq<Message>
  {
    Messages(t.flags, Sent(t.clearToSend, heard))
  }

  function Begin(t: Turn): World
  {
    World([], Script(t, []), [], Target(0, t.status, []))
  }

  // ------------------------------------------------------------ hearing more

  /** One answer more makes the host send one message more, or none. */
  lemma {:induction false} GoodGrows(heard: seq<int>, r: int, k: nat)
    requires k <= |REGION|
    ensures Good(heard, k) <= Good(heard + [r], k) <= Good(heard, k) + 1
    decreases |REGION| - k
  {
    if k == |REGION| || k >= |heard| {
    } else {
      GoodGrows(heard, r, k + 1);
    }
  }

  /** Hearing more only adds messages. */
  lemma SentGrows(t: Turn, heard: seq<int>, r: int)
    ensures Sent(t.clearToSend, heard) <= Sent(t.clearToSend, heard + [r])
    ensures Script(t, heard) <= Script(t, heard + [r])
  {
    if heard == [] {
    } else {
      GoodGrows(heard, r, 1);
    }
  }

  function Added(t: Turn, heard: seq<int>, r: int): (m: seq<Message>)
    ensures Script(t, heard + [r]) == Script(t, heard) + m
  {
    SentGrows(t, heard, r);
    Script(t, heard + [r])[|Script(t, heard)|..]
  }

  // ------------------------------------------------------------ steps

  /** The host hears an end, an error because it waited too long, or a late status of an earlier task. */
  predicate HostHears(t: Turn, w: World, r: int, w': World)
  {
    && |w.heard| < Sent(t.clearToSend, w.heard)
    && w' == w.(heard := w.heard + [r], tasks := w.tasks + Added(t, w.heard, r))
  }

  predicate TargetPasses(w: World, w': World)
  {
    && w.target.at < |REGION| && w.target.status != 0
    && w' == w.(target := w.target.(at := w.target.at + 1, status := 1))
  }

  /** The target reads a message; one that does nothing ends with 0, and one of another id is not run. */
  predicate TargetReads(w: World, r: nat, w': World)
  {
    && w.target.at < |REGION| && w.target.status == 0 && w.tasks != []
    && var m := w.tasks[0];
       && (m.body.Nothing? ==> r == 0)
       && w' == w.(tasks := w.tasks[1..], read := w.read + [m],
                   target := if m.task == REGION[w.target.at]
                             then Target(w.target.at + 1, r, w.target.ran + [Ran(m, r)])
                             else w.target.(at := w.target.at + 1, status := 1))
  }

  ghost predicate WorldStep(t: Turn, w: World, w': World)
  {
    || (exists r :: HostHears(t, w, r, w'))
    || TargetPasses(w, w')
    || (exists r :: TargetReads(w, r, w'))
  }

  ghost predicate IsRun(t: Turn, ws: seq<World>)
  {
    && ws != [] && ws[0] == Begin(t)
    && forall i :: 0 <= i < |ws| - 1 ==> WorldStep(t, ws[i], ws[i + 1])
  }

  // ------------------------------------------------------------ what holds at every step

  /** Nothing is lost or doubled on the way. */
  ghost predicate Conserved(t: Turn, w: World)
  {
    w.read + w.tasks == Script(t, w.heard)
  }

  /** Each task ran in its own slot, all but the last ended with 0, and the status is that of the last or a failure. */
  ghost predicate OwnSlots(t: Turn, w: World)
  {
    var ran := w.target.ran;
    && |ran| == |w.read| <= |REGION|
    && (forall j :: 0 <= j < |ran| ==>
          && ran[j].message == w.read[j] && ran[j].message.task == REGION[j]
          && (ran[j].message.body.Nothing? ==> ran[j].status == 0)
          && (j < |ran| - 1 || w.target.status == 0 ==> ran[j].status == 0))
    && (w.target.status == 0 ==> w.target.at == |ran| && t.status == 0)
    && (w.target.status != 0 && t.status == 0 ==> ran != [] && ran[|ran| - 1].status != 0)
  }

  ghost predicate Inv(t: Turn, w: World)
  {
    Conserved(t, w) && OwnSlots(t, w)
  }

  lemma HearingKeeps(t: Turn, w: World, r: int, w': World)
    requires Inv(t, w) && HostHears(t, w, r, w')
    ensures Inv(t, w')
  {
    var added := Added(t, w.heard, r);
    assert w.read + (w.tasks + added) == (w.read + w.tasks) + added;
  }

  /** An open slot finds its own message, whatever the host heard. */
  lemma NextMessage(t: Turn, w: World)
    requires Inv(t, w) && w.target.status == 0 && w.tasks != []
    ensures w.target.at < |REGION|
    ensures w.tasks[0] == Message(REGION[w.target.at], BodyOf(t.flags, REGION[w.target.at]))
  {
    assert Script(t, w.heard)[|w.read|] == w.tasks[0];
  }

  lemma ReadConserves(t: Turn, w: World, w': World)
    requires Conserved(t, w) && w.tasks != [] && w'.heard == w.heard
    requires w'.read == w.read + [w.tasks[0]] && w'.tasks == w.tasks[1..]
    ensures Conserved(t, w')
  {
    assert w.tasks == [w.tasks[0]] + w.tasks[1..];
    assert w'.read + w'.tasks == w.read + w.tasks;
  }

  lemma ReadInOwnSlot(t: Turn, w: World, m: Message, r: nat, w': World)
    requires OwnSlots(t, w) && w.target.status == 0 && w.target.at < |REGION|
    requires m.task == REGION[w.target.at] && (m.body.Nothing? ==> r == 0)
    requires w'.read == w.read + [m] && w'.target == Target(w.target.at + 1, r, w.target.ran + [Ran(m, r)])
    ensures OwnSlots(t, w')
  {
  }

  lemma ReadingKeeps(t: Turn, w: World, r: nat, w': World)
    requires Inv(t, w) && TargetReads(w, r, w')
    ensures Inv(t, w')
  {
    NextMessage(t, w);
    ReadConserves(t, w, w');
    ReadInOwnSlot(t, w, w.tasks[0], r, w');
  }

  lemma StepKeeps(t: Turn, w: World, w': World)
    requires Inv(t, w) && WorldStep(t, w, w')
    ensures Inv(t, w')
  {
    if r :| HostHears(t, w, r, w') {
      HearingKeeps(t, w, r, w');
    } else if TargetPasses(w, w') {
    } else {
      var r: nat :| TargetReads(w, r, w');
      ReadingKeeps(t, w, r, w');
    }
  }

  /**
   In every run, whatever the tasks come to and whatever the host hears and when: no message is lost, each task that runs
   does so in its own slot, in order and after all before it ended with 0, and the target refuses no message it reads.
   */
  lemma {:induction false} EveryRun(t: Turn, ws: seq<World>, i: nat)
    requires IsRun(t, ws) && i < |ws|
    ensures Inv(t, ws[i])
  {
    if i == 0 {
      assert ws[0].read + ws[0].tasks == Script(t, []);
    } else {
      EveryRun(t, ws, i - 1);
      assert WorldStep(t, ws[i - 1], ws[i - 1 + 1]);
      StepKeeps(t, ws[i - 1], ws[i]);
    }
  }

  // ------------------------------------------------------------ what runs tell

  /** On the target the entry is made live only after all other tasks ended with 0, whatever the host heard. */
  lemma LiveOnTarget(t: Turn, ws: seq<World>, i: nat, e: Ran)
    requires IsRun(t, ws) && i < |ws| && e in ws[i].target.ran && e.message.task == MakeLive
    ensures var ran := ws[i].target.ran;
            && |ran| == |REGION| && ran[|REGION| - 1] == e
            && forall j :: 0 <= j < |REGION| - 1 ==> ran[j].message.task == REGION[j] && ran[j].status == 0
  {
    EveryRun(t, ws, i);
    var j :| 0 <= j < |ws[i].target.ran| && ws[i].target.ran[j] == e;
    assert REGION[j] == MakeLive;
  }

  /**
   Every task that runs for an entry that is neither previewed nor skipped does its work, the analysis alone excepted; so
   once make_live ran, the catalog was unpacked, the transient state loaded, the script run, the catalog removed and the
   new state loaded, all ending with 0.
   */
  lemma RealTurnConfigures(t: Turn, ws: seq<World>, i: nat, j: nat)
    requires IsRun(t, ws) && i < |ws| && Real(t.flags) && j < |ws[i].target.ran|
    ensures j < |REGION|
    ensures var e := ws[i].target.ran[j];
            e.message == Message(REGION[j], if j == 0 then Report else if j == 2 then Nothing else Work)
    ensures j < |ws[i].target.ran| - 1 ==> ws[i].target.ran[j].status == 0
    ensures |ws[i].target.ran| == |REGION| ==>
              var ran := ws[i].target.ran;
              && ran[1].message == Message(CatalogUnpack, Work) && ran[1].status == 0
              && ran[3].message == Message(LoadTransient, Work) && ran[3].status == 0
              && ran[4].message == Message(RunConfigure, Work) && ran[4].status == 0
              && ran[5].message == Message(CatalogDirRemove, Work) && ran[5].status == 0
              && ran[6].message == Message(LoadInstalled90, Work) && ran[6].status == 0
              && ran[7].message == Message(MakeLive, Work)
  {
    EveryRun(t, ws, i);
    RanWorks(t, ws[i], j);
    if |ws[i].target.ran| == |REGION| {
      forall k: nat | k < |REGION|
        ensures ws[i].target.ran[k].message == Message(REGION[k], if k == 0 then Report else if k == 2 then Nothing else Work)
      {
        RanWorks(t, ws[i], k);
      }
    }
  }

  lemma RanWorks(t: Turn, w: World, j: nat)
    requires Inv(t, w) && Real(t.flags) && j < |w.target.ran|
    ensures w.target.ran[j].message == Message(REGION[j], if j == 0 then Report else if j == 2 then Nothing else Work)
  {
    var m := Script(t, w.heard);
    MessagesWork(t.flags, Sent(t.clearToSend, w.heard));
    assert m[j] == w.read[j] == w.target.ran[j].message;
  }

  /** For an entry that is previewed or skipped, the target never does any work, and only the report can fail. */
  lemma IdleTurnDoesNothing(t: Turn, ws: seq<World>, i: nat, e: Ran)
    requires IsRun(t, ws) && i < |ws| && Idle(t.flags) && e in ws[i].target.ran
    ensures e.message.body != Work
    ensures e.message.task != ReportStatus ==> e.status == 0
  {
    EveryRun(t, ws, i);
    var w := ws[i];
    var j :| 0 <= j < |w.target.ran| && w.target.ran[j] == e;
    assert Script(t, w.heard)[j] == w.read[j] == e.message;
  }

  /** The host has heard what the tasks ended with, so far. */
  ghost predicate Honest(w: World)
  {
    |w.heard| <= |w.target.ran| && forall k :: 0 <= k < |w.heard| ==> w.heard[k] == w.target.ran[k].status
  }

  /**
   Nobody waits for nothing.  When the host has heard the end of every task that ran: the next slot is open and has its
   message; or both sides are done; or the go-ahead did not arrive, which is the one way to leave the target waiting.
   */
  lemma NeverBothWait(t: Turn, ws: seq<World>, i: nat)
    requires IsRun(t, ws) && i < |ws| && t.status == 0 && Honest(ws[i]) && |ws[i].heard| == |ws[i].target.ran|
    ensures var w := ws[i];
            || (w.target.status == 0 && w.tasks != [] && w.target.at < |REGION|)
            || (w.tasks == [] && |w.heard| == Sent(t.clearToSend, w.heard) && (w.target.status != 0 || w.target.at == |REGION|))
            || (t.clearToSend != 0 && |w.heard| == 1 == Sent(t.clearToSend, w.heard))
  {
    EveryRun(t, ws, i);
    var w := ws[i];
    assert |w.read| + |w.tasks| == Sent(t.clearToSend, w.heard);
    if w.heard != [] && w.heard[0] == 0 && t.clearToSend == 0 {
      GoodUpTo(w.heard, 1);
    }
  }

  /** After answers of 0 but for the last, the host waits for one more, unless the last failed or there is none. */
  lemma {:induction false} GoodUpTo(heard: seq<int>, k: nat)
    requires 0 < k <= |heard| <= |REGION| && forall j :: k <= j < |heard| - 1 ==> heard[j] == 0
    ensures k + Good(heard, k) == if (k < |heard| && heard[|heard| - 1] != 0) || |heard| == |REGION| then |heard| else |heard| + 1
    decreases |heard| - k
  {
    if k == |heard| {
    } else if heard[k] != 0 {
    } else {
      GoodUpTo(heard, k + 1);
    }
  }
}
