/**
 The target's side of an install, and the two sides together.

 The main script has a slot for each task.  A slot opens only while swexec_status is 0; an open slot reads one message,
 runs it if its id is the slot's, and closes the script otherwise.  The host and the target take steps in any order.
 */
module TargetScript {
  import opened TaskProtocol
  import opened Lockstep
  import opened InstallChecks

  /** All slots of the main script; in preview those after the preview task are there too, but never open. */
  function TargetSlots(mode: Mode): seq<Task>
  {
    if mode == Install then Slots(Install) else Slots(mode) + Slots(Install)[9..]
  }

  /** A message that was run: the slot, the message and the exit status. */
  datatype Ran = Ran(slot: nat, message: Message, status: nat)

  /** The script is before slot `at`; `status` is swexec_status. */
  datatype Target = Target(at: nat, status: nat, ran: seq<Ran>)

  /** In preview these slots leave swexec_status at 0 whatever happened in them. */
  predicate Forgives(task: Task)
  {
    task == CatalogPerms || task == IscsListing || task == DoNothing || task == IscsEntry || task == CheckOverwrite
  }

  /** swexec_status after a slot in which a task ran and ended with `r`. */
  function StatusAfter(mode: Mode, noLockAllowed: bool, task: Task, r: nat): nat
  {
    if Forgives(task) then if mode == Install then r else 0
    else if task == RemoveEntry then 0
    else if task == PreviewTask then 1
    else if task == LockedSession then if r == 2 || (r == 1 && noLockAllowed) then 0 else r
    else r
  }

  /** swexec_status after a slot in which nothing ran. */
  function StatusUnopened(mode: Mode, task: Task): nat
  {
    if Forgives(task) && mode != Install then 0 else 1
  }

  /** Only the slot for the catalog permissions does not look at the id. */
  predicate Accepts(task: Task, m: Message)
  {
    task == CatalogPerms || m.task == task
  }

  // ------------------------------------------------------------ both sides

  /**
   What the host has heard, the messages on their way, those the target has read, the payload bytes the host has put on the
   channel, and the target.
   */
  datatype World = World(heard: seq<Reply>, tasks: seq<Message>, read: seq<Message>, put: nat, target: Target)

  function Begin(c: Choices): World
  {
    World([], Script(c, []), [], 0, Target(0, 0, []))
  }

  /** The messages that the host adds once it has heard one answer more. */
  function Added(c: Choices, heard: seq<Reply>, r: Reply): (m: seq<Message>)
    ensures Script(c, heard + [r]) == Script(c, heard) + m
  {
    ScriptGrows(c, heard, r);
    Script(c, heard + [r])[|Script(c, heard)|..]
  }

  /**
   The host hears something: the status of a task, an error because it waited too long, or later even the late
   status of an earlier task; and a signal may come.  Only the very first wait cannot mistake another end event for its
   own.
   */
  predicate HostHears(c: Choices, w: World, r: Reply, w': World)
  {
    && |w.heard| < |Script(c, w.heard)|
    && (w.heard == [] && r.status == 0 ==> w.target.ran != [] && w.target.ran[0].status == 0)
    && w' == w.(heard := w.heard + [r], tasks := w.tasks + Added(c, w.heard, r))
  }

  /** The host puts payload bytes on the channel, no more than go with what it has sent. */
  ghost predicate HostPuts(c: Choices, w: World, n: nat, w': World)
  {
    w.put + n <= PayloadOf(c, Script(c, w.heard)) && w' == w.(put := w.put + n)
  }

  predicate TargetPasses(c: Choices, w: World, w': World)
  {
    && w.target.at < |TargetSlots(c.mode)| && w.target.status != 0
    && w' == w.(target := w.target.(at := w.target.at + 1,
                                    status := StatusUnopened(c.mode, TargetSlots(c.mode)[w.target.at])))
  }

  /** The fileset task drains its input, so it ends with 0 only once its dd has read as many bytes as it was told. */
  predicate HasRead(c: Choices, w: World, task: Task, r: nat)
  {
    task == LoadFileset && r == 0 ==> c.told <= w.put
  }

  /** The target reads a message; one that does nothing ends with the status it carries. */
  predicate TargetReads(c: Choices, noLockAllowed: bool, w: World, r: nat, w': World)
  {
    && w.target.at < |TargetSlots(c.mode)| && w.target.status == 0 && w.tasks != []
    && var task := TargetSlots(c.mode)[w.target.at]; var m := w.tasks[0];
       && (m.body.Nothing? ==> r == m.body.status)
       && (Accepts(task, m) ==> HasRead(c, w, task, r))
       && var t :=
            if Accepts(task, m) then
              Target(w.target.at + 1, StatusAfter(c.mode, noLockAllowed, task, r), w.target.ran + [Ran(w.target.at, m, r)])
            else w.target.(at := w.target.at + 1, status := StatusUnopened(c.mode, task));
          w' == w.(tasks := w.tasks[1..], read := w.read + [m], target := t)
  }

  ghost predicate WorldStep(c: Choices, noLockAllowed: bool, w: World, w': World)
  {
    || (exists r :: HostHears(c, w, r, w'))
    || (exists n :: HostPuts(c, w, n, w'))
    || TargetPasses(c, w, w')
    || (exists r :: TargetReads(c, noLockAllowed, w, r, w'))
  }

  ghost predicate IsRun(c: Choices, noLockAllowed: bool, ws: seq<World>)
  {
    && ws != [] && ws[0] == Begin(c)
    && forall i :: 0 <= i < |ws| - 1 ==> WorldStep(c, noLockAllowed, ws[i], ws[i + 1])
  }

  // ------------------------------------------------------------ aborts come last

  /** After an abort the host sends nothing but aborts. */
  lemma {:induction false} AbortsLast(c: Choices, i: nat, s: Stance, answers: seq<Reply>, q: nat, q': nat)
    requires q <= q' < |Walk(c, i, s, answers)| && Walk(c, i, s, answers)[q] == ABORT
    ensures Walk(c, i, s, answers)[q'] == ABORT
    decreases |Slots(c.mode)| - i
  {
    var slots := Slots(c.mode);
    match Enter(c, slots[i], s) {
      case Strike =>
      case PassOver => AbortsLast(c, i + 1, Passed(s, slots[i]), answers, q, q');
      case Send(body) =>
        assert slots[i] in slots;
        NoAbortSlot(c.mode);
        assert q > 0;
        match Hear(c, i, s, answers[0]) {
          case Halt(k) =>
          case On(s') => AbortsLast(c, i + 1, s', answers[1..], q - 1, q' - 1);
        }
    }
  }

  lemma ScriptAbortsLast(c: Choices, heard: seq<Reply>, q: nat, q': nat)
    requires q <= q' < |Script(c, heard)| && Script(c, heard)[q] == ABORT
    ensures Script(c, heard)[q'] == ABORT
  {
    if !c.early {
      AbortsLast(c, 0, AT_START, heard, q, q');
    }
  }

  /** An abort is the first message only when a signal comes before everything, and then it is the only one. */
  lemma FirstMessage(c: Choices, heard: seq<Reply>)
    ensures Script(c, heard) != []
    ensures if c.early then Script(c, heard) == [ABORT] else Script(c, heard)[0] == Message(Uts, Work)
  {
    assert Slots(c.mode)[0] == Uts;
    HeadMessage(c, 0, AT_START, heard);
  }

  /** The one slot that takes any id gets its own message or an abort. */
  lemma SecondMessage(c: Choices, heard: seq<Reply>)
    requires |Script(c, heard)| > 1
    ensures Script(c, heard)[1].task == CatalogPerms || Script(c, heard)[1] == ABORT
  {
    FirstMessage(c, heard);
    assert Slots(c.mode)[0] == Uts && Slots(c.mode)[1] == CatalogPerms;
    assert heard != [];
    match Hear(c, 0, AT_START, heard[0]) {
      case Halt(k) => assert Script(c, heard) == [Script(c, heard)[0]] + Aborts(k);
      case On(s) =>
        assert Script(c, heard) == [Script(c, heard)[0]] + Walk(c, 1, s, heard[1..]);
        HeadMessage(c, 1, s, heard[1..]);
    }
  }

  // ------------------------------------------------------------ what holds at every step

  /** The message is for slot `j`, or an abort in the one slot that takes any id. */
  predicate InOwnSlot(mode: Mode, j: nat, m: Message)
    requires j < |Slots(mode)|
  {
    m.task == Slots(mode)[j] || (j == 1 && m == ABORT)
  }

  /** What is known of one task that ran, the last one or not. */
  ghost predicate RanSo(c: Choices, noLockAllowed: bool, w: World, j: nat)
    requires j < |w.target.ran| <= |w.read| && |w.target.ran| <= |Slots(c.mode)|
  {
    var e := w.target.ran[j];
    && e.slot == j && e.message == w.read[j] && InOwnSlot(c.mode, j, e.message)
    && (e.message.body.Nothing? ==> e.status == e.message.body.status)
    && HasRead(c, w, e.message.task, e.status)
    && (j < |w.target.ran| - 1 ==> StatusAfter(c.mode, noLockAllowed, Slots(c.mode)[j], e.status) == 0)
  }

  /** Every task that ran, ran in its own slot, and every slot before the last one let the script go on. */
  ghost predicate OwnSlots(c: Choices, noLockAllowed: bool, w: World)
  {
    && |w.target.ran| <= |w.read| <= w.target.at && |w.target.ran| <= |Slots(c.mode)|
    && forall j: nat :: j < |w.target.ran| ==> RanSo(c, noLockAllowed, w, j)
  }

  /** Nothing is lost or doubled on the way. */
  ghost predicate Conserved(c: Choices, w: World)
  {
    w.read + w.tasks == Script(c, w.heard) && w.put <= PayloadOf(c, Script(c, w.heard))
  }

  /** The host goes on after the first task only if that task succeeded. */
  predicate FirstHonest(w: World)
  {
    w.heard != [] && w.heard[0].status == 0 ==> w.target.ran != [] && w.target.ran[0].status == 0
  }

  /** In preview the first task failed: the script opens slots again, but no message will come. */
  predicate LostStart(c: Choices, w: World)
  {
    c.mode != Install && |w.target.ran| == 1 && |w.read| == 1 && w.target.ran[0].status != 0
  }

  /** An abort has been read. */
  predicate Spent(w: World)
  {
    ABORT in w.read
  }

  /** The script has run one message in each slot so far, and the last one let it go on. */
  predicate GoingOn(c: Choices, noLockAllowed: bool, w: World)
  {
    && w.target.at == |w.read| == |w.target.ran| <= |Slots(c.mode)|
    && (c.mode != Install ==> w.target.at < |Slots(c.mode)|)
    && (w.target.ran != [] ==>
          var k := |w.target.ran| - 1;
          StatusAfter(c.mode, noLockAllowed, Slots(c.mode)[k], w.target.ran[k].status) == 0)
  }

  /** An open script goes on, or nothing but aborts will come. */
  predicate OpenInStep(c: Choices, noLockAllowed: bool, w: World)
  {
    w.target.status == 0 ==> LostStart(c, w) || Spent(w) || GoingOn(c, noLockAllowed, w)
  }

  /** The first slot from which on a closed script stays closed in preview. */
  function LastForgiving(mode: Mode): nat
  {
    match mode
    case Install => 0
    case Preview => 7
    case ToStdout => 2
  }

  /** A closed script stays closed, or nothing but aborts will come. */
  predicate ClosedForGood(c: Choices, w: World)
  {
    w.target.status != 0 && c.mode != Install ==>
      LostStart(c, w) || Spent(w) || w.target.at > LastForgiving(c.mode)
  }

  /** As long as no slot was passed, the status is what the last task has left. */
  predicate StatusOfLast(c: Choices, noLockAllowed: bool, t: Target)
  {
    0 < t.at == |t.ran| <= |Slots(c.mode)| ==>
      t.status == StatusAfter(c.mode, noLockAllowed, Slots(c.mode)[t.at - 1], t.ran[t.at - 1].status)
  }

  ghost predicate Inv(c: Choices, noLockAllowed: bool, w: World)
  {
    && OwnSlots(c, noLockAllowed, w) && Conserved(c, w) && FirstHonest(w) && StatusOfLast(c, noLockAllowed, w.target)
    && OpenInStep(c, noLockAllowed, w) && ClosedForGood(c, w)
  }

  // ------------------------------------------------------------ each step keeps it

  lemma LoadedGrows(c: Choices, m: seq<Message>, m': seq<Message>)
    requires m <= m'
    ensures PayloadOf(c, m) <= PayloadOf(c, m')
  {
    if Loaded(m) {
      var i :| 0 <= i < |m| && m[i].task == LoadFileset;
      assert m'[i] == m[i];
    }
  }

  lemma HearingKeeps(c: Choices, noLockAllowed: bool, w: World, r: Reply, w': World)
    requires Inv(c, noLockAllowed, w) && HostHears(c, w, r, w')
    ensures Inv(c, noLockAllowed, w')
  {
    HearingConserves(c, w, r, w');
    assert w.heard != [] ==> (w.heard + [r])[0] == w.heard[0];
    SameTarget(c, noLockAllowed, w, w');
  }

  lemma HearingConserves(c: Choices, w: World, r: Reply, w': World)
    requires Conserved(c, w) && HostHears(c, w, r, w')
    ensures Conserved(c, w')
  {
    var added := Added(c, w.heard, r);
    assert w.read + (w.tasks + added) == (w.read + w.tasks) + added;
    LoadedGrows(c, Script(c, w.heard), Script(c, w.heard + [r]));
  }

  /** What ran is known whatever the host does. */
  lemma SameTarget(c: Choices, noLockAllowed: bool, w: World, w': World)
    requires OwnSlots(c, noLockAllowed, w) && w'.target.ran == w.target.ran && w'.put >= w.put
    requires w'.target.at >= w.target.at && |w.read| <= |w'.read| <= w'.target.at
    requires forall j :: 0 <= j < |w.read| ==> w'.read[j] == w.read[j]
    ensures OwnSlots(c, noLockAllowed, w')
  {
    forall j: nat | j < |w'.target.ran| ensures RanSo(c, noLockAllowed, w', j) {
      assert RanSo(c, noLockAllowed, w, j);
    }
  }

  lemma PuttingKeeps(c: Choices, noLockAllowed: bool, w: World, n: nat, w': World)
    requires Inv(c, noLockAllowed, w) && HostPuts(c, w, n, w')
    ensures Inv(c, noLockAllowed, w')
  {
    SameTarget(c, noLockAllowed, w, w');
  }

  /** Without a successful first task there is only one message. */
  lemma OnlyFirst(c: Choices, heard: seq<Reply>)
    requires heard == [] || heard[0].status != 0
    ensures |Script(c, heard)| == 1
  {
    assert Slots(c.mode)[0] == Uts;
    if heard != [] && !c.early {
      assert Script(c, heard) == [Message(Uts, Work)] + Aborts(0);
    }
  }

  lemma LostMeansEmpty(c: Choices, w: World)
    requires LostStart(c, w) && Conserved(c, w) && FirstHonest(w)
    ensures w.tasks == []
  {
    OnlyFirst(c, w.heard);
  }

  /** Once an abort is read, only aborts are on their way, and they do not come to the slot that would take them. */
  lemma SpentMeansAborts(c: Choices, w: World)
    requires Spent(w) && Conserved(c, w) && w.tasks != [] && |w.read| <= w.target.at < |TargetSlots(c.mode)|
    ensures w.tasks[0] == ABORT && !Accepts(TargetSlots(c.mode)[w.target.at], ABORT)
  {
    var m := Script(c, w.heard);
    var q :| 0 <= q < |w.read| && w.read[q] == ABORT;
    assert m[q] == w.read[q] && m[|w.read|] == w.tasks[0];
    ScriptAbortsLast(c, w.heard, q, |w.read|);
    FirstMessage(c, w.heard);
    PermsSlot(c.mode, w.target.at);
  }

  lemma PermsTask(mode: Mode, i: nat)
    ensures TaskAt(mode, i) == CatalogPerms <==> i == 1
    ensures TaskAt(mode, i) != IntentionalAbort
  {
  }

  lemma PermsSlot(mode: Mode, at: nat)
    requires at < |TargetSlots(mode)|
    ensures TargetSlots(mode)[at] == CatalogPerms <==> at == 1
    ensures !Accepts(TargetSlots(mode)[at], ABORT) <==> at != 1
  {
    var n := |Slots(mode)|;
    if at < n {
      PermsTask(mode, at);
    } else {
      PermsTask(Install, at - n + 9);
      LaterSlot(mode, at);
    }
  }

  lemma LaterSlot(mode: Mode, at: nat)
    requires mode != Install && |Slots(mode)| <= at < |TargetSlots(mode)|
    ensures TargetSlots(mode)[at] == TaskAt(Install, at - |Slots(mode)| + 9)
  {
    Beyond(Slots(mode), Slots(Install), 9, at);
  }

  lemma Beyond<T>(a: seq<T>, b: seq<T>, dropped: nat, at: nat)
    requires dropped <= |b| && |a| <= at < |a| + |b| - dropped
    ensures (a + b[dropped..])[at] == b[at - |a| + dropped]
  {
  }

  /** Passing a closed slot opens the script again only in preview, after the first task failed or an abort was read. */
  lemma PassingKeeps(c: Choices, noLockAllowed: bool, w: World, w': World)
    requires Inv(c, noLockAllowed, w) && TargetPasses(c, w, w')
    ensures Inv(c, noLockAllowed, w')
  {
    if c.mode != Install && !LostStart(c, w) && !Spent(w) {
      UnforgivingLater(c.mode, w.target.at);
    }
    SameTarget(c, noLockAllowed, w, w');
  }

  lemma UnforgivingLater(mode: Mode, at: nat)
    requires mode != Install && LastForgiving(mode) < at < |TargetSlots(mode)|
    ensures !Forgives(TargetSlots(mode)[at])
  {
    var n := |Slots(mode)|;
    if at < n {
      assert TargetSlots(mode)[at] == TaskAt(mode, at);
    } else {
      LaterSlot(mode, at);
      UnforgivingLoad(at - n + 9);
    }
  }

  lemma UnforgivingLoad(i: nat)
    requires i >= 9
    ensures !Forgives(TaskAt(Install, i))
  {
  }

  lemma ReadConserves(c: Choices, w: World, w': World)
    requires Conserved(c, w) && w.tasks != [] && w'.heard == w.heard && w'.put == w.put
    requires w'.read == w.read + [w.tasks[0]] && w'.tasks == w.tasks[1..]
    ensures Conserved(c, w')
  {
    assert w.tasks == [w.tasks[0]] + w.tasks[1..];
    assert w.read + w.tasks == w'.read + w'.tasks;
  }

  /** An open script that goes on is at the very slot of its next message's number. */
  lemma NextIs(c: Choices, noLockAllowed: bool, w: World)
    requires Inv(c, noLockAllowed, w) && w.target.status == 0 && w.tasks != []
    ensures Spent(w) || GoingOn(c, noLockAllowed, w)
    ensures !Spent(w) ==> w.target.at < |Script(c, w.heard)| && w.tasks[0] == Script(c, w.heard)[w.target.at]
  {
    if LostStart(c, w) {
      LostMeansEmpty(c, w);
    }
    assert Script(c, w.heard)[|w.read|] == w.tasks[0];
  }

  /** With a host in step, the next message is the one of the slot, or an abort. */
  lemma NextMessage(c: Choices, noLockAllowed: bool, w: World)
    requires InStep(c) && Inv(c, noLockAllowed, w) && w.target.status == 0 && w.tasks != []
    requires w.target.at < |TargetSlots(c.mode)|
    ensures w.tasks[0] == ABORT || (w.target.at < |Slots(c.mode)| && w.tasks[0].task == Slots(c.mode)[w.target.at])
  {
    NextIs(c, noLockAllowed, w);
    if Spent(w) {
      SpentMeansAborts(c, w);
    } else if !c.early {
      var m := Script(c, w.heard);
      WalkFills(c, 0, AT_START, w.heard);
      var k: nat :| Filled(Slots(c.mode), 0, m, k);
      if w.target.at < k {
        assert m[w.target.at].task == Slots(c.mode)[0 + w.target.at];
      }
    }
  }

  lemma SameSlots(mode: Mode, at: nat)
    requires at < |Slots(mode)|
    ensures at < |TargetSlots(mode)| && TargetSlots(mode)[at] == Slots(mode)[at]
    ensures mode != Install && at == |Slots(mode)| - 1 ==> Slots(mode)[at] == PreviewTask
  {
  }

  /** A message that is refused: nothing runs, and if it is no abort the script of an install is closed for good. */
  lemma RefusedKeeps(c: Choices, noLockAllowed: bool, w: World, r: nat, w': World)
    requires Inv(c, noLockAllowed, w) && TargetReads(c, noLockAllowed, w, r, w')
    requires !Accepts(TargetSlots(c.mode)[w.target.at], w.tasks[0]) && (c.mode == Install || w.tasks[0] == ABORT)
    ensures Inv(c, noLockAllowed, w')
  {
    ReadConserves(c, w, w');
    SameTarget(c, noLockAllowed, w, w');
    assert w'.read[|w.read|] == w.tasks[0];
    if Spent(w) {
      var q :| 0 <= q < |w.read| && w.read[q] == ABORT;
      assert w'.read[q] == ABORT;
    }
  }

  /** A message that is accepted is the slot's own, or the abort that the second slot takes. */
  lemma AcceptedIsOwn(c: Choices, noLockAllowed: bool, w: World)
    requires Inv(c, noLockAllowed, w) && w.target.status == 0 && w.tasks != [] && w.target.at < |TargetSlots(c.mode)|
    requires c.mode == Install || w.tasks[0] == ABORT || w.tasks[0].task == TargetSlots(c.mode)[w.target.at]
    requires Accepts(TargetSlots(c.mode)[w.target.at], w.tasks[0])
    ensures GoingOn(c, noLockAllowed, w) && w.target.at < |Slots(c.mode)|
    ensures InOwnSlot(c.mode, w.target.at, w.tasks[0]) && HasReadToo(c, w)
  {
    NextIs(c, noLockAllowed, w);
    PermsSlot(c.mode, w.target.at);
    if Spent(w) {
      SpentMeansAborts(c, w);
    }
    SameSlots(c.mode, w.target.at);
    if w.target.at == 1 {
      SecondMessage(c, w.heard);
    }
  }

  /** Only the slot of the fileset task may run it. */
  predicate HasReadToo(c: Choices, w: World)
    requires w.tasks != [] && w.target.at < |Slots(c.mode)|
  {
    w.tasks[0].task == LoadFileset ==> Slots(c.mode)[w.target.at] == LoadFileset
  }

  lemma GrowOwn(c: Choices, noLockAllowed: bool, w: World, m: Message, r: nat, w': World)
    requires OwnSlots(c, noLockAllowed, w) && GoingOn(c, noLockAllowed, w)
    requires w.target.at < |Slots(c.mode)| && InOwnSlot(c.mode, w.target.at, m) && HasRead(c, w, m.task, r)
    requires m.body.Nothing? ==> r == m.body.status
    requires w'.read == w.read + [m] && w'.target.ran == w.target.ran + [Ran(w.target.at, m, r)]
    requires w'.put == w.put && w'.target.at == w.target.at + 1
    ensures OwnSlots(c, noLockAllowed, w')
  {
    forall j: nat | j < |w'.target.ran| ensures RanSo(c, noLockAllowed, w', j) {
      if j < |w.target.ran| {
        assert RanSo(c, noLockAllowed, w, j);
        assert w'.target.ran[j] == w.target.ran[j] && w'.read[j] == w.read[j];
      }
    }
  }

  lemma ReadStatus(c: Choices, noLockAllowed: bool, w: World, m: Message, r: nat, w': World)
    requires GoingOn(c, noLockAllowed, w) && w.target.at < |Slots(c.mode)| && w'.read == w.read + [m]
    requires var task := Slots(c.mode)[w.target.at];
             w'.target ==
               Target(w.target.at + 1, StatusAfter(c.mode, noLockAllowed, task, r), w.target.ran + [Ran(w.target.at, m, r)])
    ensures OpenInStep(c, noLockAllowed, w') && ClosedForGood(c, w') && StatusOfLast(c, noLockAllowed, w'.target)
  {
    SameSlots(c.mode, w.target.at);
    var at := w.target.at;
    if c.mode != Install && 0 < at < LastForgiving(c.mode) {
      ForgivingEarly(c.mode, at);
    }
  }

  lemma ForgivingEarly(mode: Mode, at: nat)
    requires mode != Install && 0 < at < LastForgiving(mode)
    ensures at < |Slots(mode)| && Forgives(Slots(mode)[at])
  {
  }

  lemma AcceptedKeeps(c: Choices, noLockAllowed: bool, w: World, r: nat, w': World)
    requires Inv(c, noLockAllowed, w) && TargetReads(c, noLockAllowed, w, r, w')
    requires c.mode == Install || w.tasks[0] == ABORT || w.tasks[0].task == TargetSlots(c.mode)[w.target.at]
    requires Accepts(TargetSlots(c.mode)[w.target.at], w.tasks[0])
    ensures Inv(c, noLockAllowed, w')
  {
    var m := w.tasks[0];
    ReadConserves(c, w, w');
    AcceptedIsOwn(c, noLockAllowed, w);
    SameSlots(c.mode, w.target.at);
    GrowOwn(c, noLockAllowed, w, m, r, w');
    ReadStatus(c, noLockAllowed, w, m, r, w');
    FirstStays(w, w');
  }

  lemma FirstStays(w: World, w': World)
    requires FirstHonest(w) && w'.heard == w.heard && w.target.ran <= w'.target.ran
    ensures FirstHonest(w')
  {
  }

  /** In preview the next message is its slot's own, or an abort. */
  lemma PreviewNext(c: Choices, noLockAllowed: bool, w: World)
    requires c.mode != Install && Inv(c, noLockAllowed, w) && w.target.status == 0 && w.tasks != []
    requires w.target.at < |TargetSlots(c.mode)|
    ensures w.tasks[0] == ABORT || w.tasks[0].task == TargetSlots(c.mode)[w.target.at]
  {
    NextMessage(c, noLockAllowed, w);
    if w.tasks[0] != ABORT {
      SameSlots(c.mode, w.target.at);
    }
  }

  lemma ReadingKeeps(c: Choices, noLockAllowed: bool, w: World, r: nat, w': World)
    requires Inv(c, noLockAllowed, w) && TargetReads(c, noLockAllowed, w, r, w')
    ensures Inv(c, noLockAllowed, w')
  {
    if c.mode != Install {
      PreviewNext(c, noLockAllowed, w);
    }
    if Accepts(TargetSlots(c.mode)[w.target.at], w.tasks[0]) {
      AcceptedKeeps(c, noLockAllowed, w, r, w');
    } else {
      RefusedKeeps(c, noLockAllowed, w, r, w');
    }
  }

  // ------------------------------------------------------------ every run

  lemma StepKeeps(c: Choices, noLockAllowed: bool, w: World, w': World)
    requires Inv(c, noLockAllowed, w) && WorldStep(c, noLockAllowed, w, w')
    ensures Inv(c, noLockAllowed, w')
  {
    if r :| HostHears(c, w, r, w') {
      HearingKeeps(c, noLockAllowed, w, r, w');
    } else if n :| HostPuts(c, w, n, w') {
      PuttingKeeps(c, noLockAllowed, w, n, w');
    } else if TargetPasses(c, w, w') {
      PassingKeeps(c, noLockAllowed, w, w');
    } else {
      var r: nat :| TargetReads(c, noLockAllowed, w, r, w');
      ReadingKeeps(c, noLockAllowed, w, r, w');
    }
  }

  /**
   In every run, however the two sides take turns, whatever the tasks and the host's waiting come to and whenever signals
   come: no message is lost, and every task that runs does so in its own slot, in order and after all before it let the
   script go on; a fileset task that ended with 0 has read its bytes.
   */
  lemma {:induction false} EveryRun(c: Choices, noLockAllowed: bool, ws: seq<World>, i: nat)
    requires IsRun(c, noLockAllowed, ws) && i < |ws|
    ensures Inv(c, noLockAllowed, ws[i])
  {
    if i == 0 {
      assert ws[0].read + ws[0].tasks == Script(c, []);
    } else {
      EveryRun(c, noLockAllowed, ws, i - 1);
      assert WorldStep(c, noLockAllowed, ws[i - 1], ws[i - 1 + 1]);
      StepKeeps(c, noLockAllowed, ws[i - 1], ws[i]);
    }
  }

  /** Preview scuttles the script: none of the tasks that change the target ever runs. */
  lemma PreviewChangesNothing(c: Choices, noLockAllowed: bool, ws: seq<World>, i: nat, e: Ran)
    requires IsRun(c, noLockAllowed, ws) && i < |ws| && c.mode != Install && e in ws[i].target.ran
    ensures e.slot < 10 && e.message.task !in Slots(Install)[9..]
    ensures e.message.task == RemoveEntry ==> e.message.body == Nothing(SW_SUCCESS)
  {
    EveryRun(c, noLockAllowed, ws, i);
    var w := ws[i];
    var j :| 0 <= j < |w.target.ran| && w.target.ran[j] == e;
    assert RanSo(c, noLockAllowed, w, j);
    PreviewSlots(c.mode, j);
    NoAbortSlot(Install);
    assert Script(c, w.heard)[j] == w.read[j] == e.message;
    if e.message != ABORT {
      var k := PlaceOf(c, w.heard, j);
    }
  }

  lemma PreviewSlots(mode: Mode, j: nat)
    requires mode != Install && j < |Slots(mode)|
    ensures j < 10 && Slots(mode)[j] !in Slots(Install)[9..]
  {
  }

  /** A task that ran after the second slot of an install, before another: it is its slot's, and left the script open. */
  lemma RanBefore(c: Choices, noLockAllowed: bool, w: World, j: nat, k: nat)
    requires c.mode == Install && Inv(c, noLockAllowed, w) && 2 <= j < k < |w.target.ran|
    ensures var e := w.target.ran[j];
            && e.message.task == Slots(Install)[j] && e.message in Script(c, w.heard)
            && StatusAfter(Install, noLockAllowed, Slots(Install)[j], e.status) == 0
            && HasRead(c, w, e.message.task, e.status)
  {
    assert RanSo(c, noLockAllowed, w, j);
    assert w.target.ran[j].message == w.read[j] == Script(c, w.heard)[j];
  }

  /** In slots that neither forgive nor look further at the status, only 0 lets the script go on. */
  lemma RanWell(c: Choices, noLockAllowed: bool, w: World, j: nat)
    requires c.mode == Install && Inv(c, noLockAllowed, w) && 18 <= j < MAKE_LIVE < |w.target.ran|
    ensures w.target.ran[j].message.task == Slots(Install)[j] && w.target.ran[j].status == 0
    ensures w.target.ran[j].message in Script(c, w.heard) && HasRead(c, w, Slots(Install)[j], 0)
  {
    RanBefore(c, noLockAllowed, w, j, MAKE_LIVE);
    LateTask(j);
  }

  lemma LateTask(j: nat)
    requires 18 <= j < MAKE_LIVE
    ensures var task := Slots(Install)[j];
            !Forgives(task) && task != RemoveEntry && task != PreviewTask && task != LockedSession
  {
  }

  /** The status of a task after which the script of an install goes on: the removal may fail, and so may a lock. */
  predicate Fine(noLockAllowed: bool, j: nat, status: nat)
  {
    status == 0 || j == 7 || (j == 10 && (status == 2 || (status == 1 && noLockAllowed)))
  }

  lemma FineIff(noLockAllowed: bool, j: nat, status: nat)
    requires j < MAKE_LIVE
    ensures StatusAfter(Install, noLockAllowed, Slots(Install)[j], status) == 0 <==> Fine(noLockAllowed, j, status)
  {
    assert Slots(Install)[j] == TaskAt(Install, j);
  }

  /** An install's script is open after a task if and only if that ended well, or was one that may fail. */
  lemma OpenIff(c: Choices, noLockAllowed: bool, ws: seq<World>, i: nat)
    requires c.mode == Install && IsRun(c, noLockAllowed, ws) && i < |ws|
    requires var t := ws[i].target; 0 < t.at == |t.ran| <= MAKE_LIVE
    ensures var t := ws[i].target; t.status == 0 <==> Fine(noLockAllowed, t.at - 1, t.ran[t.at - 1].status)
  {
    EveryRun(c, noLockAllowed, ws, i);
    FineIff(noLockAllowed, ws[i].target.at - 1, ws[i].target.ran[ws[i].target.at - 1].status);
  }

  /** Before make_live runs, every slot has run its task, and each ended well or was one that may fail. */
  lemma AllFine(c: Choices, noLockAllowed: bool, ws: seq<World>, i: nat, j: nat)
    requires c.mode == Install && IsRun(c, noLockAllowed, ws) && i < |ws|
    requires |ws[i].target.ran| > MAKE_LIVE && j < MAKE_LIVE
    ensures Fine(noLockAllowed, j, ws[i].target.ran[j].status)
    ensures ws[i].target.ran[j].message.task == Slots(Install)[j]
  {
    EveryRun(c, noLockAllowed, ws, i);
    assert RanSo(c, noLockAllowed, ws[i], j);
    FineIff(noLockAllowed, j, ws[i].target.ran[j].status);
    if j == 1 {
      LastRan(c, noLockAllowed, ws[i]);
      SecondIsNoAbort(c, ws[i].heard);
    }
  }

  /** No abort comes before make_live. */
  lemma SecondIsNoAbort(c: Choices, heard: seq<Reply>)
    requires MAKE_LIVE < |Script(c, heard)| && Script(c, heard)[MAKE_LIVE].task == MakeLive
    ensures Script(c, heard)[1] != ABORT
  {
    if Script(c, heard)[1] == ABORT {
      ScriptAbortsLast(c, heard, 1, MAKE_LIVE);
    }
  }

  /**
   On the target the entry is made live only when the fileset was loaded with status 0, the INSTALLED file with state
   installed was loaded after the one with state transient, and the host let it go on: whatever the host heard.  The
   transfer went well, and the host put as many bytes on the channel as the target was told, and no more than it sent.
   */
  lemma LiveOnTarget(c: Choices, noLockAllowed: bool, ws: seq<World>, i: nat)
    requires c.mode == Install && IsRun(c, noLockAllowed, ws) && i < |ws|
    requires |ws[i].target.ran| > MAKE_LIVE
    ensures LoadedAndLive(ws[i].target.ran)
    ensures Transferred(c) && c.told <= ws[i].put <= c.bytes
  {
    EveryRun(c, noLockAllowed, ws, i);
    var w := ws[i];
    LateSlots();
    RanWell(c, noLockAllowed, w, 18);
    RanWell(c, noLockAllowed, w, LOAD_FILESET);
    IndexRan(c, noLockAllowed, w, 19);
    IndexRan(c, noLockAllowed, w, 22);
    LastRan(c, noLockAllowed, w);
    MakeLiveLast(c, w.heard, MAKE_LIVE);
  }

  lemma LateSlots()
    ensures Slots(Install)[18] == ContinueTask && Slots(Install)[19] == LoadInstalled90
    ensures Slots(Install)[LOAD_FILESET] == LoadFileset && Slots(Install)[22] == LoadInstalled91
    ensures Slots(Install)[MAKE_LIVE] == MakeLive
  {
  }

  lemma LastRan(c: Choices, noLockAllowed: bool, w: World)
    requires c.mode == Install && Inv(c, noLockAllowed, w) && MAKE_LIVE < |w.target.ran|
    ensures w.target.ran[MAKE_LIVE].message.task == MakeLive
    ensures MAKE_LIVE < |Script(c, w.heard)| && Script(c, w.heard)[MAKE_LIVE] == w.target.ran[MAKE_LIVE].message
  {
    assert RanSo(c, noLockAllowed, w, MAKE_LIVE);
    LateSlots();
  }

  lemma IndexRan(c: Choices, noLockAllowed: bool, w: World, j: nat)
    requires c.mode == Install && Inv(c, noLockAllowed, w) && MAKE_LIVE < |w.target.ran| &&
             (j == 19 || j == 22)
    ensures w.target.ran[j].message == Message(if j == 22 then LoadInstalled91 else LoadInstalled90, Index(j == 22))
    ensures w.target.ran[j].status == 0
  {
    RanWell(c, noLockAllowed, w, j);
    LateSlots();
    IndexBody(c, w, j);
  }

  predicate LoadedAndLive(ran: seq<Ran>)
    requires |ran| > MAKE_LIVE
  {
    && ran[18].message.task == ContinueTask && ran[18].status == 0
    && ran[19].message == Message(LoadInstalled90, Index(false)) && ran[19].status == 0
    && ran[LOAD_FILESET].message.task == LoadFileset && ran[LOAD_FILESET].status == 0
    && ran[22].message == Message(LoadInstalled91, Index(true)) && ran[22].status == 0
    && ran[MAKE_LIVE].message.task == MakeLive
  }

  lemma IndexBody(c: Choices, w: World, j: nat)
    requires j < |w.target.ran| && w.target.ran[j].message in Script(c, w.heard)
    requires w.target.ran[j].message.task == LoadInstalled90 || w.target.ran[j].message.task == LoadInstalled91
    ensures w.target.ran[j].message.body == Index(w.target.ran[j].message.task == LoadInstalled91)
  {
    StatesInOrder(c, 0, AT_START, w.heard, w.target.ran[j].message);
  }

  lemma LeaveHeard(c: Choices, answers: seq<Reply>, i: nat, p: Place)
    requires i < |Slots(c.mode)| && Leave(c, answers, i, p).Some?
    ensures Leave(c, answers, i, p).value.heard == p.heard + if Enter(c, Slots(c.mode)[i], p.s).Send? then 1 else 0
  {
  }

  lemma {:induction false} HeardBound(c: Choices, answers: seq<Reply>, j: nat)
    requires j <= |Slots(c.mode)| && Arrive(c, answers, j).Some?
    ensures Arrive(c, answers, j).value.heard <= j
  {
    if j == 0 {
    } else {
      ArriveStep(c, answers, j - 1);
      HeardBound(c, answers, j - 1);
      LeaveHeard(c, answers, j - 1, Arrive(c, answers, j - 1).value);
    }
  }

  /** A host that has sent a message for each slot before `j` has passed over none of them. */
  lemma {:induction false} NonePassed(c: Choices, answers: seq<Reply>, i: nat, j: nat)
    requires i < j <= |Slots(c.mode)| && Arrive(c, answers, j).Some? && Arrive(c, answers, j).value.heard == j
    ensures Arrive(c, answers, i).Some? && Enter(c, Slots(c.mode)[i], Arrive(c, answers, i).value.s).Send?
    decreases j
  {
    ArriveStep(c, answers, j - 1);
    HeardBound(c, answers, j - 1);
    LeaveHeard(c, answers, j - 1, Arrive(c, answers, j - 1).value);
    if i == j - 1 {
    } else {
      NonePassed(c, answers, i, j - 1);
    }
  }

  lemma SentMeans(c: Choices, s: Stance)
    ensures c.mode == Install && Enter(c, RemoveEntry, s).Send? ==> (c.displaced ==> c.namesOk)
    ensures Enter(c, LoadCatalog, s).Send? ==> Scanned(c).catalog.Some?
    ensures Enter(c, LoadSignatures, s).Send? ==> Scanned(c).signatures.Some?
    ensures Enter(c, CatalogUnpack, s).Send? ==> !Scanned(c).cut
  {
  }

  /**
   Whatever the two sides do: the entry is made live only if every check of the host passed, every step went well, no signal
   came, no slot was passed over, and every answer that the host heard was one it can live with.
   */
  lemma OnlyInStepGoesLive(c: Choices, noLockAllowed: bool, ws: seq<World>, i: nat)
    requires c.mode == Install && IsRun(c, noLockAllowed, ws) && i < |ws|
    requires |ws[i].target.ran| > MAKE_LIVE
    ensures InStep(c) && Undisturbed(c) && AllWell(c)
    ensures |ws[i].heard| >= MAKE_LIVE && Willing(c, 0, ws[i].heard[..MAKE_LIVE])
  {
    EveryRun(c, noLockAllowed, ws, i);
    var w := ws[i];
    LastRan(c, noLockAllowed, w);
    var j := PlaceOf(c, w.heard, MAKE_LIVE);
    OneSlot(j);
    LiveMeansInStep(c, w.heard);
    LateSlots();
    assert Completes(c, w.heard);
    CompletesIff(c, w.heard);
  }

  lemma LiveMeansInStep(c: Choices, answers: seq<Reply>)
    requires c.mode == Install && Arrive(c, answers, MAKE_LIVE).Some? && Arrive(c, answers, MAKE_LIVE).value.heard == MAKE_LIVE
    ensures InStep(c) && !Scanned(c).cut
  {
    NonePassed(c, answers, 7, MAKE_LIVE);
    NonePassed(c, answers, 11, MAKE_LIVE);
    NonePassed(c, answers, 12, MAKE_LIVE);
    NonePassed(c, answers, 13, MAKE_LIVE);
    assert Slots(Install)[7] == RemoveEntry && Slots(Install)[11] == LoadCatalog;
    assert Slots(Install)[12] == LoadSignatures && Slots(Install)[13] == CatalogUnpack;
    SentMeans(c, Arrive(c, answers, 7).value.s);
    SentMeans(c, Arrive(c, answers, 11).value.s);
    SentMeans(c, Arrive(c, answers, 12).value.s);
    SentMeans(c, Arrive(c, answers, 13).value.s);
  }

  // ------------------------------------------------------------ nobody waits for nothing

  /**
   While all goes well and the script is open, somebody can go on: the target has its next message, or a task has run
   whose status the host has not heard.
   */
  lemma NeverBothWait(c: Choices, noLockAllowed: bool, ws: seq<World>, i: nat)
    requires InStep(c) && AllWell(c) && Undisturbed(c) && IsRun(c, noLockAllowed, ws) && i < |ws|
    requires ws[i].target.status == 0 && Willing(c, 0, ws[i].heard) && |ws[i].heard| < |Slots(c.mode)|
    ensures var w := ws[i];
            || |w.heard| < |w.target.ran|
            || (w.tasks != [] && w.target.at < |Slots(c.mode)| && w.tasks[0].task == Slots(c.mode)[w.target.at])
  {
    var w := ws[i];
    EveryRun(c, noLockAllowed, ws, i);
    NotSpent(c, w);
    if |w.heard| >= |w.target.ran| && !LostStart(c, w) {
      WalkLength(c, 0, AT_START, w.heard);
      assert |w.read| + |w.tasks| == |Script(c, w.heard)|;
      AnOwnMessage(c, noLockAllowed, w);
    }
  }

  lemma NotSpent(c: Choices, w: World)
    requires InStep(c) && AllWell(c) && Undisturbed(c) && Conserved(c, w)
    requires Willing(c, 0, w.heard) && |w.heard| < |Slots(c.mode)|
    ensures !Spent(w)
  {
    if Spent(w) {
      var q :| 0 <= q < |w.read| && w.read[q] == ABORT;
      assert Script(c, w.heard)[q] == w.read[q];
      WalkCalm(c, 0, AT_START, w.heard, q);
    }
  }

  lemma AnOwnMessage(c: Choices, noLockAllowed: bool, w: World)
    requires InStep(c) && AllWell(c) && Undisturbed(c) && Inv(c, noLockAllowed, w) && GoingOn(c, noLockAllowed, w)
    requires w.target.status == 0 && Willing(c, 0, w.heard) && |w.heard| < |Slots(c.mode)| && w.tasks != [] && !Spent(w)
    requires |w.read| <= |w.heard|
    ensures w.target.at < |Slots(c.mode)| && w.tasks[0].task == Slots(c.mode)[w.target.at]
  {
    SameSlots(c.mode, w.target.at);
    NextIs(c, noLockAllowed, w);
    NextMessage(c, noLockAllowed, w);
    WalkCalm(c, 0, AT_START, w.heard, w.target.at);
  }

  /** As long as all is well, the host sends no abort. */
  lemma {:induction false} WalkCalm(c: Choices, i: nat, s: Stance, answers: seq<Reply>, q: nat)
    requires AllWell(c) && Undisturbed(c) && InStep(c) && Calm(s) && q < |Walk(c, i, s, answers)|
    requires i < |Slots(c.mode)| && Willing(c, i, answers)
    ensures Walk(c, i, s, answers)[q] != ABORT
    decreases q
  {
    var slots := Slots(c.mode);
    NoPassOver(c, i, s);
    WellEntry(c, i, s);
    if q == 0 {
      assert slots[i] in slots;
      NoAbortSlot(c.mode);
    } else {
      AnsweredSlot(c, i, s, answers);
      WillingStep(c, i, answers);
      WellReaction(c, i, s, answers[0]);
      WalkCalm(c, i + 1, Hear(c, i, s, answers[0]).s, answers[1..], q - 1);
    }
  }

  /** As long as all is well, the host has sent one message more than it has heard answers, up to the last slot. */
  lemma {:induction false} WalkLength(c: Choices, i: nat, s: Stance, answers: seq<Reply>)
    requires AllWell(c) && Undisturbed(c) && InStep(c) && Calm(s) && i + |answers| < |Slots(c.mode)|
    requires Willing(c, i, answers)
    ensures |Walk(c, i, s, answers)| == |answers| + 1
    decreases |answers|
  {
    NoPassOver(c, i, s);
    WellEntry(c, i, s);
    if answers == [] {
    } else {
      AnsweredSlot(c, i, s, answers);
      WillingStep(c, i, answers);
      WellReaction(c, i, s, answers[0]);
      WalkLength(c, i + 1, Hear(c, i, s, answers[0]).s, answers[1..]);
    }
  }
}
