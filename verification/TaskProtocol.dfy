/**
 The install conversation: the slots of the target's main script, and the messages the host puts into them.

 The host's control flow is spread over guards, loops and early exits.  Here it is one walk along the slots: at each slot
 the host sends, passes over or quits, and what it hears in answer decides how it goes on.  InstallHost has
 the code and shows that it sends exactly this.
 */
module TaskProtocol {
  import opened Wrappers

  // ------------------------------------------------------------ slots and messages

  datatype Task =
    | Uts | CatalogPerms | IscsListing | DoNothing | IscsEntry | CheckOverwrite | RemoveEntry | CheckStatus
    | PreviewTask | MakeCatalogDir | LockedSession | LoadCatalog | LoadSignatures | CatalogUnpack | SessionOptions
    | ControlSh | Analysis002 | RestoreEntry | ContinueTask | LoadInstalled90 | LoadFileset | CatalogDirRemove
    | LoadInstalled91 | MakeLive | IntentionalAbort

  /** What a message makes the target do: nothing but exit with a status, real work, or load an INSTALLED file. */
  datatype Body = Nothing(status: nat) | Work | Index(installed: bool)

  datatype Message = Message(task: Task, body: Body)

  const SW_SUCCESS := 0
  const SW_ERROR := 1
  const SW_WARNING := 2
  const SW_DESELECT := 3

  /** The message sent under a raised alarm: the script of the task it stands for, under an id that no slot has. */
  const ABORT := Message(IntentionalAbort, Work)

  /**
   What the host hears after a message: a status, or an error when it waited in vain; and whether a signal came
   meanwhile, which raises the alarm for the next send.
   */
  datatype Reply = Reply(status: int, signal: bool)

  const GOOD := Reply(0, false)

  /** Writing the archive to standard output is a kind of preview. */
  datatype Mode = Install | Preview | ToStdout

  const LOAD_FILESET := 20
  const MAKE_LIVE := 23

  /** The number of slots the host has messages for. */
  function SlotCount(mode: Mode): nat
  {
    match mode
    case Install => 24
    case Preview => 10
    case ToStdout => 4
  }

  /** The two queries that every run starts with. */
  function OpeningTask(i: nat): Task
  {
    if i == 0 then Uts else CatalogPerms
  }

  /** The tasks about the installed catalog, from slot 2 on, and the check of the status. */
  function CatalogTask(i: nat): Task
  {
    if i == 2 then IscsListing else if i == 3 then DoNothing else if i == 4 then IscsEntry
    else if i == 5 then CheckOverwrite else if i == 6 then DoNothing else if i == 7 then RemoveEntry else CheckStatus
  }

  /** The tasks that change the target, from slot 9 on. */
  function LoadingTask(i: nat): Task
  {
    if i == 9 then MakeCatalogDir else if i == 10 then LockedSession else if i == 11 then LoadCatalog
    else if i == 12 then LoadSignatures else if i == 13 then CatalogUnpack else if i == 14 then SessionOptions
    else if i == 15 then ControlSh else if i == 16 then Analysis002 else if i == 17 then RestoreEntry
    else if i == 18 then ContinueTask else if i == 19 then LoadInstalled90 else if i == 20 then LoadFileset
    else if i == 21 then CatalogDirRemove else if i == 22 then LoadInstalled91 else MakeLive
  }

  function TaskAt(mode: Mode, i: nat): Task
  {
    if i < 2 then OpeningTask(i)
    else if mode == ToStdout then if i == 2 then CheckStatus else PreviewTask
    else if i < 9 then CatalogTask(i)
    else if mode == Preview then PreviewTask
    else LoadingTask(i)
  }

  /** The slots the host has messages for, in the order of the main script. */
  function Slots(mode: Mode): (slots: seq<Task>)
    ensures |slots| == SlotCount(mode)
    ensures forall i :: 0 <= i < |slots| ==> slots[i] == TaskAt(mode, i)
  {
    seq(SlotCount(mode), i requires 0 <= i < SlotCount(mode) => TaskAt(mode, i))
  }

  // ------------------------------------------------------------ the catalog section of the archive

  datatype CatalogMember = CatalogMember(isCatalog: bool, isStorage: bool, isIndex: bool, isSignature: bool, readable: bool)

  datatype Ending = EndOfArchive | ReadError

  datatype Archive = Archive(members: seq<CatalogMember>, ending: Ending, hasPayload: bool, isSigned: bool, signal: Option<nat>)

  /**
   What the loop over the catalog section comes to: the looks that followed the two members it acts on, if it met them;
   its early return; and whether a signal cut it short.
   */
  datatype Scan = Scan(catalog: Option<nat>, signatures: Option<nat>, rc: int, cut: bool)

  predicate IsIndexMember(m: CatalogMember, s: Scan)
  {
    s.catalog.None? && m.isCatalog && m.isIndex
  }

  predicate IsSignatureMember(m: CatalogMember, s: Scan, isSigned: bool)
  {
    s.catalog.Some? && s.signatures.None? && m.isCatalog && (!isSigned || m.isSignature)
  }

  /** Reading the header for the `i`-th look fails. */
  predicate Broken(a: Archive, i: nat)
  {
    i == |a.members| && a.ending.ReadError?
  }

  function ScanFrom(a: Archive, i: nat, s: Scan): (r: Scan)
    requires i <= |a.members|
    ensures s.catalog.Some? ==> r.catalog == s.catalog
    ensures s.signatures.Some? ==> r.signatures == s.signatures
    ensures r.cut && !s.cut ==> r.rc == s.rc
    decreases |a.members| - i
  {
    if Broken(a, i) then s.(rc := -50)
    else if Raised(a.signal, i) then s.(cut := true)
    else if i == |a.members| then if a.hasPayload then s.(rc := -36) else s
    else
      var m := a.members[i];
      if !m.readable then s.(rc := -38)
      else if IsIndexMember(m, s) then ScanFrom(a, i + 1, s.(catalog := Some(i + 1)))
      else if IsSignatureMember(m, s, a.isSigned) then ScanFrom(a, i + 1, s.(signatures := Some(i + 1)))
      else if !m.isCatalog && m.isStorage then s
      else ScanFrom(a, i + 1, s)
  }

  const NOTHING_SEEN := Scan(None, None, 0, false)

  // ------------------------------------------------------------ what the host decides by

  datatype Compatibility = Compatible | Incompatible | Ambiguous

  /**
   The options, and the outcomes of everything the host checks by itself between two messages.  `early` is a signal before
   the first message, `interrupted` one that a look in the storage section sees, and `told` the bytes that the target's dd
   waits for.
   */
  datatype Choices = Choices(
    mode: Mode,
    locatable: bool, listingData: bool, analyzed: bool,
    downdateOk: bool, reinstallOk: bool, singleOk: bool, selected: bool,
    displaced: bool, entryData: bool, overwriteData: bool, conflicts: bool,
    requisitesOk: bool, instanceOk: bool, pathOk: bool, compatibility: Compatibility, namesOk: bool,
    forceLocks: bool, archive: Archive,
    checkStatus: int, enforceScripts: bool, force: bool,
    clearToSend: bool, storage: int, bytes: nat, told: nat, early: bool, interrupted: bool)

  function Scanned(c: Choices): Scan
  {
    ScanFrom(c.archive, 0, NOTHING_SEEN)
  }

  /** The checkinstall script asks for the install to be given up, and policy heeds it. */
  predicate Vetoed(c: Choices)
  {
    (c.checkStatus == SW_ERROR && c.enforceScripts) || (c.checkStatus == SW_DESELECT && !c.force)
  }

  /** A status that checkinstall may have; -1 says that there was no script. */
  predicate Recognized(status: int)
  {
    -1 <= status <= SW_DESELECT
  }

  // ------------------------------------------------------------ the walk

  /** What the host carries from slot to slot: an entry to restore, a veto, an error that it will stop for. */
  datatype Stance = Stance(restorable: bool, veto: bool, failed: bool)

  /** What the host does at a slot; to strike is to send an abort in place of its message, and stop. */
  datatype Entering = Send(body: Body) | PassOver | Quit | Strike

  /** Coming to a slot. */
  function Enter(c: Choices, task: Task, s: Stance): Entering
  {
    match task
    case DoNothing => Send(Nothing(SW_SUCCESS))
    case CheckStatus => Send(Nothing(SW_SUCCESS))
    case IscsEntry => Send(if c.displaced then Work else Nothing(SW_SUCCESS))
    case RemoveEntry =>
      if !c.displaced || c.mode != Install then Send(Nothing(SW_SUCCESS))
      else if c.namesOk then Send(Work) else PassOver
    case PreviewTask => if Lost(c) then Quit else if Cut(c) then Strike else Send(Nothing(SW_SUCCESS))
    case LoadCatalog =>
      if Scanned(c).catalog.Some? then Send(Work) else if Scanned(c).cut then Strike else PassOver
    case LoadSignatures =>
      if Scanned(c).signatures.Some? then Send(if c.archive.isSigned then Work else Nothing(SW_SUCCESS))
      else if Scanned(c).cut then Strike else PassOver
    case CatalogUnpack => if Scanned(c).rc < 0 then Quit else if Scanned(c).cut then Strike else Send(Work)
    case RestoreEntry => Send(if s.restorable && s.veto && !s.failed then Work else Nothing(SW_SUCCESS))
    case ContinueTask => Send(Nothing(if s.veto then SW_ERROR else SW_SUCCESS))
    case LoadInstalled90 => Send(Index(false))
    case LoadInstalled91 => Send(Index(true))
    case _ => Send(Work)
  }

  /** In preview the archive brings the program to return before the preview task; a signal keeps it off the storage section. */
  predicate Lost(c: Choices)
  {
    !Scanned(c).cut && (Scanned(c).rc < 0 || c.storage < 0)
  }

  /** In preview a signal is seen in the archive. */
  predicate Cut(c: Choices)
  {
    Scanned(c).cut || c.interrupted
  }

  /** Stop, after so many abort messages, or go on to the next slot. */
  datatype Reaction = Halt(aborts: nat) | On(s: Stance)

  /** After a message was answered with the status `r`. */
  function React(c: Choices, task: Task, second: bool, s: Stance, r: int): Reaction
  {
    var install := c.mode == Install;
    match task
    case Uts => if r != 0 then Halt(0) else On(s)
    case CatalogPerms =>
      if install && r != 0 then Halt(0) else if install && !c.locatable then Halt(1) else On(s)
    case IscsListing => if install && (r != 0 || !c.listingData) then Halt(1) else On(s)
    case DoNothing => if second then AfterSecond(c, s) else AfterFirst(c, s)
    case IscsEntry =>
      if c.displaced && !c.entryData then Halt(if install then 1 else 0) else On(s.(restorable := c.displaced))
    case CheckOverwrite =>
      if install && (r != 0 || !c.overwriteData || (c.conflicts && !c.displaced)) then Halt(1) else On(s)
    case RemoveEntry => On(if install && r != 0 then s.(restorable := false) else s)
    case CheckStatus => On(s)
    case LockedSession => if r < 0 || (r > 0 && !c.forceLocks) then Halt(0) else On(s)
    case Analysis002 => On(s.(veto := r >= 0 && Vetoed(c), failed := r < 0 || !Recognized(c.checkStatus)))
    case RestoreEntry => On(s)
    case ContinueTask => if s.veto || s.failed || r != 0 then Halt(0) else On(s)
    case LoadFileset =>
      if !c.clearToSend || c.storage != 0 || r != 0 then Halt(0) else if c.interrupted then Halt(1) else On(s)
    case _ => if r != 0 then Halt(0) else On(s)
  }

  /** The admission tests, between the first guard and the question for the replaced entry. */
  function AfterFirst(c: Choices, s: Stance): Reaction
  {
    if !c.analyzed then Halt(0)
    else if c.mode != Install then On(s)
    else if !c.downdateOk then Halt(1)
    else if !c.singleOk || !c.selected then Halt(1)
    else if !c.reinstallOk then Halt(if c.displaced then 2 else 1)
    else On(s)
  }

  /** The requisite tests, the choice of the path and the compatibility test, after the second guard. */
  function AfterSecond(c: Choices, s: Stance): Reaction
  {
    if c.mode == Install && (!c.requisitesOk || !c.instanceOk || !c.pathOk) then Halt(1)
    else if !c.compatibility.Compatible? then Halt(1)
    else On(s)
  }

  /**
   The aborts of a host whose alarm a signal raised on its way to slot `i`: one in place of the first task it tries to send,
   and another for a check that fails after it, or because it could not be sent.
   */
  function Fall(c: Choices, i: nat): nat
  {
    match c.mode
    case Install => FallInstall(c, i)
    case Preview =>
      if i < 3 then 1
      else if i < 5 then if (i == 3 && !c.analyzed) || c.displaced then 1 else FallLate(c)
      else if i < 7 then FallLate(c)
      else if i < 9 then 1
      else if i == 9 && !Broken(c.archive, 0) then 1 else 0
    case ToStdout => if i < 2 then 1 else if i == 3 && !Broken(c.archive, 0) then 1 else 0
  }

  /** In preview only a bad compatibility makes for another abort. */
  function FallLate(c: Choices): nat
  {
    if c.compatibility.Compatible? then 1 else 2
  }

  function FallInstall(c: Choices, i: nat): nat
  {
    if i == 3 then
      match AfterFirst(c, AT_START)
      case Halt(k) => 1 + k
      case On(_) => 2
    else if i == 4 || i == 5 then 2
    else if i == 6 then if AfterSecond(c, AT_START).Halt? then 2 else 1
    else if i == 11 then if Broken(c.archive, 0) then 0 else 1
    else if i == 12 then FallAfter(c.archive, Scanned(c).catalog)
    else if i == 13 then FallAfter(c.archive, Scanned(c).signatures)
    else if i < 24 then 1 else 0
  }

  /** In the catalog section the next look sees the signal, unless the archive cannot be read there. */
  function FallAfter(a: Archive, look: Option<nat>): nat
  {
    if look.Some? && Broken(a, look.value) then 0 else 1
  }

  const AT_START := Stance(false, false, false)

  /** In preview an incompatible host does not keep the program from the archive, and a signal seen there raises the alarm anew. */
  function Anew(c: Choices): nat
  {
    if c.mode != Install && c.compatibility.Incompatible? && !Lost(c) && Cut(c) then 1 else 0
  }

  /** After a message of slot `i` was answered: a signal that came meanwhile lets nothing but aborts follow. */
  function Hear(c: Choices, i: nat, s: Stance, r: Reply): Reaction
    requires i < |Slots(c.mode)|
  {
    match React(c, Slots(c.mode)[i], i == SECOND_GUARD, s, r.status)
    case Halt(k) => Halt(if k > 0 && !r.signal then k + Anew(c) else k)
    case On(s') => if r.signal then Halt(Fall(c, i + 1)) else On(s')
  }

  function Aborts(n: nat): seq<Message>
  {
    seq(n, i => ABORT)
  }

  /** The stance after passing over a slot: what was not removed is not restored. */
  function Passed(s: Stance, task: Task): Stance
  {
    s.(restorable := s.restorable && task != RemoveEntry)
  }

  /** The slot of the second of the two guards. */
  const SECOND_GUARD := 6

  /** The messages from slot `i` on, for as many as have been answered, and the one that waits for its answer. */
  function Walk(c: Choices, i: nat, s: Stance, answers: seq<Reply>): (m: seq<Message>)
    decreases |Slots(c.mode)| - i
  {
    if i >= |Slots(c.mode)| then []
    else
      var task := Slots(c.mode)[i];
      match Enter(c, task, s)
      case Quit => []
      case Strike => Aborts(1)
      case PassOver => Walk(c, i + 1, Passed(s, task), answers)
      case Send(body) =>
        [Message(task, body)] +
        if answers == [] then []
        else
          match Hear(c, i, s, answers[0])
          case Halt(k) => Aborts(k)
          case On(s') => Walk(c, i + 1, s', answers[1..])
  }

  function Script(c: Choices, answers: seq<Reply>): seq<Message>
  {
    if c.early then Aborts(1) else Walk(c, 0, AT_START, answers)
  }

  /** The task that takes the fileset's bytes was sent. */
  ghost predicate Loaded(m: seq<Message>)
  {
    exists i :: 0 <= i < |m| && m[i].task == LoadFileset
  }

  /** The payload bytes that follow these messages: those of the transfer, if it was asked for and the far end is ready. */
  ghost function PayloadOf(c: Choices, m: seq<Message>): nat
  {
    if Loaded(m) && c.clearToSend then c.bytes else 0
  }

  lemma LoadedSnoc(m: seq<Message>, x: Message)
    ensures Loaded(m + [x]) <==> Loaded(m) || x.task == LoadFileset
  {
    if Loaded(m) {
      var i :| 0 <= i < |m| && m[i].task == LoadFileset;
      assert (m + [x])[i] == m[i];
    }
    assert (m + [x])[|m|] == x;
  }

  // ------------------------------------------------------------ lockstep

  /** The two things the host needs to pass over no slot: usable names, and both members, unless a signal comes before. */
  predicate InStep(c: Choices)
  {
    c.mode == Install ==>
      && (c.displaced ==> c.namesOk)
      && (Scanned(c).cut || (Scanned(c).catalog.Some? && Scanned(c).signatures.Some?))
  }

  /** The messages fill the slots from `i` on in order; after an abort there are only aborts. */
  ghost predicate Fills(slots: seq<Task>, i: nat, m: seq<Message>)
  {
    exists k: nat :: Filled(slots, i, m, k)
  }

  /** The first `k` messages are for the next `k` slots and the others are aborts. */
  ghost predicate Filled(slots: seq<Task>, i: nat, m: seq<Message>, k: nat)
  {
    && k <= |m| && i + k <= |slots|
    && (forall j :: 0 <= j < k ==> m[j].task == slots[i + j])
    && forall j :: k <= j < |m| ==> m[j] == ABORT
  }

  lemma FilledCons(slots: seq<Task>, i: nat, m: Message, rest: seq<Message>, k: nat)
    requires i < |slots| && m.task == slots[i] && Filled(slots, i + 1, rest, k)
    ensures Filled(slots, i, [m] + rest, k + 1)
  {
    var all := [m] + rest;
    forall j | 0 <= j < k + 1 ensures all[j].task == slots[i + j] {
      if j > 0 {
        assert all[j] == rest[j - 1] && rest[j - 1].task == slots[i + 1 + (j - 1)];
      }
    }
    forall j | k + 1 <= j < |all| ensures all[j] == ABORT {
      assert all[j] == rest[j - 1];
    }
  }

  /** A host in step passes over no slot. */
  lemma NoPassOver(c: Choices, i: nat, s: Stance)
    requires InStep(c) && i < |Slots(c.mode)|
    ensures !Enter(c, Slots(c.mode)[i], s).PassOver?
  {
  }

  lemma {:induction false} WalkFills(c: Choices, i: nat, s: Stance, answers: seq<Reply>)
    requires InStep(c) && i <= |Slots(c.mode)|
    ensures Fills(Slots(c.mode), i, Walk(c, i, s, answers))
    decreases |Slots(c.mode)| - i
  {
    var slots := Slots(c.mode);
    if i == |slots| || Enter(c, slots[i], s).Quit? {
      assert Filled(slots, i, [], 0);
    } else if Enter(c, slots[i], s).Strike? {
      assert Filled(slots, i, Aborts(1), 0);
    } else {
      NoPassOver(c, i, s);
      var m := Message(slots[i], Enter(c, slots[i], s).body);
      if answers == [] {
        assert Filled(slots, i, [m] + [], 1);
      } else {
        match Hear(c, i, s, answers[0]) {
          case Halt(k) =>
            assert Filled(slots, i + 1, Aborts(k), 0);
            FilledCons(slots, i, m, Aborts(k), 0);
          case On(s') =>
            WalkFills(c, i + 1, s', answers[1..]);
            var k :| Filled(slots, i + 1, Walk(c, i + 1, s', answers[1..]), k);
            FilledCons(slots, i, m, Walk(c, i + 1, s', answers[1..]), k);
        }
      }
    }
  }

  // ------------------------------------------------------------ what a script tells of its run

  /** How the host comes to a slot: its stance, and how many answers it has heard, which is how many messages it has sent. */
  datatype Place = Place(s: Stance, heard: nat)

  /** Going on from a slot, if the host does. */
  function Leave(c: Choices, answers: seq<Reply>, i: nat, p: Place): Option<Place>
    requires i < |Slots(c.mode)|
  {
    var task := Slots(c.mode)[i];
    match Enter(c, task, p.s)
    case Quit => None
    case Strike => None
    case PassOver => Some(Place(Passed(p.s, task), p.heard))
    case Send(_) =>
      if |answers| <= p.heard then None
      else
        match Hear(c, i, p.s, answers[p.heard])
        case Halt(_) => None
        case On(s') => Some(Place(s', p.heard + 1))
  }

  /** How the host comes to slot `j`, if it does. */
  function Arrive(c: Choices, answers: seq<Reply>, j: nat): Option<Place>
    requires j <= |Slots(c.mode)|
  {
    if j == 0 then if c.early then None else Some(Place(AT_START, 0))
    else
      match Arrive(c, answers, j - 1)
      case None => None
      case Some(p) => Leave(c, answers, j - 1, p)
  }

  lemma ArriveStep(c: Choices, answers: seq<Reply>, j: nat)
    requires j < |Slots(c.mode)| && Arrive(c, answers, j + 1).Some?
    ensures Arrive(c, answers, j).Some? && Leave(c, answers, j, Arrive(c, answers, j).value) == Arrive(c, answers, j + 1)
  {
  }

  /** What is sent from a slot on is what the slot gets and what is sent from the next one on. */
  lemma WalkLeave(c: Choices, answers: seq<Reply>, i: nat, p: Place)
    requires i < |Slots(c.mode)| && p.heard <= |answers| && Leave(c, answers, i, p).Some?
    ensures var p' := Leave(c, answers, i, p).value;
            var task := Slots(c.mode)[i];
            var e := Enter(c, task, p.s);
            var w := Walk(c, i, p.s, answers[p.heard..]);
            && p'.heard <= |answers|
            && w == (if e.Send? then [Message(task, e.body)] else []) + Walk(c, i + 1, p'.s, answers[p'.heard..])
  {
    var p' := Leave(c, answers, i, p).value;
    if p'.heard > p.heard {
      assert answers[p.heard..][0] == answers[p.heard] && answers[p.heard..][1..] == answers[p'.heard..];
    } else {
      var w := Walk(c, i + 1, p'.s, answers[p'.heard..]);
      assert [] + w == w;
    }
  }

  /** The script from a slot on. */
  lemma {:induction false} ScriptFrom(c: Choices, answers: seq<Reply>, j: nat)
    requires j <= |Slots(c.mode)| && Arrive(c, answers, j).Some?
    ensures var p := Arrive(c, answers, j).value;
            && p.heard <= |answers| && p.heard <= |Script(c, answers)|
            && Script(c, answers)[p.heard..] == Walk(c, j, p.s, answers[p.heard..])
  {
    if j == 0 {
      assert answers[0..] == answers;
    } else {
      ArriveStep(c, answers, j - 1);
      ScriptFrom(c, answers, j - 1);
      var m, p := Script(c, answers), Arrive(c, answers, j - 1).value;
      WalkLeave(c, answers, j - 1, p);
      if Enter(c, Slots(c.mode)[j - 1], p.s).Send? {
        assert m[p.heard..] != [] && m[p.heard..][1..] == m[p.heard + 1..];
      }
    }
  }

  /** Message `q` is for slot `j`, which the host came to when it had sent the messages before. */
  ghost predicate IsPlace(c: Choices, answers: seq<Reply>, q: nat, j: nat)
  {
    && j < |Slots(c.mode)| && q < |Script(c, answers)|
    && Arrive(c, answers, j).Some? && Arrive(c, answers, j).value.heard == q
    && var e := Enter(c, Slots(c.mode)[j], Arrive(c, answers, j).value.s);
       e.Send? && Script(c, answers)[q] == Message(Slots(c.mode)[j], e.body)
  }

  /**
   A message that is no abort is for a slot that the host came to when it had sent the messages before it, and is what
   it enters the slot with.
   */
  lemma PlaceOf(c: Choices, answers: seq<Reply>, q: nat) returns (j: nat)
    requires q < |Script(c, answers)| && Script(c, answers)[q] != ABORT
    ensures IsPlace(c, answers, q, j)
  {
    j := PlaceFrom(c, answers, 0, q);
  }

  /** The host comes to slot `i` with no more than `q` messages sent. */
  ghost predicate ComesBefore(c: Choices, answers: seq<Reply>, i: nat, q: nat)
  {
    i <= |Slots(c.mode)| && Arrive(c, answers, i).Some? && Arrive(c, answers, i).value.heard <= q
  }

  lemma PlaceFrom(c: Choices, answers: seq<Reply>, i: nat, q: nat) returns (j: nat)
    requires ComesBefore(c, answers, i, q) && q < |Script(c, answers)| && Script(c, answers)[q] != ABORT
    ensures IsPlace(c, answers, q, j)
    decreases |Slots(c.mode)| - i
  {
    var here := HereOrLater(c, answers, i, q);
    if here {
      j := i;
    } else {
      j := PlaceFrom(c, answers, i + 1, q);
    }
  }

  /** A message is the one of the slot, or the host goes on to the next one. */
  lemma HereOrLater(c: Choices, answers: seq<Reply>, i: nat, q: nat) returns (here: bool)
    requires ComesBefore(c, answers, i, q) && q < |Script(c, answers)| && Script(c, answers)[q] != ABORT
    ensures i < |Slots(c.mode)|
    ensures if here then IsPlace(c, answers, q, i) else ComesBefore(c, answers, i + 1, q)
  {
    SlotLeft(c, answers, i, q);
    ArriveNext(c, answers, i);
    here := !ComesBefore(c, answers, i + 1, q);
    if here {
      MessageHere(c, answers, i, Arrive(c, answers, i).value, q);
    }
  }

  lemma MessageHere(c: Choices, answers: seq<Reply>, i: nat, p: Place, q: nat)
    requires i < |Slots(c.mode)| && Arrive(c, answers, i) == Some(p) && p.heard <= q < |Script(c, answers)|
    requires Script(c, answers)[q] != ABORT && StaysBefore(c, answers, i, p, q)
    ensures IsPlace(c, answers, q, i)
  {
    ScriptAt(c, answers, i, q);
    OnlyHead(c, answers, i, p, q - p.heard);
  }

  /** The host does not come to the next slot, or only with more than `q` messages sent. */
  predicate StaysBefore(c: Choices, answers: seq<Reply>, i: nat, p: Place, q: nat)
    requires i < |Slots(c.mode)|
  {
    Leave(c, answers, i, p).Some? ==> Leave(c, answers, i, p).value.heard > q
  }

  lemma ArriveNext(c: Choices, answers: seq<Reply>, i: nat)
    requires i < |Slots(c.mode)| && Arrive(c, answers, i).Some?
    ensures Arrive(c, answers, i + 1) == Leave(c, answers, i, Arrive(c, answers, i).value)
  {
  }

  /** The host is not through with its slots before its script ends. */
  lemma SlotLeft(c: Choices, answers: seq<Reply>, i: nat, q: nat)
    requires i <= |Slots(c.mode)| && Arrive(c, answers, i).Some?
    requires Arrive(c, answers, i).value.heard <= q < |Script(c, answers)|
    ensures i < |Slots(c.mode)|
  {
    ScriptFrom(c, answers, i);
    assert Script(c, answers)[Arrive(c, answers, i).value.heard..] != [];
  }

  lemma ScriptAt(c: Choices, answers: seq<Reply>, i: nat, q: nat)
    requires i < |Slots(c.mode)| && Arrive(c, answers, i).Some?
    requires Arrive(c, answers, i).value.heard <= q < |Script(c, answers)|
    ensures var p := Arrive(c, answers, i).value;
            && p.heard <= |answers| && q - p.heard < |Walk(c, i, p.s, answers[p.heard..])|
            && Script(c, answers)[q] == Walk(c, i, p.s, answers[p.heard..])[q - p.heard]
  {
    ScriptFrom(c, answers, i);
    var p := Arrive(c, answers, i).value;
    SuffixAt(Script(c, answers), Walk(c, i, p.s, answers[p.heard..]), p.heard, q);
  }

  lemma SuffixAt<T>(m: seq<T>, w: seq<T>, h: nat, q: nat)
    requires h <= q < |m| && m[h..] == w
    ensures w != [] && q - h < |w| && w[q - h] == m[q]
  {
  }

  /** What a slot that gets a message comes to once this is answered. */
  lemma AnsweredSlot(c: Choices, i: nat, s: Stance, answers: seq<Reply>)
    requires i < |Slots(c.mode)| && Enter(c, Slots(c.mode)[i], s).Send? && answers != []
    ensures var m, h := Message(Slots(c.mode)[i], Enter(c, Slots(c.mode)[i], s).body), Hear(c, i, s, answers[0]);
            Walk(c, i, s, answers) == [m] + if h.Halt? then Aborts(h.aborts) else Walk(c, i + 1, h.s, answers[1..])
  {
  }

  lemma HeadMessage(c: Choices, i: nat, s: Stance, answers: seq<Reply>)
    requires i < |Slots(c.mode)| && Enter(c, Slots(c.mode)[i], s).Send?
    ensures Walk(c, i, s, answers) != []
    ensures Walk(c, i, s, answers)[0] == Message(Slots(c.mode)[i], Enter(c, Slots(c.mode)[i], s).body)
  {
  }

  /** Of the messages from a slot on, only the first one and aborts come before the host goes on. */
  lemma OnlyHead(c: Choices, answers: seq<Reply>, i: nat, p: Place, k: nat)
    requires i < |Slots(c.mode)| && p.heard <= |answers|
    requires k < |Walk(c, i, p.s, answers[p.heard..])| && Walk(c, i, p.s, answers[p.heard..])[k] != ABORT
    requires StaysBefore(c, answers, i, p, p.heard + k)
    ensures k == 0 && Enter(c, Slots(c.mode)[i], p.s).Send?
    ensures Walk(c, i, p.s, answers[p.heard..])[0] == Message(Slots(c.mode)[i], Enter(c, Slots(c.mode)[i], p.s).body)
  {
    if p.heard < |answers| {
      assert answers[p.heard..][0] == answers[p.heard];
    }
  }

  lemma NoAbortSlot(mode: Mode)
    ensures IntentionalAbort !in Slots(mode)
  {
  }

  // ------------------------------------------------------------ what the messages say

  lemma StateOfSlot(c: Choices, task: Task, s: Stance)
    requires Enter(c, task, s).Send?
    ensures var body := Enter(c, task, s).body;
            && (task == LoadInstalled90 ==> body == Index(false)) && (task == LoadInstalled91 ==> body == Index(true))
            && (body.Index? ==> task == LoadInstalled90 || task == LoadInstalled91)
  {
  }

  /** What LoadInstalled90 loads is always transient, and what LoadInstalled91 loads always installed. */
  lemma {:induction false} StatesInOrder(c: Choices, i: nat, s: Stance, answers: seq<Reply>, m: Message)
    requires m in Walk(c, i, s, answers)
    ensures m.task == LoadInstalled90 ==> m.body == Index(false)
    ensures m.task == LoadInstalled91 ==> m.body == Index(true)
    ensures m.body.Index? ==> m.task == LoadInstalled90 || m.task == LoadInstalled91
    decreases |Slots(c.mode)| - i
  {
    var task := Slots(c.mode)[i];
    var e := Enter(c, task, s);
    if e.Strike? {
      assert m in Aborts(1);
    } else if e.PassOver? {
      StatesInOrder(c, i + 1, Passed(s, task), answers, m);
    } else if m == Message(task, e.body) {
      StateOfSlot(c, task, s);
    } else {
      AnsweredSlot(c, i, s, answers);
      var h := Hear(c, i, s, answers[0]);
      if h.Halt? {
        assert m in Aborts(h.aborts);
      } else {
        StatesInOrder(c, i + 1, h.s, answers[1..], m);
      }
    }
  }

  /** The slots from the unpacking of the catalog on are never passed over. */
  lemma LateSend(c: Choices, j: nat, s: Stance)
    requires c.mode == Install && 13 <= j < 24
    ensures !Enter(c, Slots(Install)[j], s).PassOver?
  {
  }

  /** Coming by a late slot: its message was sent and answered, and the answer let the host go on. */
  lemma LateStep(c: Choices, answers: seq<Reply>, j: nat)
    requires c.mode == Install && 13 <= j < 23 && Arrive(c, answers, j + 1).Some?
    ensures Arrive(c, answers, j).Some?
    ensures var p, p' := Arrive(c, answers, j).value, Arrive(c, answers, j + 1).value;
            var task := Slots(Install)[j];
            && p'.heard == p.heard + 1 && p.heard < |answers| && p.heard < |Script(c, answers)|
            && Enter(c, task, p.s).Send?
            && Script(c, answers)[p.heard] == Message(task, Enter(c, task, p.s).body)
            && Hear(c, j, p.s, answers[p.heard]) == On(p'.s)
  {
    ArriveStep(c, answers, j);
    var p := Arrive(c, answers, j).value;
    LateSend(c, j, p.s);
    ScriptFrom(c, answers, j);
    WalkLeave(c, answers, j, p);
    assert Script(c, answers)[p.heard] == Script(c, answers)[p.heard..][0];
  }

  /** Only two answers bear on what is to be restored. */
  lemma ReactionKeeps(c: Choices, task: Task, second: bool, s: Stance, r: int)
    requires task != IscsEntry && task != RemoveEntry
    ensures var e := React(c, task, second, s, r); e.On? ==> e.s.restorable == s.restorable
  {
  }

  lemma OtherSlot(j: nat)
    requires 8 <= j < 24 || j == 5 || j == 6
    ensures Slots(Install)[j] != IscsEntry && Slots(Install)[j] != RemoveEntry
  {
  }

  lemma LeaveKeeps(c: Choices, answers: seq<Reply>, i: nat, p: Place)
    requires c.mode == Install && i < 24 && Leave(c, answers, i, p).Some?
    requires Slots(Install)[i] != IscsEntry && Slots(Install)[i] != RemoveEntry
    ensures Leave(c, answers, i, p).value.s.restorable == p.s.restorable
  {
    if Leave(c, answers, i, p).value.heard > p.heard {
      ReactionKeeps(c, Slots(Install)[i], i == SECOND_GUARD, p.s, answers[p.heard].status);
    }
  }

  /** No slot before the removal is passed over. */
  lemma {:induction false} EarlyHeard(c: Choices, answers: seq<Reply>, j: nat)
    requires c.mode == Install && j <= 7 && Arrive(c, answers, j).Some?
    ensures Arrive(c, answers, j).value.heard == j
  {
    if j == 0 {
    } else {
      ArriveStep(c, answers, j - 1);
      EarlyHeard(c, answers, j - 1);
    }
  }

  /** Before the removal, the entry to restore is the displaced one. */
  lemma {:induction false} RestorableBefore(c: Choices, answers: seq<Reply>, j: nat)
    requires c.mode == Install && 5 <= j <= 7 && Arrive(c, answers, j).Some?
    ensures Arrive(c, answers, j).value.s.restorable == c.displaced
  {
    ArriveStep(c, answers, j - 1);
    if j == 5 {
    } else {
      OtherSlot(j - 1);
      LeaveKeeps(c, answers, j - 1, Arrive(c, answers, j - 1).value);
      RestorableBefore(c, answers, j - 1);
    }
  }

  /** From the removal on, the entry to restore is the displaced one if it could be moved. */
  lemma {:induction false} Restorable(c: Choices, answers: seq<Reply>, j: nat)
    requires c.mode == Install && 8 <= j <= 23 && Arrive(c, answers, j).Some?
    ensures Arrive(c, answers, j).value.s.restorable <==> c.displaced && c.namesOk && |answers| > 7 && answers[7].status == 0
  {
    ArriveStep(c, answers, j - 1);
    if j == 8 {
      RestorableBefore(c, answers, 7);
      EarlyHeard(c, answers, 7);
    } else {
      OtherSlot(j - 1);
      LeaveKeeps(c, answers, j - 1, Arrive(c, answers, j - 1).value);
      Restorable(c, answers, j - 1);
    }
  }

  /** The tasks from the analysis on have one slot each. */
  lemma OneSlot(j: nat)
    requires j < 24
    ensures Slots(Install)[j] == Analysis002 ==> j == 16
    ensures Slots(Install)[j] == RestoreEntry ==> j == 17
    ensures Slots(Install)[j] == ContinueTask ==> j == 18
    ensures Slots(Install)[j] == LoadFileset ==> j == LOAD_FILESET
    ensures Slots(Install)[j] == MakeLive ==> j == MAKE_LIVE
  {
  }

  /**
   The restore task comes right after the analysis, and is a real one exactly when an entry was moved away without error
   and the install is vetoed; the removal is the eighth message.
   */
  lemma RestoreWhenVetoed(c: Choices, answers: seq<Reply>, q: nat)
    requires c.mode == Install && q < |Script(c, answers)| && Script(c, answers)[q].task == RestoreEntry
    ensures 0 < q <= |answers| && Script(c, answers)[q - 1].task == Analysis002
    ensures Script(c, answers)[q].body ==
            if c.displaced && c.namesOk && |answers| > 7 && answers[7].status == 0 && answers[q - 1].status >= 0 && Vetoed(c) then Work
            else Nothing(SW_SUCCESS)
  {
    var j := PlaceOf(c, answers, q);
    OneSlot(j);
    Restorable(c, answers, 17);
    LateStep(c, answers, 16);
  }

  /** The stance that the answer to the analysis leaves. */
  lemma StanceAfterAnalysis(c: Choices, answers: seq<Reply>, j: nat)
    requires c.mode == Install && 17 <= j <= 18 && Arrive(c, answers, j).Some?
    ensures Arrive(c, answers, 16).Some? && Arrive(c, answers, 16).value.heard == Arrive(c, answers, j).value.heard + 16 - j
    ensures var r := Arrive(c, answers, 16).value.heard; var s := Arrive(c, answers, j).value.s;
            && r < |answers|
            && s.veto == (answers[r].status >= 0 && Vetoed(c))
            && s.failed == (answers[r].status < 0 || !Recognized(c.checkStatus))
  {
    if j == 18 {
      LateStep(c, answers, 17);
    }
    LateStep(c, answers, 16);
  }

  lemma NoContinuingAfterVeto(c: Choices, answers: seq<Reply>)
    requires c.mode == Install && Vetoed(c) && Arrive(c, answers, 16).Some?
    requires Arrive(c, answers, 16).value.heard < |answers| && answers[Arrive(c, answers, 16).value.heard].status >= 0
    ensures Arrive(c, answers, 19).None?
  {
    if Arrive(c, answers, 19).Some? {
      NotVetoed(c, answers);
    }
  }

  lemma {:induction false} ArriveBefore(c: Choices, answers: seq<Reply>, i: nat, j: nat)
    requires i <= j <= |Slots(c.mode)| && Arrive(c, answers, j).Some?
    ensures Arrive(c, answers, i).Some?
    decreases j
  {
    if i == j {
    } else {
      ArriveBefore(c, answers, i, j - 1);
    }
  }

  predicate IsLoading(task: Task)
  {
    task == LoadInstalled90 || task == LoadFileset || task == LoadInstalled91 || task == MakeLive
  }

  lemma EarlySlots(j: nat)
    requires j < 19
    ensures !IsLoading(Slots(Install)[j])
  {
  }

  /** The host does not come past the continue slot after a veto. */
  lemma VetoedSlot(c: Choices, answers: seq<Reply>, p: nat, q: nat) returns (j: nat)
    requires c.mode == Install && Vetoed(c)
    requires p < |answers| && p < |Script(c, answers)| && Script(c, answers)[p].task == Analysis002 && answers[p].status >= 0
    requires q < |Script(c, answers)| && Script(c, answers)[q] != ABORT
    ensures j <= 18 && Arrive(c, answers, j).Some? && Arrive(c, answers, j).value.heard == q
    ensures Script(c, answers)[q].task == Slots(Install)[j]
    ensures Arrive(c, answers, 16).Some? && Arrive(c, answers, 16).value.heard == p
  {
    var jp := PlaceOf(c, answers, p);
    OneSlot(jp);
    j := PlaceOf(c, answers, q);
    if j >= 19 {
      NoContinuingAfterVeto(c, answers);
      ArriveBefore(c, answers, 19, j);
    }
  }

  /** A veto heard in answer to message `p`: no message loads or makes live, and the last one is a failing continue task. */
  lemma VetoEndsTheRun(c: Choices, answers: seq<Reply>, p: nat, q: nat)
    requires c.mode == Install && Vetoed(c)
    requires p < |answers| && p < |Script(c, answers)| && Script(c, answers)[p].task == Analysis002 && answers[p].status >= 0
    requires q < |Script(c, answers)|
    ensures var m := Script(c, answers);
            && !IsLoading(m[q].task) && !m[q].body.Index?
            && (m[q].task == ContinueTask ==> m[q].body == Nothing(SW_ERROR) && q == p + 2 && |m| == q + 1)
  {
    var m := Script(c, answers);
    StatesInOrder(c, 0, AT_START, answers, m[q]);
    if m[q] != ABORT {
      var j := VetoedSlot(c, answers, p, q);
      EarlySlots(j);
      OneSlot(j);
      if j == 18 {
        VetoLast(c, answers);
      }
    }
  }

  /** And no payload bytes are put on the channel. */
  lemma VetoSendsNoPayload(c: Choices, answers: seq<Reply>, p: nat)
    requires c.mode == Install && Vetoed(c)
    requires p < |answers| && p < |Script(c, answers)| && Script(c, answers)[p].task == Analysis002 && answers[p].status >= 0
    ensures PayloadOf(c, Script(c, answers)) == 0
  {
    if Loaded(Script(c, answers)) {
      var q :| 0 <= q < |Script(c, answers)| && Script(c, answers)[q].task == LoadFileset;
      VetoEndsTheRun(c, answers, p, q);
    }
  }

  /** The continue task of a vetoed install fails, and nothing follows it. */
  lemma VetoLast(c: Choices, answers: seq<Reply>)
    requires c.mode == Install && Vetoed(c) && Arrive(c, answers, 18).Some? && Arrive(c, answers, 16).Some?
    requires Arrive(c, answers, 16).value.heard < |answers| && answers[Arrive(c, answers, 16).value.heard].status >= 0
    ensures var m, q := Script(c, answers), Arrive(c, answers, 18).value.heard;
            && q == Arrive(c, answers, 16).value.heard + 2 && |m| == q + 1
            && m[q] == Message(ContinueTask, Nothing(SW_ERROR))
  {
    StanceAfterAnalysis(c, answers, 18);
    ScriptFrom(c, answers, 18);
    var p := Arrive(c, answers, 18).value;
    VetoedContinue(c, p.s, answers[p.heard..]);
    assert Script(c, answers)[p.heard] == Script(c, answers)[p.heard..][0];
  }

  lemma VetoedContinue(c: Choices, s: Stance, answers: seq<Reply>)
    requires c.mode == Install && s.veto
    ensures Walk(c, 18, s, answers) == [Message(ContinueTask, Nothing(SW_ERROR))]
  {
    assert Slots(Install)[18] == ContinueTask;
    assert Aborts(0) == [];
  }

  /**
   The entry is made live only after the fileset was loaded without error and the INSTALLED file with state installed,
   and only without a veto; the message `q` that does it comes right after those.
   */
  lemma MakeLiveLast(c: Choices, answers: seq<Reply>, q: nat)
    requires c.mode == Install && q < |Script(c, answers)| && Script(c, answers)[q].task == MakeLive
    ensures LiveAfter(c, answers, Script(c, answers), q)
  {
    var j := PlaceOf(c, answers, q);
    OneSlot(j);
    LastTwo(c, answers, j, q);
    FilesetAnswered(c, answers, j - 2, q - 2);
    ContinueAnswered(c, answers, j - 4, q - 4);
  }

  /** The five messages before `q` and what was heard in answer to them. */
  predicate LiveAfter(c: Choices, answers: seq<Reply>, m: seq<Message>, q: nat)
  {
    && 5 <= q <= |answers| && q <= |m|
    && EndsLive(answers, m, q)
    && LoadsFileset(c, answers, m, q - 2)
    && GoesOn(c, answers, m, q - 4)
  }

  /** The two messages before `q` removed the catalog directory and loaded the INSTALLED file with state installed. */
  predicate EndsLive(answers: seq<Reply>, m: seq<Message>, q: nat)
    requires 2 <= q <= |answers| && q <= |m|
  {
    && m[q - 1] == Message(LoadInstalled91, Index(true)) && answers[q - 1] == GOOD
    && m[q - 2].task == CatalogDirRemove && answers[q - 2] == GOOD
  }

  /** The two before loaded the INSTALLED file with state transient and the fileset, whose transfer went well. */
  predicate LoadsFileset(c: Choices, answers: seq<Reply>, m: seq<Message>, q: nat)
    requires 2 <= q <= |answers| && q <= |m|
  {
    && m[q - 1] == Message(LoadFileset, Work) && answers[q - 1] == GOOD && Transferred(c)
    && m[q - 2] == Message(LoadInstalled90, Index(false)) && answers[q - 2] == GOOD
  }

  /** The one before let the target go on, without a veto. */
  predicate GoesOn(c: Choices, answers: seq<Reply>, m: seq<Message>, q: nat)
    requires 1 <= q <= |answers| && q <= |m|
  {
    m[q - 1] == Message(ContinueTask, Nothing(SW_SUCCESS)) && answers[q - 1] == GOOD && !Vetoed(c)
  }

  /** The far end was ready, and the transfer returned 0 and saw no signal. */
  predicate Transferred(c: Choices)
  {
    c.clearToSend && c.storage == 0 && !c.interrupted
  }

  /** The messages of the last slots. */
  function LateMessage(j: nat): Message
  {
    if j == 19 then Message(LoadInstalled90, Index(false))
    else if j == 20 then Message(LoadFileset, Work)
    else if j == 21 then Message(CatalogDirRemove, Work)
    else Message(LoadInstalled91, Index(true))
  }

  /** The host comes to slot `j` with `q` messages sent. */
  predicate ComesWith(c: Choices, answers: seq<Reply>, j: nat, q: nat)
  {
    j <= |Slots(c.mode)| && Arrive(c, answers, j).Some? && Arrive(c, answers, j).value.heard == q
  }

  /** Message `q` is the one of the late slot `j`, and was answered with 0. */
  predicate AnsweredWell(c: Choices, answers: seq<Reply>, j: nat, q: nat)
  {
    && q < |answers| && q < |Script(c, answers)|
    && Script(c, answers)[q] == LateMessage(j) && answers[q] == GOOD
    && (j == LOAD_FILESET ==> Transferred(c))
  }

  /** Coming by one of the last slots: its message was answered with 0. */
  lemma LateAnswer(c: Choices, answers: seq<Reply>, j: nat, q: nat)
    requires c.mode == Install && 19 <= j < 23 && ComesWith(c, answers, j + 1, q)
    ensures q > 0 && ComesWith(c, answers, j, q - 1) && AnsweredWell(c, answers, j, q - 1)
  {
    LateStep(c, answers, j);
    var p := Arrive(c, answers, j).value;
    LateReaction(c, j, p.s, answers[p.heard]);
  }

  /** One of the last slots: what it gets, and that only a 0 lets the host go on from it. */
  lemma LateReaction(c: Choices, j: nat, s: Stance, r: Reply)
    requires c.mode == Install && 19 <= j < 23
    ensures Enter(c, Slots(Install)[j], s) == Send(LateMessage(j).body) && Slots(Install)[j] == LateMessage(j).task
    ensures Hear(c, j, s, r).On? ==> r == GOOD && (j == LOAD_FILESET ==> Transferred(c))
  {
  }

  lemma LastTwo(c: Choices, answers: seq<Reply>, j: nat, q: nat)
    requires c.mode == Install && j == MAKE_LIVE && ComesWith(c, answers, j, q)
    ensures 2 <= q <= |answers| && q <= |Script(c, answers)| && EndsLive(answers, Script(c, answers), q)
    ensures ComesWith(c, answers, j - 2, q - 2)
  {
    LateAnswer(c, answers, j - 1, q);
    LateAnswer(c, answers, j - 2, q - 1);
  }

  lemma FilesetAnswered(c: Choices, answers: seq<Reply>, j: nat, q: nat)
    requires c.mode == Install && j == LOAD_FILESET + 1 && ComesWith(c, answers, j, q)
    ensures 2 <= q <= |answers| && q <= |Script(c, answers)| && LoadsFileset(c, answers, Script(c, answers), q)
    ensures ComesWith(c, answers, j - 2, q - 2)
  {
    LateAnswer(c, answers, j - 1, q);
    LateAnswer(c, answers, j - 2, q - 1);
  }

  lemma ContinueAnswered(c: Choices, answers: seq<Reply>, j: nat, q: nat)
    requires c.mode == Install && j == LOAD_FILESET - 1 && ComesWith(c, answers, j, q)
    ensures 1 <= q <= |answers| && q <= |Script(c, answers)| && GoesOn(c, answers, Script(c, answers), q)
  {
    LateStep(c, answers, j - 1);
    NotVetoed(c, answers);
  }

  lemma NotVetoed(c: Choices, answers: seq<Reply>)
    requires c.mode == Install && Arrive(c, answers, 19).Some?
    ensures !Vetoed(c)
  {
    LateStep(c, answers, 18);
    var p := Arrive(c, answers, 18).value;
    ContinueReaction(c, p.s, answers[p.heard].status);
    StanceAfterAnalysis(c, answers, 18);
  }

  lemma ContinueReaction(c: Choices, s: Stance, r: int)
    ensures React(c, ContinueTask, false, s, r).On? <==> !s.veto && !s.failed && r == 0
  {
  }

  // ------------------------------------------------------------ signals

  lemma ReactionAborts(c: Choices, task: Task, second: bool, s: Stance, r: int)
    ensures React(c, task, second, s, r).Halt? ==> React(c, task, second, s, r).aborts <= 2
  {
  }

  lemma FallAborts(c: Choices, i: nat)
    ensures Fall(c, i) <= 3
  {
  }

  /** How many aborts there may be at the end, and that a signal brings it. */
  lemma FewAborts(c: Choices, i: nat, s: Stance, r: Reply)
    requires i < |Slots(c.mode)|
    ensures Hear(c, i, s, r).Halt? ==> Hear(c, i, s, r).aborts <= 3
    ensures r.signal ==> Hear(c, i, s, r).Halt?
  {
    var task := Slots(c.mode)[i];
    ReactionAborts(c, task, i == SECOND_GUARD, s, r.status);
    FallAborts(c, i + 1);
  }

  /** After an answer that comes with a signal there are only aborts, and no more than three of them. */
  lemma {:induction false} SignalStops(c: Choices, i: nat, s: Stance, answers: seq<Reply>, p: nat, q: nat)
    requires i < |Slots(c.mode)|
    requires p < |answers| && answers[p].signal && p < q < |Walk(c, i, s, answers)|
    ensures q <= p + 3 && Walk(c, i, s, answers)[q] == ABORT
    decreases |Slots(c.mode)| - i
  {
    var e := Enter(c, Slots(c.mode)[i], s);
    if e.PassOver? {
      SignalStops(c, i + 1, Passed(s, Slots(c.mode)[i]), answers, p, q);
    } else if e.Send? {
      AnsweredSlot(c, i, s, answers);
      FewAborts(c, i, s, answers[0]);
      var h := Hear(c, i, s, answers[0]);
      if h.On? {
        SignalStops(c, i + 1, h.s, answers[1..], p - 1, q - 1);
      }
    }
  }

  /** The same for the whole script. */
  lemma SignalEndsTheRun(c: Choices, answers: seq<Reply>, p: nat, q: nat)
    requires p < |answers| && answers[p].signal && p < q < |Script(c, answers)|
    ensures q <= p + 3 && Script(c, answers)[q] == ABORT
  {
    SignalStops(c, 0, AT_START, answers, p, q);
  }

  /** A signal during the transfer, or while the target ends it: at most one message follows the fileset task, an abort. */
  lemma InterruptedTransfer(c: Choices, answers: seq<Reply>, p: nat, q: nat)
    requires c.mode == Install && p < q < |Script(c, answers)| && Script(c, answers)[p].task == LoadFileset
    requires c.interrupted || (p < |answers| && answers[p].signal)
    ensures q == p + 1 && Script(c, answers)[q] == ABORT
  {
    var j := PlaceOf(c, answers, p);
    OneSlot(j);
    ScriptAt(c, answers, j, q);
    FilesetLast(c, j, Arrive(c, answers, j).value.s, answers[p..]);
  }

  lemma FilesetLast(c: Choices, j: nat, s: Stance, answers: seq<Reply>)
    requires c.mode == Install && j == LOAD_FILESET && (c.interrupted || (answers != [] && answers[0].signal))
    ensures var w := Walk(c, j, s, answers); |w| <= 2 && (|w| == 2 ==> w[1] == ABORT)
  {
    assert Slots(Install)[j] == LoadFileset;
    if answers != [] {
      EndingReaction(c, j, s, answers[0]);
    }
  }

  lemma EndingReaction(c: Choices, j: nat, s: Stance, r: Reply)
    requires c.mode == Install && j == LOAD_FILESET && (c.interrupted || r.signal)
    ensures Hear(c, j, s, r).Halt? && Hear(c, j, s, r).aborts <= 1
  {
  }
}
