/** When the host's messages and the target's slots go together: complete runs, and the exact condition for lockstep. */
module Lockstep {
  import opened Wrappers
  import opened TaskProtocol

  // ------------------------------------------------------------ complete runs

  /** Nothing stands in the way of an install, as far as the host can tell before it touches the target. */
  predicate Admitted(c: Choices)
  {
    && c.locatable && c.listingData && c.analyzed && c.downdateOk && c.reinstallOk && c.singleOk && c.selected
    && (c.displaced ==> c.entryData) && c.overwriteData && (c.conflicts ==> c.displaced)
    && c.requisitesOk && c.instanceOk && c.pathOk && c.compatibility.Compatible?
  }

  /** Every check and every step of the host goes well; signals are another matter. */
  predicate AllWell(c: Choices)
  {
    match c.mode
    case Install =>
      Admitted(c) && Scanned(c).rc >= 0 && !Vetoed(c) && Recognized(c.checkStatus) && c.clearToSend && c.storage == 0
    case Preview =>
      c.analyzed && (c.displaced ==> c.entryData) && c.compatibility.Compatible? && Scanned(c).rc >= 0 && c.storage >= 0
    case ToStdout => Scanned(c).rc >= 0 && c.storage >= 0
  }

  /** The status of a task that the host can live with. */
  predicate Takes(c: Choices, task: Task, r: int)
  {
    match task
    case DoNothing => true
    case IscsEntry => true
    case RemoveEntry => true
    case CheckStatus => true
    case RestoreEntry => true
    case CatalogPerms => c.mode != Install || r == 0
    case IscsListing => c.mode != Install || r == 0
    case CheckOverwrite => c.mode != Install || r == 0
    case LockedSession => r == 0 || (r > 0 && c.forceLocks)
    case Analysis002 => r >= 0
    case _ => r == 0
  }

  /** Answers, from slot `i` on, that the host can live with. */
  predicate Willing(c: Choices, i: nat, answers: seq<Reply>)
  {
    forall j :: 0 <= j < |answers| && i + j < |Slots(c.mode)| ==>
      Takes(c, Slots(c.mode)[i + j], answers[j].status) && !answers[j].signal
  }

  lemma WillingStep(c: Choices, i: nat, answers: seq<Reply>)
    requires Willing(c, i, answers) && answers != [] && i < |Slots(c.mode)|
    ensures Takes(c, Slots(c.mode)[i], answers[0].status) && !answers[0].signal && Willing(c, i + 1, answers[1..])
  {
    assert Slots(c.mode)[i + 0] == Slots(c.mode)[i];
    forall j | 0 <= j < |answers[1..]| && i + 1 + j < |Slots(c.mode)|
      ensures Takes(c, Slots(c.mode)[i + 1 + j], answers[1..][j].status) && !answers[1..][j].signal
    {
      assert answers[1..][j] == answers[j + 1] && Slots(c.mode)[i + (j + 1)] == Slots(c.mode)[i + 1 + j];
    }
  }

  /** No signal comes but with an answer. */
  predicate Undisturbed(c: Choices)
  {
    !c.early && !Scanned(c).cut && !c.interrupted
  }

  predicate Calm(s: Stance)
  {
    !s.veto && !s.failed
  }

  lemma WellReaction(c: Choices, i: nat, s: Stance, r: Reply)
    requires AllWell(c) && Calm(s) && i < |Slots(c.mode)| && Takes(c, Slots(c.mode)[i], r.status) && !r.signal
    requires Undisturbed(c)
    ensures Hear(c, i, s, r).On? && Calm(Hear(c, i, s, r).s)
    ensures Enter(c, Slots(c.mode)[i], s).Send? || Enter(c, Slots(c.mode)[i], s).PassOver?
  {
  }

  lemma {:induction false} WalkComplete(c: Choices, i: nat, s: Stance, answers: seq<Reply>)
    requires AllWell(c) && Undisturbed(c) && InStep(c) && Calm(s) && i < |Slots(c.mode)|
    requires Willing(c, i, answers) && |answers| + 1 >= |Slots(c.mode)| - i
    ensures var w := Walk(c, i, s, answers); |w| == |Slots(c.mode)| - i && Filled(Slots(c.mode), i, w, |w|)
    decreases |Slots(c.mode)| - i
  {
    var slots := Slots(c.mode);
    NoPassOver(c, i, s);
    WellEntry(c, i, s);
    var m := Message(slots[i], Enter(c, slots[i], s).body);
    if answers == [] {
      FilledCons(slots, i, m, [], 0);
      assert Walk(c, i, s, answers) == [m] + [];
    } else {
      WillingStep(c, i, answers);
      WellReaction(c, i, s, answers[0]);
      AnsweredSlot(c, i, s, answers);
      var s' := Hear(c, i, s, answers[0]).s;
      var rest := Walk(c, i + 1, s', answers[1..]);
      if i + 1 < |slots| {
        WalkComplete(c, i + 1, s', answers[1..]);
      }
      FilledCons(slots, i, m, rest, |rest|);
    }
  }

  lemma WellEntry(c: Choices, i: nat, s: Stance)
    requires AllWell(c) && Undisturbed(c) && i < |Slots(c.mode)|
    ensures Enter(c, Slots(c.mode)[i], s).Send? || Enter(c, Slots(c.mode)[i], s).PassOver?
  {
  }

  /** If all goes well and no signal comes, every slot gets its message. */
  lemma CompleteRun(c: Choices, answers: seq<Reply>)
    requires AllWell(c) && Undisturbed(c) && InStep(c) && Willing(c, 0, answers) && |answers| + 1 >= |Slots(c.mode)|
    ensures var m := Script(c, answers);
            |m| == |Slots(c.mode)| && forall j :: 0 <= j < |m| ==> m[j].task == Slots(c.mode)[j]
  {
    WalkComplete(c, 0, AT_START, answers);
    var m := Script(c, answers);
    forall j | 0 <= j < |m| ensures m[j].task == Slots(c.mode)[j] {
      assert m[j].task == Slots(c.mode)[0 + j];
    }
  }

  // ------------------------------------------------------------ the exact condition

  /** A slot that the host will pass over lies at `i` or later. */
  predicate PassesOver(c: Choices, i: nat)
  {
    c.mode == Install &&
    ((i <= 7 && c.displaced && !c.namesOk) ||
     (!Scanned(c).cut && ((i <= 11 && Scanned(c).catalog.None?) || (i <= 12 && Scanned(c).signatures.None?))))
  }

  lemma {:induction false} SignaturesComeSecond(a: Archive, i: nat, s: Scan)
    requires i <= |a.members| && (s.signatures.Some? ==> s.catalog.Some?)
    ensures ScanFrom(a, i, s).signatures.Some? ==> ScanFrom(a, i, s).catalog.Some?
    decreases |a.members| - i
  {
    if Broken(a, i) || Raised(a.signal, i) || i == |a.members| {
    } else {
      var m := a.members[i];
      if !m.readable {
      } else if IsIndexMember(m, s) {
        SignaturesComeSecond(a, i + 1, s.(catalog := Some(i + 1)));
      } else if IsSignatureMember(m, s, a.isSigned) {
        SignaturesComeSecond(a, i + 1, s.(signatures := Some(i + 1)));
      } else if m.isCatalog || !m.isStorage {
        SignaturesComeSecond(a, i + 1, s);
      }
    }
  }

  lemma FillsTail(slots: seq<Task>, i: nat, m: Message, rest: seq<Message>)
    requires i < |slots| && m.task == slots[i] && m.task != IntentionalAbort && Fills(slots, i, [m] + rest)
    ensures Fills(slots, i + 1, rest)
  {
    var all := [m] + rest;
    var k: nat :| Filled(slots, i, all, k);
    assert all[0] == m && m != ABORT;
    assert k > 0;
    forall j | 0 <= j < k - 1 ensures rest[j].task == slots[i + 1 + j] {
      assert all[j + 1].task == slots[i + (j + 1)] && rest[j] == all[j + 1];
    }
    forall j | k - 1 <= j < |rest| ensures rest[j] == ABORT {
      assert rest[j] == all[j + 1];
    }
    assert Filled(slots, i + 1, rest, k - 1);
  }

  lemma WrongHead(slots: seq<Task>, i: nat, m: seq<Message>)
    requires i < |slots| && m != [] && m[0].task != slots[i] && m[0] != ABORT
    ensures !Fills(slots, i, m)
  {
    forall k: nat ensures !Filled(slots, i, m, k) {
      if k > 0 {
        assert slots[i + 0] != m[0].task;
      }
    }
  }

  /** The slots that may be passed over. */
  lemma PassableSlots(c: Choices, i: nat, s: Stance)
    requires c.mode == Install && i < 24 && Enter(c, Slots(Install)[i], s).PassOver?
    ensures i == 7 || i == 11 || i == 12
  {
    assert Slots(Install)[i] == TaskAt(Install, i);
  }

  lemma UnpackHead(c: Choices, s: Stance, answers: seq<Reply>)
    requires AllWell(c) && c.mode == Install && !Scanned(c).cut
    ensures var w := Walk(c, 13, s, answers); w != [] && w[0].task == CatalogUnpack
  {
  }

  lemma NoSignaturesHead(c: Choices, s: Stance, answers: seq<Reply>)
    requires AllWell(c) && c.mode == Install && Scanned(c).signatures.None? && !Scanned(c).cut
    ensures var w := Walk(c, 12, s, answers); w != [] && w[0].task == CatalogUnpack
  {
    var s' := Passed(s, LoadSignatures);
    UnpackHead(c, s', answers);
    assert Walk(c, 12, s, answers) == Walk(c, 13, s', answers);
  }

  /** Passing over a slot puts the next message into it. */
  lemma PassedOverHead(c: Choices, i: nat, s: Stance, answers: seq<Reply>)
    requires AllWell(c) && c.mode == Install && i < 24 && Enter(c, Slots(Install)[i], s).PassOver?
    ensures var w := Walk(c, i, s, answers); w != [] && w[0].task != Slots(Install)[i] && w[0] != ABORT
  {
    PassableSlots(c, i, s);
    if i == 12 {
      NoSignaturesHead(c, s, answers);
    } else if i == 11 {
      SignaturesComeSecond(c.archive, 0, NOTHING_SEEN);
      NoSignaturesHead(c, s, answers);
      assert Walk(c, 11, s, answers) == Walk(c, 12, s, answers);
    }
  }

  /** A host that will pass over a slot gets there without striking. */
  lemma StillSends(c: Choices, i: nat, s: Stance)
    requires AllWell(c) && PassesOver(c, i) && Calm(s) && i < 24 && !Enter(c, Slots(Install)[i], s).PassOver?
    ensures i < 12 && Enter(c, Slots(Install)[i], s).Send? && PassesOver(c, i + 1)
    ensures var r := Hear(c, i, s, GOOD); r.On? && Calm(r.s)
  {
  }

  lemma {:induction false} FallsOutOfStep(c: Choices, i: nat, s: Stance, answers: seq<Reply>)
    requires AllWell(c) && PassesOver(c, i) && Calm(s)
    requires |answers| >= 24 - i && forall k :: 0 <= k < |answers| ==> answers[k] == GOOD
    ensures !Fills(Slots(c.mode), i, Walk(c, i, s, answers))
    decreases 24 - i
  {
    var slots := Slots(c.mode);
    if Enter(c, slots[i], s).PassOver? {
      PassedOverHead(c, i, s, answers);
      WrongHead(slots, i, Walk(c, i, s, answers));
    } else {
      StillSends(c, i, s);
      var s' := Hear(c, i, s, GOOD).s;
      FallsOutOfStep(c, i + 1, s', answers[1..]);
      var m := Message(slots[i], Enter(c, slots[i], s).body);
      if Fills(slots, i, Walk(c, i, s, answers)) {
        assert slots[i] in slots;
        NoAbortSlot(c.mode);
        FillsTail(slots, i, m, Walk(c, i + 1, s', answers[1..]));
      }
    }
  }

  /**
   For a host whose checks pass, the messages fill the slots in order whatever the target answers and whenever signals come,
   if and only if an install has names that can be used for a replaced entry, and its archive shows the loop both catalog
   members in time or a signal comes first; or a signal comes before everything.
   */
  lemma LockstepIff(c: Choices)
    requires AllWell(c)
    ensures c.early || InStep(c) <==> forall answers :: Fills(Slots(c.mode), 0, Script(c, answers))
  {
    if c.early {
      assert Filled(Slots(c.mode), 0, Aborts(1), 0);
    } else if InStep(c) {
      forall answers ensures Fills(Slots(c.mode), 0, Script(c, answers)) {
        WalkFills(c, 0, AT_START, answers);
      }
    } else {
      var zeros := seq(24, i => GOOD);
      FallsOutOfStep(c, 0, AT_START, zeros);
      assert !Fills(Slots(c.mode), 0, Script(c, zeros));
    }
  }

  // ------------------------------------------------------------ the host never takes a message back

  /** Hearing more only adds messages. */
  lemma {:induction false} Grows(c: Choices, i: nat, s: Stance, answers: seq<Reply>, r: Reply)
    ensures Walk(c, i, s, answers) <= Walk(c, i, s, answers + [r])
    ensures |Walk(c, i, s, answers)| < |answers| ==> Walk(c, i, s, answers) == Walk(c, i, s, answers + [r])
    decreases |Slots(c.mode)| - i
  {
    if i >= |Slots(c.mode)| {
    } else {
      var task := Slots(c.mode)[i];
      match Enter(c, task, s) {
        case Quit =>
        case Strike =>
        case PassOver => Grows(c, i + 1, Passed(s, task), answers, r);
        case Send(body) =>
          if answers != [] {
            assert (answers + [r])[0] == answers[0] && (answers + [r])[1..] == answers[1..] + [r];
            match Hear(c, i, s, answers[0]) {
              case Halt(k) =>
              case On(s') => Grows(c, i + 1, s', answers[1..], r);
            }
          }
      }
    }
  }

  /** The same for the whole script. */
  lemma ScriptGrows(c: Choices, answers: seq<Reply>, r: Reply)
    ensures Script(c, answers) <= Script(c, answers + [r])
  {
    Grows(c, 0, AT_START, answers, r);
  }
}
