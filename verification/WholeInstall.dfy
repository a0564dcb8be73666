/**
 The conversation and the transfer together: what make_live says about the bytes that were sent before it, and about those
 that the target has read.
 */
module WholeInstall {
  import opened Wrappers
  import opened TaskProtocol
  import Fileset
  import FilesetFrames
  import FilesetSender
  import Payload
  import TargetScript

  /** A package, and what happens on the wire while its fileset is sent, down to the block of padding that is refused. */
  datatype Package = Package(
    defs: seq<Fileset.Def>, members: seq<Fileset.Member>, wire: seq<int>, ustar: bool, installVolatile: bool,
    signal: Option<nat>, refused: Option<nat>)

  /** The size attribute of the fileset is the sum of its files, its headers are of a modest size, its members differ. */
  ghost predicate Proper(p: Package)
  {
    && |p.wire| == |p.defs|
    && Fileset.DistinctMembers(p.defs, p.members)
    && Payload.ModestMembers(p.members) && Payload.ModestWire(p.wire)
    && Payload.Reasonable(Payload.FileBytes(p.defs, |p.defs|), |p.defs|)
  }

  /** The size of what is to be sent, as the host works it out before the transfer. */
  function Announced(p: Package): nat
  {
    FilesetSender.DeliverySize(Payload.FileBytes(p.defs, |p.defs|), |p.defs|)
  }

  ghost function Sending(p: Package): FilesetSender.Outcome
    requires Proper(p)
  {
    FilesetSender.Transfer(p.defs, p.members, p.wire, p.ustar, p.installVolatile, p.signal, p.refused, Announced(p))
  }

  /** The bytes that go out, with the padding. */
  ghost function Bytes(p: Package): nat
    requires Proper(p)
  {
    Fileset.Total(Sending(p).sent) + Sending(p).padding
  }

  /** What the host goes by after the transfer is what became of it, and what the target waits for is what it was told. */
  ghost predicate Carries(c: Choices, p: Package)
    requires Proper(p)
  {
    && c.storage == Sending(p).rc && c.bytes == Bytes(p) && c.told == Payload.Told(Announced(p))
    && (c.interrupted <==> Raised(p.signal, |p.members|))
  }

  /** What is left for the padding. */
  ghost function Remaining(p: Package): int
    requires Proper(p)
  {
    Announced(p) - Fileset.Total(Sending(p).sent)
  }

  /** A signal that no look sees makes no difference. */
  lemma {:induction false} UnseenSignal(p: Package, s: Fileset.Progress, i: nat)
    requires s.cursor <= |p.defs| && i <= |p.members| && !Raised(p.signal, |p.members|)
    ensures Fileset.StorageLoop(p.defs, s, p.members, i, p.installVolatile, p.signal) ==
            Fileset.StorageLoop(p.defs, s, p.members, i, p.installVolatile, None)
    decreases |p.members| - i
  {
    if i == |p.members| {
    } else {
      var t := Fileset.StorageTurn(p.defs, s, p.members[i], p.installVolatile);
      if t.Go? {
        UnseenSignal(p, t.p, i + 1);
      }
    }
  }

  /** make_live comes after the transfer, and only if it returned 0 and saw no signal. */
  lemma LivePayload(c: Choices, answers: seq<Reply>, q: nat)
    requires c.mode == Install && q < |Script(c, answers)| && Script(c, answers)[q].task == MakeLive
    ensures Transferred(c) && PayloadOf(c, Script(c, answers)) == c.bytes
  {
    MakeLiveLast(c, answers, q);
    assert Script(c, answers)[q - 3].task == LoadFileset;
  }

  /** A storage section that stops early never returns 0. */
  lemma StoppedIsAnError(p: Package)
    requires Proper(p) && Sending(p).rc == 0
    ensures Fileset.StorageLoop(p.defs, Fileset.START, p.members, 0, p.installVolatile, p.signal).Go?
  {
    StopCode(p, Fileset.START, 0);
  }

  lemma {:induction false} StopCode(p: Package, s: Fileset.Progress, i: nat)
    requires s.cursor <= |p.defs| && i <= |p.members|
    ensures var t := Fileset.StorageLoop(p.defs, s, p.members, i, p.installVolatile, p.signal); t.Stop? ==> t.rc < 0
    decreases |p.members| - i
  {
    if i == |p.members| || Raised(p.signal, i) {
    } else {
      var t := Fileset.StorageTurn(p.defs, s, p.members[i], p.installVolatile);
      if t.Go? {
        StopCode(p, t.p, i + 1);
      }
    }
  }

  /** A return value of 0 means that the padding is what was left, up to a multiple of 2^32. */
  lemma GoodEnding(written: nat, payload: nat, refused: Option<nat>)
    requires written < payload && FilesetSender.Ending(written, payload, refused).0 == 0
    ensures var left := payload - written;
            && (left - FilesetSender.Ending(written, payload, refused).1) % FilesetSender.MODULUS32 == 0
            && (left < 0x8000_0000 ==> FilesetSender.Ending(written, payload, refused).1 == left)
            && FilesetSender.Ending(written, payload, refused).1 <= left
  {
  }

  /** A transfer that returned 0 left nothing out, up to a multiple of 2^32 bytes. */
  lemma GoodTransfer(p: Package)
    requires Proper(p) && Sending(p).rc == 0
    ensures (Announced(p) - Bytes(p)) % FilesetSender.MODULUS32 == 0 && Bytes(p) <= Announced(p) < FilesetSender.MODULUS64
    ensures Bytes(p) == Announced(p) <==> Remaining(p) < 0x8000_0000
    ensures Remaining(p) <= Announced(p) && Announced(p) % 512 == 0
  {
    StoppedIsAnError(p);
    Payload.ByteExact(p.defs, p.members, p.wire, p.ustar, p.installVolatile, p.signal, p.refused,
                      Payload.FileBytes(p.defs, |p.defs|));
    Payload.AnnouncedSize(Payload.FileBytes(p.defs, |p.defs|), |p.defs|);
    GoodEnding(Fileset.Total(Sending(p).sent), Announced(p), p.refused);
  }

  /**
   If make_live is sent, the bytes before it are the announced ones up to a multiple of 2^32, and exactly those if and
   only if less than 2^31 bytes were left for the padding.
   */
  lemma LiveMeansTransferred(c: Choices, p: Package, answers: seq<Reply>, q: nat)
    requires Proper(p) && c.mode == Install && Carries(c, p)
    requires q < |Script(c, answers)| && Script(c, answers)[q].task == MakeLive
    ensures var sent := PayloadOf(c, Script(c, answers));
            && (Announced(p) - sent) % FilesetSender.MODULUS32 == 0
            && (sent == Announced(p) <==> Remaining(p) < 0x8000_0000)
            && (Announced(p) < 0x8000_0000 ==> sent == Announced(p))
  {
    LivePayload(c, answers, q);
    GoodTransfer(p);
  }

  /**
   With a complete archive, make_live means that every regular file and as many bytes as announced were sent; the target was
   told that number if and only if it is less than 2^40.
   */
  lemma LiveMeansWhole(c: Choices, p: Package, answers: seq<Reply>, q: nat, k: nat)
    requires Proper(p) && c.mode == Install && Carries(c, p)
    requires Fileset.DistinctPaths(p.defs) && Payload.ArchiveComplete(p.defs, p.members, p.installVolatile)
    requires Payload.Reasonable(Payload.FileBytes(p.defs, |p.defs|), |p.defs| + 3)
    requires q < |Script(c, answers)| && Script(c, answers)[q].task == MakeLive
    requires k < |p.defs| && p.defs[k].kind == 'f' && !p.defs[k].control
    ensures PayloadOf(c, Script(c, answers)) == Announced(p)
    ensures c.told == Announced(p) <==> Announced(p) < 0x100_0000_0000
    ensures Fileset.SentFor(Sending(p).sent, k) == 1
  {
    LivePayload(c, answers, q);
    GoodTransfer(p);
    Payload.ToldIff(Announced(p));
    WholeUnlessSignalled(p, k);
  }

  /** A complete archive and no signal leave little for the padding. */
  lemma WholeUnlessSignalled(p: Package, k: nat)
    requires Proper(p) && Sending(p).rc == 0 && !Raised(p.signal, |p.members|)
    requires Fileset.DistinctPaths(p.defs) && Payload.ArchiveComplete(p.defs, p.members, p.installVolatile)
    requires Payload.Reasonable(Payload.FileBytes(p.defs, |p.defs|), |p.defs| + 3)
    requires k < |p.defs| && p.defs[k].kind == 'f' && !p.defs[k].control
    ensures Remaining(p) < 0x8000_0000 && Fileset.SentFor(Sending(p).sent, k) == 1
  {
    UnseenSignal(p, Fileset.START, 0);
    StoppedIsAnError(p);
    Payload.SlackFits(p.defs, p.members, p.wire, p.ustar, p.installVolatile, p.refused,
                      Payload.FileBytes(p.defs, |p.defs|));
    Payload.CompleteArchiveIsSent(p.defs, p.members, p.wire, p.ustar, p.installVolatile, p.refused, Announced(p));
  }

  /**
   However much of the archive was missing: once make_live has run on the target, the host has put all announced bytes on the
   channel if these are less than 2^40.  In any case the target was not told more than it got, so the count of blocks was
   not made negative by its conversion to an int.
   */
  lemma LiveOnTargetIsWhole(c: Choices, p: Package, noLockAllowed: bool, ws: seq<TargetScript.World>, i: nat)
    requires Proper(p) && c.mode == Install && Carries(c, p)
    requires TargetScript.IsRun(c, noLockAllowed, ws) && i < |ws| && |ws[i].target.ran| > MAKE_LIVE
    ensures Payload.Told(Announced(p)) <= ws[i].put <= Bytes(p) <= Announced(p)
    ensures Announced(p) < 0x100_0000_0000 ==> ws[i].put == Bytes(p) == Announced(p)
    ensures FilesetSender.Wrap32(Announced(p) / 512) >= 0
  {
    TargetScript.LiveOnTarget(c, noLockAllowed, ws, i);
    GoodTransfer(p);
    Payload.ToldIff(Announced(p));
    if FilesetSender.Wrap32(Announced(p) / 512) < 0 {
      Payload.ToldTooMuch(Announced(p));
    }
  }

  /** No member of the archive that has a definition was sent unless this was readable, and no file that is not as announced. */
  ghost predicate Verified(p: Package)
  {
    forall j :: 0 <= j < |p.members| && Fileset.Names(p.defs, p.members[j]) ==>
      var d := p.defs[Fileset.FirstFrom(p.defs, 0, p.members[j].path)];
      && d.attributesOk
      && (!Fileset.Skipped(d, p.installVolatile) ==>
            && (d.kind == 'f' ==> p.members[j].copied && p.members[j].digestOk)
            && (Fileset.IsLink(d) ==> d.hasLinkSource))
  }

  lemma GoodTransferIsVerified(p: Package)
    requires Proper(p) && Fileset.DistinctPaths(p.defs) && Sending(p).rc == 0 && !Raised(p.signal, |p.members|)
    ensures Verified(p)
  {
    forall j | 0 <= j < |p.members| ensures FilesetFrames.Fit(p.defs, p.members[j], p.installVolatile) {
      FilesetFrames.GoodTransferFits(p.defs, p.members, p.wire, p.ustar, p.installVolatile, p.signal, p.refused,
                                     Announced(p), j);
    }
  }

  /** make_live means that every file of the archive was copied whole and agreed with its digest. */
  lemma LiveMeansVerified(c: Choices, p: Package, answers: seq<Reply>, q: nat)
    requires Proper(p) && Fileset.DistinctPaths(p.defs) && c.mode == Install && Carries(c, p)
    requires q < |Script(c, answers)| && Script(c, answers)[q].task == MakeLive
    ensures Verified(p)
  {
    LivePayload(c, answers, q);
    GoodTransferIsVerified(p);
  }

  /** And so does make_live on the target, whatever the host heard. */
  lemma LiveOnTargetIsVerified(c: Choices, p: Package, noLockAllowed: bool, ws: seq<TargetScript.World>, i: nat)
    requires Proper(p) && Fileset.DistinctPaths(p.defs) && c.mode == Install && Carries(c, p)
    requires TargetScript.IsRun(c, noLockAllowed, ws) && i < |ws| && |ws[i].target.ran| > MAKE_LIVE
    ensures Verified(p)
  {
    TargetScript.LiveOnTarget(c, noLockAllowed, ws, i);
    GoodTransferIsVerified(p);
  }
}
