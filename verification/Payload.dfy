/** The byte budget of the fileset: what is announced is what is sent. */
module Payload {
  import opened Wrappers
  import opened Fileset
  import opened FilesetSender

  const MAX_HEADER := 1536

  /** The data that goes with the frame of a definition. */
  function DataOf(d: Def): nat
  {
    if d.kind == 'f' then WholeBlock(d.size) else 0
  }

  /** The sum of the sizes of the first `n` definitions that are regular files. */
  function FileBytes(defs: seq<Def>, n: nat): nat
    requires n <= |defs|
  {
    if n == 0 then 0
    else FileBytes(defs, n - 1) + if defs[n - 1].kind == 'f' && !defs[n - 1].control then defs[n - 1].size else 0
  }

  /** Every header is a few whole blocks, and every frame has the data of its definition. */
  ghost predicate Modest(defs: seq<Def>, frames: seq<Frame>)
  {
    forall i :: 0 <= i < |frames| ==>
      var f := frames[i];
      f.def < |defs| && f.header <= MAX_HEADER && f.header % 512 == 0 && f.data == DataOf(defs[f.def])
  }

  ghost predicate ModestMembers(members: seq<Member>)
  {
    forall i :: 0 <= i < |members| && members[i].header >= 0 ==>
      members[i].header <= MAX_HEADER && members[i].header % 512 == 0
  }

  ghost predicate ModestWire(wire: seq<int>)
  {
    forall i :: 0 <= i < |wire| && wire[i] >= 0 ==> wire[i] <= MAX_HEADER && wire[i] % 512 == 0
  }

  lemma ModestSnoc(defs: seq<Def>, frames: seq<Frame>, f: Frame)
    requires Modest(defs, frames)
    requires f.def < |defs| && f.header <= MAX_HEADER && f.header % 512 == 0 && f.data == DataOf(defs[f.def])
    ensures Modest(defs, frames + [f])
  {
  }

  lemma TurnModest(defs: seq<Def>, p: Progress, m: Member, installVolatile: bool)
    requires p.cursor <= |defs| && Modest(defs, p.frames)
    requires m.header >= 0 ==> m.header <= MAX_HEADER && m.header % 512 == 0
    ensures var t := StorageTurn(defs, p, m, installVolatile); t.Go? ==> Modest(defs, t.p.frames)
  {
    var k := Sought(defs, p, m);
    if !m.nameEmpty && k < |defs| && m.header >= 0 {
      ModestSnoc(defs, p.frames, Frame(k, m.header, DataOf(defs[k])));
    }
  }

  lemma {:induction false} LoopModest(defs: seq<Def>, p: Progress, members: seq<Member>, i: nat,
                                      installVolatile: bool, signal: Option<nat>)
    requires p.cursor <= |defs| && i <= |members| && Modest(defs, p.frames) && ModestMembers(members)
    ensures var t := StorageLoop(defs, p, members, i, installVolatile, signal); t.Go? ==> Modest(defs, t.p.frames)
    decreases |members| - i
  {
    if i == |members| || Raised(signal, i) {
    } else {
      TurnModest(defs, p, members[i], installVolatile);
      var t := StorageTurn(defs, p, members[i], installVolatile);
      if t.Go? {
        LoopModest(defs, t.p, members, i + 1, installVolatile, signal);
      }
    }
  }

  lemma {:induction false} RestModest(defs: seq<Def>, flags: set<nat>, wire: seq<int>, ustar: bool,
                                      r: RestResult, i: nat)
    requires |wire| == |defs| && i <= |defs| && Modest(defs, r.frames) && ModestWire(wire)
    ensures Modest(defs, Rest(defs, flags, wire, ustar, r, i).frames)
    decreases |defs| - i
  {
    if i == |defs| {
    } else {
      var d := defs[i];
      if d.control || i in flags {
        RestModest(defs, flags, wire, ustar, r, i + 1);
      } else if d.attributesOk {
        if d.kind == 'f' {
          RestModest(defs, flags, wire, ustar, r.(status := 1), i + 1);
        } else if !Sendable(d) {
          RestModest(defs, flags, wire, ustar, r, i + 1);
        } else if wire[i] >= 0 {
          ModestSnoc(defs, r.frames, Frame(i, wire[i], 0));
          RestModest(defs, flags, wire, ustar, r.(frames := r.frames + [Frame(i, wire[i], 0)]), i + 1);
        }
      }
    }
  }

  // ------------------------------------------------------------ adding up by definition

  /** The bytes sent for definition `k`. */
  function Mass(frames: seq<Frame>, k: nat): nat
  {
    if frames == [] then 0
    else
      var f := frames[|frames| - 1];
      Mass(frames[..|frames| - 1], k) + if f.def == k then f.header + f.data else 0
  }

  function MassTo(frames: seq<Frame>, n: nat): nat
  {
    if n == 0 then 0 else MassTo(frames, n - 1) + Mass(frames, n - 1)
  }

  lemma {:induction false} MassToStep(frames: seq<Frame>, n: nat)
    requires frames != []
    ensures var f := frames[|frames| - 1];
            MassTo(frames, n) == MassTo(frames[..|frames| - 1], n) + if f.def < n then f.header + f.data else 0
  {
    if n == 0 {
    } else {
      MassToStep(frames, n - 1);
    }
  }

  lemma {:induction false} NoMass(n: nat)
    ensures MassTo([], n) == 0
  {
    if n == 0 {
    } else {
      NoMass(n - 1);
    }
  }

  lemma {:induction false} MassIsTotal(defs: seq<Def>, frames: seq<Frame>)
    requires Modest(defs, frames)
    ensures MassTo(frames, |defs|) == Total(frames)
  {
    if frames == [] {
      NoMass(|defs|);
    } else {
      MassToStep(frames, |defs|);
      MassIsTotal(defs, frames[..|frames| - 1]);
    }
  }

  lemma {:induction false} MassOfOne(defs: seq<Def>, frames: seq<Frame>, k: nat)
    requires Modest(defs, frames) && k < |defs| && SentFor(frames, k) <= 1
    ensures SentFor(frames, k) == 0 ==> Mass(frames, k) == 0
    ensures SentFor(frames, k) == 1 ==> DataOf(defs[k]) <= Mass(frames, k) <= DataOf(defs[k]) + MAX_HEADER
  {
    if frames == [] {
    } else {
      MassOfOne(defs, frames[..|frames| - 1], k);
    }
  }

  /** At most one frame for each definition, and none for control files. */
  ghost predicate AtMostOnce(defs: seq<Def>, frames: seq<Frame>)
  {
    forall k: nat :: k < |defs| ==> SentFor(frames, k) <= if defs[k].control then 0 else 1
  }

  lemma {:induction false} MassBound(defs: seq<Def>, frames: seq<Frame>, n: nat)
    requires Modest(defs, frames) && AtMostOnce(defs, frames) && n <= |defs|
    ensures MassTo(frames, n) <= FileBytes(defs, n) + n * 2047
  {
    if n == 0 {
    } else {
      MassBound(defs, frames, n - 1);
      MassOfOne(defs, frames, n - 1);
    }
  }

  ghost predicate AllFilesSent(defs: seq<Def>, frames: seq<Frame>)
  {
    forall k: nat :: k < |defs| && !defs[k].control && defs[k].kind == 'f' ==> SentFor(frames, k) == 1
  }

  lemma {:induction false} MassAtLeast(defs: seq<Def>, frames: seq<Frame>, n: nat)
    requires Modest(defs, frames) && AtMostOnce(defs, frames) && AllFilesSent(defs, frames) && n <= |defs|
    ensures FileBytes(defs, n) <= MassTo(frames, n)
  {
    if n == 0 {
    } else {
      MassAtLeast(defs, frames, n - 1);
      MassOfOne(defs, frames, n - 1);
    }
  }

  lemma {:induction false} WholeBlocks(defs: seq<Def>, frames: seq<Frame>)
    requires Modest(defs, frames)
    ensures Total(frames) % 512 == 0
  {
    if frames == [] {
    } else {
      WholeBlocks(defs, frames[..|frames| - 1]);
    }
  }

  // ------------------------------------------------------------ the announced size

  /** With an index of fewer than 2^20 definitions and no 64-bit overflow, the size is what was meant. */
  predicate Reasonable(size: nat, count: nat)
  {
    count < 0x10_0000 && size + count * 2048 + 5120 + 512 <= MODULUS64
  }

  /** The int product of the count and 2048 is the product itself below 2^20, and at least 2^32 less from there on. */
  lemma WrappedProduct(count: nat)
    requires count < 0x8000_0000
    ensures count < 0x10_0000 ==> Wrap32(count * 2048) == count * 2048
    ensures count >= 0x10_0000 ==> MODULUS32 <= count * 2048 - Wrap32(count * 2048) <= count * 2048 + MODULUS32 / 2
  {
  }

  lemma SizeAsMeant(meant: nat)
    requires meant + 512 <= MODULUS64
    ensures U64(WholeBlock(U64(meant))) == WholeBlock(meant)
  {
    assert U64(meant) == meant;
    assert WholeBlock(meant) < MODULUS64;
  }

  /** A sum that lost at least 2^32 bytes to the wrap-around is not rounded to the sum that was meant. */
  lemma OtherSizes(meant: nat, lost: nat)
    requires meant + 512 <= MODULUS64 && MODULUS32 <= lost <= meant + MODULUS32 / 2 && 5120 <= meant
    requires lost > meant ==> meant < 0x800_0000_0000
    ensures U64(WholeBlock(U64(meant - lost))) != WholeBlock(meant)
  {
    var u := U64(meant - lost);
    if lost <= meant {
      assert u == meant - lost;
    } else {
      assert u == MODULUS64 + meant - lost;
      assert WholeBlock(u) <= MODULUS64;
    }
  }

  /** The announced size is the rounded sum that was meant if and only if there are fewer than 2^20 definitions. */
  lemma DeliverySizeIff(size: nat, count: nat)
    requires count < 0x8000_0000 && size + count * 2048 + 5120 + 512 <= MODULUS64
    ensures DeliverySize(size, count) == WholeBlock(size + count * 2048 + 5120) <==> count < 0x10_0000
  {
    WrappedProduct(count);
    var meant, lost := size + count * 2048 + 5120, count * 2048 - Wrap32(count * 2048);
    if count < 0x10_0000 {
      SizeAsMeant(meant);
    } else {
      assert size + Wrap32(count * 2048) + 10 * 512 == meant - lost;
      OtherSizes(meant, lost);
    }
  }

  lemma AnnouncedSize(size: nat, count: nat)
    requires Reasonable(size, count)
    ensures var r := DeliverySize(size, count);
            size + count * 2048 + 5120 <= r < size + count * 2048 + 5120 + 512 && r < MODULUS64 && r % 512 == 0
  {
    DeliverySizeIff(size, count);
  }

  /** However far the transfer gets: what the loops sent is modest, and at most one frame for each definition. */
  lemma SentIsModest(defs: seq<Def>, members: seq<Member>, wire: seq<int>, ustar: bool,
                     installVolatile: bool, signal: Option<nat>, refused: Option<nat>, payload: nat)
    requires |wire| == |defs| && DistinctMembers(defs, members) && ModestMembers(members) && ModestWire(wire)
    requires StorageLoop(defs, START, members, 0, installVolatile, signal).Go?
    ensures var o := Transfer(defs, members, wire, ustar, installVolatile, signal, refused, payload);
            Modest(defs, o.sent) && AtMostOnce(defs, o.sent)
  {
    var p := StorageLoop(defs, START, members, 0, installVolatile, signal).p;
    LoopOnce(defs, START, members, 0, installVolatile, signal);
    LoopModest(defs, START, members, 0, installVolatile, signal);
    RestModest(defs, p.flags, wire, ustar, RestResult(p.frames, 0), 0);
    forall k: nat | k < |defs|
      ensures SentFor(Transfer(defs, members, wire, ustar, installVolatile, signal, refused, payload).sent, k)
              <= if defs[k].control then 0 else 1
    {
      RestOnce(defs, p.flags, wire, ustar, RestResult(p.frames, 0), 0, k);
    }
  }

  /**
   The budget holds: whatever was sent before a signal or an end of the archive, the check for room never fires, and
   what is left is at least ten blocks and a whole number of them.  The padding fills it exactly if and only if it fits
   in an int and none of it is refused; the return value only tells whether its low 32 bits could be padded, so a shortfall
   of 2^32 bytes goes unnoticed.
   */
  lemma ByteExact(defs: seq<Def>, members: seq<Member>, wire: seq<int>, ustar: bool,
                  installVolatile: bool, signal: Option<nat>, refused: Option<nat>, size: nat)
    requires |wire| == |defs| && DistinctMembers(defs, members) && ModestMembers(members) && ModestWire(wire)
    requires StorageLoop(defs, START, members, 0, installVolatile, signal).Go?
    requires size == FileBytes(defs, |defs|) && Reasonable(size, |defs|)
    ensures var payload := DeliverySize(size, |defs|);
            var o := Transfer(defs, members, wire, ustar, installVolatile, signal, refused, payload);
            var left := payload - Total(o.sent);
            && o.rc != -81 && left >= 5120 && left % 512 == 0
            && (Total(o.sent) + o.padding == payload <==> left < 0x8000_0000 && TakesAll(refused, left))
            && (o.rc == 0 <==> left % MODULUS32 < 0x8000_0000 && TakesAll(refused, left % MODULUS32))
  {
    BudgetLeft(defs, members, wire, ustar, installVolatile, signal, refused, size);
    var payload := DeliverySize(size, |defs|);
    EndingMeans(Total(Transfer(defs, members, wire, ustar, installVolatile, signal, refused, payload).sent), payload, refused);
  }

  lemma BudgetLeft(defs: seq<Def>, members: seq<Member>, wire: seq<int>, ustar: bool,
                   installVolatile: bool, signal: Option<nat>, refused: Option<nat>, size: nat)
    requires |wire| == |defs| && DistinctMembers(defs, members) && ModestMembers(members) && ModestWire(wire)
    requires StorageLoop(defs, START, members, 0, installVolatile, signal).Go?
    requires size == FileBytes(defs, |defs|) && Reasonable(size, |defs|)
    ensures var payload := DeliverySize(size, |defs|);
            HasRoom(Total(Transfer(defs, members, wire, ustar, installVolatile, signal, refused, payload).sent), payload)
  {
    var payload := DeliverySize(size, |defs|);
    var o := Transfer(defs, members, wire, ustar, installVolatile, signal, refused, payload);
    AnnouncedSize(size, |defs|);
    SentIsModest(defs, members, wire, ustar, installVolatile, signal, refused, payload);
    MassBound(defs, o.sent, |defs|);
    MassIsTotal(defs, o.sent);
    WholeBlocks(defs, o.sent);
  }

  /** At least ten blocks and a whole number of them are left. */
  predicate HasRoom(written: nat, payload: nat)
  {
    written + 5120 <= payload < MODULUS64 && payload % 512 == 0 && written % 512 == 0
  }

  lemma EndingMeans(written: nat, payload: nat, refused: Option<nat>)
    requires HasRoom(written, payload)
    ensures var (rc, padding) := Ending(written, payload, refused); var left := payload - written;
            && rc != -81 && left % 512 == 0
            && (written + padding == payload <==> left < 0x8000_0000 && TakesAll(refused, left))
            && (rc == 0 <==> left % MODULUS32 < 0x8000_0000 && TakesAll(refused, left % MODULUS32))
  {
    PaddingFits(payload - written, refused);
  }

  /** The channel takes so many bytes of padding. */
  predicate TakesAll(refused: Option<nat>, amount: int)
  {
    refused.Some? ==> refused.value * 512 >= amount
  }

  lemma PaddingFits(left: int, refused: Option<nat>)
    requires left > 0
    ensures Padded(Wrap32(left), refused).1 == left <==> left < 0x8000_0000 && TakesAll(refused, left)
    ensures Padded(Wrap32(left), refused).0 == Wrap32(left) <==>
            left % MODULUS32 < 0x8000_0000 && TakesAll(refused, left % MODULUS32)
  {
  }

  /** As many bytes go out as were announced, on a channel that takes all the padding. */
  ghost predicate Exact(defs: seq<Def>, members: seq<Member>, wire: seq<int>, ustar: bool,
                        installVolatile: bool, signal: Option<nat>, payload: nat)
    requires |wire| == |defs|
  {
    var o := Transfer(defs, members, wire, ustar, installVolatile, signal, None, payload);
    Total(o.sent) + o.padding == payload
  }

  /**
   Whenever the signal comes, what goes out is what was announced: this holds if and only if the announced size fits
   in an int.
   */
  lemma ByteExactIff(defs: seq<Def>, members: seq<Member>, wire: seq<int>, ustar: bool,
                     installVolatile: bool, size: nat)
    requires |wire| == |defs| && DistinctMembers(defs, members) && ModestMembers(members) && ModestWire(wire)
    requires size == FileBytes(defs, |defs|) && Reasonable(size, |defs|)
    ensures (forall signal: Option<nat> ::
               StorageLoop(defs, START, members, 0, installVolatile, signal).Go? ==>
                 Exact(defs, members, wire, ustar, installVolatile, signal, DeliverySize(size, |defs|))) <==>
            DeliverySize(size, |defs|) < 0x8000_0000
  {
    var payload := DeliverySize(size, |defs|);
    if payload < 0x8000_0000 {
      forall signal: Option<nat> | StorageLoop(defs, START, members, 0, installVolatile, signal).Go?
        ensures Exact(defs, members, wire, ustar, installVolatile, signal, payload)
      {
        ByteExact(defs, members, wire, ustar, installVolatile, signal, None, size);
      }
    } else {
      ByteExact(defs, members, wire, ustar, installVolatile, Some(0), None, size);
      assert StorageLoop(defs, START, members, 0, installVolatile, Some(0)).Go?;
      assert !Exact(defs, members, wire, ustar, installVolatile, Some(0), payload);
    }
  }

  // ------------------------------------------------------------ what the target is told

  /** The bytes that the target's dd is told to read: an int count of blocks, and one more for a part of a block. */
  function Told(payload: nat): nat
  {
    U64(Wrap32(payload / 512) + if payload % 512 != 0 then 1 else 0) * 512
  }

  /** The target is told as many bytes as are announced, up to a whole block, if and only if these are less than 2^40. */
  lemma ToldIff(payload: nat)
    requires payload < MODULUS64
    ensures Told(payload) == WholeBlock(payload) <==> payload < 0x100_0000_0000
  {
    var blocks := payload / 512;
    assert payload == blocks * 512 + payload % 512;
    assert WholeBlock(payload) == (blocks + if payload % 512 != 0 then 1 else 0) * 512;
    CountIff(blocks, payload % 512 != 0);
  }

  /** A count of blocks survives the conversion to an int, one way and back, if and only if it is less than 2^31. */
  lemma CountIff(blocks: nat, more: bool)
    requires blocks < MODULUS64 / 512
    ensures U64(Wrap32(blocks) + if more then 1 else 0) == blocks + (if more then 1 else 0) <==> blocks < 0x8000_0000
  {
  }

  /** A count of blocks that becomes negative as an int makes the target wait for more bytes than there are. */
  lemma ToldTooMuch(payload: nat)
    requires payload < MODULUS64 && payload % 512 == 0 && Wrap32(payload / 512) < 0
    ensures Told(payload) > payload
  {
  }

  // ------------------------------------------------------------ short and full transfers

  lemma LargeSize(defs: seq<Def>)
    requires |defs| == 1 && defs[0].kind == 'f' && !defs[0].control && defs[0].size == 0xFFFF_F800
    ensures DeliverySize(FileBytes(defs, 1), 1) == 0x1_0000_1400 && Told(0x1_0000_1400) == 0x1_0000_1400
  {
    assert FileBytes(defs, 0) == 0;
  }

  /**
   One file of 2^32 - 2048 bytes that the archive has no member for: 2^32 + 5120 bytes are announced, 5120 go out, and the
   transfer returns 0.  If missing files are allowed, nothing but the target's dd, which waits for the rest, tells that
   they did not come.
   */
  lemma ShortAndSilent(path: string, header: int, ustar: bool, installVolatile: bool)
    ensures var defs := [Def(false, path, 'f', 0xFFFF_F800, false, true, false, false)];
            var payload := DeliverySize(FileBytes(defs, 1), 1);
            && payload == 0x1_0000_1400 && Told(payload) == payload
            && Transfer(defs, [], [header], ustar, installVolatile, None, None, payload) == Outcome(0, [], true, 5120)
  {
    var defs := [Def(false, path, 'f', 0xFFFF_F800, false, true, false, false)];
    LargeSize(defs);
    assert !defs[0].control && 0 !in START.flags;
    assert Rest(defs, START.flags, [header], ustar, RestResult([], 0), 0) == RestResult([], 1);
    assert Ending(0, 0x1_0000_1400, None) == (0, 5120);
  }

  /** The archive has every regular file of the INFO file, and policy skips none of them. */
  ghost predicate ArchiveComplete(defs: seq<Def>, members: seq<Member>, installVolatile: bool)
  {
    forall k: nat :: k < |defs| && !defs[k].control && defs[k].kind == 'f' ==>
      NamedBy(defs, members, |members|, k) && !Skipped(defs[k], installVolatile)
  }

  /**
   With a complete archive and no signal only the slack is left, and as many bytes go out as were announced; the target is
   told that number if and only if it is less than 2^40.
   */
  lemma FullTransferIsExact(defs: seq<Def>, members: seq<Member>, wire: seq<int>, ustar: bool,
                            installVolatile: bool, size: nat)
    requires |wire| == |defs| && DistinctMembers(defs, members) && ModestMembers(members) && ModestWire(wire)
    requires DistinctPaths(defs) && ArchiveComplete(defs, members, installVolatile)
    requires StorageLoop(defs, START, members, 0, installVolatile, None).Go?
    requires size == FileBytes(defs, |defs|) && Reasonable(size, |defs| + 3)
    ensures var payload := DeliverySize(size, |defs|);
            && Transfer(defs, members, wire, ustar, installVolatile, None, None, payload).rc == 0
            && Exact(defs, members, wire, ustar, installVolatile, None, payload)
            && (Told(payload) == payload <==> payload < 0x100_0000_0000)
  {
    AnnouncedSize(size, |defs|);
    ToldIff(DeliverySize(size, |defs|));
    SlackFits(defs, members, wire, ustar, installVolatile, None, size);
    ByteExact(defs, members, wire, ustar, installVolatile, None, None, size);
  }

  /** What a full transfer leaves fits in an int, whatever becomes of the padding. */
  lemma SlackFits(defs: seq<Def>, members: seq<Member>, wire: seq<int>, ustar: bool,
                  installVolatile: bool, refused: Option<nat>, size: nat)
    requires |wire| == |defs| && DistinctMembers(defs, members) && ModestMembers(members) && ModestWire(wire)
    requires DistinctPaths(defs) && ArchiveComplete(defs, members, installVolatile)
    requires StorageLoop(defs, START, members, 0, installVolatile, None).Go?
    requires size == FileBytes(defs, |defs|) && Reasonable(size, |defs| + 3)
    ensures var payload := DeliverySize(size, |defs|);
            payload - Total(Transfer(defs, members, wire, ustar, installVolatile, None, refused, payload).sent) < 0x8000_0000
  {
    var payload := DeliverySize(size, |defs|);
    var o := Transfer(defs, members, wire, ustar, installVolatile, None, refused, payload);
    CompleteArchiveIsSent(defs, members, wire, ustar, installVolatile, refused, payload);
    SentIsModest(defs, members, wire, ustar, installVolatile, None, refused, payload);
    MassAtLeast(defs, o.sent, |defs|);
    MassIsTotal(defs, o.sent);
    AnnouncedSize(size, |defs|);
  }

  lemma CompleteArchiveIsSent(defs: seq<Def>, members: seq<Member>, wire: seq<int>, ustar: bool,
                              installVolatile: bool, refused: Option<nat>, payload: nat)
    requires |wire| == |defs| && DistinctMembers(defs, members) && DistinctPaths(defs)
    requires ArchiveComplete(defs, members, installVolatile)
    requires StorageLoop(defs, START, members, 0, installVolatile, None).Go?
    ensures AllFilesSent(defs, Transfer(defs, members, wire, ustar, installVolatile, None, refused, payload).sent)
  {
    forall k: nat | k < |defs| && !defs[k].control && defs[k].kind == 'f'
      ensures SentFor(Transfer(defs, members, wire, ustar, installVolatile, None, refused, payload).sent, k) == 1
    {
      BothLoops(defs, members, wire, ustar, installVolatile, k);
    }
  }
}
