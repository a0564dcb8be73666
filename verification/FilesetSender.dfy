/** The code that sends the fileset: the storage loop, the loop over what the archive lacks, and the padding. */
module FilesetSender {
  import opened Wrappers
  import opened Fileset

  /** A definition of the INFO file as the program holds it: flag1 says that the archive had it. */
  class FileObject {
    const def: Def
    var flag1: bool

    constructor (def: Def)
      ensures this.def == def && !flag1
    {
      this.def := def;
      flag1 := false;
    }
  }

  function Defs(objects: seq<FileObject>): (defs: seq<Def>)
    ensures |defs| == |objects| && forall i :: 0 <= i < |objects| ==> defs[i] == objects[i].def
  {
    seq(|objects|, i requires 0 <= i < |objects| => objects[i].def)
  }

  ghost predicate Apart(objects: seq<FileObject>)
  {
    forall i, j :: 0 <= i < j < |objects| ==> objects[i] != objects[j]
  }

  ghost function Flags(objects: seq<FileObject>): set<nat>
    reads objects
  {
    set i: nat | i < |objects| && objects[i].flag1
  }

  const MODULUS32 := 0x1_0000_0000
  const MODULUS64 := 0x1_0000_0000_0000_0000

  /** Conversion to a 32-bit int. */
  function Wrap32(x: int): (r: int)
    ensures -MODULUS32 / 2 <= r < MODULUS32 / 2
  {
    var u := x % MODULUS32;
    if u < MODULUS32 / 2 then u else u - MODULUS32
  }

  /** Conversion to a 64-bit unsigned integer. */
  function U64(x: int): (r: nat)
    ensures r < MODULUS64
  {
    x % MODULUS64
  }

  /** get_delivery_size: `count` is an int, and so is its product with 2048. */
  function DeliverySize(size: nat, count: nat): nat
  {
    U64(WholeBlock(U64(size + Wrap32(count * 2048) + 10 * 512)))
  }

  /**
   What swlib_pad_amount returns and how many bytes it puts on a channel that refuses the block numbered `refused`, if any:
   the negative of what went out, or -1 if that is nothing.
   */
  function Padded(amount: int, refused: Option<nat>): (r: (int, nat))
    ensures r.0 == amount && amount >= 0 ==> r.1 == amount
  {
    if amount <= 0 then (0, 0)
    else if refused.Some? && refused.value * 512 < amount then
      (if refused.value == 0 then -1 else -(refused.value * 512), refused.value * 512)
    else (amount, amount)
  }

  /** swlib_pad_amount */
  method PadAmount(amount: int, refused: Option<nat>) returns (ret: int, count: nat)
    ensures (ret, count) == Padded(amount, refused)
  {
    var remains, block := amount, 0;
    count := 0;
    while remains > 0
      invariant remains + count == amount && (remains >= 0 || count == 0)
      invariant count <= block * 512 && (remains > 0 ==> count == block * 512)
      invariant refused.Some? ==> refused.value >= block
    {
      var am := if remains > 512 then 512 else remains;
      if refused == Some(block) {
        ret := -1;
        if count > 0 {
          ret := 0 - count;
        }
        return;
      }
      count := count + am;
      remains := remains - am;
      block := block + 1;
    }
    ret := count;
  }

  /** swheaderline_set_flag1 */
  method SetFlag(objects: seq<FileObject>, k: nat)
    requires k < |objects| && Apart(objects)
    modifies objects[k]
    ensures Flags(objects) == old(Flags(objects)) + {k}
  {
    objects[k].flag1 := true;
  }

  class Sender {
    var cursor: nat
    var acc: nat
    var sent: seq<Frame>
    var written: nat

    ghost predicate Valid()
      reads this
    {
      written == Total(sent)
    }

    ghost function State(objects: seq<FileObject>): Progress
      reads this, objects
    {
      Progress(cursor, acc, Flags(objects), sent)
    }

    constructor ()
      ensures Valid() && cursor == 0 && acc == 0 && sent == [] && written == 0
    {
      cursor, acc, sent, written := 0, 0, [], 0;
    }

    /** Put one header and its data on the channel. */
    method Put(k: nat, header: nat, data: nat)
      requires Valid()
      modifies this`sent, this`written
      ensures Valid() && sent == old(sent) + [Frame(k, header, data)]
    {
      TotalSnoc(sent, Frame(k, header, data));
      sent := sent + [Frame(k, header, data)];
      written := written + header + data;
    }

    /** swheader_get_object_by_tag, from the cursor on; the cursor moves to what it finds. */
    method GetObjectByTag(objects: seq<FileObject>, path: string) returns (k: nat)
      requires cursor <= |objects|
      modifies this`cursor
      ensures k == FirstFrom(Defs(objects), old(cursor), path)
      ensures cursor == if k < |objects| then k else old(cursor)
    {
      k := cursor;
      while k < |objects|
        invariant cursor <= k <= |objects|
        invariant FirstFrom(Defs(objects), cursor, path) == FirstFrom(Defs(objects), k, path)
      {
        if !objects[k].def.control && objects[k].def.path == path {
          cursor := k;
          return;
        }
        k := k + 1;
      }
    }

    /** The lookup of one turn: on from the cursor if the last member was found so, and from the start if need be. */
    method FindMember(objects: seq<FileObject>, m: Member) returns (k: nat)
      requires cursor <= |objects|
      modifies this`cursor, this`acc
      ensures acc == old(acc) + 1
      ensures var k1 := if acc == 1 then FirstFrom(Defs(objects), old(cursor), m.path) else |objects|;
              && k == (if m.nameEmpty || k1 < |objects| then k1 else FirstFrom(Defs(objects), 0, m.path))
              && cursor == (if k < |objects| then k else 0)
    {
      acc := acc + 1;
      k := |objects|;
      if acc == 1 {
        k := GetObjectByTag(objects, m.path);
      }
      if k == |objects| {
        cursor := 0;
        if !m.nameEmpty {
          k := GetObjectByTag(objects, m.path);
        }
      }
    }

    /** The rest of a turn, for a member whose definition is found. */
    method SendMember(d: Def, k: nat, m: Member, installVolatile: bool, ghost flags: set<nat>) returns (rc: int)
      requires Valid()
      modifies this`acc, this`sent, this`written
      ensures Valid()
      ensures var p := Progress(cursor, acc, flags, sent);
              SendTurn(d, k, old(Progress(cursor, acc, flags, sent)), m, installVolatile) ==
              if rc == 0 then Go(p) else Stop(rc, p)
    {
      if !d.attributesOk {
        return -62;
      }
      if d.isVolatile {
        if !installVolatile {
          acc := 0;
          return 0;
        }
      }
      if IsLink(d) && !d.hasLinkSource {
        return -68;
      }
      if m.header < 0 {
        return -76;
      }
      if d.kind == 'f' {
        if !m.copied {
          Put(k, m.header, 0);
          return -77;
        }
        Put(k, m.header, WholeBlock(d.size));
        if !m.digestOk {
          return -78;
        }
      } else {
        Put(k, m.header, 0);
      }
      if written % 512 != 0 {
        return -79;
      }
      acc := 0;
      return 0;
    }

    /** One turn of the loop over the storage section: 0 to go on, or what the program returns. */
    method OneMember(objects: seq<FileObject>, m: Member, installVolatile: bool) returns (rc: int)
      requires Valid() && cursor <= |objects| && Apart(objects)
      modifies this, objects
      ensures Valid() && cursor <= |objects|
      ensures StorageTurn(Defs(objects), old(State(objects)), m, installVolatile) ==
              if rc == 0 then Go(State(objects)) else Stop(rc, State(objects))
    {
      var k := FindMember(objects, m);
      if m.nameEmpty {
        acc := 0;
        return 0;
      }
      if k == |objects| {
        rc := if m.isDir then 0 else -58;
        return;
      }
      SetFlag(objects, k);
      rc := SendMember(objects[k].def, k, m, installVolatile, Flags(objects));
    }

    method StorageSection(objects: seq<FileObject>, members: seq<Member>, installVolatile: bool, signal: Option<nat>)
      returns (rc: int)
      requires Valid() && cursor <= |objects| && Apart(objects)
      modifies this, objects
      ensures Valid() && cursor <= |objects|
      ensures StorageLoop(Defs(objects), old(State(objects)), members, 0, installVolatile, signal) ==
              if rc == 0 then Go(State(objects)) else Stop(rc, State(objects))
    {
      ghost var start := State(objects);
      var i := 0;
      while i < |members| && !Raised(signal, i)
        invariant 0 <= i <= |members| && Valid() && cursor <= |objects| && start.cursor <= |objects|
        invariant StorageLoop(Defs(objects), start, members, 0, installVolatile, signal) ==
                  StorageLoop(Defs(objects), State(objects), members, i, installVolatile, signal)
      {
        rc := OneMember(objects, members[i], installVolatile);
        if rc != 0 {
          return;
        }
        i := i + 1;
      }
      rc := 0;
    }

    /** send_files_with_no_storage */
    method SendRest(objects: seq<FileObject>, wire: seq<int>, ustar: bool) returns (status: int)
      requires Valid() && |wire| == |objects|
      modifies this`sent, this`written
      ensures Valid()
      ensures Rest(Defs(objects), Flags(objects), wire, ustar, RestResult(old(sent), 0), 0) == RestResult(sent, status)
    {
      ghost var start := RestResult(sent, 0);
      ghost var defs, flags := Defs(objects), Flags(objects);
      status := 0;
      var i := 0;
      while i < |objects|
        invariant 0 <= i <= |objects| && Valid()
        invariant Rest(defs, flags, wire, ustar, start, 0) == Rest(defs, flags, wire, ustar, RestResult(sent, status), i)
      {
        var d := objects[i].def;
        if !d.control && !objects[i].flag1 {
          if !d.attributesOk {
            status := 2;
            return;
          }
          if d.kind == 'f' {
            status := 1;
          } else if Sendable(d) {
            if IsLink(d) {
              if !d.hasLinkSource {
                status := 3;
                return;
              }
              if ustar && d.longLink {
                status := 4;
                return;
              }
            }
            if wire[i] < 0 {
              status := 4;
              return;
            }
            Put(i, wire[i], 0);
          }
        }
        i := i + 1;
      }
    }

    /** The sending of the fileset, outside preview, after the far end is ready for `payload` bytes. */
    method SendFileset(objects: seq<FileObject>, members: seq<Member>, wire: seq<int>, ustar: bool,
                       installVolatile: bool, signal: Option<nat>, refused: Option<nat>, payload: nat)
      returns (rc: int, filesMissing: bool, padding: nat)
      requires Valid() && sent == [] && cursor == 0 && acc == 0
      requires Apart(objects) && |wire| == |objects| && forall o | o in objects :: !o.flag1
      modifies this, objects
      ensures Valid()
      ensures Transfer(Defs(objects), members, wire, ustar, installVolatile, signal, refused, payload) ==
              Outcome(rc, sent, filesMissing, padding)
    {
      assert State(objects) == START by {
        assert Flags(objects) == {};
      }
      rc := StorageSection(objects, members, installVolatile, signal);
      filesMissing, padding := false, 0;
      if rc != 0 {
        return;
      }
      var missing := 0;
      if !Raised(signal, |members|) {
        missing := CountMissing(objects);
      }
      var status := 0;
      if missing > 0 {
        status := SendRest(objects, wire, ustar);
      }
      filesMissing := status != 0;
      rc, padding := Close(payload, refused);
    }

    /** The check for room, and the padding. */
    method Close(payload: nat, refused: Option<nat>) returns (rc: int, padding: nat)
      requires Valid()
      ensures (rc, padding) == Ending(Total(sent), payload, refused)
    {
      if written > U64(payload - 1024) {
        return -81, 0;
      }
      var pad := Wrap32(payload - written);
      var ret;
      ret, padding := PadAmount(pad, refused);
      rc := if ret != pad then 1 else 0;
    }
  }

  /** swpl_assert_all_file_definitions_installed */
  method CountMissing(objects: seq<FileObject>) returns (n: nat)
    ensures n > 0 <==> AnyMissing(Defs(objects), Flags(objects))
  {
    n := 0;
    var i := 0;
    while i < |objects|
      invariant 0 <= i <= |objects|
      invariant n > 0 <==> exists k :: 0 <= k < i && !objects[k].def.control && !objects[k].flag1
    {
      if !objects[i].def.control && !objects[i].flag1 {
        n := n + 1;
      }
      i := i + 1;
    }
    assert forall k :: 0 <= k < |objects| ==> (k in Flags(objects) <==> objects[k].flag1);
  }

  ghost predicate AnyMissing(defs: seq<Def>, flags: set<nat>)
  {
    exists k :: 0 <= k < |defs| && !defs[k].control && k !in flags
  }

  /** How the sending ended, what was sent, and how many bytes of padding followed. */
  datatype Outcome = Outcome(rc: int, sent: seq<Frame>, filesMissing: bool, padding: nat)

  /** The two loops and the padding as one function of the package and of what happens on the wire. */
  ghost function Transfer(defs: seq<Def>, members: seq<Member>, wire: seq<int>, ustar: bool,
                    installVolatile: bool, signal: Option<nat>, refused: Option<nat>, payload: nat): Outcome
    requires |wire| == |defs|
  {
    var t := StorageLoop(defs, START, members, 0, installVolatile, signal);
    if t.Stop? then Outcome(t.rc, t.p.frames, false, 0)
    else
      var start := RestResult(t.p.frames, 0);
      var q := if !Raised(signal, |members|) && AnyMissing(defs, t.p.flags)
               then Rest(defs, t.p.flags, wire, ustar, start, 0) else start;
      var (rc, padding) := Ending(Total(q.frames), payload, refused);
      Outcome(rc, q.frames, q.status != 0, padding)
  }

  /** The return value and the padding once so many bytes are written. */
  function Ending(written: nat, payload: nat, refused: Option<nat>): (int, nat)
  {
    if written > U64(payload - 1024) then (-81, 0)
    else
      var pad := Wrap32(payload - written);
      var (ret, padding) := Padded(pad, refused);
      (if ret != pad then 1 else 0, padding)
  }

  /**
   The transfer sends one frame for each file of the INFO file, none for control files, none for volatile files that
   policy skips, and none for regular files that are missing or of unsupported types.
   */
  lemma ExactlyOnce(defs: seq<Def>, members: seq<Member>, wire: seq<int>, ustar: bool, installVolatile: bool,
                    refused: Option<nat>, payload: nat, k: nat)
    requires |wire| == |defs| && k < |defs| && DistinctPaths(defs) && DistinctMembers(defs, members)
    requires StorageLoop(defs, START, members, 0, installVolatile, None).Go?
    requires RestGoesWell(defs, members, wire, ustar)
    ensures SentFor(Transfer(defs, members, wire, ustar, installVolatile, None, refused, payload).sent, k) ==
            Due(defs, members, installVolatile, k)
  {
    BothLoops(defs, members, wire, ustar, installVolatile, k);
    LoopOnce(defs, START, members, 0, installVolatile, None);
  }
}
