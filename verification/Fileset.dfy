/**
 The fileset on the wire: which files are sent, and how many bytes.

 The size of the whole transfer is announced before any header is written, and the far end reads exactly that
 many bytes.  Archive members are looked up in the INFO file and sent; files that the archive does not
 hold are sent from their INFO entry afterwards; padding fills up what is left.
 */
module Fileset {
  import opened Wrappers

  // ------------------------------------------------------------ files, members, frames

  /** A definition in the INFO file. */
  datatype Def = Def(
    control: bool, path: string, kind: char, size: nat, isVolatile: bool,
    attributesOk: bool, hasLinkSource: bool, longLink: bool)

  /**
   A member of the storage section, and how sending it turns out: what writing its header returns, whether copying
   its data succeeds, and whether the digest agrees with the INFO file.
   */
  datatype Member = Member(path: string, nameEmpty: bool, isDir: bool, header: int, copied: bool, digestOk: bool)

  /** What was sent for one definition. */
  datatype Frame = Frame(def: nat, header: nat, data: nat)

  /** swpl_get_whole_block_size */
  function WholeBlock(size: nat): (r: nat)
    ensures r % TARRECORDSIZE == 0 && size <= r < size + TARRECORDSIZE
  {
    if size % TARRECORDSIZE != 0 then (size / TARRECORDSIZE + 1) * TARRECORDSIZE
    else size / TARRECORDSIZE * TARRECORDSIZE
  }

  function Total(frames: seq<Frame>): nat
  {
    if frames == [] then 0 else Total(frames[..|frames| - 1]) + frames[|frames| - 1].header + frames[|frames| - 1].data
  }

  // ------------------------------------------------------------ looking up a member

  /** The first file definition with this path at or after `from`, or the number of definitions. */
  function FirstFrom(defs: seq<Def>, from: nat, path: string): (k: nat)
    requires from <= |defs|
    ensures from <= k <= |defs|
    ensures k < |defs| ==> !defs[k].control && defs[k].path == path
    ensures forall i :: from <= i < k ==> defs[i].control || defs[i].path != path
    decreases |defs| - from
  {
    if from == |defs| || (!defs[from].control && defs[from].path == path) then from
    else FirstFrom(defs, from + 1, path)
  }

  /** No two files of the INFO file have the same path. */
  ghost predicate DistinctPaths(defs: seq<Def>)
  {
    forall i, j :: 0 <= i < j < |defs| && !defs[i].control && !defs[j].control ==> defs[i].path != defs[j].path
  }

  /** Searching on from the last match, and from the start only after that fails, finds what a full search finds. */
  lemma SearchingOnIsSafe(defs: seq<Def>, cursor: nat, path: string)
    requires cursor <= |defs| && DistinctPaths(defs)
    ensures FirstFrom(defs, cursor, path) < |defs| ==> FirstFrom(defs, cursor, path) == FirstFrom(defs, 0, path)
  {
  }

  // ------------------------------------------------------------ one turn of the storage loop

  /**
   Where the loop stands: the INFO cursor, the counter of the optimised lookup, the flagged definitions, the
   frames.
   */
  datatype Progress = Progress(cursor: nat, acc: nat, flags: set<nat>, frames: seq<Frame>)

  datatype Turn = Go(p: Progress) | Stop(rc: int, p: Progress)

  predicate IsLink(d: Def)
  {
    d.kind == 'h' || d.kind == 's'
  }

  function StorageTurn(defs: seq<Def>, p: Progress, m: Member, installVolatile: bool): (t: Turn)
    requires p.cursor <= |defs|
    ensures t.p.cursor <= |defs|
  {
    var acc := p.acc + 1;
    var k1 := if acc == 1 then FirstFrom(defs, p.cursor, m.path) else |defs|;
    var cursor1 := if k1 == |defs| then 0 else k1;
    if m.nameEmpty then Go(p.(cursor := cursor1, acc := 0))
    else
      var k := if k1 < |defs| then k1 else FirstFrom(defs, 0, m.path);
      if k == |defs| then
        if m.isDir then Go(p.(cursor := 0, acc := acc)) else Stop(-58, p.(cursor := 0, acc := acc))
      else
        SendTurn(defs[k], k, p.(cursor := k, acc := acc, flags := p.flags + {k}), m, installVolatile)
  }

  /** The part of a turn once the definition is found. */
  function SendTurn(d: Def, k: nat, p: Progress, m: Member, installVolatile: bool): (t: Turn)
    ensures t.p.cursor == p.cursor && t.p.flags == p.flags
  {
    if !d.attributesOk then Stop(-62, p)
    else if d.isVolatile && !installVolatile then Go(p.(acc := 0))
    else if IsLink(d) && !d.hasLinkSource then Stop(-68, p)
    else if m.header < 0 then Stop(-76, p)
    else if d.kind == 'f' && !m.copied then Stop(-77, p.(frames := p.frames + [Frame(k, m.header, 0)]))
    else
      var frames := p.frames + [Frame(k, m.header, if d.kind == 'f' then WholeBlock(d.size) else 0)];
      if d.kind == 'f' && !m.digestOk then Stop(-78, p.(frames := frames))
      else if Total(frames) % 512 != 0 then Stop(-79, p.(frames := frames))
      else Go(p.(acc := 0, frames := frames))
  }

  /** The loop from member `i` on. */
  function StorageLoop(defs: seq<Def>, p: Progress, members: seq<Member>, i: nat, installVolatile: bool,
                       signal: Option<nat>): (t: Turn)
    requires p.cursor <= |defs| && i <= |members|
    ensures t.p.cursor <= |defs|
    decreases |members| - i
  {
    if i == |members| || Raised(signal, i) then Go(p)
    else
      var t := StorageTurn(defs, p, members[i], installVolatile);
      if t.Stop? then t else StorageLoop(defs, t.p, members, i + 1, installVolatile, signal)
  }

  const START := Progress(0, 0, {}, [])

  // ------------------------------------------------------------ the files that are not in the archive

  datatype RestResult = RestResult(frames: seq<Frame>, status: int)

  predicate Sendable(d: Def)
  {
    d.kind == 'd' || d.kind == 'h' || d.kind == 's' || d.kind == 'c' || d.kind == 'b'
  }

  /**
   send_files_with_no_storage from definition `i` on; `wire` tells what writing each header returns.  The status is
   that of the last thing that went wrong.
   */
  function Rest(defs: seq<Def>, flags: set<nat>, wire: seq<int>, ustar: bool, r: RestResult, i: nat): RestResult
    requires |wire| == |defs| && i <= |defs|
    decreases |defs| - i
  {
    if i == |defs| then r
    else
      var d := defs[i];
      if d.control || i in flags then Rest(defs, flags, wire, ustar, r, i + 1)
      else if !d.attributesOk then r.(status := 2)
      else if d.kind == 'f' then Rest(defs, flags, wire, ustar, r.(status := 1), i + 1)
      else if Sendable(d) then
        if IsLink(d) && !d.hasLinkSource then r.(status := 3)
        else if IsLink(d) && ustar && d.longLink then r.(status := 4)
        else if wire[i] < 0 then r.(status := 4)
        else Rest(defs, flags, wire, ustar, r.(frames := r.frames + [Frame(i, wire[i], 0)]), i + 1)
      else Rest(defs, flags, wire, ustar, r, i + 1)
  }

  /** Nothing in the second loop makes it break off. */
  predicate Unbroken(defs: seq<Def>, flags: set<nat>, wire: seq<int>, ustar: bool, i: nat)
    requires |wire| == |defs| && i <= |defs|
    decreases |defs| - i
  {
    i < |defs| ==>
      && (!defs[i].control && i !in flags ==>
            && defs[i].attributesOk
            && (IsLink(defs[i]) ==> defs[i].hasLinkSource && !(ustar && defs[i].longLink))
            && (Sendable(defs[i]) ==> wire[i] >= 0))
      && Unbroken(defs, flags, wire, ustar, i + 1)
  }

  // ------------------------------------------------------------ exactly once

  /** How many frames were sent for definition `k`. */
  function SentFor(frames: seq<Frame>, k: nat): nat
  {
    if frames == [] then 0
    else SentFor(frames[..|frames| - 1], k) + if frames[|frames| - 1].def == k then 1 else 0
  }

  lemma SentForSnoc(frames: seq<Frame>, f: Frame, k: nat)
    ensures SentFor(frames + [f], k) == SentFor(frames, k) + if f.def == k then 1 else 0
  {
    assert (frames + [f])[..|frames + [f]| - 1] == frames;
  }

  lemma TotalSnoc(frames: seq<Frame>, f: Frame)
    ensures Total(frames + [f]) == Total(frames) + f.header + f.data
  {
    assert (frames + [f])[..|frames + [f]| - 1] == frames;
  }

  /** Members that have a definition are told apart by their paths. */
  ghost predicate DistinctMembers(defs: seq<Def>, members: seq<Member>)
  {
    forall i, j :: 0 <= i < j < |members| && Names(defs, members[i]) && Names(defs, members[j]) ==>
      members[i].path != members[j].path
  }

  predicate Names(defs: seq<Def>, m: Member)
  {
    !m.nameEmpty && FirstFrom(defs, 0, m.path) < |defs|
  }

  /** Definition `k` is the one of a member among the first `n`. */
  ghost predicate NamedBy(defs: seq<Def>, members: seq<Member>, n: nat, k: nat)
  {
    exists j :: 0 <= j < n && j < |members| && k < |defs| && Names(defs, members[j]) && members[j].path == defs[k].path
  }

  predicate Skipped(d: Def, installVolatile: bool)
  {
    d.isVolatile && !installVolatile
  }

  /** What holds between two turns: flagged definitions have one frame, or none if policy skips them; others none. */
  ghost predicate OncePerFlag(defs: seq<Def>, p: Progress, installVolatile: bool)
  {
    forall k: nat :: SentFor(p.frames, k) == if k in p.flags && k < |defs| && !Skipped(defs[k], installVolatile) then 1 else 0
  }

  /** The same once the loop has stopped over an error: the last one may lack its frame. */
  ghost predicate AtMostOncePerFlag(defs: seq<Def>, p: Progress, installVolatile: bool)
  {
    forall k: nat :: SentFor(p.frames, k) <= if k in p.flags && k < |defs| && !Skipped(defs[k], installVolatile) then 1 else 0
  }

  ghost predicate FlagsAreNamed(defs: seq<Def>, members: seq<Member>, n: nat, p: Progress)
  {
    forall k :: k in p.flags ==> k < |defs| && !defs[k].control && NamedBy(defs, members, n, k)
  }

  ghost predicate NamedAreFlagged(defs: seq<Def>, members: seq<Member>, n: nat, p: Progress)
  {
    forall k: nat :: k < |defs| && !defs[k].control && NamedBy(defs, members, n, k) ==> k in p.flags
  }

  /** The definition that a turn finds. */
  function Sought(defs: seq<Def>, p: Progress, m: Member): (k: nat)
    requires p.cursor <= |defs|
    ensures k <= |defs|
    ensures k < |defs| ==> !defs[k].control && defs[k].path == m.path
    ensures k == |defs| ==> FirstFrom(defs, 0, m.path) == |defs|
  {
    var k1 := if p.acc + 1 == 1 then FirstFrom(defs, p.cursor, m.path) else |defs|;
    if k1 < |defs| then k1 else FirstFrom(defs, 0, m.path)
  }

  lemma TurnFlags(defs: seq<Def>, p: Progress, m: Member, installVolatile: bool)
    requires p.cursor <= |defs|
    ensures var t := StorageTurn(defs, p, m, installVolatile);
            var k := Sought(defs, p, m);
            t.p.flags == if m.nameEmpty || k == |defs| then p.flags else p.flags + {k}
  {
  }

  lemma FlagsKept(defs: seq<Def>, p: Progress, members: seq<Member>, i: nat, installVolatile: bool)
    requires p.cursor <= |defs| && i < |members| && FlagsAreNamed(defs, members, i, p)
    ensures FlagsAreNamed(defs, members, i + 1, StorageTurn(defs, p, members[i], installVolatile).p)
  {
    TurnFlags(defs, p, members[i], installVolatile);
    var k := Sought(defs, p, members[i]);
    if !members[i].nameEmpty && k < |defs| {
      assert Names(defs, members[i]);
      assert NamedBy(defs, members, i + 1, k);
    }
    forall l | l in p.flags ensures NamedBy(defs, members, i + 1, l) {
      assert NamedBy(defs, members, i, l);
    }
  }

  /** A definition is not found twice. */
  lemma SoughtIsNew(defs: seq<Def>, p: Progress, members: seq<Member>, i: nat)
    requires p.cursor <= |defs| && i < |members| && FlagsAreNamed(defs, members, i, p)
    requires DistinctMembers(defs, members) && !members[i].nameEmpty && Sought(defs, p, members[i]) < |defs|
    ensures Sought(defs, p, members[i]) !in p.flags
  {
    var k := Sought(defs, p, members[i]);
    assert Names(defs, members[i]);
    assert !NamedBy(defs, members, i, k);
  }

  /** A turn over definition `k` sends at most one frame, and that one is for `k`. */
  lemma TurnFrames(d: Def, k: nat, p: Progress, m: Member, installVolatile: bool) returns (f: Frame)
    ensures var t := SendTurn(d, k, p, m, installVolatile);
            && f.def == k
            && (t.p.frames == p.frames || t.p.frames == p.frames + [f])
            && (Skipped(d, installVolatile) ==> t.p.frames == p.frames)
            && (t.Go? && !Skipped(d, installVolatile) ==> t.p.frames == p.frames + [f])
  {
    f := Frame(k, if m.header < 0 then 0 else m.header, if d.kind == 'f' && m.copied then WholeBlock(d.size) else 0);
  }

  lemma OneMore(defs: seq<Def>, p: Progress, f: Frame, q: Progress, installVolatile: bool)
    requires OncePerFlag(defs, p, installVolatile) && f.def !in p.flags && f.def < |defs|
    requires q.flags == p.flags + {f.def} && (q.frames == p.frames || q.frames == p.frames + [f])
    requires Skipped(defs[f.def], installVolatile) ==> q.frames == p.frames
    ensures AtMostOncePerFlag(defs, q, installVolatile)
    ensures q.frames == p.frames + [f] || Skipped(defs[f.def], installVolatile) ==> OncePerFlag(defs, q, installVolatile)
  {
    forall l: nat
      ensures SentFor(q.frames, l) == SentFor(p.frames, l) + if q.frames == p.frames + [f] && l == f.def then 1 else 0
    {
      SentForSnoc(p.frames, f, l);
    }
  }

  lemma TurnOnce(defs: seq<Def>, p: Progress, members: seq<Member>, i: nat, installVolatile: bool)
    requires p.cursor <= |defs| && i < |members| && FlagsAreNamed(defs, members, i, p)
    requires DistinctMembers(defs, members) && OncePerFlag(defs, p, installVolatile)
    ensures var t := StorageTurn(defs, p, members[i], installVolatile);
            AtMostOncePerFlag(defs, t.p, installVolatile) && (t.Go? ==> OncePerFlag(defs, t.p, installVolatile))
  {
    var m := members[i];
    var t := StorageTurn(defs, p, m, installVolatile);
    var k := Sought(defs, p, m);
    if !m.nameEmpty && k < |defs| {
      SoughtIsNew(defs, p, members, i);
      var q := p.(cursor := k, acc := p.acc + 1, flags := p.flags + {k});
      assert t == SendTurn(defs[k], k, q, m, installVolatile);
      var f := TurnFrames(defs[k], k, q, m, installVolatile);
      OneMore(defs, p, f, t.p, installVolatile);
    }
  }

  lemma {:induction false} LoopOnce(defs: seq<Def>, p: Progress, members: seq<Member>, i: nat,
                                    installVolatile: bool, signal: Option<nat>)
    requires p.cursor <= |defs| && i <= |members| && FlagsAreNamed(defs, members, i, p)
    requires DistinctMembers(defs, members) && OncePerFlag(defs, p, installVolatile)
    ensures var t := StorageLoop(defs, p, members, i, installVolatile, signal);
            && AtMostOncePerFlag(defs, t.p, installVolatile) && (t.Go? ==> OncePerFlag(defs, t.p, installVolatile))
            && FlagsAreNamed(defs, members, |members|, t.p)
    decreases |members| - i
  {
    if i == |members| || Raised(signal, i) {
      forall k | k in p.flags ensures NamedBy(defs, members, |members|, k) {
        assert NamedBy(defs, members, i, k);
      }
    } else {
      var t := StorageTurn(defs, p, members[i], installVolatile);
      TurnOnce(defs, p, members, i, installVolatile);
      FlagsKept(defs, p, members, i, installVolatile);
      if t.Go? {
        LoopOnce(defs, t.p, members, i + 1, installVolatile, signal);
      } else {
        forall k | k in t.p.flags ensures NamedBy(defs, members, |members|, k) {
          assert NamedBy(defs, members, i + 1, k);
        }
      }
    }
  }

  lemma NamedStep(defs: seq<Def>, p: Progress, members: seq<Member>, i: nat, installVolatile: bool)
    requires p.cursor <= |defs| && i < |members| && DistinctPaths(defs) && NamedAreFlagged(defs, members, i, p)
    ensures NamedAreFlagged(defs, members, i + 1, StorageTurn(defs, p, members[i], installVolatile).p)
  {
    TurnFlags(defs, p, members[i], installVolatile);
    var s := Sought(defs, p, members[i]);
    forall k: nat | k < |defs| && !defs[k].control && NamedBy(defs, members, i + 1, k)
      ensures k in StorageTurn(defs, p, members[i], installVolatile).p.flags
    {
      var j :| 0 <= j < i + 1 && j < |members| && Names(defs, members[j]) && members[j].path == defs[k].path;
      if j < i {
        assert NamedBy(defs, members, i, k);
      } else {
        assert s < |defs| && defs[s].path == defs[k].path;
      }
    }
  }

  lemma {:induction false} LoopFlagsAll(defs: seq<Def>, p: Progress, members: seq<Member>, i: nat,
                                        installVolatile: bool)
    requires p.cursor <= |defs| && i <= |members| && DistinctPaths(defs) && NamedAreFlagged(defs, members, i, p)
    ensures var t := StorageLoop(defs, p, members, i, installVolatile, None);
            t.Go? ==> NamedAreFlagged(defs, members, |members|, t.p)
    decreases |members| - i
  {
    if i == |members| {
    } else {
      var t := StorageTurn(defs, p, members[i], installVolatile);
      NamedStep(defs, p, members, i, installVolatile);
      if t.Go? {
        LoopFlagsAll(defs, t.p, members, i + 1, installVolatile);
      }
    }
  }

  /** What the second loop has to send for definition `k` from definition `i` on. */
  function DueFrom(defs: seq<Def>, flags: set<nat>, i: nat, k: nat): nat
  {
    if i <= k < |defs| && !defs[k].control && k !in flags && Sendable(defs[k]) then 1 else 0
  }

  /** The second loop sends one frame for each unflagged file that needs no data, and touches no other. */
  lemma {:induction false} RestOnce(defs: seq<Def>, flags: set<nat>, wire: seq<int>, ustar: bool,
                                    r: RestResult, i: nat, k: nat)
    requires |wire| == |defs| && i <= |defs|
    ensures var sent := SentFor(Rest(defs, flags, wire, ustar, r, i).frames, k);
            SentFor(r.frames, k) <= sent <= SentFor(r.frames, k) + DueFrom(defs, flags, i, k)
    ensures Unbroken(defs, flags, wire, ustar, i) ==>
              SentFor(Rest(defs, flags, wire, ustar, r, i).frames, k) == SentFor(r.frames, k) + DueFrom(defs, flags, i, k)
    decreases |defs| - i
  {
    if i == |defs| {
    } else if defs[i].control || i in flags {
      RestOnce(defs, flags, wire, ustar, r, i + 1, k);
    } else if defs[i].attributesOk {
      if defs[i].kind == 'f' {
        RestOnce(defs, flags, wire, ustar, r.(status := 1), i + 1, k);
      } else if !Sendable(defs[i]) {
        RestOnce(defs, flags, wire, ustar, r, i + 1, k);
      } else if wire[i] >= 0 {
        SentForSnoc(r.frames, Frame(i, wire[i], 0), k);
        RestOnce(defs, flags, wire, ustar, r.(frames := r.frames + [Frame(i, wire[i], 0)]), i + 1, k);
      }
    }
  }

  /** The status of an unbroken second loop tells whether a regular file is missing. */
  lemma {:induction false} RestStatus(defs: seq<Def>, flags: set<nat>, wire: seq<int>, ustar: bool,
                                      r: RestResult, i: nat)
    requires |wire| == |defs| && i <= |defs| && Unbroken(defs, flags, wire, ustar, i)
    requires r.status == 0 || r.status == 1
    ensures var q := Rest(defs, flags, wire, ustar, r, i);
            q.status == if r.status == 1 || Lacks(defs, flags, i) then 1 else 0
    decreases |defs| - i
  {
    if i == |defs| {
    } else {
      var d := defs[i];
      if d.control || i in flags {
        RestStatus(defs, flags, wire, ustar, r, i + 1);
      } else if d.kind == 'f' {
        RestStatus(defs, flags, wire, ustar, r.(status := 1), i + 1);
      } else if !Sendable(d) {
        RestStatus(defs, flags, wire, ustar, r, i + 1);
      } else {
        RestStatus(defs, flags, wire, ustar, r.(frames := r.frames + [Frame(i, wire[i], 0)]), i + 1);
      }
      assert Lacks(defs, flags, i) <==> (!d.control && i !in flags && d.kind == 'f') || Lacks(defs, flags, i + 1) by {
        LacksStep(defs, flags, i);
      }
    }
  }

  /** A regular file from `i` on is missing from the archive. */
  ghost predicate Lacks(defs: seq<Def>, flags: set<nat>, i: nat)
  {
    exists k :: i <= k < |defs| && !defs[k].control && k !in flags && defs[k].kind == 'f'
  }

  lemma LacksStep(defs: seq<Def>, flags: set<nat>, i: nat)
    requires i < |defs|
    ensures Lacks(defs, flags, i) <==>
            (!defs[i].control && i !in flags && defs[i].kind == 'f') || Lacks(defs, flags, i + 1)
  {
  }

  /** What is due for a definition, by what it is and whether the archive has a member of its name. */
  ghost function Due(defs: seq<Def>, members: seq<Member>, installVolatile: bool, k: nat): nat
    requires k < |defs|
  {
    if defs[k].control then 0
    else if NamedBy(defs, members, |members|, k) then if Skipped(defs[k], installVolatile) then 0 else 1
    else if Sendable(defs[k]) then 1 else 0
  }

  /** Nothing goes wrong with the files that the second loop has to send: those the archive has no member for. */
  ghost predicate RestGoesWell(defs: seq<Def>, members: seq<Member>, wire: seq<int>, ustar: bool)
    requires |wire| == |defs|
  {
    forall k: nat :: k < |defs| && !defs[k].control && !NamedBy(defs, members, |members|, k) ==>
      && defs[k].attributesOk
      && (IsLink(defs[k]) ==> defs[k].hasLinkSource && !(ustar && defs[k].longLink))
      && (Sendable(defs[k]) ==> wire[k] >= 0)
  }

  lemma {:induction false} GoesOn(defs: seq<Def>, flags: set<nat>, members: seq<Member>, wire: seq<int>, ustar: bool,
                                  i: nat)
    requires |wire| == |defs| && i <= |defs| && RestGoesWell(defs, members, wire, ustar)
    requires forall k: nat :: k < |defs| && !defs[k].control && NamedBy(defs, members, |members|, k) ==> k in flags
    ensures Unbroken(defs, flags, wire, ustar, i)
    decreases |defs| - i
  {
    if i == |defs| {
    } else {
      GoesOn(defs, flags, members, wire, ustar, i + 1);
    }
  }

  /** Both loops together, when no signal comes and the archive holds out. */
  lemma BothLoops(defs: seq<Def>, members: seq<Member>, wire: seq<int>, ustar: bool, installVolatile: bool, k: nat)
    requires |wire| == |defs| && k < |defs| && DistinctPaths(defs) && DistinctMembers(defs, members)
    requires StorageLoop(defs, START, members, 0, installVolatile, None).Go?
    ensures var p := StorageLoop(defs, START, members, 0, installVolatile, None).p;
            var q := Rest(defs, p.flags, wire, ustar, RestResult(p.frames, 0), 0);
            && (k in p.flags <==> !defs[k].control && NamedBy(defs, members, |members|, k))
            && (k in p.flags ==> SentFor(q.frames, k) == Due(defs, members, installVolatile, k))
            && (k in p.flags ==> SentFor(p.frames, k) == Due(defs, members, installVolatile, k))
            && (RestGoesWell(defs, members, wire, ustar) ==>
                  SentFor(q.frames, k) == Due(defs, members, installVolatile, k))
  {
    var p := StorageLoop(defs, START, members, 0, installVolatile, None).p;
    LoopOnce(defs, START, members, 0, installVolatile, None);
    LoopFlagsAll(defs, START, members, 0, installVolatile);
    RestOnce(defs, p.flags, wire, ustar, RestResult(p.frames, 0), 0, k);
    if RestGoesWell(defs, members, wire, ustar) {
      GoesOn(defs, p.flags, members, wire, ustar, 0);
    }
  }
}
