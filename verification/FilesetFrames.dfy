/**
 What a transfer sends, as one list made from the archive and the INFO file in order, without cursor, flags or early ends; and
 what a transfer that goes well knows of the files.
 */
module FilesetFrames {
  import opened Wrappers
  import opened Fileset
  import opened FilesetSender
  import opened Text

  // ------------------------------------------------------------ the storage section

  predicate InBlocks(frames: seq<Frame>)
  {
    Total(frames) % 512 == 0
  }

  /** Sending this member for its definition goes well. */
  predicate FitFor(d: Def, m: Member, installVolatile: bool)
  {
    && d.attributesOk
    && (!Skipped(d, installVolatile) ==>
          && (IsLink(d) ==> d.hasLinkSource) && m.header >= 0 && m.header % 512 == 0
          && (d.kind == 'f' ==> m.copied && m.digestOk))
  }

  /** The member has no name, or one that no file has but a directory may lack, or it can be sent. */
  predicate Fit(defs: seq<Def>, m: Member, installVolatile: bool)
  {
    m.nameEmpty ||
    var k := FirstFrom(defs, 0, m.path);
    if k == |defs| then m.isDir else FitFor(defs[k], m, installVolatile)
  }

  /** The code that ends the transfer over this member tells something that is wrong with it. */
  predicate Blames(defs: seq<Def>, m: Member, rc: int)
  {
    var k := FirstFrom(defs, 0, m.path);
    if k == |defs| then rc == -58 && !m.isDir
    else
      var d := defs[k];
      || (rc == -62 && !d.attributesOk) || (rc == -68 && IsLink(d) && !d.hasLinkSource)
      || (rc == -76 && m.header < 0) || (rc == -77 && d.kind == 'f' && !m.copied)
      || (rc == -78 && d.kind == 'f' && m.copied && !m.digestOk) || (rc == -79 && m.header % 512 != 0)
  }

  /** What goes out for a member that has definition `k`. */
  function FrameOf(d: Def, k: nat, m: Member, installVolatile: bool): seq<Frame>
  {
    if Skipped(d, installVolatile) || m.header < 0 then []
    else [Frame(k, m.header, if d.kind == 'f' then WholeBlock(d.size) else 0)]
  }

  /** What goes out for one member. */
  function FrameFor(defs: seq<Def>, m: Member, installVolatile: bool): seq<Frame>
  {
    var k := FirstFrom(defs, 0, m.path);
    if m.nameEmpty || k == |defs| then [] else FrameOf(defs[k], k, m, installVolatile)
  }

  /** What goes out for the first `n` members, in their order. */
  function FramesOf(defs: seq<Def>, members: seq<Member>, n: nat, installVolatile: bool): seq<Frame>
    requires n <= |members|
  {
    if n == 0 then []
    else FramesOf(defs, members, n - 1, installVolatile) + FrameFor(defs, members[n - 1], installVolatile)
  }

  /** How many members the loop looks at. */
  function Looked(members: seq<Member>, signal: Option<nat>): (n: nat)
    ensures n <= |members|
  {
    if Raised(signal, |members|) then signal.value else |members|
  }

  lemma BlocksAdd(a: nat, header: nat, data: nat)
    requires a % 512 == 0 && data % 512 == 0
    ensures (a + header + data) % 512 == 0 <==> header % 512 == 0
  {
  }

  /** A frame whose data is in whole blocks keeps the total so exactly when its header is. */
  lemma OneFrame(frames: seq<Frame>, f: Frame)
    requires InBlocks(frames) && f.data % 512 == 0
    ensures InBlocks(frames + [f]) <==> f.header % 512 == 0
  {
    TotalSnoc(frames, f);
    BlocksAdd(Total(frames), f.header, f.data);
  }

  /** Sending this member goes well but for the blocks. */
  predicate FitButBlocks(d: Def, m: Member, installVolatile: bool)
  {
    && d.attributesOk
    && (!Skipped(d, installVolatile) ==>
          (IsLink(d) ==> d.hasLinkSource) && m.header >= 0 && (d.kind == 'f' ==> m.copied && m.digestOk))
  }

  lemma SendShape(d: Def, k: nat, p: Progress, m: Member, installVolatile: bool)
    ensures var t, frames := SendTurn(d, k, p, m, installVolatile), p.frames + FrameOf(d, k, m, installVolatile);
            && (t.Go? <==> FitButBlocks(d, m, installVolatile) && (Skipped(d, installVolatile) || InBlocks(frames)))
            && (t.Go? ==> t.p.frames == frames)
            && (t.Stop? ==>
                  || (t.rc == -62 && !d.attributesOk) || (t.rc == -68 && IsLink(d) && !d.hasLinkSource)
                  || (t.rc == -76 && m.header < 0) || (t.rc == -77 && d.kind == 'f' && !m.copied)
                  || (t.rc == -78 && d.kind == 'f' && m.copied && !m.digestOk)
                  || (t.rc == -79 && m.header >= 0 && !Skipped(d, installVolatile) && !InBlocks(frames)))
  {
  }

  lemma DataInBlocks(d: Def)
    ensures (if d.kind == 'f' then WholeBlock(d.size) else 0) % 512 == 0
  {
  }

  /** What goes out for a member keeps the total in whole blocks exactly when its header is. */
  lemma FrameAligns(frames: seq<Frame>, d: Def, k: nat, m: Member, installVolatile: bool)
    requires InBlocks(frames)
    ensures InBlocks(frames + FrameOf(d, k, m, installVolatile)) <==>
            Skipped(d, installVolatile) || m.header < 0 || m.header % 512 == 0
  {
    if Skipped(d, installVolatile) || m.header < 0 {
      assert frames + [] == frames;
    } else {
      DataInBlocks(d);
      OneFrame(frames, Frame(k, m.header, if d.kind == 'f' then WholeBlock(d.size) else 0));
    }
  }

  /** The lookup from the cursor finds what a full search finds. */
  lemma SoughtIs(defs: seq<Def>, p: Progress, m: Member)
    requires p.cursor <= |defs| && DistinctPaths(defs)
    ensures Sought(defs, p, m) == FirstFrom(defs, 0, m.path)
  {
    SearchingOnIsSafe(defs, p.cursor, m.path);
  }

  lemma TurnFound(defs: seq<Def>, p: Progress, m: Member, installVolatile: bool, k: nat)
    requires p.cursor <= |defs| && !m.nameEmpty && k == Sought(defs, p, m) < |defs|
    ensures StorageTurn(defs, p, m, installVolatile) ==
            SendTurn(defs[k], k, p.(cursor := k, acc := p.acc + 1, flags := p.flags + {k}), m, installVolatile)
  {
  }

  lemma TurnLost(defs: seq<Def>, p: Progress, m: Member, installVolatile: bool)
    requires p.cursor <= |defs| && (m.nameEmpty || Sought(defs, p, m) == |defs|)
    ensures var t := StorageTurn(defs, p, m, installVolatile);
            t.p.frames == p.frames && if m.nameEmpty || m.isDir then t.Go? else t == Stop(-58, t.p)
  {
  }

  /** One turn goes on if and only if the member fits. */
  lemma TurnMeans(defs: seq<Def>, p: Progress, m: Member, installVolatile: bool)
    requires p.cursor <= |defs| && DistinctPaths(defs) && InBlocks(p.frames)
    ensures var t := StorageTurn(defs, p, m, installVolatile);
            && (t.Go? <==> Fit(defs, m, installVolatile))
            && (t.Go? ==> t.p.frames == p.frames + FrameFor(defs, m, installVolatile) && InBlocks(t.p.frames))
            && (t.Stop? ==> t.rc < 0 && Blames(defs, m, t.rc))
  {
    SoughtIs(defs, p, m);
    var k := FirstFrom(defs, 0, m.path);
    if m.nameEmpty || k == |defs| {
      TurnLost(defs, p, m, installVolatile);
      assert p.frames + [] == p.frames;
    } else {
      TurnFound(defs, p, m, installVolatile, k);
      SendShape(defs[k], k, p.(cursor := k, acc := p.acc + 1, flags := p.flags + {k}), m, installVolatile);
      FrameAligns(p.frames, defs[k], k, m, installVolatile);
    }
  }

  predicate AllFit(defs: seq<Def>, members: seq<Member>, i: nat, n: nat, installVolatile: bool)
    requires n <= |members|
  {
    forall j :: i <= j < n ==> Fit(defs, members[j], installVolatile)
  }

  /** The code is for the first member from `i` on that does not fit. */
  ghost predicate BlamesFirst(defs: seq<Def>, members: seq<Member>, i: nat, n: nat, installVolatile: bool, rc: int)
    requires n <= |members|
  {
    exists j :: i <= j < n && Blames(defs, members[j], rc) && AllFit(defs, members, i, j, installVolatile)
  }

  /** How the loop from member `i` to `n` ends, and what it has sent. */
  ghost predicate Accounts(defs: seq<Def>, members: seq<Member>, i: nat, n: nat, installVolatile: bool, t: Turn)
    requires n <= |members|
  {
    && (t.Go? <==> AllFit(defs, members, i, n, installVolatile))
    && (t.Go? ==> t.p.frames == FramesOf(defs, members, n, installVolatile))
    && (t.Stop? ==> t.rc < 0 && BlamesFirst(defs, members, i, n, installVolatile, t.rc))
  }

  lemma FitStep(defs: seq<Def>, members: seq<Member>, i: nat, n: nat, installVolatile: bool)
    requires i < n <= |members|
    ensures AllFit(defs, members, i, n, installVolatile) <==>
            Fit(defs, members[i], installVolatile) && AllFit(defs, members, i + 1, n, installVolatile)
  {
  }

  lemma BlameStep(defs: seq<Def>, members: seq<Member>, i: nat, n: nat, installVolatile: bool, rc: int)
    requires i < n <= |members| && Fit(defs, members[i], installVolatile)
    requires BlamesFirst(defs, members, i + 1, n, installVolatile, rc)
    ensures BlamesFirst(defs, members, i, n, installVolatile, rc)
  {
    var j :| i + 1 <= j < n && Blames(defs, members[j], rc) && AllFit(defs, members, i + 1, j, installVolatile);
    FitStep(defs, members, i, j, installVolatile);
  }

  lemma AccountsStep(defs: seq<Def>, members: seq<Member>, i: nat, n: nat, installVolatile: bool, t: Turn)
    requires i < n <= |members| && Fit(defs, members[i], installVolatile)
    requires Accounts(defs, members, i + 1, n, installVolatile, t)
    ensures Accounts(defs, members, i, n, installVolatile, t)
  {
    FitStep(defs, members, i, n, installVolatile);
    if t.Stop? {
      BlameStep(defs, members, i, n, installVolatile, t.rc);
    }
  }

  lemma AccountsEnd(defs: seq<Def>, members: seq<Member>, n: nat, installVolatile: bool, p: Progress)
    requires n <= |members| && p.frames == FramesOf(defs, members, n, installVolatile)
    ensures Accounts(defs, members, n, n, installVolatile, Go(p))
  {
  }

  lemma AccountsStop(defs: seq<Def>, members: seq<Member>, i: nat, n: nat, installVolatile: bool, t: Turn)
    requires i < n <= |members| && !Fit(defs, members[i], installVolatile)
    requires t.Stop? && t.rc < 0 && Blames(defs, members[i], t.rc)
    ensures Accounts(defs, members, i, n, installVolatile, t)
  {
    assert AllFit(defs, members, i, i, installVolatile);
  }

  lemma LoopGoesOn(defs: seq<Def>, p: Progress, members: seq<Member>, i: nat, installVolatile: bool, signal: Option<nat>,
                   q: Progress)
    requires p.cursor <= |defs| && i < Looked(members, signal)
    requires Fit(defs, members[i], installVolatile) && StorageTurn(defs, p, members[i], installVolatile) == Go(q)
    requires q.cursor <= |defs|
    requires Accounts(defs, members, i + 1, Looked(members, signal), installVolatile,
                      StorageLoop(defs, q, members, i + 1, installVolatile, signal))
    ensures Accounts(defs, members, i, Looked(members, signal), installVolatile,
                     StorageLoop(defs, p, members, i, installVolatile, signal))
  {
    AccountsStep(defs, members, i, Looked(members, signal), installVolatile,
                 StorageLoop(defs, q, members, i + 1, installVolatile, signal));
  }

  lemma LoopStops(defs: seq<Def>, p: Progress, members: seq<Member>, i: nat, installVolatile: bool, signal: Option<nat>,
                  t: Turn)
    requires p.cursor <= |defs| && i < Looked(members, signal) && !Fit(defs, members[i], installVolatile)
    requires StorageTurn(defs, p, members[i], installVolatile) == t
    requires t.Stop? && t.rc < 0 && Blames(defs, members[i], t.rc)
    ensures Accounts(defs, members, i, Looked(members, signal), installVolatile,
                     StorageLoop(defs, p, members, i, installVolatile, signal))
  {
    AccountsStop(defs, members, i, Looked(members, signal), installVolatile, t);
  }

  /** After a turn that goes on, what was sent is what the members so far stand for. */
  lemma FramesAfter(defs: seq<Def>, p: Progress, members: seq<Member>, i: nat, installVolatile: bool)
    requires p.cursor <= |defs| && DistinctPaths(defs) && i < |members|
    requires p.frames == FramesOf(defs, members, i, installVolatile) && InBlocks(p.frames)
    ensures var t := StorageTurn(defs, p, members[i], installVolatile);
            && (t.Go? <==> Fit(defs, members[i], installVolatile))
            && (t.Go? ==> t.p.frames == FramesOf(defs, members, i + 1, installVolatile) && InBlocks(t.p.frames))
            && (t.Stop? ==> t.rc < 0 && Blames(defs, members[i], t.rc))
  {
    TurnMeans(defs, p, members[i], installVolatile);
  }

  lemma {:induction false} LoopMeans(defs: seq<Def>, p: Progress, members: seq<Member>, i: nat, installVolatile: bool,
                                     signal: Option<nat>)
    requires p.cursor <= |defs| && DistinctPaths(defs) && i <= Looked(members, signal)
    requires p.frames == FramesOf(defs, members, i, installVolatile) && InBlocks(p.frames)
    ensures Accounts(defs, members, i, Looked(members, signal), installVolatile,
                     StorageLoop(defs, p, members, i, installVolatile, signal))
    decreases |members| - i
  {
    if i == Looked(members, signal) {
      AccountsEnd(defs, members, i, installVolatile, p);
    } else {
      FramesAfter(defs, p, members, i, installVolatile);
      var t := StorageTurn(defs, p, members[i], installVolatile);
      if t.Go? {
        LoopMeans(defs, t.p, members, i + 1, installVolatile, signal);
        LoopGoesOn(defs, p, members, i, installVolatile, signal, t.p);
      } else {
        LoopStops(defs, p, members, i, installVolatile, signal, t);
      }
    }
  }

  /**
   The storage section goes well if and only if every member that it looks at fits: it has a definition or is a directory, its
   file is readable, its digest agrees, its link has a source.  Then it sends the members in order; otherwise the
   transfer ends over the first member that does not fit, with a code that tells what is wrong with it.
   */
  lemma StorageMeans(defs: seq<Def>, members: seq<Member>, installVolatile: bool, signal: Option<nat>)
    requires DistinctPaths(defs)
    ensures var t, n := StorageLoop(defs, START, members, 0, installVolatile, signal), Looked(members, signal);
            Accounts(defs, members, 0, n, installVolatile, t)
  {
    LoopMeans(defs, START, members, 0, installVolatile, signal);
  }

  // ------------------------------------------------------------ what the archive lacks

  /** The second loop has to send something for definition `k`, or cannot. */
  predicate IsLeft(defs: seq<Def>, flags: set<nat>, k: nat)
    requires k < |defs|
  {
    !defs[k].control && k !in flags
  }

  /** The definition ends the second loop. */
  predicate Breaks(d: Def, header: int, ustar: bool)
  {
    !d.attributesOk || (IsLink(d) && (!d.hasLinkSource || (ustar && d.longLink))) || (Sendable(d) && header < 0)
  }

  /** What goes out for the definitions from `i` up to `b`, in their order. */
  function RestFrames(defs: seq<Def>, flags: set<nat>, wire: seq<int>, i: nat, b: nat): seq<Frame>
    requires |wire| == |defs| && i <= b <= |defs|
    decreases b - i
  {
    if i == b then []
    else (if IsLeft(defs, flags, i) && Sendable(defs[i]) && wire[i] >= 0 then [Frame(i, wire[i], 0)] else []) +
         RestFrames(defs, flags, wire, i + 1, b)
  }

  /** The second loop gets as far as definition `b`. */
  ghost predicate BreaksAt(defs: seq<Def>, flags: set<nat>, wire: seq<int>, ustar: bool, i: nat, b: nat)
    requires |wire| == |defs|
  {
    && i <= b <= |defs| && (b < |defs| ==> IsLeft(defs, flags, b) && Breaks(defs[b], wire[b], ustar))
    && forall k: nat :: i <= k < b && IsLeft(defs, flags, k) ==> !Breaks(defs[k], wire[k], ustar)
  }

  /** How the second loop ends: by the definition it breaks at, or by whether a regular file was missing. */
  ghost function StatusAt(defs: seq<Def>, flags: set<nat>, i: nat, b: nat, before: int): int
    requires b <= |defs|
  {
    if b == |defs| then if Lacks(defs, flags, i) then 1 else before
    else if !defs[b].attributesOk then 2
    else if IsLink(defs[b]) && !defs[b].hasLinkSource then 3
    else 4
  }

  lemma BreakStep(defs: seq<Def>, flags: set<nat>, wire: seq<int>, ustar: bool, i: nat, b: nat, before: int)
    requires |wire| == |defs| && BreaksAt(defs, flags, wire, ustar, i, b) && i < b
    ensures BreaksAt(defs, flags, wire, ustar, i + 1, b)
    ensures IsLeft(defs, flags, i) ==> !Breaks(defs[i], wire[i], ustar)
    ensures StatusAt(defs, flags, i, b, before) ==
            StatusAt(defs, flags, i + 1, b, if IsLeft(defs, flags, i) && defs[i].kind == 'f' then 1 else before)
    ensures RestFrames(defs, flags, wire, i, b) ==
            (if IsLeft(defs, flags, i) && Sendable(defs[i]) then [Frame(i, wire[i], 0)] else []) +
            RestFrames(defs, flags, wire, i + 1, b)
  {
    LacksStep(defs, flags, i);
  }

  /** One definition that the loop does not break at. */
  function RestNext(d: Def, left: bool, header: int, i: nat, r: RestResult): RestResult
  {
    if left && d.kind == 'f' then r.(status := 1)
    else r.(frames := r.frames + if left && Sendable(d) && header >= 0 then [Frame(i, header, 0)] else [])
  }

  lemma RestStep(defs: seq<Def>, flags: set<nat>, wire: seq<int>, ustar: bool, r: RestResult, i: nat)
    requires |wire| == |defs| && i < |defs| && (IsLeft(defs, flags, i) ==> !Breaks(defs[i], wire[i], ustar))
    ensures Rest(defs, flags, wire, ustar, r, i) ==
            Rest(defs, flags, wire, ustar, RestNext(defs[i], IsLeft(defs, flags, i), wire[i], i, r), i + 1)
  {
    assert r.frames + [] == r.frames;
  }

  /**
   The second loop sends what has no data in the order of the INFO file, up to the first definition that it breaks at, and its
   status is that of this one, or tells whether a regular file is missing.
   */
  lemma {:induction false} RestMeans(defs: seq<Def>, flags: set<nat>, wire: seq<int>, ustar: bool, r: RestResult, i: nat,
                                     b: nat)
    requires |wire| == |defs| && BreaksAt(defs, flags, wire, ustar, i, b)
    ensures Rest(defs, flags, wire, ustar, r, i) ==
            RestResult(r.frames + RestFrames(defs, flags, wire, i, b), StatusAt(defs, flags, i, b, r.status))
    decreases b - i
  {
    if i == b {
      assert r.frames + [] == r.frames;
    } else {
      BreakStep(defs, flags, wire, ustar, i, b, r.status);
      RestStep(defs, flags, wire, ustar, r, i);
      var next := RestNext(defs[i], IsLeft(defs, flags, i), wire[i], i, r);
      RestMeans(defs, flags, wire, ustar, next, i + 1, b);
      var front := if IsLeft(defs, flags, i) && Sendable(defs[i]) then [Frame(i, wire[i], 0)] else [];
      assert next.frames == r.frames + front;
      Assoc(r.frames, front, RestFrames(defs, flags, wire, i + 1, b));
    }
  }

  // ------------------------------------------------------------ the whole transfer

  /** The definitions that the archive has a member for. */
  ghost function Named(defs: seq<Def>, members: seq<Member>): set<nat>
  {
    set k: nat | k < |defs| && !defs[k].control && NamedBy(defs, members, |members|, k)
  }

  lemma FlagsAreTheNamed(defs: seq<Def>, members: seq<Member>, installVolatile: bool)
    requires DistinctPaths(defs) && DistinctMembers(defs, members)
    requires StorageLoop(defs, START, members, 0, installVolatile, None).Go?
    ensures StorageLoop(defs, START, members, 0, installVolatile, None).p.flags == Named(defs, members)
  {
    LoopOnce(defs, START, members, 0, installVolatile, None);
    LoopFlagsAll(defs, START, members, 0, installVolatile);
  }

  /**
   A transfer that nothing cuts short sends the members of the archive in order, each with its header and its data in whole
   blocks, and then the headers of what the archive lacks in the order of the INFO file, up to the first that it breaks at.
   */
  lemma TransferMeans(defs: seq<Def>, members: seq<Member>, wire: seq<int>, ustar: bool, installVolatile: bool,
                      refused: Option<nat>, payload: nat, b: nat)
    requires |wire| == |defs| && DistinctPaths(defs) && DistinctMembers(defs, members)
    requires AllFit(defs, members, 0, |members|, installVolatile)
    requires BreaksAt(defs, Named(defs, members), wire, ustar, 0, b)
    ensures var o, named := Transfer(defs, members, wire, ustar, installVolatile, None, refused, payload), Named(defs, members);
            && o.sent == FramesOf(defs, members, |members|, installVolatile) + RestFrames(defs, named, wire, 0, b)
            && (o.filesMissing <==> b < |defs| || Lacks(defs, named, 0))
  {
    var named := Named(defs, members);
    StorageMeans(defs, members, installVolatile, None);
    FlagsAreTheNamed(defs, members, installVolatile);
    var p := StorageLoop(defs, START, members, 0, installVolatile, None).p;
    RestMeans(defs, named, wire, ustar, RestResult(p.frames, 0), 0, b);
    if !AnyMissing(defs, named) {
      NothingLeft(defs, named, wire, 0, b);
      assert p.frames + [] == p.frames;
    }
  }

  lemma {:induction false} NothingLeft(defs: seq<Def>, flags: set<nat>, wire: seq<int>, i: nat, b: nat)
    requires |wire| == |defs| && i <= b <= |defs| && !AnyMissing(defs, flags)
    ensures RestFrames(defs, flags, wire, i, b) == [] && !Lacks(defs, flags, i)
    ensures b < |defs| ==> !IsLeft(defs, flags, b)
    decreases b - i
  {
    if i == b {
    } else {
      NothingLeft(defs, flags, wire, i + 1, b);
    }
  }

  /** After a signal nothing is sent for what the archive lacks. */
  lemma SignalledTransfer(defs: seq<Def>, members: seq<Member>, wire: seq<int>, ustar: bool, installVolatile: bool,
                          signal: nat, refused: Option<nat>, payload: nat)
    requires |wire| == |defs| && DistinctPaths(defs) && signal <= |members|
    requires AllFit(defs, members, 0, signal, installVolatile)
    ensures var o := Transfer(defs, members, wire, ustar, installVolatile, Some(signal), refused, payload);
            o.sent == FramesOf(defs, members, signal, installVolatile) && !o.filesMissing
  {
    StorageMeans(defs, members, installVolatile, Some(signal));
  }

  /** A transfer that returns 0 found every member that it looked at fit: no file was sent that disagrees with its digest. */
  lemma GoodTransferFits(defs: seq<Def>, members: seq<Member>, wire: seq<int>, ustar: bool, installVolatile: bool,
                         signal: Option<nat>, refused: Option<nat>, payload: nat, j: nat)
    requires |wire| == |defs| && DistinctPaths(defs) && j < Looked(members, signal)
    requires Transfer(defs, members, wire, ustar, installVolatile, signal, refused, payload).rc == 0
    ensures Fit(defs, members[j], installVolatile)
  {
    StorageMeans(defs, members, installVolatile, signal);
  }

  /** What padding means: all that was asked for, or so many whole blocks and the negative of their bytes, or -1 for none. */
  lemma PaddedMeans(amount: int, refused: Option<nat>)
    ensures var (ret, count) := Padded(amount, refused);
            && count <= (if amount > 0 then amount else 0)
            && (ret >= 0 <==> refused.None? || refused.value * 512 >= amount || amount <= 0)
            && (ret >= 0 ==> ret == count == if amount > 0 then amount else 0)
            && (ret < 0 ==> count == refused.value * 512 && if count > 0 then ret + count == 0 else ret == -1)
  {
  }

  /** The transfer stops short of the padding exactly when the two trailer blocks do not fit any more. */
  lemma NoRoomMeans(written: nat, payload: nat, refused: Option<nat>)
    requires 1024 <= payload < MODULUS64
    ensures Ending(written, payload, refused).0 == -81 <==> payload < written + 1024
  {
  }
}
