/**
 The targets of a run: the operands on the command line, then the lines of the target
 files, handed out one at a time by a function that keeps its position in static
 variables and advances the caller's index.
 */
module TargetIterator {
  import opened Wrappers
  import opened Text

  const SWC_TARGET_FD_ARRAY_LEN := 10

  // ------------------------------------------------------------ cleaning one line of a target file

  /** isspace in the C locale */
  predicate IsSpace(c: char)
  {
    c == ' ' || c == '\t' || c == '\n' || c == '\U{0b}' || c == '\U{0c}' || c == '\r'
  }

  /** What ends the useful part of a line. */
  predicate IsStop(c: char)
  {
    c == '\n' || c == '\r' || c == '#'
  }

  /** The line up to its end or its comment. */
  function Body(line: string): string
  {
    if line == "" || IsStop(line[0]) then "" else [line[0]] + Body(line[1..])
  }

  function TrimLeft(s: string): string
  {
    if s != "" && IsSpace(s[0]) then TrimLeft(s[1..]) else s
  }

  function TrimRight(s: string): string
  {
    if s != "" && IsSpace(s[|s| - 1]) then TrimRight(s[..|s| - 1]) else s
  }

  /** An operand with its '@'. */
  function At(s: string): string
  {
    if s != "" && s[0] == '@' then s else "@" + s
  }

  /** The target a line names; a blank line or a comment names none. */
  function Clean(line: string): string
  {
    Trimmed(Body(line))
  }

  /** The text without the white space around it, as a target. */
  function Trimmed(body: string): string
  {
    var t := TrimLeft(TrimRight(body));
    if t == "" then "" else At(t)
  }

  /** strpbrk(line, "\n\r#") on the buffer */
  method FindStop(buf: array<char>, len: nat) returns (k: nat)
    requires len < buf.Length
    ensures k <= len && buf[..k] == Body(buf[..len])
    ensures k < len ==> IsStop(buf[k])
  {
    k := 0;
    assert buf[0..len] == buf[..len];
    while k < len && !IsStop(buf[k])
      invariant 0 <= k <= len
      invariant buf[..k] + Body(buf[k..len]) == Body(buf[..len])
    {
      assert buf[k..len][1..] == buf[k + 1..len];
      assert buf[..k + 1] == buf[..k] + [buf[k]];
      k := k + 1;
    }
    assert Body(buf[k..len]) == "";
  }

  /** Squash white space at the end of the text in `buf[..k]`; a first character is left alone. */
  method SquashEnd(buf: array<char>, k: nat) returns (stop: nat)
    requires k < buf.Length && buf[k] == '\0'
    modifies buf
    ensures stop <= k && buf[stop] == '\0' && buf[..stop] == old(buf[..stop])
    ensures TrimLeft(buf[..stop]) == TrimLeft(TrimRight(old(buf[..k])))
  {
    ghost var body := buf[..k];
    var end := k - 1;
    stop := k;
    assert body[..k] == body;
    while end > 0 && IsSpace(buf[end])
      invariant stop == end + 1 && 0 <= stop <= k && buf[stop] == '\0'
      invariant forall j :: 0 <= j < stop ==> buf[j] == body[j]
      invariant TrimRight(body[..stop]) == TrimRight(body)
      decreases end
    {
      TrimRightStep(body, stop);
      buf[end] := '\0';
      stop := end;
      end := end - 1;
    }
    assert buf[..stop] == body[..stop];
    BlankOrTrimmed(body[..stop]);
  }

  lemma TrimRightStep(body: string, stop: nat)
    requires 0 < stop <= |body| && IsSpace(body[stop - 1])
    ensures TrimRight(body[..stop]) == TrimRight(body[..stop - 1])
  {
    assert body[..stop][..stop - 1] == body[..stop - 1];
  }

  /** Squash white space at the beginning of the text in `buf[..stop]`. */
  method SkipStart(buf: array<char>, stop: nat) returns (start: nat)
    requires stop < buf.Length && buf[stop] == '\0'
    ensures start <= stop && buf[start..stop] == TrimLeft(buf[..stop])
  {
    start := 0;
    assert buf[0..stop] == buf[..stop];
    while IsSpace(buf[start])
      invariant 0 <= start <= stop
      invariant TrimLeft(buf[start..stop]) == TrimLeft(buf[..stop])
      decreases stop - start
    {
      assert buf[start..stop][1..] == buf[start + 1..stop];
      start := start + 1;
    }
    assert start < stop ==> buf[start..stop][0] == buf[start];
  }

  /** Put the leading '@' before the text in `buf[start..stop]`, unless it is empty or has one. */
  method PrependAt(buf: array<char>, start: nat, stop: nat) returns (n: nat)
    requires start <= stop && stop + 1 < buf.Length && buf[stop] == '\0'
    modifies buf
    ensures start + n < buf.Length && buf[start + n] == '\0'
    ensures var t := old(buf[start..stop]);
            buf[start..start + n] == if t == "" then "" else At(t)
  {
    n := stop - start;
    ghost var t := buf[start..stop];
    if n > 0 && buf[start] != '@' {
      // memmove up by one
      forall i | start < i <= stop + 1 { buf[i] := buf[i - 1]; }
      buf[start] := '@';
      n := n + 1;
      assert forall i :: 0 <= i < |t| ==> buf[start + 1 + i] == t[i];
      assert buf[start..start + n] == [buf[start]] + buf[start + 1..start + n];
    }
  }

  /** Cut the line at its end or its comment. */
  method CutComment(buf: array<char>, len: nat) returns (k: nat)
    requires len < buf.Length && buf[len] == '\0'
    modifies buf
    ensures k <= len && buf[k] == '\0' && buf[..k] == Body(old(buf[..len]))
  {
    k := FindStop(buf, len);
    if k < len {
      buf[k] := '\0';
    }
    assert buf[..k] == old(buf[..k]);
  }

  /** Squash the white space around the text in `buf[..k]` and put the '@' before it. */
  method TrimAndMark(buf: array<char>, k: nat) returns (start: nat, n: nat)
    requires k + 2 < buf.Length && buf[k] == '\0'
    modifies buf
    ensures start + n < buf.Length && buf[start..start + n] == Trimmed(old(buf[..k])) && buf[start + n] == '\0'
  {
    var stop := SquashEnd(buf, k);
    start := SkipStart(buf, stop);
    n := PrependAt(buf, start, stop);
  }

  /**
   process_targetfile_line: the line is in `buf[..len]`, ended by NUL and with room for two more bytes.
   The target is what the buffer holds from `start`.
   */
  method ProcessTargetfileLine(buf: array<char>, len: nat) returns (start: nat, n: nat)
    requires len + 2 < buf.Length && buf[len] == '\0'
    modifies buf
    ensures start + n < buf.Length && buf[start..start + n] == Clean(old(buf[..len])) && buf[start + n] == '\0'
  {
    if len == 0 {
      return 0, 0;
    }
    var k := CutComment(buf, len);
    start, n := TrimAndMark(buf, k);
  }

  /**
   A text whose last character is not a space, or that is one character long, is trimmed right as far as the
   left trim can see.
   */
  lemma BlankOrTrimmed(s: string)
    requires |s| <= 1 || !IsSpace(s[|s| - 1])
    ensures TrimLeft(TrimRight(s)) == TrimLeft(s)
  {
    if |s| == 1 && IsSpace(s[0]) {
      assert s[..0] == "" && s[1..] == "";
    }
  }

  // ------------------------------------------------------------ the targets there are

  /**
   The targets the operands name.  A lone "@" takes the next operand as its target; when there is none the
   caller is handed NULL.
   */
  function OperandTargets(args: seq<string>): seq<Option<string>>
    decreases |args|
  {
    if args == [] then []
    else if args[0] == "@" then
      if |args| == 1 then [None] else [Some("@" + args[1])] + OperandTargets(args[2..])
    else [Some(At(args[0]))] + OperandTargets(args[1..])
  }

  /** How many operands the next target takes. */
  function Taken(args: seq<string>): (n: nat)
    requires args != []
    ensures n <= |args|
  {
    if args[0] == "@" && |args| > 1 then 2 else 1
  }

  /** The first target comes from the operands that are taken, and the others from the rest. */
  lemma OperandStep(args: seq<string>, more: seq<Option<string>>)
    requires args != []
    ensures var r := if args[0] != "@" then Some(At(args[0])) else if |args| == 1 then None else Some("@" + args[1]);
            OperandTargets(args) + more == [r] + (OperandTargets(args[Taken(args)..]) + more)
  {
  }

  /** The lines read from a file: the last one may lack its newline, and is lost if the read fails there. */
  function RawLines(content: string, broken: bool): seq<string>
  {
    Lines(content) + if Residue(content) == "" || broken then [] else [Residue(content)]
  }

  function CleanLines(lines: seq<string>): seq<Option<string>>
  {
    if lines == [] then []
    else (if Clean(lines[0]) == "" then [] else [Some(Clean(lines[0]))]) + CleanLines(lines[1..])
  }

  /** The targets of the open files from index `i` on.  A descriptor given twice is read to its end the first time. */
  function FileTargets(fds: seq<int>, i: nat, unread: map<int, string>, broken: set<int>): seq<Option<string>>
    requires i <= |fds|
    decreases |fds| - i
  {
    if i == |fds| || fds[i] < 0 || fds[i] !in unread then []
    else
      var fd := fds[i];
      CleanLines(RawLines(unread[fd], fd in broken)) + FileTargets(fds, i + 1, unread[fd := ""], broken)
  }

  // ------------------------------------------------------------ the descriptor array

  /** The array holds `n` descriptors and the -1 that ends them. */
  ghost predicate Terminated(fds: seq<int>, n: nat)
  {
    n < |fds| && fds[n] == -1 && forall i :: 0 <= i < n ==> fds[i] >= 0
  }

  /**
   swc_process_swoperand_file: note one more file of targets.  `openRet` is what open(2) returned, unless the
   name is "-"; a failed open or a full array is refused.
   */
  method ProcessOperandFile(filename: string, openRet: int, fds: array<int>, index: nat, stdinInUse: nat)
    returns (ret: int, index': nat, stdinInUse': nat)
    requires fds.Length == SWC_TARGET_FD_ARRAY_LEN && Terminated(fds[..], index)
    modifies fds
    ensures Terminated(fds[..], index') && fds[..index] == old(fds[..index])
    ensures ret == if (filename != "-" && openRet < 0) || index >= SWC_TARGET_FD_ARRAY_LEN - 2 then -1 else 0
    ensures ret == -1 ==> index' == index
    ensures ret == 0 ==> index' == index + 1 && fds[index] == if filename == "-" then 0 else openRet
    ensures stdinInUse' == if filename == "-" then stdinInUse + 1 else stdinInUse
  {
    ret, index', stdinInUse' := 0, index, stdinInUse;
    var listFd := openRet;
    if filename == "-" {
      stdinInUse' := stdinInUse + 1;
      listFd := 0;
    } else if listFd < 0 {
      return -1, index, stdinInUse;
    }
    if index >= SWC_TARGET_FD_ARRAY_LEN - 2 {
      return -1, index, stdinInUse';
    }
    fds[index] := listFd;
    index' := index + 1;
    fds[index'] := -1;
  }

  // ------------------------------------------------------------ the iterator

  class TargetSource {
    const argv: seq<string>
    const defaultTarget: string
    const broken: set<int>            // descriptors whose last read fails
    var optind: nat
    var fds: array<int>
    var unread: map<int, string>      // what is left to read from each descriptor
    var targetfdIndex: nat            // static
    var didOne: bool                  // static
    ghost const nfiles: nat

    ghost predicate Valid()
      reads this, fds
    {
      && Terminated(fds[..], nfiles)
      && targetfdIndex <= nfiles
      && forall i :: 0 <= i < nfiles ==> fds[i] in unread
    }

    /** Everything that is still to be handed out, in order. */
    ghost function Pending(): seq<Option<string>>
      requires Valid()
      reads this, fds
    {
      if optind == |argv| && fds[targetfdIndex] < 0 && !didOne then [Some("@" + defaultTarget)]
      else if optind < |argv| then OperandTargets(argv[optind..]) + FileTargets(fds[..], targetfdIndex, unread, broken)
      else FileTargets(fds[..], targetfdIndex, unread, broken)
    }

    constructor (argv: seq<string>, optind: nat, fds: array<int>, ghost n: nat, unread: map<int, string>,
                 broken: set<int>, defaultTarget: string)
      requires optind <= |argv| && Terminated(fds[..], n) && forall i :: 0 <= i < n ==> fds[i] in unread
      ensures Valid() && this.fds == fds
      ensures Pending() == if optind == |argv| && fds[0] < 0 then [Some("@" + defaultTarget)]
                           else OperandTargets(argv[optind..]) + FileTargets(fds[..], 0, unread, broken)
    {
      this.argv, this.optind, this.fds, this.unread := argv, optind, fds, unread;
      this.broken, this.defaultTarget := broken, defaultTarget;
      targetfdIndex, didOne, nfiles := 0, false, n;
      new;
      assert argv[|argv|..] == [];
      assert OperandTargets([]) + FileTargets(fds[..], 0, unread, broken) == FileTargets(fds[..], 0, unread, broken);
    }

    /** swgp_read_line: the next line of a file, 0 at its end, -1 on a read error. */
    method ReadLine(fd: int) returns (n: int, line: string)
      requires fd in unread
      modifies this`unread
      ensures unread.Keys == old(unread.Keys)
      ensures var c := old(unread[fd]);
              var k := IndexOf(c, '\n');
              if k < |c| then n == k + 1 && line == c[..k + 1] && unread == old(unread)[fd := c[k + 1..]]
              else unread == old(unread)[fd := ""] && (if fd in broken then n == -1 else n == |c| && line == c)
    {
      line := "";
      n := 0;
      var c := unread[fd];
      var i := 0;
      while i < |c| && c[i] != '\n'
        invariant 0 <= i <= |c| && line == c[..i] && n == i && '\n' !in c[..i]
      {
        line := line + [c[i]];
        n := n + 1;
        i := i + 1;
      }
      IndexOfIs(c, '\n', i);
      if i < |c| {
        line := line + [c[i]];
        n := n + 1;
        unread := unread[fd := c[i + 1..]];
      } else {
        unread := unread[fd := ""];
        if fd in broken {
          n := -1;
        }
      }
    }

    /**
     swc_get_next_target.  `remains` counts the operands behind the one that was looked at, and is 1 while there is a file
     to read from.
     */
    method GetNext() returns (r: Option<string>, remains: nat)
      requires Valid()
      modifies this`optind, this`unread, this`targetfdIndex, this`didOne
      ensures Valid()
      ensures old(Pending()) == [] ==> r.None? && Pending() == []
      ensures old(Pending()) != [] ==> r == old(Pending())[0] && Pending() == old(Pending())[1..]
      ensures remains == if old(optind) < |argv| then |argv| - old(optind) - 1
                         else if old(fds[targetfdIndex]) >= 0 then 1 else 0
    {
      remains := 0;
      if optind == |argv| && fds[targetfdIndex] < 0 && !didOne {
        didOne := true;
        optind := optind + 1;
        return Some("@" + defaultTarget), 0;
      }
      didOne := true;
      if optind < |argv| {
        remains := |argv| - (optind + 1);
        r := NextOperand();
        return;
      }
      if fds[targetfdIndex] >= 0 {
        remains := 1;
      }
      r := NextLine();
    }

    /** The operand branch: the index moves by one, or by two after a lone "@". */
    method NextOperand() returns (r: Option<string>)
      requires Valid() && optind < |argv| && didOne
      modifies this`optind
      ensures Valid() && r == old(Pending())[0] && Pending() == old(Pending())[1..]
    {
      ghost var rest, files := argv[optind..], FileTargets(fds[..], targetfdIndex, unread, broken);
      OperandStep(rest, files);
      var current := argv[optind];
      optind := optind + 1;
      if current == "@" {
        optind := optind + 1;
        if optind - 1 == |argv| {
          r := None;
        } else {
          r := Some("@" + argv[optind - 1]);
        }
      } else {
        r := Some(if current != "" && current[0] == '@' then current else "@" + current);
      }
      assert rest[Taken(rest)..] == if optind < |argv| then argv[optind..] else [];
      assert [] + files == files;
    }

    /** The text of a line as a buffer with room to clean it. */
    static method CleanLine(line: string) returns (r: string)
      ensures r == Clean(line)
    {
      var buf := new char[|line| + 3];
      forall i | 0 <= i < buf.Length { buf[i] := if i < |line| then line[i] else '\0'; }
      assert buf[..|line|] == line;
      var s, len := ProcessTargetfileLine(buf, |line|);
      r := buf[s..s + len];
    }

    /** The targets of the files that are still to be read. */
    ghost function FilesPending(): seq<Option<string>>
      requires Valid()
      reads this, fds
    {
      FileTargets(fds[..], targetfdIndex, unread, broken)
    }

    /** One turn of the file loop: one line is read, or the next file becomes the current one. */
    method ReadTarget(fd: int) returns (r: Option<string>)
      requires Valid() && fd == fds[targetfdIndex] && fd >= 0
      modifies this`unread, this`targetfdIndex
      ensures Valid() && targetfdIndex >= old(targetfdIndex)
      ensures r.Some? ==> old(FilesPending()) == [r] + FilesPending()
      ensures r.None? ==> old(FilesPending()) == FilesPending()
      ensures r.None? && targetfdIndex == old(targetfdIndex) ==> |unread[fd]| < old(|unread[fd]|)
    {
      r := None;
      var n, line := ReadPending(fd);
      if n > 0 {
        var target := CleanLine(line);
        if |target| >= 1 {
          r := Some(target);
        } else {
          assert LineTarget(line) + FilesPending() == FilesPending();
        }
      } else if n == 0 {
        targetfdIndex := targetfdIndex + 1;
      } else {
        targetfdIndex := targetfdIndex + 1;
      }
    }

    /** A read from the current file, and what it takes from the targets to come. */
    method ReadPending(fd: int) returns (n: int, line: string)
      requires Valid() && fd == fds[targetfdIndex] && fd >= 0
      modifies this`unread
      ensures Valid()
      ensures n > 0 ==> |unread[fd]| < old(|unread[fd]|) && old(FilesPending()) == LineTarget(line) + FilesPending()
      ensures n <= 0 ==> old(FilesPending()) == FileTargets(fds[..], targetfdIndex + 1, unread, broken)
    {
      ghost var before, all := unread, fds[..];
      FileStep(all, targetfdIndex, before, broken);
      n, line := ReadLine(fd);
      assert fds[..] == all;
      if n > 0 {
        assert unread == before[fd := unread[fd]];
      }
    }

    /** The file branch: read on until a line names a target or the files are exhausted. */
    method NextLine() returns (r: Option<string>)
      requires Valid()
      modifies this`unread, this`targetfdIndex
      ensures Valid()
      ensures old(FilesPending()) == [] ==> r.None? && FilesPending() == []
      ensures old(FilesPending()) != [] ==> old(FilesPending()) == [r] + FilesPending()
    {
      var fd := fds[targetfdIndex];
      while fd >= 0
        invariant Valid() && fd == fds[targetfdIndex] && FilesPending() == old(FilesPending())
        decreases nfiles - targetfdIndex, if fd >= 0 then |unread[fd]| else 0
      {
        r := ReadTarget(fd);
        if r.Some? {
          return;
        }
        fd := fds[targetfdIndex];
      }
      r := None;
    }

    /** Calling until NULL comes back: exactly the pending targets up to the first NULL among them, if any. */
    method TakeAll() returns (targets: seq<string>)
      requires Valid()
      modifies this`optind, this`unread, this`targetfdIndex, this`didOne
      ensures targets == UntilNull(old(Pending()))
    {
      targets := [];
      while true
        invariant Valid()
        invariant targets + UntilNull(Pending()) == UntilNull(old(Pending()))
        decreases |Pending()|
      {
        ghost var p := Pending();
        var r, _ := GetNext();
        if r.None? {
          return;
        }
        targets := targets + [r.value];
      }
    }
  }

  function UntilNull(items: seq<Option<string>>): seq<string>
  {
    if items == [] || items[0].None? then [] else [items[0].value] + UntilNull(items[1..])
  }

  /** The targets of one line: one or none. */
  function LineTarget(line: string): seq<Option<string>>
  {
    if Clean(line) == "" then [] else [Some(Clean(line))]
  }

  lemma CleanCons(line: string, lines: seq<string>)
    ensures CleanLines([line] + lines) == LineTarget(line) + CleanLines(lines)
  {
    assert ([line] + lines)[1..] == lines;
  }

  /** What follows the current file does not depend on what is left in it. */
  lemma CurrentFile(fds: seq<int>, i: nat, unread: map<int, string>, broken: set<int>, content: string)
    requires i < |fds| && fds[i] >= 0 && fds[i] in unread
    ensures var fd := fds[i];
            FileTargets(fds, i, unread[fd := content], broken) ==
            CleanLines(RawLines(content, fd in broken)) + FileTargets(fds, i + 1, unread[fd := ""], broken)
  {
    var fd := fds[i];
    assert unread[fd := content][fd := ""] == unread[fd := ""];
  }

  lemma RawLinesCons(line: string, rest: string, broken: bool)
    requires IsLine(line)
    ensures RawLines(line + rest, broken) == [line] + RawLines(rest, broken)
  {
    LinesCons(line, rest);
    var last := if Residue(rest) == "" || broken then [] else [Residue(rest)];
    Assoc([line], Lines(rest), last);
  }

  lemma RawLinesLast(c: string, broken: bool)
    requires IndexOf(c, '\n') == |c|
    ensures RawLines(c, broken) == if broken || c == "" then [] else [c]
  {
  }

  /** Reading a whole line. */
  lemma LineStep(fds: seq<int>, i: nat, unread: map<int, string>, broken: set<int>, line: string, rest: string)
    requires i < |fds| && fds[i] >= 0 && fds[i] in unread && IsLine(line)
    ensures FileTargets(fds, i, unread[fds[i] := line + rest], broken) ==
            LineTarget(line) + FileTargets(fds, i, unread[fds[i] := rest], broken)
  {
    var fd := fds[i];
    var lines := RawLines(rest, fd in broken);
    CurrentFile(fds, i, unread, broken, line + rest);
    RawLinesCons(line, rest, fd in broken);
    CleanCons(line, lines);
    CurrentFile(fds, i, unread, broken, rest);
    Assoc(LineTarget(line), CleanLines(lines), FileTargets(fds, i + 1, unread[fd := ""], broken));
  }

  /** Reading what is left without a newline. */
  lemma LastStep(fds: seq<int>, i: nat, unread: map<int, string>, broken: set<int>, c: string)
    requires i < |fds| && fds[i] >= 0 && fds[i] in unread && IndexOf(c, '\n') == |c|
    ensures var all := FileTargets(fds, i, unread[fds[i] := c], broken);
            if fds[i] in broken || c == "" then all == FileTargets(fds, i + 1, unread[fds[i] := ""], broken)
            else all == LineTarget(c) + FileTargets(fds, i, unread[fds[i] := ""], broken)
  {
    var fd := fds[i];
    var rest := FileTargets(fds, i + 1, unread[fd := ""], broken);
    CurrentFile(fds, i, unread, broken, c);
    RawLinesLast(c, fd in broken);
    if fd in broken || c == "" {
      assert CleanLines([]) + rest == rest;
    } else {
      CurrentFile(fds, i, unread, broken, "");
      RawLinesLast("", false);
      CleanCons(c, []);
      assert [c] + [] == [c];
      Assoc(LineTarget(c), CleanLines([]), rest);
    }
  }

  /** One read from the current file, seen on the list of targets still to come. */
  lemma FileStep(fds: seq<int>, i: nat, unread: map<int, string>, broken: set<int>)
    requires i < |fds| && fds[i] >= 0 && fds[i] in unread
    ensures var fd := fds[i];
            var c := unread[fd];
            var k := IndexOf(c, '\n');
            var all := FileTargets(fds, i, unread, broken);
            if k < |c| then all == LineTarget(c[..k + 1]) + FileTargets(fds, i, unread[fd := c[k + 1..]], broken)
            else if fd in broken || c == "" then all == FileTargets(fds, i + 1, unread[fd := ""], broken)
            else all == LineTarget(c) + FileTargets(fds, i, unread[fd := ""], broken)
  {
    var c := unread[fds[i]];
    assert unread == unread[fds[i] := c];
    if IndexOf(c, '\n') < |c| {
      var line, rest := FirstLine(c);
      LineStep(fds, i, unread, broken, line, rest);
    } else {
      LastStep(fds, i, unread, broken, c);
    }
  }

  // ------------------------------------------------------------ what a run hands out

  ghost predicate AllTargets(items: seq<Option<string>>)
  {
    forall i :: 0 <= i < |items| ==> items[i].Some? && items[i].value != "" && items[i].value[0] == '@'
  }

  /** How many operands at the end are a lone "@". */
  function TrailingAts(args: seq<string>): nat
  {
    if args == [] || args[|args| - 1] != "@" then 0 else 1 + TrailingAts(args[..|args| - 1])
  }

  lemma {:induction false} TrailingCons(a: string, args: seq<string>)
    ensures TrailingAts([a] + args) == if TrailingAts(args) == |args| && a == "@" then |args| + 1 else TrailingAts(args)
    ensures TrailingAts(args) <= |args|
    decreases |args|
  {
    var all := [a] + args;
    if args == [] {
      assert all[..0] == [];
    } else {
      assert all[..|all| - 1] == [a] + args[..|args| - 1];
      TrailingCons(a, args[..|args| - 1]);
    }
  }

  lemma TrailingDrop(args: seq<string>)
    requires args != []
    ensures TrailingAts(args[1..]) <= |args| - 1
    ensures TrailingAts(args) ==
            if TrailingAts(args[1..]) == |args| - 1 && args[0] == "@" then |args| else TrailingAts(args[1..])
  {
    assert args == [args[0]] + args[1..];
    TrailingCons(args[0], args[1..]);
  }

  lemma ParityOfPair(a: string, rest: seq<string>)
    ensures TrailingAts(["@"] + ([a] + rest)) % 2 == TrailingAts(rest) % 2
  {
    TrailingCons("@", [a] + rest);
    TrailingCons(a, rest);
  }

  /** Taking a pair behind a lone "@" off the front does not change the parity of the trailing run. */
  lemma TrailingParity(args: seq<string>)
    requires |args| >= 2 && args[0] == "@"
    ensures TrailingAts(args) % 2 == TrailingAts(args[2..]) % 2
  {
    assert args == ["@"] + ([args[1]] + args[2..]);
    ParityOfPair(args[1], args[2..]);
  }

  /** The operands hand out a target each, or one for each pair behind a lone "@", unless a "@" dangles at the end. */
  lemma {:induction false} DanglingAt(args: seq<string>)
    ensures AllTargets(OperandTargets(args)) <==> TrailingAts(args) % 2 == 0
    decreases |args|
  {
    if args == [] {
    } else if args == ["@"] {
      assert OperandTargets(args)[0].None?;
      assert TrailingAts(args[..0]) == 0;
    } else if args[0] == "@" {
      TrailingParity(args);
      DanglingAt(args[2..]);
      ConsTargets("@" + args[1], OperandTargets(args[2..]));
    } else {
      TrailingDrop(args);
      DanglingAt(args[1..]);
      ConsTargets(At(args[0]), OperandTargets(args[1..]));
    }
  }

  lemma ConsTargets(t: string, items: seq<Option<string>>)
    requires t != "" && t[0] == '@'
    ensures AllTargets([Some(t)] + items) <==> AllTargets(items)
  {
    assert forall i :: 0 <= i < |items| ==> ([Some(t)] + items)[i + 1] == items[i];
  }

  lemma {:induction false} CleanLinesAreTargets(lines: seq<string>)
    ensures AllTargets(CleanLines(lines))
  {
    if lines == [] {
    } else {
      CleanLinesAreTargets(lines[1..]);
    }
  }

  lemma {:induction false} FilesAreTargets(fds: seq<int>, i: nat, unread: map<int, string>, broken: set<int>)
    requires i <= |fds|
    ensures AllTargets(FileTargets(fds, i, unread, broken))
    decreases |fds| - i
  {
    if i == |fds| || fds[i] < 0 || fds[i] !in unread {
    } else {
      CleanLinesAreTargets(RawLines(unread[fds[i]], fds[i] in broken));
      FilesAreTargets(fds, i + 1, unread[fds[i] := ""], broken);
    }
  }

  lemma {:induction false} NoneLost(items: seq<Option<string>>)
    requires AllTargets(items)
    ensures |UntilNull(items)| == |items|
    ensures forall i :: 0 <= i < |items| ==> items[i] == Some(UntilNull(items)[i])
  {
    if items == [] {
    } else {
      NoneLost(items[1..]);
    }
  }

  /**
   With no "@" dangling at the end of the operands, calling until NULL hands out everything there is: the default
   once when nothing was given, otherwise one target for each operand and each useful line, in order, each
   starting with '@'.
   */
  lemma WholeRun(args: seq<string>, fds: seq<int>, unread: map<int, string>, broken: set<int>, defaultTarget: string)
    requires |fds| > 0 && TrailingAts(args) % 2 == 0
    ensures var items := if args == [] && fds[0] < 0 then [Some("@" + defaultTarget)]
                         else OperandTargets(args) + FileTargets(fds, 0, unread, broken);
            && AllTargets(items)
            && |UntilNull(items)| == |items|
            && forall i :: 0 <= i < |items| ==> items[i] == Some(UntilNull(items)[i])
  {
    DanglingAt(args);
    FilesAreTargets(fds, 0, unread, broken);
    var items := if args == [] && fds[0] < 0 then [Some("@" + defaultTarget)]
                 else OperandTargets(args) + FileTargets(fds, 0, unread, broken);
    NoneLost(items);
  }

  // ------------------------------------------------------------ what a line and an operand come to

  /** The useful part of a line ends before its first newline, carriage return or '#'. */
  lemma {:induction false} BodyMeans(line: string)
    ensures var k := |Body(line)|;
            && k <= |line| && Body(line) == line[..k] && (k < |line| ==> line[k] in "\n\r#")
            && forall j :: 0 <= j < k ==> line[j] !in "\n\r#"
  {
    if line == "" || IsStop(line[0]) {
    } else {
      BodyMeans(line[1..]);
      assert line == [line[0]] + line[1..];
    }
  }

  predicate Blank(s: string)
  {
    forall j :: 0 <= j < |s| ==> s[j] in " \t\n\U{0b}\U{0c}\r"
  }

  /** No white space at either end. */
  predicate Tight(s: string)
  {
    s != "" ==> !IsSpace(s[0]) && !IsSpace(s[|s| - 1])
  }

  lemma {:induction false} TrimLeftMeans(s: string)
    ensures var k := |s| - |TrimLeft(s)|;
            k >= 0 && Blank(s[..k]) && TrimLeft(s) == s[k..] && (TrimLeft(s) != "" ==> !IsSpace(TrimLeft(s)[0]))
  {
    if s != "" && IsSpace(s[0]) {
      TrimLeftMeans(s[1..]);
      assert s == [s[0]] + s[1..];
    } else {
    }
  }

  lemma {:induction false} TrimRightMeans(s: string)
    ensures var k := |TrimRight(s)|;
            && k <= |s| && TrimRight(s) == s[..k] && Blank(s[k..])
            && (k > 0 ==> !IsSpace(s[k - 1]))
  {
    if s != "" && IsSpace(s[|s| - 1]) {
      TrimRightMeans(s[..|s| - 1]);
      assert s == s[..|s| - 1] + [s[|s| - 1]];
    } else {
    }
  }

  lemma Pieces(s: string, i: nat, j: nat)
    requires i <= j <= |s|
    ensures s == s[..i] + s[i..j] + s[j..] && s[..j][i..] == s[i..j] && s[..j][..i] == s[..i]
  {
  }

  /** The target of a line: its useful part without the white space around it, with one '@' before it; none if that is blank. */
  lemma CleanMeans(line: string) returns (a: string, t: string, b: string)
    ensures Body(line) == a + t + b && Blank(a) && Blank(b) && Tight(t)
    ensures Clean(line) == if t == "" then "" else if t[0] == '@' then t else "@" + t
  {
    var body := Body(line);
    var r := TrimRight(body);
    t := TrimLeft(r);
    TrimRightMeans(body);
    TrimLeftMeans(r);
    a, b := body[..|r| - |t|], body[|r|..];
    Pieces(body, |r| - |t|, |r|);
    if t != "" {
      assert t[|t| - 1] == r[|r| - 1] == body[|r| - 1];
    }
  }

  /** Each line gives its target, if it has one, and the lines keep their order. */
  lemma {:induction false} CleanLinesAppend(a: seq<string>, b: seq<string>)
    ensures CleanLines(a + b) == CleanLines(a) + CleanLines(b)
  {
    if a == [] {
      assert a + b == b;
    } else {
      assert (a + b)[1..] == a[1..] + b;
      CleanLinesAppend(a[1..], b);
      Assoc(LineTarget(a[0]), CleanLines(a[1..]), CleanLines(b));
    }
  }

  lemma EachLine(a: seq<string>, line: string, b: seq<string>)
    ensures CleanLines(a + [line] + b) == CleanLines(a) + LineTarget(line) + CleanLines(b)
  {
    CleanLinesAppend(a + [line], b);
    CleanLinesAppend(a, [line]);
    CleanCons(line, []);
    assert [line] + [] == [line];
    assert LineTarget(line) + [] == LineTarget(line);
  }

  /** All of a file is read, and all but its last incomplete line if the read fails there. */
  lemma RawLinesConserve(content: string, broken: bool)
    ensures Concat(RawLines(content, broken)) + (if broken then Residue(content) else "") == content
  {
    SplittingConserves(content);
    var last := if Residue(content) == "" || broken then [] else [Residue(content)];
    ConcatAppend(Lines(content), last);
    assert Concat([Residue(content)]) == Residue(content) by {
      assert Residue(content) + "" == Residue(content);
    }
  }

  /** A file gives its targets where its descriptor stands first, and nothing where it stands again. */
  lemma EachFile(fds: seq<int>, i: nat, unread: map<int, string>, broken: set<int>)
    requires i < |fds| && fds[i] >= 0 && fds[i] in unread
    ensures FileTargets(fds, i, unread, broken) ==
            CleanLines(RawLines(unread[fds[i]], fds[i] in broken)) + FileTargets(fds, i + 1, unread[fds[i] := ""], broken)
    ensures unread[fds[i]] == "" ==> FileTargets(fds, i, unread, broken) == FileTargets(fds, i + 1, unread, broken)
    ensures fds[i] !in fds[i + 1..] ==>
              FileTargets(fds, i + 1, unread[fds[i] := ""], broken) == FileTargets(fds, i + 1, unread, broken)
  {
    if unread[fds[i]] == "" {
      RawLinesLast("", fds[i] in broken);
      assert unread[fds[i] := ""] == unread;
      assert CleanLines([]) + FileTargets(fds, i + 1, unread, broken) == FileTargets(fds, i + 1, unread, broken);
    }
    if fds[i] !in fds[i + 1..] {
      OtherFiles(fds, i + 1, unread, broken, fds[i]);
    }
  }

  lemma {:induction false} OtherFiles(fds: seq<int>, i: nat, unread: map<int, string>, broken: set<int>, fd: int)
    requires i <= |fds| && fd in unread && fd !in fds[i..]
    ensures FileTargets(fds, i, unread[fd := ""], broken) == FileTargets(fds, i, unread, broken)
    decreases |fds| - i
  {
    if i == |fds| || fds[i] < 0 || fds[i] !in unread {
      if i < |fds| {
        assert fds[i] in fds[i..];
      }
    } else {
      assert fds[i] in fds[i..];
      assert unread[fd := ""][fds[i] := ""] == unread[fds[i] := ""][fd := ""];
      assert fds[i..][1..] == fds[i + 1..];
      OtherFiles(fds, i + 1, unread[fds[i] := ""], broken, fd);
    }
  }

  // ------------------------------------------------------------ each operand

  lemma DanglingOne(a: seq<string>)
    requires |a| == 1 && a[0] == "@"
    ensures TrailingAts(a) == 1
  {
    assert a[..0] == [];
  }

  /** Operands behind which no "@" dangles hand out their targets before those that follow. */
  lemma {:induction false} OperandsAppend(a: seq<string>, b: seq<string>)
    requires TrailingAts(a) % 2 == 0
    ensures OperandTargets(a + b) == OperandTargets(a) + OperandTargets(b)
    decreases |a|
  {
    var s := a + b;
    if a == [] {
      assert s == b;
    } else if a[0] == "@" {
      if |a| == 1 {
        DanglingOne(a);
        assert false;
      } else {
        TrailingParity(a);
        OperandsAppend(a[2..], b);
        assert s[0] == "@" && s[1] == a[1] && s[2..] == a[2..] + b;
        Assoc([Some("@" + a[1])], OperandTargets(a[2..]), OperandTargets(b));
      }
    } else {
      TrailingDrop(a);
      OperandsAppend(a[1..], b);
      assert s[0] == a[0] && s[1..] == a[1..] + b;
      Assoc([Some(At(a[0]))], OperandTargets(a[1..]), OperandTargets(b));
    }
  }

  /**
   Every operand gives one target, in order: by itself, with a '@' put before it if it has none; or if it stands behind a lone
   "@" that is not itself taken, together with that.
   */
  lemma EachOperand(a: seq<string>, operand: string, b: seq<string>)
    requires TrailingAts(a) % 2 == 0
    ensures operand != "@" ==>
              OperandTargets(a + [operand] + b) ==
              OperandTargets(a) + [Some(if operand != "" && operand[0] == '@' then operand else "@" + operand)] +
              OperandTargets(b)
    ensures OperandTargets(a + ["@", operand] + b) == OperandTargets(a) + [Some("@" + operand)] + OperandTargets(b)
    ensures OperandTargets(a + ["@"]) == OperandTargets(a) + [None]
  {
    OperandsAppend(a, [operand] + b);
    OperandsAppend(a, ["@", operand] + b);
    OperandsAppend(a, ["@"]);
    assert a + [operand] + b == a + ([operand] + b) && ([operand] + b)[1..] == b;
    assert a + ["@", operand] + b == a + (["@", operand] + b) && (["@", operand] + b)[2..] == b;
    Assoc(OperandTargets(a), [Some(At(operand))], OperandTargets(b));
    Assoc(OperandTargets(a), [Some("@" + operand)], OperandTargets(b));
  }
}
