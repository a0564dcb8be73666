/** Strings: searching, splitting, joining, and cutting a text into lines. */
module Text {

  /** Index of the first `c`, or the length when there is none. */
  function IndexOf(s: string, c: char): (k: nat)
    ensures k <= |s| && c !in s[..k]
    ensures k < |s| ==> s[k] == c
  {
    if s == "" || s[0] == c then 0 else
      assert s[..1 + IndexOf(s[1..], c)] == [s[0]] + s[1..][..IndexOf(s[1..], c)];
      1 + IndexOf(s[1..], c)
  }

  lemma {:induction false} IndexOfIs(s: string, c: char, k: nat)
    requires k <= |s| && c !in s[..k] && (k < |s| ==> s[k] == c)
    ensures IndexOf(s, c) == k
  {
    if k == 0 {
    } else {
      assert s[..k] == [s[0]] + s[1..][..k - 1];
      IndexOfIs(s[1..], c, k - 1);
    }
  }

  /** `strstr(s, pat) != NULL` */
  predicate Contains(s: string, pat: string)
  {
    exists i | 0 <= i <= |s| :: pat <= s[i..]
  }

  /** The pieces between the occurrences of `c`; always one more than there are occurrences. */
  function Split(s: string, c: char): (parts: seq<string>)
    ensures parts != []
    decreases |s|
  {
    var k := IndexOf(s, c);
    if k == |s| then [s] else [s[..k]] + Split(s[k + 1..], c)
  }

  /** No piece contains the separator, and there is one piece more than there are separators. */
  lemma {:induction false} SplitPieces(s: string, c: char)
    ensures |Split(s, c)| == Count(s, c) + 1
    ensures forall i :: 0 <= i < |Split(s, c)| ==> c !in Split(s, c)[i]
    decreases |s|
  {
    var k := IndexOf(s, c);
    CountPrefix(s, c, k);
    if k == |s| {
      assert s[..k] == s;
    } else {
      SplitPieces(s[k + 1..], c);
    }
  }

  function Count(s: string, c: char): nat
  {
    if s == "" then 0 else (if s[0] == c then 1 else 0) + Count(s[1..], c)
  }

  lemma {:induction false} CountPrefix(s: string, c: char, k: nat)
    requires k <= |s| && c !in s[..k]
    ensures Count(s, c) == Count(s[k..], c)
    ensures k < |s| && s[k] == c ==> Count(s, c) == 1 + Count(s[k + 1..], c)
  {
    if k > 0 {
      assert s[0] == s[..k][0];
      assert s[..k] == [s[0]] + s[1..][..k - 1];
      CountPrefix(s[1..], c, k - 1);
    } else {
      assert s[0..] == s;
    }
  }

  lemma {:induction false} CountConcat(a: string, b: string, c: char)
    ensures Count(a + b, c) == Count(a, c) + Count(b, c)
  {
    if a == "" {
      assert a + b == b;
    } else {
      CountConcat(a[1..], b, c);
      assert (a + b)[1..] == a[1..] + b;
    }
  }

  lemma {:induction false} CountZero(s: string, c: char)
    ensures Count(s, c) == 0 <==> c !in s
  {
    if s == "" {
    } else {
      CountZero(s[1..], c);
      assert s == [s[0]] + s[1..];
    }
  }

  /** The parts with `sep` between each two. */
  function Join(parts: seq<string>, sep: string): string
  {
    if parts == [] then ""
    else if |parts| == 1 then parts[0]
    else parts[0] + sep + Join(parts[1..], sep)
  }

  lemma JoinCons(x: string, parts: seq<string>, sep: string)
    requires parts != []
    ensures Join([x] + parts, sep) == x + sep + Join(parts, sep)
  {
    assert ([x] + parts)[1..] == parts;
  }

  lemma {:induction false} JoinSplit(s: string, c: char)
    ensures Join(Split(s, c), [c]) == s
    decreases |s|
  {
    var k := IndexOf(s, c);
    if k == |s| {
    } else {
      var rest := s[k + 1..];
      JoinSplit(rest, c);
      JoinCons(s[..k], Split(rest, c), [c]);
      assert s == s[..k] + [c] + rest;
    }
  }

  /** The concatenation of the parts. */
  function Concat(parts: seq<string>): string
  {
    if parts == [] then "" else parts[0] + Concat(parts[1..])
  }

  lemma {:induction false} ConcatAppend(a: seq<string>, b: seq<string>)
    ensures Concat(a + b) == Concat(a) + Concat(b)
  {
    if a == [] {
      assert a + b == b;
    } else {
      ConcatAppend(a[1..], b);
      assert (a + b)[1..] == a[1..] + b;
    }
  }

  /** The parts that are not empty. */
  function NonEmpty(parts: seq<string>): seq<string>
  {
    if parts == [] then [] else (if parts[0] == "" then [] else [parts[0]]) + NonEmpty(parts[1..])
  }

  // ---------------------------------------------------------------- lines

  /** The complete lines of a text, each with its newline. */
  function Lines(s: string): seq<string>
    decreases |s|
  {
    var k := IndexOf(s, '\n');
    if k == |s| then [] else [s[..k + 1]] + Lines(s[k + 1..])
  }

  /** The incomplete last line. */
  function Residue(s: string): string
    decreases |s|
  {
    var k := IndexOf(s, '\n');
    if k == |s| then s else Residue(s[k + 1..])
  }

  /** A text that ends with its only newline. */
  predicate IsLine(line: string)
  {
    line != "" && IndexOf(line, '\n') == |line| - 1
  }

  /** Any text with a newline in it is a line followed by the rest. */
  lemma FirstLine(s: string) returns (line: string, rest: string)
    requires IndexOf(s, '\n') < |s|
    ensures s == line + rest && IsLine(line) && |rest| < |s|
    ensures line == s[..IndexOf(s, '\n') + 1] && rest == s[IndexOf(s, '\n') + 1..]
  {
    var k := IndexOf(s, '\n');
    line, rest := s[..k + 1], s[k + 1..];
    assert line[..k] == s[..k];
    IndexOfIs(line, '\n', k);
  }

  lemma LinesCons(line: string, rest: string)
    requires IsLine(line)
    ensures Lines(line + rest) == [line] + Lines(rest)
    ensures Residue(line + rest) == Residue(rest)
    ensures IndexOf(line + rest, '\n') == |line| - 1
  {
    var s, k := line + rest, |line| - 1;
    assert s[..k] == line[..k];
    IndexOfIs(s, '\n', k);
    assert s[..k + 1] == line && s[k + 1..] == rest;
  }

  lemma LinesOf(s: string, line: string, rest: string)
    requires IsLine(line) && s == line + rest
    ensures Lines(s) == [line] + Lines(rest) && Residue(s) == Residue(rest)
  {
    LinesCons(line, rest);
  }

  lemma Assoc<T>(a: seq<T>, b: seq<T>, c: seq<T>)
    ensures a + (b + c) == (a + b) + c
  {
  }

  lemma ConcatCons(line: string, lines: seq<string>)
    ensures Concat([line] + lines) == line + Concat(lines)
  {
    assert ([line] + lines)[1..] == lines;
  }

  /** Splitting loses and adds nothing: every line ends with its only newline, and the residue has none. */
  lemma {:induction false} SplittingConserves(s: string)
    ensures Concat(Lines(s)) + Residue(s) == s
    ensures '\n' !in Residue(s)
    ensures forall i :: 0 <= i < |Lines(s)| ==> IsLine(Lines(s)[i])
    decreases |s|
  {
    if IndexOf(s, '\n') == |s| {
      assert s[..|s|] == s;
    } else {
      var line, rest := FirstLine(s);
      LinesOf(s, line, rest);
      SplittingConserves(rest);
      ConcatCons(line, Lines(rest));
      Assoc(line, Concat(Lines(rest)), Residue(rest));
      assert forall i :: 0 <= i < |Lines(s)| ==> Lines(s)[i] == if i == 0 then line else Lines(rest)[i - 1];
    }
  }

  /** A text can be split where it arrives in two parts: what is left of the first is put before the second. */
  lemma {:induction false} LinesAppend(a: string, b: string)
    ensures Lines(a + b) == Lines(a) + Lines(Residue(a) + b)
    ensures Residue(a + b) == Residue(Residue(a) + b)
    decreases |a|
  {
    if IndexOf(a, '\n') == |a| {
      assert Lines(a) == [];
    } else {
      var line, rest := FirstLine(a);
      LinesOf(a, line, rest);
      Assoc(line, rest, b);
      LinesOf(a + b, line, rest + b);
      LinesAppend(rest, b);
      Assoc([line], Lines(rest), Lines(Residue(rest) + b));
    }
  }
}
