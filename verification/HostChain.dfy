/**
 The scp-like multi hop target syntax.

 A target with two or more colons names a chain of hosts, optionally followed by a
 file; the program rewrites it to the "host@@host:file" form with one backwards scan
 that edits a copy of the string in place, followed by one forward pass.
 */
module HostChain {
  import opened Text

  // ------------------------------------------------------------ what the rewrite means

  /** Two or more colons. */
  predicate MultiHop(s: string)
  {
    Count(s, ':') >= 2
  }

  /** ":HOST:" and nothing else. */
  predicate LoneHost(s: string)
  {
    |s| >= 2 && s[0] == ':' && s[|s| - 1] == ':' && Count(s, ':') == 2
  }

  /** The hosts of a chain: all fields but the last. */
  function HostFields(s: string): seq<string>
  {
    var fields := Split(s, ':');
    fields[..|fields| - 1]
  }

  /** The file of a chain: the last field, which is empty when the string ends in a colon. */
  function FileField(s: string): string
  {
    var fields := Split(s, ':');
    fields[|fields| - 1]
  }

  /** The rewrite as a forward split and join. */
  function Rewritten(s: string): string
  {
    if !MultiHop(s) then s
    else if LoneHost(s) then s[1..|s| - 1]
    else Join(HostFields(s), "@@") + FilePart(FileField(s))
  }

  /** The file part of a rewritten target. */
  function FilePart(file: string): string
  {
    if file == "" then "" else ":" + file
  }

  // ------------------------------------------------------------ what the two passes compute

  /** Every colon replaced by the placeholder of the backwards scan. */
  function Marked(s: string): (t: string)
    ensures |t| == |s|
    ensures forall i :: 0 <= i < |s| ==> t[i] == if s[i] == ':' then '\r' else s[i]
  {
    seq(|s|, i requires 0 <= i < |s| => if s[i] == ':' then '\r' else s[i])
  }

  /** The forward pass: every placeholder becomes "@@". */
  function Expanded(s: string): string
  {
    if s == "" then "" else Glyph(s[0]) + Expanded(s[1..])
  }

  function Glyph(c: char): string
  {
    if c == '\r' then "@@" else [c]
  }

  /**
   The part of the string the scan marks: up to the trailing colon, or up to the last colon if there is no
   trailing one.
   */
  function HostPart(s: string): (n: nat)
    requires ':' in s
    ensures n < |s| && s[n] == ':' && ':' !in s[n + 1..]
  {
    LastColon(s, |s|)
  }

  function LastColon(s: string, n: nat): (k: nat)
    requires n <= |s| && ':' in s[..n] && ':' !in s[n..]
    ensures k < n && s[k] == ':' && ':' !in s[k + 1..]
  {
    if s[n - 1] == ':' then n - 1
    else
      assert s[..n] == s[..n - 1] + [s[n - 1]];
      assert s[n - 1..] == [s[n - 1]] + s[n..];
      LastColon(s, n - 1)
  }

  /** What the scan and the forward pass return. */
  function Converted(s: string): string
  {
    if !MultiHop(s) then s
    else if LoneHost(s) then s[1..|s| - 1]
    else
      CountZero(s, ':');
      Expanded(Scanned(s))
  }

  // ------------------------------------------------------------ the code

  /** strchr(s + start, ':') as an index, or the length */
  method FindColon(s: string, start: nat) returns (k: nat)
    requires start <= |s|
    ensures start <= k <= |s| && ':' !in s[start..k]
    ensures k < |s| ==> s[k] == ':'
  {
    k := start;
    while k < |s| && s[k] != ':'
      invariant start <= k <= |s| && ':' !in s[start..k]
    {
      k := k + 1;
    }
  }

  /**
   swc_convert_multi_host_target_syntax.  `spec` is a C string in its own buffer; the
   function writes to it in one case only.
   */
  method Convert(spec: array<char>) returns (r: string)
    requires spec.Length > 0 && spec[spec.Length - 1] == '\0' && '\0' !in spec[..spec.Length - 1]
    modifies spec
    ensures r == Converted(old(spec[..spec.Length - 1]))
    ensures spec[..] == if MultiHop(old(spec[..spec.Length - 1])) && LoneHost(old(spec[..spec.Length - 1]))
                        then old(spec[..])[spec.Length - 2 := '\0'] else old(spec[..])
  {
    var len := spec.Length - 1;
    ghost var s := spec[..len];
    var first := FindColon(spec[..len], 0);
    var second := len;
    if first < len {
      second := FindColon(spec[..len], first + 1);
    }
    TwoColons(s, first, second);
    if first < len && second < len {
      if first == 0 && second == len - 1 {
        r := spec[first + 1..second];
        spec[second] := '\0';
        return;
      }
      var buf := new char[len + 1];
      forall i | 0 <= i <= len { buf[i] := spec[i]; }
      BackwardScan(buf, len, s);
      r := ForwardPass(buf, Scanned(s));
    } else {
      r := spec[..len];
    }
  }

  /** The string the buffer holds after the backwards scan. */
  function Scanned(s: string): (t: string)
    requires ':' in s
    ensures var k := HostPart(s);
            && |t| == (if k == |s| - 1 then |s| - 1 else |s|)
            && forall i :: 0 <= i < |t| ==> t[i] == if i < k && s[i] == ':' then '\r' else s[i]
  {
    var k := HostPart(s);
    Marked(s[..k]) + if k == |s| - 1 then "" else s[k..]
  }

  /** The backwards scan, in place. */
  method BackwardScan(buf: array<char>, len: nat, ghost s: string)
    requires len == |s| && buf.Length == len + 1 && ':' in s
    requires buf[len] == '\0' && forall j :: 0 <= j < len ==> buf[j] == s[j]
    modifies buf
    ensures buf[|Scanned(s)|] == '\0' && forall j :: 0 <= j < |Scanned(s)| ==> buf[j] == Scanned(s)[j]
  {
    var isAHost, isAFile := false, false;
    var cnt := len;
    ghost var k, t := HostPart(s), Scanned(s);
    while cnt > 0
      invariant 0 <= cnt <= len
      invariant forall j :: 0 <= j < cnt ==> buf[j] == s[j]
      invariant cnt == len ==> !isAHost
      invariant cnt < len ==> (isAHost <==> cnt <= k)
      invariant cnt < len || k < len - 1 ==> buf[|t|] == '\0'
      invariant forall j :: cnt <= j < |t| ==> buf[j] == t[j]
    {
      var p := cnt - 1;
      assert p > k ==> s[p] == s[k + 1..][p - k - 1];
      if cnt == len {
        if buf[p] == ':' {
          isAHost := true;
          buf[p] := '\0';
        } else {
          isAFile := true;
        }
      } else if buf[p] == ':' {
        if isAHost {
          buf[p] := '\r';
        } else {
          isAHost := true;
        }
      }
      cnt := p;
    }
  }

  /** The forward pass, up to the first NUL. */
  method ForwardPass(buf: array<char>, ghost t: string) returns (r: string)
    requires |t| < buf.Length && '\0' !in t
    requires buf[|t|] == '\0' && forall j :: 0 <= j < |t| ==> buf[j] == t[j]
    ensures r == Expanded(t)
  {
    r := "";
    var i := 0;
    assert t[0..] == t;
    while buf[i] != '\0'
      invariant 0 <= i <= |t|
      invariant Expanded(t) == r + Expanded(t[i..])
      decreases |t| - i
    {
      ExpandedStep(r, t, i);
      if buf[i] == '\r' {
        r := r + "@@";
      } else {
        r := r + [buf[i]];
      }
      i := i + 1;
    }
  }

  lemma ExpandedStep(r: string, t: string, i: nat)
    requires i < |t|
    ensures r + Expanded(t[i..]) == (r + Glyph(t[i])) + Expanded(t[i + 1..])
  {
    assert t[i..][0] == t[i] && t[i..][1..] == t[i + 1..];
  }

  // ------------------------------------------------------------ lemmas about the code's tests

  lemma TwoColons(s: string, first: nat, second: nat)
    requires first <= |s| && ':' !in s[..first] && (first < |s| ==> s[first] == ':')
    requires first < |s| ==> first < second <= |s| && ':' !in s[first + 1..second]
    requires first < |s| && second < |s| ==> s[second] == ':'
    ensures MultiHop(s) <==> first < |s| && second < |s|
    ensures MultiHop(s) ==> (LoneHost(s) <==> first == 0 && second == |s| - 1)
  {
    CountPrefix(s, ':', first);
    if first < |s| {
      var t := s[first + 1..];
      assert t[..second - first - 1] == s[first + 1..second];
      CountPrefix(t, ':', second - first - 1);
      if second < |s| {
        assert t[second - first - 1..][1..] == s[second + 1..];
        CountPrefix(s[second + 1..], ':', 0);
        CountZero(s[second + 1..], ':');
        assert t[second - first..] == s[second + 1..];
        if second < |s| - 1 {
          assert s[|s| - 1] == s[second + 1..][|s| - second - 2];
        }
      } else {
        assert t[|t|..] == "";
      }
    } else {
      assert s[|s|..] == "";
    }
  }

  // ------------------------------------------------------------ the passes agree with the split and join

  lemma {:induction false} ExpandedConcat(a: string, b: string)
    ensures Expanded(a + b) == Expanded(a) + Expanded(b)
  {
    if a == "" {
      assert a + b == b;
    } else {
      ExpandedConcat(a[1..], b);
      assert (a + b)[1..] == a[1..] + b && (a + b)[0] == a[0];
      var x, y := Expanded(a[1..]), Expanded(b);
      assert Glyph(a[0]) + (x + y) == (Glyph(a[0]) + x) + y;
    }
  }

  /** Expanding changes a string exactly when it holds a placeholder. */
  lemma {:induction false} ExpandedLength(a: string)
    ensures |Expanded(a)| == |a| + Count(a, '\r')
    ensures Expanded(a) == a <==> '\r' !in a
  {
    CountZero(a, '\r');
    if a == "" {
    } else {
      ExpandedLength(a[1..]);
      assert a == [a[0]] + a[1..];
    }
  }

  lemma {:induction false} ExpandedNoColon(a: string)
    ensures Count(Expanded(a), ':') == Count(a, ':')
  {
    if a == "" {
    } else {
      ExpandedNoColon(a[1..]);
      CountConcat(Glyph(a[0]), Expanded(a[1..]), ':');
      CountConcat([a[0]], a[1..], ':');
      assert [a[0]] + a[1..] == a && "@@"[1..] == "@";
    }
  }

  lemma ExpandedSeparator(p: string, sep: string, q: string)
    requires sep == "\r" || sep == "@@"
    ensures Expanded(p + sep + q) == Expanded(p) + "@@" + Expanded(q)
  {
    ExpandedConcat(p + sep, q);
    ExpandedConcat(p, sep);
    assert sep[1..] == (if sep == "\r" then "" else "@");
    assert "@"[1..] == "";
    assert Expanded("@") == "@" && Expanded(sep) == "@@";
  }

  /** Marking and expanding a host part is splitting it and joining with "@@". */
  lemma {:induction false} ExpandedMarked(a: string)
    ensures Expanded(Marked(a)) == Expanded(Join(Split(a, ':'), "@@"))
    decreases |a|
  {
    var k := IndexOf(a, ':');
    if k == |a| {
      assert a[..k] == a;
      assert Marked(a) == a;
    } else {
      var rest := a[k + 1..];
      ExpandedMarked(rest);
      JoinCons(a[..k], Split(rest, ':'), "@@");
      assert Marked(a) == a[..k] + "\r" + Marked(rest);
      ExpandedSeparator(a[..k], "\r", Marked(rest));
      ExpandedSeparator(a[..k], "@@", Join(Split(rest, ':'), "@@"));
    }
  }

  lemma {:induction false} SplitLast(a: string, b: string)
    requires ':' !in b
    ensures Split(a + ":" + b, ':') == Split(a, ':') + [b]
    decreases |a|
  {
    var s := a + ":" + b;
    var k := IndexOf(a, ':');
    assert s[..k] == a[..k];
    IndexOfIs(s, ':', k);
    if k == |a| {
      assert s[..k] == a && s[k + 1..] == b;
      IndexOfIs(b, ':', |b|);
    } else {
      assert s[k + 1..] == a[k + 1..] + ":" + b;
      SplitLast(a[k + 1..], b);
      var rest := Split(a[k + 1..], ':');
      assert Split(a, ':') == [a[..k]] + rest;
      assert [a[..k]] + (rest + [b]) == [a[..k]] + rest + [b];
    }
  }

  /** Any string with a colon in it is a host part, a colon and a file. */
  lemma HostPartSplits(s: string)
    requires ':' in s
    ensures var hosts, file := s[..HostPart(s)], s[HostPart(s) + 1..];
            && s == hosts + ":" + file
            && Split(s, ':') == Split(hosts, ':') + [file]
            && Scanned(s) == Marked(hosts) + FilePart(file)
  {
    var k := HostPart(s);
    var hosts, file := s[..k], s[k + 1..];
    assert s[k..] == ":" + file;
    assert s == hosts + ":" + file;
    SplitLast(hosts, file);
    assert file == "" <==> k == |s| - 1;
  }

  lemma RewrittenShape(s: string)
    requires MultiHop(s) && !LoneHost(s)
    ensures ':' in s
    ensures Rewritten(s) == Join(Split(s[..HostPart(s)], ':'), "@@") + FilePart(s[HostPart(s) + 1..])
  {
    CountZero(s, ':');
    HostPartSplits(s);
    var hosts := Split(s[..HostPart(s)], ':');
    assert (hosts + [s[HostPart(s) + 1..]])[..|hosts|] == hosts;
  }

  /** For a chain of hosts the two passes return the split and join, with every placeholder already in it expanded. */
  lemma ChainConverted(s: string)
    requires MultiHop(s) && !LoneHost(s)
    ensures Converted(s) == Expanded(Rewritten(s))
  {
    RewrittenShape(s);
    HostPartSplits(s);
    var hosts, tail := s[..HostPart(s)], FilePart(s[HostPart(s) + 1..]);
    ExpandedMarked(hosts);
    ExpandedConcat(Marked(hosts), tail);
    ExpandedConcat(Join(Split(hosts, ':'), "@@"), tail);
  }

  lemma {:induction false} JoinMembers(parts: seq<string>, a: string, b: string, c: char)
    requires c !in a && c !in b
    ensures c in Join(parts, a) <==> c in Join(parts, b)
  {
    if |parts| <= 1 {
    } else {
      JoinMembers(parts[1..], a, b, c);
    }
  }

  /**
   The two passes agree with the split and join exactly when there is no chain of hosts to rewrite,
   or the string is free of the carriage return that the scan uses as its placeholder.
   */
  lemma ConvertedIsSplitAndJoin(s: string)
    ensures Converted(s) == Rewritten(s) <==> !MultiHop(s) || LoneHost(s) || '\r' !in s
  {
    if MultiHop(s) && !LoneHost(s) {
      ChainConverted(s);
      ExpandedLength(Rewritten(s));
      PlaceholderKept(s);
    }
  }

  lemma PlaceholderKept(s: string)
    requires MultiHop(s) && !LoneHost(s)
    ensures '\r' in Rewritten(s) <==> '\r' in s
  {
    RewrittenShape(s);
    HostPartSplits(s);
    JoinSplit(s[..HostPart(s)], ':');
    PlaceholderInParts(Split(s[..HostPart(s)], ':'), s[HostPart(s) + 1..]);
  }

  lemma PlaceholderInParts(parts: seq<string>, file: string)
    ensures '\r' in Join(parts, ":") + ":" + file <==> '\r' in Join(parts, "@@") + FilePart(file)
  {
    JoinMembers(parts, ":", "@@", '\r');
    PlaceholderIn(Join(parts, ":"), file);
    PlaceholderIn(Join(parts, "@@"), file);
  }

  lemma PlaceholderIn(hosts: string, file: string)
    ensures '\r' in hosts + ":" + file <==> '\r' in hosts || '\r' in file
    ensures '\r' in hosts + FilePart(file) <==> '\r' in hosts || '\r' in file
  {
  }

  /** The result has at most one colon, whatever the target. */
  lemma AtMostOneColon(s: string)
    ensures Count(Converted(s), ':') <= 1
  {
    if MultiHop(s) {
      CountZero(s, ':');
      if LoneHost(s) {
        assert s == ":" + s[1..];
        var t := s[1..];
        assert t == t[..|t| - 1] + ":" && t[..|t| - 1] == s[1..|s| - 1];
        CountConcat(t[..|t| - 1], ":", ':');
      } else {
        var k := HostPart(s);
        var tail := if k == |s| - 1 then "" else s[k..];
        ExpandedNoColon(Scanned(s));
        CountConcat(Marked(s[..k]), tail, ':');
        CountZero(Marked(s[..k]), ':');
        if tail != "" {
          assert tail[1..] == s[k + 1..];
          CountZero(s[k + 1..], ':');
        }
      }
    }
  }

  /** Rewriting a rewritten target changes nothing. */
  lemma Idempotent(s: string)
    ensures Converted(Converted(s)) == Converted(s)
  {
    AtMostOneColon(s);
  }

  // ------------------------------------------------------------ reading the chain back

  /** The hosts of a rewritten chain: the pieces between the first "@@", the next one, and so on. */
  function SplitHops(s: string): (hosts: seq<string>)
    ensures hosts != []
    decreases |s|
  {
    var k := IndexOfHop(s);
    if k == |s| then [s] else [s[..k]] + SplitHops(s[k + 2..])
  }

  function IndexOfHop(s: string): (k: nat)
    ensures k <= |s| && (k < |s| ==> k + 2 <= |s|)
  {
    if s == "" || "@@" <= s then 0 else 1 + IndexOfHop(s[1..])
  }

  /** A host that can stand before "@@": no "@@" in it and no '@' at its end. */
  predicate HopSafe(h: string)
  {
    IndexOfHop(h) == |h| && (h != "" ==> h[|h| - 1] != '@')
  }

  /** Each host but the last can stand before "@@", and the last has no "@@" in it. */
  predicate HostsSafe(hosts: seq<string>)
  {
    match |hosts|
    case 0 => true
    case 1 => IndexOfHop(hosts[0]) == |hosts[0]|
    case _ => HopSafe(hosts[0]) && HostsSafe(hosts[1..])
  }

  lemma {:induction false} FirstHop(h: string, rest: string)
    ensures IndexOfHop(h + "@@" + rest) <= |h|
    ensures IndexOfHop(h + "@@" + rest) == |h| <==> HopSafe(h)
  {
    var s := h + "@@" + rest;
    if h == "" {
      assert s[..2] == "@@";
    } else {
      assert s[1..] == h[1..] + "@@" + rest;
      assert s[0] == h[0] && s[1] == if |h| > 1 then h[1] else '@';
      assert "@@" <= s <==> s[0] == '@' && s[1] == '@';
      assert "@@" <= h <==> |h| > 1 && h[0] == '@' && h[1] == '@';
      FirstHop(h[1..], rest);
    }
  }

  /** Splitting at the hops undoes joining with them if and only if the hosts are safe. */
  lemma {:induction false} HopsOfJoin(hosts: seq<string>)
    requires hosts != []
    ensures SplitHops(Join(hosts, "@@")) == hosts <==> HostsSafe(hosts)
  {
    if |hosts| == 1 {
    } else {
      var h, rest := hosts[0], Join(hosts[1..], "@@");
      FirstHop(h, rest);
      HopsOfJoin(hosts[1..]);
      SplitOff(h, rest);
      assert hosts == [h] + hosts[1..];
      assert Join(hosts, "@@") == h + "@@" + rest;
    }
  }

  lemma SplitOff(h: string, rest: string)
    requires IndexOfHop(h + "@@" + rest) <= |h|
    ensures var s, hosts := h + "@@" + rest, SplitHops(h + "@@" + rest);
            && (IndexOfHop(s) == |h| ==> hosts == [h] + SplitHops(rest))
            && (IndexOfHop(s) != |h| ==> hosts[0] != h)
  {
    var s := h + "@@" + rest;
    assert s[..|h|] == h && s[|h| + 2..] == rest;
  }

  /** The hosts that a rewritten target names: what comes before its colon, split at the hops. */
  function HostsIn(r: string): seq<string>
  {
    SplitHops(r[..IndexOf(r, ':')])
  }

  /** The target names this file after its colon, or has no colon if the file is empty. */
  predicate NamesFile(r: string, file: string)
  {
    var c := IndexOf(r, ':');
    (c < |r| ==> r[c + 1..] == file && file != "") && (c == |r| ==> file == "")
  }

  lemma {:induction false} JoinFree(parts: seq<string>)
    requires forall i :: 0 <= i < |parts| ==> ':' !in parts[i]
    ensures ':' !in Join(parts, "@@")
  {
    if |parts| <= 1 {
    } else {
      JoinFree(parts[1..]);
    }
  }

  lemma FirstColon(hosts: string, file: string)
    requires ':' !in hosts
    ensures var r := hosts + FilePart(file);
            && IndexOf(r, ':') == |hosts| && r[..|hosts|] == hosts
            && (file == "" <==> |r| == |hosts|) && (file != "" ==> r[|hosts| + 1..] == file)
  {
    var r := hosts + FilePart(file);
    assert r[..|hosts|] == hosts;
    IndexOfIs(r, ':', |hosts|);
  }

  lemma JoinedIs(hosts: string, file: string, r: string)
    requires ':' !in hosts && r == hosts + FilePart(file)
    ensures HostsIn(r) == SplitHops(hosts) && NamesFile(r, file)
  {
    FirstColon(hosts, file);
  }

  lemma HostFieldsFree(s: string)
    requires MultiHop(s)
    ensures HostFields(s) != [] && forall i :: 0 <= i < |HostFields(s)| ==> ':' !in HostFields(s)[i]
  {
    SplitPieces(s, ':');
  }

  /**
   The rewritten chain always names the same file, or none; and it reads back to the same hosts in the same order if and
   only if they are safe to put between "@@".
   */
  lemma ChainReadsBack(s: string)
    requires MultiHop(s) && !LoneHost(s) && '\r' !in s
    ensures NamesFile(Converted(s), FileField(s))
    ensures HostsIn(Converted(s)) == HostFields(s) <==> HostsSafe(HostFields(s))
  {
    ConvertedIsSplitAndJoin(s);
    HostFieldsFree(s);
    JoinFree(HostFields(s));
    JoinedIs(Join(HostFields(s), "@@"), FileField(s), Converted(s));
    HopsOfJoin(HostFields(s));
  }

  /** Without two colons a target is left alone, and a lone host between colons is freed of them. */
  lemma NoChain(s: string, h: string)
    ensures Count(s, ':') <= 1 ==> Converted(s) == s
    ensures ':' !in h ==> Converted(":" + h + ":") == h
  {
    if ':' !in h {
      var l := ":" + h + ":";
      CountZero(h, ':');
      CountConcat(":" + h, ":", ':');
      CountConcat(":", h, ':');
      assert l[1..|l| - 1] == h;
    }
  }
}
