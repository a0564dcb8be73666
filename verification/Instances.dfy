/**
 Choosing the instance id of a new catalog entry.

 A catalog entry lives at <catalog>/<bundle>/<product>/<revision>/<instance>.  The ids in
 use are read off the paths of the installed entries by cutting the path strings in
 place, and the strings are mended before the function returns.
 */
module Instances {
  import opened Wrappers
  import opened Decimal

  const MAX_INSTANCES := 20

  /** A path string that is edited in place. */
  class Path {
    var text: string

    constructor (text: string)
      ensures this.text == text
    {
      this.text := text;
    }
  }

  // ------------------------------------------------------------ the parts of a path

  /** The last slash before index `n`, or -1. */
  function LastSlashBefore(s: string, n: nat): (k: int)
    requires n <= |s|
    ensures -1 <= k < n && (k >= 0 ==> s[k] == '/')
    ensures forall i :: k < i < n ==> s[i] != '/'
  {
    if n == 0 then -1 else if s[n - 1] == '/' then n - 1 else LastSlashBefore(s, n - 1)
  }

  /** strrchr(s, '/') as an index, or -1 */
  function LastSlash(s: string): (k: int)
    ensures -1 <= k < |s| && (k >= 0 ==> s[k] == '/')
    ensures forall i :: k < i < |s| ==> s[i] != '/'
  {
    LastSlashBefore(s, |s|)
  }

  /** Two slashes at least, no double slash, no NUL: what the catalog query returns. */
  predicate IsEntryPath(s: string)
  {
    LastSlash(s) >= 0 && LastSlash(s[..LastSlash(s)]) >= 0 && '\0' !in s
  }

  function RevisionOf(s: string): string
    requires IsEntryPath(s)
  {
    s[LastSlash(s[..LastSlash(s)]) + 1..LastSlash(s)]
  }

  function InstanceOf(s: string): string
    requires IsEntryPath(s)
  {
    s[LastSlash(s) + 1..]
  }

  function EntryPath(prefix: string, revision: string, instance: nat): string
  {
    prefix + "/" + revision + "/" + Print(instance)
  }

  lemma LastSlashIs(a: string, b: string)
    requires '/' !in b
    ensures LastSlash(a + "/" + b) == |a|
  {
    var s := a + "/" + b;
    assert s[|a|] == '/';
    forall i | |a| < i < |s| ensures s[i] != '/' {
      assert s[i] == b[i - |a| - 1];
    }
  }

  /** The parts of a path are the ones it was made from. */
  lemma PathParts(prefix: string, revision: string, instance: nat)
    requires '/' !in revision && '\0' !in revision && '\0' !in prefix
    ensures var s := EntryPath(prefix, revision, instance);
            && IsEntryPath(s)
            && RevisionOf(s) == revision
            && Atoi(InstanceOf(s)).0 == instance
  {
    var id := Print(instance);
    DigitsFacts(instance);
    PrintAtoi(instance);
    var dir := prefix + "/" + revision;
    var s := dir + "/" + id;
    assert EntryPath(prefix, revision, instance) == s;
    LastSlashIs(dir, id);
    LastSlashIs(prefix, revision);
    assert s[..|dir|] == dir && s[|dir| + 1..] == id;
    NulFree3(prefix, revision, id);
    assert s[|prefix| + 1..|dir|] == revision;
  }

  lemma NulFree3(a: string, b: string, c: string)
    requires '\0' !in a && '\0' !in b && '\0' !in c
    ensures '\0' !in a + "/" + b + "/" + c
  {
  }

  // ------------------------------------------------------------ what is chosen

  /** The part of an installed entry's path that matters here. */
  datatype Installed = Installed(revision: string, id: int)

  function Parse(s: string): Installed
    requires IsEntryPath(s)
  {
    Installed(RevisionOf(s), Atoi(InstanceOf(s)).0)
  }

  /** The entry has the revision, if one is sought. */
  predicate HasRevision(e: Installed, revision: Option<string>)
  {
    revision.Some? && e.revision == revision.value
  }

  /** How many entries come before the first one of this revision. */
  function Before(list: seq<Installed>, revision: Option<string>): (k: nat)
    ensures k <= |list|
    ensures NoneOf(list, k, revision)
    ensures k < |list| ==> HasRevision(list[k], revision)
  {
    if list == [] || HasRevision(list[0], revision) then 0 else 1 + Before(list[1..], revision)
  }

  /** None of the first `k` entries has this revision. */
  predicate NoneOf(list: seq<Installed>, k: nat, revision: Option<string>)
    requires k <= |list|
  {
    forall i :: 0 <= i < k ==> !HasRevision(list[i], revision)
  }

  predicate Taken(list: seq<Installed>, n: int)
  {
    exists i :: 0 <= i < |list| && list[i].id == n
  }

  /** The least id from `n` on that no entry has, or -1. */
  function LeastFree(list: seq<Installed>, n: nat): (r: int)
    ensures r == -1 || (n <= r < MAX_INSTANCES && !Taken(list, r))
    ensures forall m :: n <= m < (if r == -1 then MAX_INSTANCES else r) ==> Taken(list, m)
    decreases MAX_INSTANCES - n
  {
    if n >= MAX_INSTANCES then -1 else if !Taken(list, n) then n else LeastFree(list, n + 1)
  }

  /**
   The id chosen when these entries of the same revision are installed and `upgrade` is being replaced: 0 when there are
   none; the id of the replaced entry when the first of them has its revision; otherwise the least id not used by
   the ones before the first with its revision.
   */
  function Chosen(list: seq<Installed>, upgrade: Option<Installed>): int
  {
    if list == [] then 0
    else
      var k := Before(list, if upgrade.Some? then Some(upgrade.value.revision) else None);
      if k == 0 then upgrade.value.id else LeastFree(list[..k], 0)
  }

  // ------------------------------------------------------------ the code

  /** s_rev_instance: cut the path before the instance; the revision starts at `rev` and ends at the cut. */
  method RevInstance(s: Path) returns (rev: nat, slash: nat)
    requires IsEntryPath(s.text)
    modifies s
    ensures slash == LastSlash(old(s.text)) && rev == LastSlash(old(s.text)[..slash]) + 1 <= slash
    ensures s.text == old(s.text)[slash := '\0']
  {
    slash := LastSlash(s.text);
    s.text := s.text[slash := '\0'];
    assert s.text[..slash] == old(s.text)[..slash];
    rev := LastSlash(s.text[..slash]) + 1;
  }

  ghost predicate AllEntryPaths(list: seq<Path>)
    reads list
  {
    forall i :: 0 <= i < |list| ==> IsEntryPath(list[i].text)
  }

  ghost function ParseAll(list: seq<Path>): (p: seq<Installed>)
    requires AllEntryPaths(list)
    reads list
    ensures |p| == |list| && forall i :: 0 <= i < |list| ==> p[i] == Parse(list[i].text)
  {
    seq(|list|, i requires 0 <= i < |list| && AllEntryPaths(list) reads list => Parse(list[i].text))
  }

  /** Read one path: cut it, read the parts, mend it. */
  method ReadPath(s: Path) returns (e: Installed)
    requires IsEntryPath(s.text)
    modifies s
    ensures s.text == old(s.text) && e == Parse(s.text)
  {
    var rev, slash := RevInstance(s);
    e := Installed(s.text[rev..slash], Atoi(s.text[slash + 1..]).0);
    assert s.text[rev..slash] == old(s.text)[rev..slash];
    assert s.text[slash + 1..] == old(s.text)[slash + 1..];
    s.text := s.text[slash := '/'];
  }

  /** The search for the least free id. */
  method FindFree(idList: seq<Installed>) returns (ret: int)
    ensures ret == LeastFree(idList, 0)
  {
    var n := 0;
    while n < MAX_INSTANCES
      invariant 0 <= n <= MAX_INSTANCES
      invariant LeastFree(idList, 0) == LeastFree(idList, n)
    {
      var found := true;
      var i := 0;
      while i < |idList|
        invariant 0 <= i <= |idList|
        invariant found && forall j :: 0 <= j < i ==> idList[j].id != n
      {
        if idList[i].id == n {
          found := false;
          break;
        }
        i := i + 1;
      }
      if found {
        return n;
      }
      n := n + 1;
    }
    ret := -1;
  }

  /** All paths are as they were. */
  twostate predicate Mended(list: seq<Path>)
    reads list
  {
    forall p | p in list :: p.text == old(p.text)
  }

  /** Read one of several paths. */
  method ReadOneOf(list: seq<Path>, i: nat) returns (e: Installed)
    requires AllEntryPaths(list) && i < |list|
    modifies list
    ensures Mended(list) && AllEntryPaths(list) && ParseAll(list) == old(ParseAll(list)) && e == ParseAll(list)[i]
  {
    ghost var all := ParseAll(list);
    e := ReadPath(list[i]);
    assert ParseAll(list) == all;
  }

  /** The loop over the same-revision entries: it stops at the first with the revision that is being replaced. */
  method CollectIds(sameRevision: seq<Path>, revision: Option<string>) returns (idList: seq<Installed>, hit: bool)
    requires AllEntryPaths(sameRevision)
    modifies sameRevision
    ensures Mended(sameRevision)
    ensures |idList| == Before(old(ParseAll(sameRevision)), revision)
    ensures idList == old(ParseAll(sameRevision))[..|idList|] && (hit <==> |idList| < |sameRevision|)
  {
    ghost var all := ParseAll(sameRevision);
    idList, hit := [], false;
    var i := 0;
    while i < |sameRevision| && !hit
      invariant 0 <= i <= |sameRevision| && |idList| == i
      invariant AllEntryPaths(sameRevision) && ParseAll(sameRevision) == all && Mended(sameRevision)
      invariant idList <= all
      invariant NoneOf(all, i, revision)
      invariant hit ==> i < |all| && HasRevision(all[i], revision)
      decreases |sameRevision| - i, !hit
    {
      var e := ReadOneOf(sameRevision, i);
      if revision.Some? && e.revision == revision.value {
        hit := true;
      } else {
        PrefixGrows(idList, all, e);
        NoneOfStep(all, i, revision);
        idList := idList + [e];
        i := i + 1;
      }
    }
    BeforeIs(all, revision, i);
  }

  /**
   samepackage_determine_instance.  The path of the replaced entry stays cut while the list is read, and all paths
   are mended at the end.
   */
  method DetermineInstance(sameRevision: seq<Path>, upgrade: Option<Path>) returns (ret: int)
    requires AllEntryPaths(sameRevision)
    requires upgrade.Some? ==> IsEntryPath(upgrade.value.text) && upgrade.value !in sameRevision
    modifies sameRevision, if upgrade.Some? then {upgrade.value} else {}
    ensures Mended(sameRevision)
    ensures upgrade.Some? ==> upgrade.value.text == old(upgrade.value.text)
    ensures ret == old(Chosen(ParseAll(sameRevision), if upgrade.Some? then Some(Parse(upgrade.value.text)) else None))
  {
    if |sameRevision| == 0 {
      return 0;
    }
    if upgrade.None? {
      var idList, hit := CollectIds(sameRevision, None);
      ret := FindFree(idList);
    } else {
      ret := IdReplacing(sameRevision, upgrade.value);
    }
  }

  /** The part of it for an entry that is being replaced. */
  method IdReplacing(sameRevision: seq<Path>, s: Path) returns (ret: int)
    requires AllEntryPaths(sameRevision) && |sameRevision| > 0
    requires IsEntryPath(s.text) && s !in sameRevision
    modifies sameRevision, s
    ensures Mended(sameRevision)
    ensures s.text == old(s.text)
    ensures ret == Chosen(old(ParseAll(sameRevision)), Some(old(Parse(s.text))))
  {
    ghost var up := Parse(s.text);
    var rev, slash := RevInstance(s);
    assert s.text[rev..slash] == up.revision;
    assert s.text[slash + 1..] == old(InstanceOf(s.text));
    ret := IdFor(sameRevision, s.text[rev..slash], s.text[slash + 1..]);
    s.text := s.text[slash := '/'];
    assert s.text == old(s.text);
  }

  /** The part of it between the cutting and the mending of the replaced entry's path. */
  method IdFor(sameRevision: seq<Path>, revision: string, instance: string) returns (ret: int)
    requires AllEntryPaths(sameRevision) && |sameRevision| > 0
    modifies sameRevision
    ensures Mended(sameRevision)
    ensures ret == Chosen(old(ParseAll(sameRevision)), Some(Installed(revision, Atoi(instance).0)))
  {
    var idList, hit := CollectIds(sameRevision, Some(revision));
    ret := -1;
    if hit {
      ret := Atoi(instance).0;
    }
    if |idList| > 0 {
      ret := FindFree(idList);
    }
  }

  lemma NoneOfStep(list: seq<Installed>, k: nat, revision: Option<string>)
    requires k < |list| && NoneOf(list, k, revision) && !HasRevision(list[k], revision)
    ensures NoneOf(list, k + 1, revision)
  {
  }

  lemma PrefixGrows<T>(a: seq<T>, b: seq<T>, x: T)
    requires a <= b && |a| < |b| && b[|a|] == x
    ensures a + [x] <= b
  {
    assert b == a + b[|a|..];
  }

  lemma {:induction false} BeforeIs(list: seq<Installed>, revision: Option<string>, k: nat)
    requires k <= |list| && NoneOf(list, k, revision)
    requires k < |list| ==> HasRevision(list[k], revision)
    ensures Before(list, revision) == k
  {
    if k == 0 {
    } else {
      BeforeIs(list[1..], revision, k - 1);
    }
  }

  // ------------------------------------------------------------ when an id is found

  /** The id is none of those before the first entry with the replaced revision. */
  lemma ChosenAvoids(list: seq<Installed>, upgrade: Option<Installed>, i: nat)
    requires Chosen(list, upgrade) >= 0
    requires i < Before(list, if upgrade.Some? then Some(upgrade.value.revision) else None)
    ensures list[i].id != Chosen(list, upgrade)
  {
    var k := Before(list, if upgrade.Some? then Some(upgrade.value.revision) else None);
    assert list[..k][i] == list[i];
  }

  /** -1 comes back exactly when the ids 0 to 19 are all taken. */
  lemma NoneFree(list: seq<Installed>)
    ensures LeastFree(list, 0) == -1 <==> forall n :: 0 <= n < MAX_INSTANCES ==> Taken(list, n)
  {
  }

  /** Fewer than twenty entries always leave an id free, and it is at most their number. */
  lemma FewEntriesSucceed(list: seq<Installed>)
    requires |list| < MAX_INSTANCES
    ensures 0 <= LeastFree(list, 0) <= |list|
  {
    var r := LeastFree(list, 0);
    var m := if r == -1 then MAX_INSTANCES else r;
    var ids := set e | e in list :: e.id;
    IdSetSmall(list);
    forall n | 0 <= n < m ensures n in ids {
      assert Taken(list, n);
      var i :| 0 <= i < |list| && list[i].id == n;
      assert list[i] in list;
    }
    ManyNumbers(m, ids);
  }

  lemma {:induction false} IdSetSmall(list: seq<Installed>)
    ensures |set e | e in list :: e.id| <= |list|
  {
    var ids := set e | e in list :: e.id;
    if list == [] {
      assert ids == {};
    } else {
      IdSetSmall(list[1..]);
      var rest := set e | e in list[1..] :: e.id;
      assert list == [list[0]] + list[1..];
      assert ids == rest + {list[0].id};
    }
  }

  /** Pigeonhole: a set that has all the numbers below `m` has `m` members. */
  lemma {:induction false} ManyNumbers(m: nat, ids: set<int>)
    requires forall n :: 0 <= n < m ==> n in ids
    ensures m <= |ids|
  {
    if m == 0 {
    } else {
      ManyNumbers(m - 1, ids - {m - 1});
    }
  }
}
