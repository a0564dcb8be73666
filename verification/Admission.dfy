/**
 Deciding whether a package may be installed, and what installing it does to the catalog.

 The tests look at four answers of the catalog query: the installed entries with a lower, the same and a higher
 revision at the location of the package, and those with the same revision at any location.
 */
module Admission {
  import opened Wrappers
  import opened Text
  import opened Instances

  // ------------------------------------------------------------ entries and queries

  datatype Entry = Entry(bundle: string, product: string, revision: string, instance: nat, location: string)

  /** The location is the one that was asked for, if any; an empty one makes the queries ask for any location. */
  datatype Package = Package(bundle: string, product: string, revision: string, location: Option<string>)

  /** An entry with an empty location is at the root. */
  function Place(location: string): string
  {
    if location == "" then "/" else location
  }

  /** Where the entry of the package goes. */
  function Home(p: Package): string
  {
    if p.location.None? then "/" else Place(p.location.value)
  }

  /** How an installed revision stands to that of the package. */
  datatype Relation = Lower | Same | Higher

  type Comparison = (string, string) -> Relation

  /** The catalog listing only reads directories named by one digit. */
  const LISTED_INSTANCES := 10

  predicate Listed(e: Entry)
  {
    e.instance < LISTED_INSTANCES
  }

  /** `listing` has the listed active entries, once each, in some order. */
  ghost predicate Lists(listing: seq<Entry>, active: set<Entry>)
  {
    && (forall e :: e in listing <==> e in active && Listed(e))
    && forall i, j :: 0 <= i < j < |listing| ==> listing[i] != listing[j]
  }

  /** The product of the package, where the package goes, or anywhere if its location is empty. */
  predicate At(p: Package, e: Entry)
  {
    e.product == p.product && (p.location == Some("") || Place(e.location) == Home(p))
  }

  /** The answer to the query for entries at the location with a revision that stands so to the package's. */
  function Standing(listing: seq<Entry>, p: Package, cmp: Comparison, rel: Relation): seq<Entry>
  {
    if listing == [] then []
    else
      var rest := Standing(listing[1..], p, cmp, rel);
      if At(p, listing[0]) && cmp(listing[0].revision, p.revision) == rel then [listing[0]] + rest else rest
  }

  function SameAnywhere(listing: seq<Entry>, p: Package, cmp: Comparison): seq<Entry>
  {
    Standing(listing, p.(location := Some("")), cmp, Same)
  }

  /** What the four queries return: paths, or one empty string when nothing matches. */
  datatype Responses = Responses(lower: seq<string>, same: seq<string>, higher: seq<string>, sameAnywhere: seq<string>)

  function PathOf(root: string, e: Entry): string
  {
    EntryPath(root + "/" + e.bundle + "/" + e.product, e.revision, e.instance)
  }

  function PathsOf(root: string, entries: seq<Entry>): (paths: seq<string>)
    ensures |paths| == |entries|
  {
    seq(|entries|, i requires 0 <= i < |entries| => PathOf(root, entries[i]))
  }

  function Reply(root: string, entries: seq<Entry>): seq<string>
  {
    if entries == [] then [""] else PathsOf(root, entries)
  }

  function RepliesTo(root: string, listing: seq<Entry>, p: Package, cmp: Comparison): Responses
  {
    Responses(Reply(root, Standing(listing, p, cmp, Lower)),
              Reply(root, Standing(listing, p, cmp, Same)),
              Reply(root, Standing(listing, p, cmp, Higher)),
              Reply(root, SameAnywhere(listing, p, cmp)))
  }

  // ------------------------------------------------------------ the tests

  datatype Options = Options(allowDowndate: bool, reinstall: bool, force: bool)

  datatype Decision = Refused | Admitted(upgrade: Option<string>, instance: nat)

  /** samepackage_exte_test: count and collect the paths that are not empty. */
  method ExteTest(answers: seq<string>) returns (ret: nat, matches: seq<string>)
    ensures matches == NonEmpty(answers) && ret == |matches|
  {
    ret, matches := 0, [];
    var i := 0;
    while i < |answers|
      invariant 0 <= i <= |answers|
      invariant ret == |matches| && matches + NonEmpty(answers[i..]) == NonEmpty(answers)
    {
      if |answers[i]| > 0 {
        ret := ret + 1;
        Assoc(matches, [answers[i]], NonEmpty(answers[i + 1..]));
        matches := matches + [answers[i]];
      }
      i := i + 1;
    }
  }

  function First(paths: seq<string>): Option<string>
  {
    if paths == [] then None else Some(paths[0])
  }

  /** Higher revisions come first, then the same, then lower ones. */
  function Candidates(sl: Responses): seq<string>
  {
    NonEmpty(sl.higher) + NonEmpty(sl.same) + NonEmpty(sl.lower)
  }

  /** samepackage_multiple_version_test */
  method MultipleVersionTest(sl: Responses, allow: bool) returns (ret: nat)
    ensures ret == 0 <==> allow || |Candidates(sl)| <= 1
  {
    var ret0, _ := ExteTest(sl.lower);
    var ret1, _ := ExteTest(sl.same);
    var ret2, _ := ExteTest(sl.higher);
    var total := ret0 + ret1 + ret2;
    if allow {
      return 0;
    }
    if total == 1 {
      return 0;
    }
    return total;
  }

  /** samepackage_reinstall_test */
  method ReinstallTest(sl: Responses, allow: bool) returns (ret: nat)
    ensures ret == 0 <==> allow || NonEmpty(sl.same) == []
  {
    var total, _ := ExteTest(sl.same);
    ret := total;
    if allow {
      ret := 0;
    }
  }

  /** samepackage_downdate_test */
  method DowndateTest(sl: Responses, allow: bool) returns (ret: nat)
    ensures ret == 0 <==> allow || NonEmpty(sl.higher) == []
  {
    var total, _ := ExteTest(sl.higher);
    ret := total;
    if allow {
      ret := 0;
    }
  }

  /** One of the three loops of s_determine_upgrade_selection. */
  method Pick(paths: seq<string>, selected: seq<string>) returns (selected': seq<string>)
    requires |selected| <= 1
    ensures selected' == if selected == [] && paths != [] then [paths[0]] else selected
  {
    selected' := selected;
    for i := 0 to |paths|
      invariant selected' == if selected == [] && i > 0 then [paths[0]] else selected
    {
      if |selected'| == 0 {
        selected' := selected' + [paths[i]];
      }
    }
  }

  /** s_determine_upgrade_selection: the paths of the entries to replace. */
  method DetermineUpgradeSelection(sl: Responses) returns (selected: seq<string>)
    ensures selected == if Candidates(sl) == [] then [] else [Candidates(sl)[0]]
  {
    var _, s1 := ExteTest(sl.lower);
    var _, s2 := ExteTest(sl.same);
    var _, s3 := ExteTest(sl.higher);
    selected := Pick(s3, []);
    selected := Pick(s2, selected);
    selected := Pick(s1, selected);
  }

  // ------------------------------------------------------------ the decision

  predicate PathTexts(paths: seq<string>)
  {
    forall i :: 0 <= i < |paths| ==> IsEntryPath(paths[i])
  }

  function ParseTexts(paths: seq<string>): (p: seq<Installed>)
    requires PathTexts(paths)
    ensures |p| == |paths|
  {
    seq(|paths|, i requires 0 <= i < |paths| => Parse(paths[i]))
  }

  /** The id for the new entry, or -1. */
  function InstanceFor(sl: Responses): int
    requires PathTexts(NonEmpty(sl.sameAnywhere)) && PathTexts(Candidates(sl))
  {
    var c := Candidates(sl);
    Chosen(ParseTexts(NonEmpty(sl.sameAnywhere)), if c == [] then None else Some(Parse(c[0])))
  }

  /** Nothing installed stands in the way, and there is an id for the new entry. */
  predicate Admits(sl: Responses, options: Options)
    requires PathTexts(NonEmpty(sl.sameAnywhere)) && PathTexts(Candidates(sl))
  {
    && (options.allowDowndate || NonEmpty(sl.higher) == [])
    && (options.reinstall || NonEmpty(sl.same) == [])
    && (options.force || |Candidates(sl)| <= 1)
    && InstanceFor(sl) >= 0
  }

  method CopyPaths(texts: seq<string>) returns (list: seq<Path>)
    requires PathTexts(texts)
    ensures fresh(list)
    ensures AllEntryPaths(list) && ParseAll(list) == ParseTexts(texts)
  {
    list := [];
    for i := 0 to |texts|
      invariant |list| == i && fresh(list)
      invariant forall j :: 0 <= j < i ==> list[j].text == texts[j]
    {
      var s := new Path(texts[i]);
      list := list + [s];
    }
    assert ParseAll(list) == ParseTexts(texts);
  }

  /** The id when nothing is replaced. */
  method IdAmong(texts: seq<string>) returns (ret: int)
    requires PathTexts(texts)
    ensures ret == Chosen(ParseTexts(texts), None)
  {
    var list := CopyPaths(texts);
    ret := DetermineInstance(list, None);
  }

  /** The id when the entry at the path `upgrade` is replaced. */
  method IdInPlaceOf(texts: seq<string>, upgrade: string) returns (ret: int)
    requires PathTexts(texts) && IsEntryPath(upgrade)
    ensures ret == Chosen(ParseTexts(texts), Some(Parse(upgrade)))
  {
    var s := new Path(upgrade);
    var list := CopyPaths(texts);
    ret := DetermineInstance(list, Some(s));
  }

  method InstanceId(sl: Responses, selected: seq<string>) returns (ret: int)
    requires PathTexts(NonEmpty(sl.sameAnywhere)) && PathTexts(Candidates(sl))
    requires selected == if Candidates(sl) == [] then [] else [Candidates(sl)[0]]
    ensures ret == InstanceFor(sl)
  {
    var _, texts := ExteTest(sl.sameAnywhere);
    if selected == [] {
      ret := IdAmong(texts);
    } else {
      ret := IdInPlaceOf(texts, selected[0]);
    }
  }

  /**
   The admission tests in the order main makes them, without preview.  A refused reinstall raises the abort but does
   not leave at once; nothing later is sent all the same.  `othersPass` is the outcome of the
   overwrite, requisite and compatibility tests.
   */
  method Admit(sl: Responses, options: Options, othersPass: bool) returns (d: Decision)
    requires PathTexts(NonEmpty(sl.sameAnywhere)) && PathTexts(Candidates(sl))
    ensures d.Admitted? <==> Admits(sl, options) && othersPass
    ensures d.Admitted? ==> d.upgrade == First(Candidates(sl)) && d.instance == InstanceFor(sl)
  {
    var ret: int := DowndateTest(sl, options.allowDowndate);
    if ret != 0 {
      return Refused;
    }
    var aborted := false;
    ret := ReinstallTest(sl, options.reinstall);
    if ret != 0 {
      aborted := true;
    }
    ret := MultipleVersionTest(sl, options.force);
    if ret != 0 {
      return Refused;
    }
    var selected := DetermineUpgradeSelection(sl);
    if !othersPass {
      return Refused;
    }
    ret := InstanceId(sl, selected);
    if ret < 0 {
      aborted := true;
    }
    if aborted {
      return Refused;
    }
    d := Admitted(First(selected), ret);
  }
}
