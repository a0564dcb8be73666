/**
 What installs do to the catalog: one version per product and location, and a path of its own for every entry.
 */
module CatalogRuns {
  import opened Wrappers
  import opened Text
  import opened Instances
  import opened Admission

  // ------------------------------------------------------------ the tests, said of entries

  /** A name that can be a component of a path. */
  predicate WellNamed(e: Entry)
  {
    '/' !in e.revision && '\0' !in e.revision && '\0' !in e.bundle && '\0' !in e.product
  }

  function Key(e: Entry): Installed
  {
    Installed(e.revision, e.instance)
  }

  function Keys(entries: seq<Entry>): seq<Installed>
  {
    seq(|entries|, i requires 0 <= i < |entries| => Key(entries[i]))
  }

  /** The listed entries that the package would replace, in the order of preference. */
  function Rivals(listing: seq<Entry>, p: Package, cmp: Comparison): seq<Entry>
  {
    Standing(listing, p, cmp, Higher) + Standing(listing, p, cmp, Same) + Standing(listing, p, cmp, Lower)
  }

  function Replaced(listing: seq<Entry>, p: Package, cmp: Comparison): Option<Entry>
  {
    var r := Rivals(listing, p, cmp);
    if r == [] then None else Some(r[0])
  }

  function IdFor(listing: seq<Entry>, p: Package, cmp: Comparison): int
  {
    var d := Replaced(listing, p, cmp);
    Chosen(Keys(SameAnywhere(listing, p, cmp)), if d.None? then None else Some(Key(d.value)))
  }

  predicate Admissible(listing: seq<Entry>, p: Package, cmp: Comparison, options: Options)
  {
    && (options.allowDowndate || Standing(listing, p, cmp, Higher) == [])
    && (options.reinstall || Standing(listing, p, cmp, Same) == [])
    && (options.force || |Rivals(listing, p, cmp)| <= 1)
    && IdFor(listing, p, cmp) >= 0
  }

  lemma {:induction false} StandingHas(listing: seq<Entry>, p: Package, cmp: Comparison, rel: Relation, e: Entry)
    ensures e in Standing(listing, p, cmp, rel) <==> e in listing && At(p, e) && cmp(e.revision, p.revision) == rel
  {
    if listing == [] {
    } else {
      StandingHas(listing[1..], p, cmp, rel, e);
    }
  }

  /** The three queries leave out no listed entry of the product at the location, and have no other. */
  lemma RivalsAreAll(listing: seq<Entry>, p: Package, cmp: Comparison, e: Entry)
    ensures e in Rivals(listing, p, cmp) <==> e in listing && At(p, e)
  {
    StandingHas(listing, p, cmp, Higher, e);
    StandingHas(listing, p, cmp, Same, e);
    StandingHas(listing, p, cmp, Lower, e);
  }

  lemma PathNonEmpty(root: string, e: Entry)
    ensures PathOf(root, e) != ""
  {
    assert |PathOf(root, e)| >= |"/"|;
  }

  lemma {:induction false} NothingEmpty(paths: seq<string>)
    requires forall i :: 0 <= i < |paths| ==> paths[i] != ""
    ensures NonEmpty(paths) == paths
  {
    if paths == [] {
    } else {
      NothingEmpty(paths[1..]);
      assert paths == [paths[0]] + paths[1..];
    }
  }

  lemma PathsNonEmpty(root: string, entries: seq<Entry>)
    ensures NonEmpty(PathsOf(root, entries)) == PathsOf(root, entries)
  {
    forall i | 0 <= i < |entries| ensures PathsOf(root, entries)[i] != "" {
      PathNonEmpty(root, entries[i]);
    }
    NothingEmpty(PathsOf(root, entries));
  }

  lemma ReplyHas(root: string, entries: seq<Entry>)
    ensures NonEmpty(Reply(root, entries)) == PathsOf(root, entries)
  {
    PathsNonEmpty(root, entries);
  }

  lemma ParseOfPath(root: string, e: Entry)
    requires WellNamed(e) && '\0' !in root
    ensures IsEntryPath(PathOf(root, e)) && Parse(PathOf(root, e)) == Key(e)
  {
    PathParts(root + "/" + e.bundle + "/" + e.product, e.revision, e.instance);
  }

  lemma ParseOfPaths(root: string, entries: seq<Entry>)
    requires '\0' !in root && forall e :: e in entries ==> WellNamed(e)
    ensures PathTexts(PathsOf(root, entries)) && ParseTexts(PathsOf(root, entries)) == Keys(entries)
  {
    forall i | 0 <= i < |entries|
      ensures IsEntryPath(PathOf(root, entries[i])) && Parse(PathOf(root, entries[i])) == Key(entries[i])
    {
      assert entries[i] in entries;
      ParseOfPath(root, entries[i]);
    }
  }

  lemma PathsOfConcat(root: string, a: seq<Entry>, b: seq<Entry>)
    ensures PathsOf(root, a + b) == PathsOf(root, a) + PathsOf(root, b)
  {
  }

  lemma CandidatesAreRivals(root: string, listing: seq<Entry>, p: Package, cmp: Comparison)
    ensures Candidates(RepliesTo(root, listing, p, cmp)) == PathsOf(root, Rivals(listing, p, cmp))
  {
    var higher, same, lower :=
      Standing(listing, p, cmp, Higher), Standing(listing, p, cmp, Same), Standing(listing, p, cmp, Lower);
    ReplyHas(root, lower);
    ReplyHas(root, same);
    ReplyHas(root, higher);
    PathsOfConcat(root, higher, same);
    PathsOfConcat(root, higher + same, lower);
  }

  /** The path strings carry what the decision needs: it comes out as if made on the entries themselves. */
  lemma DecisionOnEntries(root: string, listing: seq<Entry>, p: Package, cmp: Comparison)
    requires '\0' !in root && forall e :: e in listing ==> WellNamed(e)
    ensures var sl := RepliesTo(root, listing, p, cmp);
            && Candidates(sl) == PathsOf(root, Rivals(listing, p, cmp))
            && PathTexts(Candidates(sl)) && PathTexts(NonEmpty(sl.sameAnywhere))
            && InstanceFor(sl) == IdFor(listing, p, cmp)
            && forall options :: Admits(sl, options) <==> Admissible(listing, p, cmp, options)
  {
    var rivals := Rivals(listing, p, cmp);
    var same := SameAnywhere(listing, p, cmp);
    CandidatesAreRivals(root, listing, p, cmp);
    ReplyHas(root, same);
    ReplyHas(root, Standing(listing, p, cmp, Higher));
    ReplyHas(root, Standing(listing, p, cmp, Same));
    forall e | e in rivals ensures WellNamed(e) {
      RivalsAreAll(listing, p, cmp, e);
    }
    forall e | e in same ensures WellNamed(e) {
      StandingHas(listing, p.(location := Some("")), cmp, Same, e);
    }
    ParseOfPaths(root, rivals);
    ParseOfPaths(root, same);
    assert rivals != [] ==> ParseTexts(PathsOf(root, rivals))[0] == Key(rivals[0]);
  }

  /** Two listed entries of the product where the package goes. */
  ghost predicate SeveralThere(listing: seq<Entry>, p: Package)
  {
    exists i, j :: 0 <= i < j < |listing| && At(p, listing[i]) && At(p, listing[j])
  }

  lemma {:induction false} StandingCount(listing: seq<Entry>, p: Package, cmp: Comparison)
    ensures |Rivals(listing, p, cmp)| == |Installs(listing, p)|
  {
    if listing == [] {
    } else {
      StandingCount(listing[1..], p, cmp);
    }
  }

  /** The listed entries of the product where the package goes, in the order of the listing. */
  function Installs(listing: seq<Entry>, p: Package): seq<Entry>
  {
    if listing == [] then [] else (if At(p, listing[0]) then [listing[0]] else []) + Installs(listing[1..], p)
  }

  lemma {:induction false} InstallsHas(listing: seq<Entry>, p: Package, e: Entry)
    ensures e in Installs(listing, p) <==> e in listing && At(p, e)
  {
    if listing == [] {
    } else {
      InstallsHas(listing[1..], p, e);
    }
  }

  lemma {:induction false} SeveralMeans(listing: seq<Entry>, p: Package)
    ensures |Installs(listing, p)| > 1 <==> SeveralThere(listing, p)
  {
    if listing == [] {
    } else {
      var rest := listing[1..];
      SeveralMeans(rest, p);
      if SeveralThere(rest, p) {
        var i, j :| 0 <= i < j < |rest| && At(p, rest[i]) && At(p, rest[j]);
        assert listing[i + 1] == rest[i] && listing[j + 1] == rest[j];
      }
      if SeveralThere(listing, p) {
        var i, j :| 0 <= i < j < |listing| && At(p, listing[i]) && At(p, listing[j]);
        assert listing[j] == rest[j - 1];
        InstallsHas(rest, p, rest[j - 1]);
        if i > 0 {
          assert listing[i] == rest[i - 1];
        }
      }
      if At(p, listing[0]) && Installs(rest, p) != [] {
        var e := Installs(rest, p)[0];
        InstallsHas(rest, p, e);
        var j :| 0 <= j < |rest| && rest[j] == e;
        assert listing[j + 1] == e;
      }
    }
  }

  /**
   A package is admitted if and only if no higher revision is installed where it goes, or downdating is allowed; its own is
   not, or reinstalling is allowed; at most one is, or force is given; and there is an id.
   */
  lemma AdmittedIff(root: string, listing: seq<Entry>, p: Package, cmp: Comparison, options: Options)
    requires '\0' !in root && forall e :: e in listing ==> WellNamed(e)
    ensures var sl := RepliesTo(root, listing, p, cmp);
            && PathTexts(NonEmpty(sl.sameAnywhere)) && PathTexts(Candidates(sl))
            && (Admits(sl, options) <==>
                  && (options.allowDowndate || forall e :: e in listing && At(p, e) ==> cmp(e.revision, p.revision) != Higher)
                  && (options.reinstall || forall e :: e in listing && At(p, e) ==> cmp(e.revision, p.revision) != Same)
                  && (options.force || !SeveralThere(listing, p))
                  && InstanceFor(sl) >= 0)
  {
    DecisionOnEntries(root, listing, p, cmp);
    NoneStanding(listing, p, cmp, Higher);
    NoneStanding(listing, p, cmp, Same);
    StandingCount(listing, p, cmp);
    SeveralMeans(listing, p);
  }

  lemma NoneStanding(listing: seq<Entry>, p: Package, cmp: Comparison, rel: Relation)
    ensures Standing(listing, p, cmp, rel) == [] <==>
            forall e :: e in listing && At(p, e) ==> cmp(e.revision, p.revision) != rel
  {
    forall e ensures e in Standing(listing, p, cmp, rel) <==> e in listing && At(p, e) && cmp(e.revision, p.revision) == rel {
      StandingHas(listing, p, cmp, rel, e);
    }
    if Standing(listing, p, cmp, rel) != [] {
      assert Standing(listing, p, cmp, rel)[0] in Standing(listing, p, cmp, rel);
    }
  }

  /** What is replaced is of the highest kind there is: a lower revision only if there is no other, the same only if no higher. */
  lemma ReplacedIsHighest(listing: seq<Entry>, p: Package, cmp: Comparison, e: Entry)
    requires e in listing && At(p, e)
    ensures var d := Replaced(listing, p, cmp);
            && d.Some?
            && (cmp(d.value.revision, p.revision) == Same ==> cmp(e.revision, p.revision) != Higher)
            && (cmp(d.value.revision, p.revision) == Lower ==> cmp(e.revision, p.revision) == Lower)
  {
    RivalsAreAll(listing, p, cmp, e);
    NoneStanding(listing, p, cmp, Higher);
    NoneStanding(listing, p, cmp, Same);
    var higher, same := Standing(listing, p, cmp, Higher), Standing(listing, p, cmp, Same);
    if higher != [] {
      StandingHas(listing, p, cmp, Higher, higher[0]);
    } else if same != [] {
      StandingHas(listing, p, cmp, Same, same[0]);
    }
  }

  // ------------------------------------------------------------ one install

  /**
   How an install ends.  `removed` says whether the replaced entry was moved out of the way; when moving it failed the
   install goes on and nothing is restored later.
   */
  datatype Fate = Refusal | Veto(removed: bool) | Failure(removed: bool) | Completion(removed: bool)

  function NewEntry(p: Package, id: nat): Entry
  {
    Entry(p.bundle, p.product, p.revision, id, Home(p))
  }

  predicate SamePath(a: Entry, b: Entry)
  {
    a.bundle == b.bundle && a.product == b.product && a.revision == b.revision && a.instance == b.instance
  }

  function Remove(active: set<Entry>, d: Option<Entry>, removed: bool): set<Entry>
  {
    if removed && d.Some? then active - {d.value} else active
  }

  function Restore(active: set<Entry>, d: Option<Entry>, removed: bool): set<Entry>
  {
    if removed && d.Some? then active + {d.value} else active
  }

  /** Writing an entry overwrites what was at its path. */
  function Write(active: set<Entry>, e: Entry): set<Entry>
  {
    (set a | a in active && !SamePath(a, e)) + {e}
  }

  function After(active: set<Entry>, d: Option<Entry>, new': Entry, fate: Fate): set<Entry>
  {
    match fate
    case Refusal => active
    case Veto(removed) => Restore(Remove(active, d, removed), d, removed)
    case Failure(removed) => Remove(active, d, removed)
    case Completion(removed) => Write(Remove(active, d, removed), new')
  }

  lemma ReplacedIsListed(listing: seq<Entry>, p: Package, cmp: Comparison)
    ensures var d := Replaced(listing, p, cmp); d.Some? ==> d.value in listing && At(p, d.value)
  {
    var r := Rivals(listing, p, cmp);
    if r != [] {
      RivalsAreAll(listing, p, cmp, r[0]);
    }
  }

  /** After a veto the catalog is what it was. */
  lemma VetoRestores(active: set<Entry>, listing: seq<Entry>, p: Package, cmp: Comparison, id: nat, removed: bool)
    requires Lists(listing, active)
    ensures After(active, Replaced(listing, p, cmp), NewEntry(p, id), Veto(removed)) == active
  {
    ReplacedIsListed(listing, p, cmp);
    var d := Replaced(listing, p, cmp);
    if d.Some? {
      assert active - {d.value} + {d.value} == active;
    }
  }

  /**
   However an install ends: it adds nothing but its own entry, and that only if it completes; what is gone is the replaced entry
   if it was moved away and no veto brought it back, and what was at the path of the new one.
   */
  lemma NothingElseChanges(active: set<Entry>, d: Option<Entry>, new': Entry, fate: Fate, e: Entry)
    requires d.Some? ==> d.value in active
    ensures e in After(active, d, new', fate) <==>
            || (fate.Completion? && e == new')
            || (e in active
                && !(fate.Completion? && SamePath(e, new'))
                && !((fate.Completion? || fate.Failure?) && fate.removed && d == Some(e)))
  {
  }

  ghost predicate ExactlyOne(active: set<Entry>, p: Package)
  {
    exists e :: e in active && At(p, e) && forall a :: a in active && At(p, a) ==> a == e
  }

  lemma AloneMeans(listing: seq<Entry>, p: Package, cmp: Comparison, e: Entry)
    requires |Rivals(listing, p, cmp)| <= 1 && e in listing && At(p, e)
    ensures Replaced(listing, p, cmp) == Some(e)
  {
    RivalsAreAll(listing, p, cmp, e);
  }

  /** The catalog has entries of the product at the location that the listing does not read and the new one spares. */
  ghost predicate Overlooks(active: set<Entry>, p: Package, new': Entry)
  {
    exists e :: e in active && At(p, e) && !Listed(e) && !SamePath(e, new')
  }

  /**
   From any catalog, an install admitted without force leaves exactly one entry of the product at the location
   if and only if the replaced entry is gone (there was none, it was moved away, or the new entry took its
   path) and the listing overlooked none.
   */
  lemma OneVersion(active: set<Entry>, listing: seq<Entry>, p: Package, cmp: Comparison, id: nat, removed: bool)
    requires Lists(listing, active) && |Rivals(listing, p, cmp)| <= 1
    ensures var d := Replaced(listing, p, cmp);
            var new' := NewEntry(p, id);
            ExactlyOne(After(active, d, new', Completion(removed)), p) <==>
            (d.None? || removed || SamePath(d.value, new')) && !Overlooks(active, p, new')
  {
    var d := Replaced(listing, p, cmp);
    var new' := NewEntry(p, id);
    var after := After(active, d, new', Completion(removed));
    ReplacedIsListed(listing, p, cmp);
    assert new' in after && At(p, new');
    if (d.None? || removed || SamePath(d.value, new')) && !Overlooks(active, p, new') {
      forall a | a in after && At(p, a) ensures a == new' {
        if a != new' {
          assert a in active && !SamePath(a, new');
          assert Listed(a);
          AloneMeans(listing, p, cmp, a);
          assert false;
        }
      }
      assert ExactlyOne(after, p);
    } else if d.Some? && !removed && !SamePath(d.value, new') {
      assert d.value in after;
    } else {
      var e :| e in active && At(p, e) && !Listed(e) && !SamePath(e, new');
      assert e in after;
    }
  }

  // ------------------------------------------------------------ the path of the new entry

  ghost predicate UniquePaths(active: set<Entry>)
  {
    forall a, b :: a in active && b in active && SamePath(a, b) ==> a == b
  }

  ghost predicate Reflexive(cmp: Comparison)
  {
    forall r :: cmp(r, r) == Same
  }

  /** Installed entries of the product with the package's revision spell it alike and are in one bundle. */
  ghost predicate OneSpelling(active: set<Entry>, p: Package, cmp: Comparison)
  {
    forall a, b :: a in active && b in active && Rank(a, p, cmp) && Rank(b, p, cmp) ==>
      a.bundle == b.bundle && a.revision == b.revision
  }

  predicate Rank(e: Entry, p: Package, cmp: Comparison)
  {
    e.product == p.product && cmp(e.revision, p.revision) == Same
  }

  lemma SameAnywhereHas(listing: seq<Entry>, p: Package, cmp: Comparison, e: Entry)
    ensures e in SameAnywhere(listing, p, cmp) <==> e in listing && Rank(e, p, cmp)
  {
    StandingHas(listing, p.(location := Some("")), cmp, Same, e);
  }

  /** Where the search for ids stops: at the first entry of the revision that has the replaced entry's spelling. */
  function SearchEnd(listing: seq<Entry>, p: Package, cmp: Comparison): (k: nat)
    ensures k <= |SameAnywhere(listing, p, cmp)|
  {
    var d := Replaced(listing, p, cmp);
    Before(Keys(SameAnywhere(listing, p, cmp)), if d.None? then None else Some(d.value.revision))
  }

  /** A listed entry of the package's revision, in whatever spelling and wherever, has the id. */
  ghost predicate InUse(listing: seq<Entry>, p: Package, cmp: Comparison, id: int)
  {
    exists e :: e in listing && Rank(e, p, cmp) && e.instance == id
  }

  /** The least id that is not in use, or -1 when 0 to 19 are. */
  ghost predicate IsLeastUnused(listing: seq<Entry>, p: Package, cmp: Comparison, id: int)
  {
    if id == -1 then forall n :: 0 <= n < 20 ==> InUse(listing, p, cmp, n)
    else 0 <= id < 20 && !InUse(listing, p, cmp, id) && forall n :: 0 <= n < id ==> InUse(listing, p, cmp, n)
  }

  lemma TakenMeans(listing: seq<Entry>, p: Package, cmp: Comparison, n: int)
    ensures Taken(Keys(SameAnywhere(listing, p, cmp)), n) <==> InUse(listing, p, cmp, n)
  {
    var same := SameAnywhere(listing, p, cmp);
    if Taken(Keys(same), n) {
      var i :| 0 <= i < |same| && Keys(same)[i].id == n;
      assert same[i] in same && Keys(same)[i] == Key(same[i]);
      SameAnywhereHas(listing, p, cmp, same[i]);
    }
    if InUse(listing, p, cmp, n) {
      var e :| e in listing && Rank(e, p, cmp) && e.instance == n;
      SameAnywhereHas(listing, p, cmp, e);
      var i :| 0 <= i < |same| && same[i] == e;
      assert Keys(same)[i].id == n;
    }
  }

  /** The search meets every entry of the revision, unless one of that revision is replaced. */
  lemma SearchesAll(listing: seq<Entry>, p: Package, cmp: Comparison)
    requires Replaced(listing, p, cmp).Some? ==> !Rank(Replaced(listing, p, cmp).value, p, cmp)
    ensures SearchEnd(listing, p, cmp) == |SameAnywhere(listing, p, cmp)|
  {
    var same, k := SameAnywhere(listing, p, cmp), SearchEnd(listing, p, cmp);
    ReplacedIsListed(listing, p, cmp);
    forall e ensures e in same ==> Rank(e, p, cmp) {
      SameAnywhereHas(listing, p, cmp, e);
    }
    forall j | 0 <= j < |same| ensures Keys(same)[j] == Key(same[j]) && same[j] in same {
    }
  }

  /**
   Unless an entry of the package's own revision is replaced, its id is the least that no listed entry of that revision has; so
   the first one gets 0, and the number of entries is never exceeded.
   */
  lemma IdIsLeastUnused(listing: seq<Entry>, p: Package, cmp: Comparison)
    requires Replaced(listing, p, cmp).Some? ==> !Rank(Replaced(listing, p, cmp).value, p, cmp)
    ensures IsLeastUnused(listing, p, cmp, IdFor(listing, p, cmp))
    ensures (forall e :: e in listing ==> !Rank(e, p, cmp)) ==> IdFor(listing, p, cmp) == 0
    ensures |SameAnywhere(listing, p, cmp)| < MAX_INSTANCES ==>
              0 <= IdFor(listing, p, cmp) <= |SameAnywhere(listing, p, cmp)|
  {
    var same := SameAnywhere(listing, p, cmp);
    var keys := Keys(same);
    SearchesAll(listing, p, cmp);
    forall n: int ensures Taken(keys, n) <==> InUse(listing, p, cmp, n) {
      TakenMeans(listing, p, cmp, n);
    }
    assert keys[..|keys|] == keys;
    if keys != [] {
      assert IdFor(listing, p, cmp) == LeastFree(keys, 0);
      if |keys| < MAX_INSTANCES {
        FewEntriesSucceed(keys);
      }
    }
    if forall e :: e in listing ==> !Rank(e, p, cmp) {
      assert !InUse(listing, p, cmp, 0);
    }
  }

  /** One of the first `k` entries has the id. */
  ghost predicate HasId(same: seq<Entry>, k: nat, id: int)
    requires k <= |same|
  {
    exists j :: 0 <= j < k && same[j].instance == id
  }

  /** The least id that none of the first `k` entries has, or -1 when they have 0 to 19. */
  ghost predicate IsLeastMissing(same: seq<Entry>, k: nat, id: int)
    requires k <= |same|
  {
    if id == -1 then forall n :: 0 <= n < 20 ==> HasId(same, k, n)
    else 0 <= id < 20 && !HasId(same, k, id) && forall n :: 0 <= n < id ==> HasId(same, k, n)
  }

  lemma FirstTaken(same: seq<Entry>, k: nat, n: int)
    requires k <= |same|
    ensures Taken(Keys(same)[..k], n) <==> HasId(same, k, n)
  {
    var keys := Keys(same)[..k];
    if Taken(keys, n) {
      var i :| 0 <= i < |keys| && keys[i].id == n;
      assert same[i].instance == n;
    }
    if HasId(same, k, n) {
      var j :| 0 <= j < k && same[j].instance == n;
      assert keys[j].id == n;
    }
  }

  /**
   When an entry is replaced whose spelling comes first at index `k` among those of the revision: it hands its id on if it is
   the very first, and otherwise the new id is the least that none before has.
   */
  lemma IdWhenReplaced(listing: seq<Entry>, p: Package, cmp: Comparison, k: nat)
    requires var d, same := Replaced(listing, p, cmp), SameAnywhere(listing, p, cmp);
             && d.Some? && k < |same| && same[k].revision == d.value.revision
             && forall j :: 0 <= j < k ==> same[j].revision != d.value.revision
    ensures var id, same := IdFor(listing, p, cmp), SameAnywhere(listing, p, cmp);
            if k == 0 then id == Replaced(listing, p, cmp).value.instance else IsLeastMissing(same, k, id)
  {
    var d, same := Replaced(listing, p, cmp), SameAnywhere(listing, p, cmp);
    var keys := Keys(same);
    BeforeIs(keys, Some(d.value.revision), k);
    if k > 0 {
      assert IdFor(listing, p, cmp) == LeastFree(keys[..k], 0);
      forall n: int ensures Taken(keys[..k], n) <==> HasId(same, k, n) {
        FirstTaken(same, k, n);
      }
    }
  }

  /** The same of the id that is chosen on the path strings, when the package is admitted. */
  lemma AdmittedId(root: string, listing: seq<Entry>, p: Package, cmp: Comparison, options: Options)
    requires '\0' !in root && forall e :: e in listing ==> WellNamed(e)
    ensures var sl := RepliesTo(root, listing, p, cmp);
            && PathTexts(NonEmpty(sl.sameAnywhere)) && PathTexts(Candidates(sl))
            && ((Replaced(listing, p, cmp).Some? ==> !Rank(Replaced(listing, p, cmp).value, p, cmp)) ==>
                  IsLeastUnused(listing, p, cmp, InstanceFor(sl)))
            && (Admits(sl, options) ==> 0 <= InstanceFor(sl))
  {
    DecisionOnEntries(root, listing, p, cmp);
    if Replaced(listing, p, cmp).Some? ==> !Rank(Replaced(listing, p, cmp).value, p, cmp) {
      IdIsLeastUnused(listing, p, cmp);
    }
  }

  /** An active entry at the new path is one of those that the search did not look at. */
  lemma ClashIsLate(active: set<Entry>, listing: seq<Entry>, p: Package, cmp: Comparison, e: Entry) returns (i: nat)
    requires Lists(listing, active) && Reflexive(cmp) && 0 <= IdFor(listing, p, cmp) < LISTED_INSTANCES
    requires e in active && SamePath(e, NewEntry(p, IdFor(listing, p, cmp)))
    ensures SearchEnd(listing, p, cmp) <= i < |SameAnywhere(listing, p, cmp)| && SameAnywhere(listing, p, cmp)[i] == e
  {
    var d := Replaced(listing, p, cmp);
    var same := SameAnywhere(listing, p, cmp);
    SameAnywhereHas(listing, p, cmp, e);
    assert e in same;
    i :| 0 <= i < |same| && same[i] == e;
    if i < SearchEnd(listing, p, cmp) {
      ChosenAvoids(Keys(same), if d.None? then None else Some(Key(d.value)), i);
      assert false;
    }
  }

  /** An install that does not replace an entry of its own revision gets a path that no active entry has. */
  lemma FreshUnlessReinstall(active: set<Entry>, listing: seq<Entry>, p: Package, cmp: Comparison, e: Entry)
    requires Lists(listing, active) && Reflexive(cmp) && 0 <= IdFor(listing, p, cmp) < LISTED_INSTANCES
    requires Replaced(listing, p, cmp).Some? ==> !Rank(Replaced(listing, p, cmp).value, p, cmp)
    requires e in active
    ensures !SamePath(e, NewEntry(p, IdFor(listing, p, cmp)))
  {
    if SamePath(e, NewEntry(p, IdFor(listing, p, cmp))) {
      var i := ClashIsLate(active, listing, p, cmp, e);
      var same, k := SameAnywhere(listing, p, cmp), SearchEnd(listing, p, cmp);
      assert Keys(same)[k] == Key(same[k]);
      assert same[k] in same;
      SameAnywhereHas(listing, p, cmp, same[k]);
      ReplacedIsListed(listing, p, cmp);
      assert false;
    }
  }

  /** The id of a new entry: that of the replaced one if the search does not begin, or the least that it did not meet. */
  lemma IdIs(listing: seq<Entry>, p: Package, cmp: Comparison)
    requires SameAnywhere(listing, p, cmp) != []
    ensures var k, keys := SearchEnd(listing, p, cmp), Keys(SameAnywhere(listing, p, cmp));
            IdFor(listing, p, cmp) ==
            if k == 0 then Replaced(listing, p, cmp).value.instance else LeastFree(keys[..k], 0)
  {
  }

  /** The entry has the package's bundle and spelling, and the least id that none of the first `k` entries has. */
  predicate TakesLeast(same: seq<Entry>, k: nat, p: Package, e: Entry)
    requires k <= |same|
  {
    e.bundle == p.bundle && e.revision == p.revision && e.instance == LeastFree(Keys(same[..k]), 0)
  }

  /**
   The new path is not that of another entry than the replaced one, if and only if: a search that does not begin leaves
   no other entry with the replaced one's id in the bundle and spelling of the package, and one that does leaves none
   with the least id that it did not meet.
   */
  lemma FreshPathIff(active: set<Entry>, listing: seq<Entry>, p: Package, cmp: Comparison)
    requires Lists(listing, active) && Reflexive(cmp) && 0 <= IdFor(listing, p, cmp) < LISTED_INSTANCES
    ensures var d, new' := Replaced(listing, p, cmp), NewEntry(p, IdFor(listing, p, cmp));
            var same, k := SameAnywhere(listing, p, cmp), SearchEnd(listing, p, cmp);
            (forall e :: e in active && SamePath(e, new') ==> d == Some(e)) <==>
            forall i :: k <= i < |same| ==>
              if k == 0 then
                same[i].bundle == p.bundle && same[i].revision == p.revision && same[i].instance == d.value.instance ==>
                  d == Some(same[i])
              else !TakesLeast(same, k, p, same[i]) || d == Some(same[i])
  {
    var d, new' := Replaced(listing, p, cmp), NewEntry(p, IdFor(listing, p, cmp));
    var same, k := SameAnywhere(listing, p, cmp), SearchEnd(listing, p, cmp);
    forall i | 0 <= i < |same| ensures same[i] in active && same[i].product == p.product {
      assert same[i] in same;
      SameAnywhereHas(listing, p, cmp, same[i]);
    }
    if same != [] {
      IdIs(listing, p, cmp);
      assert Keys(same)[..k] == Keys(same[..k]);
    }
    forall e | e in active && SamePath(e, new') && d != Some(e)
      ensures exists i :: k <= i < |same| && same[i] == e
    {
      var i := ClashIsLate(active, listing, p, cmp, e);
    }
  }

  /** So a reinstall is safe as long as equal revisions are spelled alike. */
  lemma FreshReinstall(active: set<Entry>, listing: seq<Entry>, p: Package, cmp: Comparison, e: Entry)
    requires Lists(listing, active) && UniquePaths(active) && OneSpelling(active, p, cmp) && Reflexive(cmp)
    requires 0 <= IdFor(listing, p, cmp) < LISTED_INSTANCES
    requires e in active && SamePath(e, NewEntry(p, IdFor(listing, p, cmp)))
    ensures Replaced(listing, p, cmp) == Some(e)
  {
    var d := Replaced(listing, p, cmp);
    var same, k := SameAnywhere(listing, p, cmp), SearchEnd(listing, p, cmp);
    var i := ClashIsLate(active, listing, p, cmp, e);
    assert Keys(same)[k] == Key(same[k]) && same[k] in same && same[0] in same;
    SameAnywhereHas(listing, p, cmp, same[k]);
    SameAnywhereHas(listing, p, cmp, same[0]);
    SameAnywhereHas(listing, p, cmp, e);
    assert Keys(same)[0] == Key(same[0]);
    assert k == 0;
    assert IdFor(listing, p, cmp) == d.value.instance;
    ReplacedIsListed(listing, p, cmp);
    assert SamePath(d.value, e);
  }

  /** With fewer than ten entries of the revision, the id stays below ten. */
  lemma SmallIds(listing: seq<Entry>, p: Package, cmp: Comparison)
    requires forall e :: e in listing ==> Listed(e)
    requires |SameAnywhere(listing, p, cmp)| < LISTED_INSTANCES
    ensures 0 <= IdFor(listing, p, cmp) < LISTED_INSTANCES
  {
    var keys := Keys(SameAnywhere(listing, p, cmp));
    var d := Replaced(listing, p, cmp);
    ReplacedIsListed(listing, p, cmp);
    if keys != [] {
      var k := Before(keys, if d.Some? then Some(d.value.revision) else None);
      FewEntriesSucceed(keys[..k]);
    }
  }

  predicate Stands(p: Package, cmp: Comparison, rel: Relation, e: Entry)
  {
    At(p, e) && cmp(e.revision, p.revision) == rel
  }

  lemma {:induction false} StandingNone(listing: seq<Entry>, p: Package, cmp: Comparison, rel: Relation)
    requires forall e :: e in listing ==> !Stands(p, cmp, rel, e)
    ensures Standing(listing, p, cmp, rel) == []
  {
    if listing == [] {
    } else {
      assert !Stands(p, cmp, rel, listing[0]);
      StandingNone(listing[1..], p, cmp, rel);
    }
  }

  lemma {:induction false} StandingAll(listing: seq<Entry>, p: Package, cmp: Comparison, rel: Relation)
    requires forall e :: e in listing ==> Stands(p, cmp, rel, e)
    ensures Standing(listing, p, cmp, rel) == listing
  {
    if listing == [] {
    } else {
      assert Stands(p, cmp, rel, listing[0]);
      StandingAll(listing[1..], p, cmp, rel);
    }
  }

  lemma {:induction false} StandingLast(others: seq<Entry>, u: Entry, p: Package, cmp: Comparison, rel: Relation)
    requires Stands(p, cmp, rel, u) && forall e :: e in others ==> !Stands(p, cmp, rel, e)
    ensures Standing(others + [u], p, cmp, rel) == [u]
  {
    if others == [] {
      StandingAll([u], p, cmp, rel);
      assert others + [u] == [u];
    } else {
      assert !Stands(p, cmp, rel, others[0]);
      StandingLast(others[1..], u, p, cmp, rel);
      assert (others + [u])[1..] == others[1..] + [u];
    }
  }

  /** The second of three entries has the replaced spelling, and the first has id 0: the id is 1. */
  lemma SecondOfThree(keys: seq<Installed>, up: Installed)
    requires |keys| == 3 && keys[0].revision != up.revision && keys[1].revision == up.revision && keys[0].id == 0
    ensures Chosen(keys, Some(up)) == 1
  {
    assert keys[1..][0] == keys[1];
    assert Before(keys, Some(up.revision)) == 1;
    var one := keys[..1];
    assert one[0] == keys[0];
    assert Taken(one, 0) && !Taken(one, 1);
    assert LeastFree(one, 1) == 1;
    assert LeastFree(one, 0) == 1;
  }

  /** The other spelling at `x`, that of the package with the id 1 at `y`, and the package's entry in its place. */
  function Spellings(p: Package, other: string, x: string, y: string): seq<Entry>
  {
    [Entry(p.bundle, p.product, other, 0, x), Entry(p.bundle, p.product, p.revision, 1, y), NewEntry(p, 0)]
  }

  predicate TwoSpellings(p: Package, other: string, x: string, y: string, cmp: Comparison)
  {
    && other != p.revision && cmp(other, p.revision) == Same && cmp(p.revision, p.revision) == Same
    && p.location != Some("") && Place(x) != Home(p) && Place(y) != Home(p)
  }

  lemma SpellingsFound(p: Package, other: string, x: string, y: string, cmp: Comparison)
    requires TwoSpellings(p, other, x, y, cmp)
    ensures var l := Spellings(p, other, x, y);
            Rivals(l, p, cmp) == [NewEntry(p, 0)] && SameAnywhere(l, p, cmp) == l
  {
    var l := Spellings(p, other, x, y);
    StandingNone(l, p, cmp, Higher);
    StandingNone(l, p, cmp, Lower);
    StandingLast(l[..2], l[2], p, cmp, Same);
    assert l == l[..2] + [l[2]];
    StandingAll(l, p.(location := Some("")), cmp, Same);
  }

  lemma SpellingsListed(p: Package, other: string, x: string, y: string, cmp: Comparison)
    requires TwoSpellings(p, other, x, y, cmp)
    ensures var l := Spellings(p, other, x, y); Lists(l, {l[0], l[1], l[2]}) && UniquePaths({l[0], l[1], l[2]})
  {
  }

  /** A reinstall of the package then gets the id 1, and so the path of the entry at `y`. */
  lemma TwoSpellingsClash(p: Package, other: string, x: string, y: string, cmp: Comparison)
    requires TwoSpellings(p, other, x, y, cmp)
    ensures var l := Spellings(p, other, x, y);
            && Lists(l, {l[0], l[1], l[2]}) && UniquePaths({l[0], l[1], l[2]})
            && Replaced(l, p, cmp) == Some(NewEntry(p, 0))
            && IdFor(l, p, cmp) == 1 && SamePath(l[1], NewEntry(p, 1))
  {
    SpellingsListed(p, other, x, y, cmp);
    SpellingsFound(p, other, x, y, cmp);
    SecondOfThree(Keys(Spellings(p, other, x, y)), Key(NewEntry(p, 0)));
  }

  // ------------------------------------------------------------ runs of installs

  datatype Step = Step(package: Package, listing: seq<Entry>, options: Options, fate: Fate)

  /** The entry that the step writes if it completes. */
  function Written(s: Step, cmp: Comparison): Entry
  {
    var id := IdFor(s.listing, s.package, cmp);
    NewEntry(s.package, if id < 0 then 0 else id)
  }

  function NextCatalog(active: set<Entry>, s: Step, cmp: Comparison): set<Entry>
  {
    After(active, Replaced(s.listing, s.package, cmp), Written(s, cmp), s.fate)
  }

  /** The step may happen: the listing is a listing of the catalog, and only what was admitted went on. */
  ghost predicate MayHappen(active: set<Entry>, s: Step, cmp: Comparison)
  {
    Lists(s.listing, active) && (!s.fate.Refusal? ==> Admissible(s.listing, s.package, cmp, s.options))
  }

  /** One product at one place. */
  predicate Together(a: Entry, b: Entry)
  {
    a.product == b.product && Place(a.location) == Place(b.location)
  }

  /** At most one entry for each product and location, paths told apart, and every entry is listed. */
  ghost predicate InOrder(active: set<Entry>)
  {
    && UniquePaths(active)
    && (forall a, b :: a in active && b in active && Together(a, b) ==> a == b)
    && forall e :: e in active ==> Listed(e)
  }

  /** The first of the entries that is where the new one goes. */
  function InPlace(entries: seq<Entry>, e: Entry): Option<Entry>
  {
    if entries == [] then None else if Together(entries[0], e) then Some(entries[0]) else InPlace(entries[1..], e)
  }

  /** The entry of the product that is found where the new one goes. */
  function Resident(s: Step, cmp: Comparison): Option<Entry>
  {
    InPlace(Rivals(s.listing, s.package, cmp), Written(s, cmp))
  }

  /**
   If the step completes, its id is one that the listing reads, and the entry found where it goes, if any, is the replaced one
   and was moved away, or has the same path.
   */
  predicate Fits(s: Step, cmp: Comparison)
  {
    s.fate.Completion? ==>
      && Listed(Written(s, cmp))
      && match Resident(s, cmp)
         case None => true
         case Some(u) =>
           (s.fate.removed && Replaced(s.listing, s.package, cmp) == Some(u)) || SamePath(u, Written(s, cmp))
  }

  lemma {:induction false} InPlaceMeans(entries: seq<Entry>, e: Entry)
    ensures match InPlace(entries, e)
            case None => forall u :: u in entries ==> !Together(u, e)
            case Some(u) => u in entries && Together(u, e)
  {
    if entries == [] {
    } else {
      InPlaceMeans(entries[1..], e);
    }
  }

  /** In a catalog in order, the resident is the only entry of the product where the new one goes. */
  lemma ResidentMeans(active: set<Entry>, s: Step, cmp: Comparison, u: Entry)
    requires InOrder(active) && Lists(s.listing, active)
    ensures Resident(s, cmp) == Some(u) <==> u in active && Together(u, Written(s, cmp))
  {
    InPlaceMeans(Rivals(s.listing, s.package, cmp), Written(s, cmp));
    RivalsAreAll(s.listing, s.package, cmp, u);
    if Resident(s, cmp).Some? {
      RivalsAreAll(s.listing, s.package, cmp, Resident(s, cmp).value);
    }
  }

  /** An entry is moved away or not, and another one is written. */
  lemma WritingKeepsOrder(active: set<Entry>, d: Option<Entry>, removed: bool, e: Entry)
    requires InOrder(active)
    ensures InOrder(Write(Remove(active, d, removed), e)) <==>
            Listed(e) && forall u :: u in active && Together(u, e) ==> (removed && d == Some(u)) || SamePath(u, e)
  {
    var after := Write(Remove(active, d, removed), e);
    assert e in after;
    forall u | u in active && Together(u, e) && InOrder(after)
      ensures (removed && d == Some(u)) || SamePath(u, e)
    {
      assert (removed && d == Some(u)) || SamePath(u, e) || u in after;
    }
  }

  /** However an install ends, and forced or not: it keeps the catalog in order if and only if it fits. */
  lemma StepKeepsOrderIff(active: set<Entry>, s: Step, cmp: Comparison)
    requires InOrder(active) && MayHappen(active, s, cmp)
    ensures InOrder(NextCatalog(active, s, cmp)) <==> Fits(s, cmp)
  {
    match s.fate {
      case Refusal =>
      case Veto(removed) =>
        VetoRestores(active, s.listing, s.package, cmp, Written(s, cmp).instance, removed);
      case Failure(removed) =>
      case Completion(removed) =>
        WritingKeepsOrder(active, Replaced(s.listing, s.package, cmp), removed, Written(s, cmp));
        forall u ensures Resident(s, cmp) == Some(u) <==> u in active && Together(u, Written(s, cmp)) {
          ResidentMeans(active, s, cmp, u);
        }
    }
  }

  /** No force, and the queries ask for one location only. */
  predicate Plain(s: Step)
  {
    !s.options.force && s.package.location != Some("")
  }

  /** If the step completes, there is nothing to replace, or that was moved away, or the new entry takes its path. */
  predicate Clears(s: Step, cmp: Comparison)
  {
    var d := Replaced(s.listing, s.package, cmp);
    s.fate.Completion? ==> Listed(Written(s, cmp)) && (s.fate.removed || d.None? || SamePath(d.value, Written(s, cmp)))
  }

  /** Then the resident is the replaced entry. */
  lemma FitsPlainly(s: Step, cmp: Comparison)
    requires Plain(s) && (!s.fate.Refusal? ==> Admissible(s.listing, s.package, cmp, s.options))
    ensures Fits(s, cmp) <==> Clears(s, cmp)
  {
    var rivals := Rivals(s.listing, s.package, cmp);
    if rivals != [] {
      RivalsAreAll(s.listing, s.package, cmp, rivals[0]);
      assert Together(rivals[0], Written(s, cmp));
    }
  }

  /** No force, the replaced entry was moved away, and fewer than ten entries share the revision. */
  predicate Careful(s: Step, cmp: Comparison)
  {
    s.fate.Refusal? ||
    (!s.options.force && s.fate.removed && |SameAnywhere(s.listing, s.package, cmp)| < LISTED_INSTANCES)
  }

  /** A careful step fits, and leaves one version if it completes. */
  lemma CarefulFits(active: set<Entry>, s: Step, cmp: Comparison)
    requires InOrder(active) && MayHappen(active, s, cmp) && Careful(s, cmp)
    ensures Fits(s, cmp)
    ensures s.fate.Completion? ==> ExactlyOne(NextCatalog(active, s, cmp), s.package)
  {
    if s.fate.Completion? {
      SmallIds(s.listing, s.package, cmp);
      OneVersion(active, s.listing, s.package, cmp, IdFor(s.listing, s.package, cmp), true);
      InPlaceMeans(Rivals(s.listing, s.package, cmp), Written(s, cmp));
    }
  }

  /** Each step may happen when its turn comes. */
  ghost predicate Run(active: set<Entry>, steps: seq<Step>, cmp: Comparison)
    decreases |steps|
  {
    steps != [] ==>
      MayHappen(active, steps[0], cmp) && Run(NextCatalog(active, steps[0], cmp), steps[1..], cmp)
  }

  ghost predicate AllFit(steps: seq<Step>, cmp: Comparison)
  {
    forall i :: 0 <= i < |steps| ==> Fits(steps[i], cmp)
  }

  /** The catalog is in order before the steps and after each of them. */
  ghost predicate StaysInOrder(active: set<Entry>, steps: seq<Step>, cmp: Comparison)
    decreases |steps|
  {
    InOrder(active) && (steps != [] ==> StaysInOrder(NextCatalog(active, steps[0], cmp), steps[1..], cmp))
  }

  lemma AllFitStep(steps: seq<Step>, cmp: Comparison)
    requires steps != []
    ensures AllFit(steps, cmp) <==> Fits(steps[0], cmp) && AllFit(steps[1..], cmp)
  {
    assert steps == [steps[0]] + steps[1..];
  }

  /**
   Runs of any length, whether their installs are refused, vetoed, failed, complete or forced: the catalog stays in order
   if and only if each install fits, which its listing, its options and its fate tell.
   */
  lemma {:induction false} RunKeepsOrderIff(active: set<Entry>, steps: seq<Step>, cmp: Comparison)
    requires InOrder(active) && Run(active, steps, cmp)
    ensures StaysInOrder(active, steps, cmp) <==> AllFit(steps, cmp)
    decreases |steps|
  {
    if steps == [] {
    } else {
      var next := NextCatalog(active, steps[0], cmp);
      StepKeepsOrderIff(active, steps[0], cmp);
      AllFitStep(steps, cmp);
      if InOrder(next) {
        RunKeepsOrderIff(next, steps[1..], cmp);
      }
    }
  }

  /**
   For plain installs: the catalog stays in order if and only if whatever a completed one was to replace was moved away or
   overwritten, and it got an id that the listing reads.
   */
  lemma {:induction false} PlainRunKeepsOrderIff(active: set<Entry>, steps: seq<Step>, cmp: Comparison)
    requires InOrder(active) && Run(active, steps, cmp) && forall s :: s in steps ==> Plain(s)
    ensures StaysInOrder(active, steps, cmp) <==> forall s :: s in steps ==> Clears(s, cmp)
    decreases |steps|
  {
    if steps == [] {
    } else {
      var next := NextCatalog(active, steps[0], cmp);
      StepKeepsOrderIff(active, steps[0], cmp);
      FitsPlainly(steps[0], cmp);
      assert steps == [steps[0]] + steps[1..];
      if InOrder(next) {
        PlainRunKeepsOrderIff(next, steps[1..], cmp);
      }
    }
  }

  ghost predicate AllCareful(steps: seq<Step>, cmp: Comparison)
  {
    forall i :: 0 <= i < |steps| ==> Careful(steps[i], cmp)
  }

  /** Careful installs fit, one after the other, so the catalog stays in order. */
  lemma {:induction false} CarefulRunFits(active: set<Entry>, steps: seq<Step>, cmp: Comparison)
    requires InOrder(active) && Run(active, steps, cmp) && AllCareful(steps, cmp)
    ensures AllFit(steps, cmp)
    decreases |steps|
  {
    if steps == [] {
    } else {
      CarefulFits(active, steps[0], cmp);
      StepKeepsOrderIff(active, steps[0], cmp);
      AllFitStep(steps, cmp);
      CarefulRunFits(NextCatalog(active, steps[0], cmp), steps[1..], cmp);
    }
  }

  /** The bound is needed: with the ids 0 to 9 taken, the new entry gets an id that no listing reads. */
  lemma TenInstancesHideTheNext(listing: seq<Entry>, p: Package, cmp: Comparison)
    requires Replaced(listing, p, cmp).None? && IdFor(listing, p, cmp) >= 0
    requires forall n :: 0 <= n < LISTED_INSTANCES ==> Taken(Keys(SameAnywhere(listing, p, cmp)), n)
    ensures !Listed(NewEntry(p, IdFor(listing, p, cmp)))
  {
    var keys := Keys(SameAnywhere(listing, p, cmp));
    assert Taken(keys, 0);
    assert keys[..Before(keys, None)] == keys;
  }

  /** And a hidden entry stays when the next version comes to its location. */
  lemma HiddenEntryStays(active: set<Entry>, listing: seq<Entry>, p: Package, cmp: Comparison, hidden: Entry, id: nat)
    requires Lists(listing, active) && |Rivals(listing, p, cmp)| <= 1
    requires hidden in active && At(p, hidden) && !Listed(hidden) && hidden.revision != p.revision
    ensures !ExactlyOne(After(active, Replaced(listing, p, cmp), NewEntry(p, id), Completion(true)), p)
  {
    OneVersion(active, listing, p, cmp, id, true);
  }
}
