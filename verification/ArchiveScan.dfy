/** What the loop over the catalog section of the archive meets, said of the members themselves. */
module ArchiveScan {
  import opened Wrappers
  import opened TaskProtocol

  predicate IsIndexFile(m: CatalogMember)
  {
    m.isCatalog && m.isIndex
  }

  /** The member that ends the section of signatures: a signature file of a signed package, or any catalog file. */
  predicate EndsSignatures(a: Archive, m: CatalogMember)
  {
    m.isCatalog && (!a.isSigned || m.isSignature)
  }

  /** The loop does not get beyond look `i`. */
  predicate StopsAt(a: Archive, i: nat)
  {
    || i >= |a.members| || Raised(a.signal, i)
    || !a.members[i].readable || (!a.members[i].isCatalog && a.members[i].isStorage)
  }

  /** `e` is the first look that the loop does not get beyond. */
  predicate IsEnd(a: Archive, e: nat)
  {
    e <= |a.members| && StopsAt(a, e) && forall i: nat :: i < e ==> !StopsAt(a, i)
  }

  /** The look after the first INDEX file among the members from `i` to the end. */
  predicate IsFirstIndex(a: Archive, i: nat, e: nat, look: Option<nat>)
    requires e <= |a.members|
  {
    match look
    case None => forall k :: i <= k < e ==> !IsIndexFile(a.members[k])
    case Some(v) => i < v <= e && IsIndexFile(a.members[v - 1]) && forall k :: i <= k < v - 1 ==> !IsIndexFile(a.members[k])
  }

  /** The look after the first file from `i` on that ends the signatures. */
  predicate IsFirstSignature(a: Archive, i: nat, e: nat, look: Option<nat>)
    requires e <= |a.members|
  {
    match look
    case None => forall k :: i <= k < e ==> !EndsSignatures(a, a.members[k])
    case Some(v) =>
      i < v <= e && EndsSignatures(a, a.members[v - 1]) && forall k :: i <= k < v - 1 ==> !EndsSignatures(a, a.members[k])
  }

  /** What the loop returns at its end. */
  predicate EndsWith(a: Archive, e: nat, rc: int, cut: bool)
    requires e <= |a.members|
  {
    if Broken(a, e) then rc == -50 && !cut
    else if Raised(a.signal, e) then rc == 0 && cut
    else !cut && rc == if e == |a.members| then if a.hasPayload then -36 else 0
                       else if a.members[e].readable then 0 else -38
  }

  /** Once both members were met, or while they are looked for: what the loop will have met from look `i` on. */
  lemma {:induction false} ScanMeansFrom(a: Archive, i: nat, s: Scan, e: nat)
    requires IsEnd(a, e) && i <= e && s.rc == 0 && !s.cut && (s.signatures.Some? ==> s.catalog.Some?)
    ensures var r := ScanFrom(a, i, s);
            && EndsWith(a, e, r.rc, r.cut)
            && (s.catalog.Some? ==> r.catalog == s.catalog) && (s.catalog.None? ==> IsFirstIndex(a, i, e, r.catalog))
            && (s.signatures.Some? ==> r.signatures == s.signatures)
            && (s.catalog.Some? && s.signatures.None? ==> IsFirstSignature(a, i, e, r.signatures))
            && (s.catalog.None? ==>
                  if r.catalog.None? then r.signatures.None? else IsFirstSignature(a, r.catalog.value, e, r.signatures))
    decreases e - i
  {
    if i == e {
    } else {
      assert !StopsAt(a, i);
      var m := a.members[i];
      if IsIndexMember(m, s) {
        ScanMeansFrom(a, i + 1, s.(catalog := Some(i + 1)), e);
      } else if IsSignatureMember(m, s, a.isSigned) {
        ScanMeansFrom(a, i + 1, s.(signatures := Some(i + 1)), e);
      } else {
        ScanMeansFrom(a, i + 1, s, e);
      }
    }
  }

  /** There is such an end. */
  lemma {:induction false} EndFrom(a: Archive, i: nat) returns (e: nat)
    requires i <= |a.members| && forall k: nat :: k < i ==> !StopsAt(a, k)
    ensures IsEnd(a, e)
    decreases |a.members| - i
  {
    if StopsAt(a, i) {
      e := i;
    } else {
      e := EndFrom(a, i + 1);
    }
  }

  /**
   The loop acts on the first INDEX file of the catalog section, and then on the first file after it that ends the signatures;
   the section ends before the first storage file, unreadable header or raised flag, and the return value tells which.
   */
  lemma ScanMeans(c: Choices) returns (e: nat)
    ensures IsEnd(c.archive, e)
    ensures var r := Scanned(c);
            && EndsWith(c.archive, e, r.rc, r.cut) && IsFirstIndex(c.archive, 0, e, r.catalog)
            && if r.catalog.None? then r.signatures.None? else IsFirstSignature(c.archive, r.catalog.value, e, r.signatures)
  {
    e := EndFrom(c.archive, 0);
    ScanMeansFrom(c.archive, 0, NOTHING_SEEN, e);
  }
}
