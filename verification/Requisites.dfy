/**
 The requisites of the incoming package: how its pre-, ex- and corequisites are
 combined into one query, how the answers are told apart again, and what they decide.
 */
module Requisites {
  import opened Decimal

  const SWICAT_SC_STATUS_UNSET := 0
  const SWICAT_SC_STATUS_NOT_FOUND := 1
  const SWICAT_SC_STATUS_FOUND := 2
  const SWICAT_SC_STATUS_DELETE := 3

  const TA_UUID_OFFSET := 4
  const SL_FIRST_DEP_INDEX := 4

  /** A dependency spec; the members of one alternation share an id. */
  datatype Spec = Spec(text: string, alterUuid: int)

  // ------------------------------------------------------------ combining the specs

  /** The entry of a spec in the type array: "T:0:id". */
  function TypeEntry(t: char, spec: Spec): (e: string)
    ensures |e| > TA_UUID_OFFSET && e[0] == t && e[TA_UUID_OFFSET..] == Print(spec.alterUuid)
  {
    [t] + ":0:" + Print(spec.alterUuid)
  }

  function TypeEntries(t: char, specs: seq<Spec>): seq<string>
  {
    seq(|specs|, i requires 0 <= i < |specs| => TypeEntry(t, specs[i]))
  }

  /** One of the three loops of get_dependency_specs. */
  method AddSpecs(t: char, specs: seq<Spec>, retspecs: seq<Spec>, types: seq<string>)
    returns (retspecs': seq<Spec>, types': seq<string>)
    ensures retspecs' == retspecs + specs
    ensures types' == types + TypeEntries(t, specs)
  {
    types' := types;
    for i := 0 to |specs|
      invariant types' == types + TypeEntries(t, specs)[..i]
    {
      types' := types' + [TypeEntry(t, specs[i])];
      assert TypeEntries(t, specs)[..i + 1] == TypeEntries(t, specs)[..i] + [TypeEntry(t, specs[i])];
    }
    assert TypeEntries(t, specs)[..|specs|] == TypeEntries(t, specs);
    retspecs' := retspecs + specs;
  }

  /** get_dependency_specs */
  method GetDependencySpecs(pre: seq<Spec>, ex: seq<Spec>, co: seq<Spec>)
    returns (retspecs: seq<Spec>, types: seq<string>)
    ensures retspecs == pre + ex + co
    ensures types == TypeEntries('P', pre) + TypeEntries('E', ex) + TypeEntries('C', co)
  {
    retspecs, types := AddSpecs('P', pre, [], []);
    assert retspecs == pre && types == TypeEntries('P', pre);
    retspecs, types := AddSpecs('E', ex, retspecs, types);
    retspecs, types := AddSpecs('C', co, retspecs, types);
  }

  // ------------------------------------------------------------ reading the type array

  /** What an entry of the type array says: its type and alternation id, or that the id cannot be read. */
  datatype Entry = Entry(t: char, id: int, bad: bool)

  predicate WellSized(types: seq<string>)
  {
    forall i :: 0 <= i < |types| ==> |types[i]| >= TA_UUID_OFFSET
  }

  function ReadEntry(e: string): Entry
    requires |e| >= TA_UUID_OFFSET
  {
    var (id, err) := Atoi(e[TA_UUID_OFFSET..]);
    Entry(e[0], id, err)
  }

  function ReadEntries(types: seq<string>): (entries: seq<Entry>)
    requires WellSized(types)
    ensures |entries| == |types|
  {
    seq(|types|, i requires 0 <= i < |types| => ReadEntry(types[i]))
  }

  /** The elements of one type among the first `n`, where `items` lines up with the entries. */
  function Select<T>(items: seq<T>, entries: seq<Entry>, t: char, n: nat): seq<T>
    requires n <= |entries|
  {
    if n == 0 then []
    else Select(items, entries, t, n - 1) + if entries[n - 1].t == t && n <= |items| then [items[n - 1]] else []
  }

  /** The first `n` entries can be used for type `t`: each of the type carries a number, and has an answer. */
  predicate ReadableTo(entries: seq<Entry>, t: char, answers: int, n: nat)
  {
    forall i :: 0 <= i < n && i < |entries| && entries[i].t == t ==> !entries[i].bad && i < answers
  }

  lemma ReadableStep(entries: seq<Entry>, t: char, answers: int, i: nat)
    requires i < |entries| && ReadableTo(entries, t, answers, i)
    requires entries[i].t == t ==> !entries[i].bad && i < answers
    ensures ReadableTo(entries, t, answers, i + 1)
  {
  }

  lemma NotReadable(entries: seq<Entry>, t: char, answers: int, i: nat)
    requires i < |entries| && entries[i].t == t && (entries[i].bad || i >= answers)
    ensures !Readable(entries, t, answers)
  {
  }

  predicate Readable(entries: seq<Entry>, t: char, answers: int)
  {
    ReadableTo(entries, t, answers, |entries|)
  }

  // ------------------------------------------------------------ the round trip

  lemma {:induction false} SelectRun<T>(items: seq<T>, entries: seq<Entry>, t: char, lo: nat, hi: nat, n: nat)
    requires lo <= hi <= |entries| == |items| && n <= |entries|
    requires forall i :: 0 <= i < |entries| ==> (entries[i].t == t <==> lo <= i < hi)
    ensures Select(items, entries, t, n) == if n <= lo then [] else if n < hi then items[lo..n] else items[lo..hi]
  {
    if n == 0 {
    } else {
      SelectRun(items, entries, t, lo, hi, n - 1);
    }
  }

  /** What the type array of a combined query reads as. */
  lemma EntriesOfCombined(pre: seq<Spec>, ex: seq<Spec>, co: seq<Spec>)
    ensures var types := TypeEntries('P', pre) + TypeEntries('E', ex) + TypeEntries('C', co);
            var all := pre + ex + co;
            && |types| == |all| && WellSized(types)
            && forall i :: 0 <= i < |all| ==>
                 ReadEntries(types)[i] ==
                 Entry(Tag(|pre|, |pre| + |ex|, i), all[i].alterUuid, false)
  {
    var types := TypeEntries('P', pre) + TypeEntries('E', ex) + TypeEntries('C', co);
    var all := pre + ex + co;
    forall i | 0 <= i < |all|
      ensures |types[i]| >= TA_UUID_OFFSET
      ensures ReadEntry(types[i]) ==
              Entry(Tag(|pre|, |pre| + |ex|, i), all[i].alterUuid, false)
    {
      PrintAtoi(all[i].alterUuid);
      assert types[i] == TypeEntry(Tag(|pre|, |pre| + |ex|, i), all[i]);
    }
  }

  /** The specs of one type in a combined query. */
  function OfType(pre: seq<Spec>, ex: seq<Spec>, co: seq<Spec>, t: char): seq<Spec>
  {
    if t == 'P' then pre else if t == 'E' then ex else if t == 'C' then co else []
  }

  /** The type array can be read for type `t`, and picks out `mine`, each with its own alternation id. */
  predicate SelectionIs(all: seq<Spec>, entries: seq<Entry>, t: char, mine: seq<Spec>)
    requires |entries| == |all|
  {
    && Readable(entries, t, |all|)
    && Select(all, entries, t, |all|) == mine
    && var own := Select(entries, entries, t, |all|);
    && |own| == |mine|
    && forall j :: 0 <= j < |mine| ==> own[j] == Entry(t, mine[j].alterUuid, false)
  }

  /**
   Combining and selecting is a round trip.  When each combined query has its answer, selecting by type gives
   back exactly that type's queries, in order, and each gets its own alternation id.
   */
  lemma AlignmentRoundTrip(pre: seq<Spec>, ex: seq<Spec>, co: seq<Spec>, t: char)
    ensures var types := TypeEntries('P', pre) + TypeEntries('E', ex) + TypeEntries('C', co);
            var all, mine := pre + ex + co, OfType(pre, ex, co, t);
            && |types| == |all| && WellSized(types)
            && SelectionIs(all, ReadEntries(types), t, mine)
  {
    EntriesOfCombined(pre, ex, co);
    var lo, hi := RunOf(pre, ex, co, t);
    var types := TypeEntries('P', pre) + TypeEntries('E', ex) + TypeEntries('C', co);
    CombinedSelection(pre + ex + co, |pre|, |pre| + |ex|, ReadEntries(types), t, lo, hi);
  }

  /** The specs of one type are a run of the combined query. */
  lemma RunOf(pre: seq<Spec>, ex: seq<Spec>, co: seq<Spec>, t: char) returns (lo: nat, hi: nat)
    ensures var all := pre + ex + co;
            && lo <= hi <= |all| && all[lo..hi] == OfType(pre, ex, co, t)
            && RunIs(|pre|, |pre| + |ex|, t, lo, hi, |all|)
  {
    var np, npe, n := |pre|, |pre| + |ex|, |pre| + |ex| + |co|;
    lo, hi := if t == 'P' then 0 else if t == 'E' then np else if t == 'C' then npe else 0,
              if t == 'P' then np else if t == 'E' then npe else if t == 'C' then n else 0;
  }

  function Tag(np: nat, npe: nat, i: nat): char
  {
    if i < np then 'P' else if i < npe then 'E' else 'C'
  }

  /** Of `n` combined queries those of type `t` are the ones from `lo` to `hi`. */
  ghost predicate RunIs(np: nat, npe: nat, t: char, lo: nat, hi: nat, n: nat)
  {
    forall i :: 0 <= i < n ==> (Tag(np, npe, i) == t <==> lo <= i < hi)
  }

  lemma CombinedSelection(all: seq<Spec>, np: nat, npe: nat, entries: seq<Entry>, t: char, lo: nat, hi: nat)
    requires |entries| == |all| && np <= npe <= |all| && lo <= hi <= |all|
    requires forall i :: 0 <= i < |all| ==> entries[i] == Entry(Tag(np, npe, i), all[i].alterUuid, false)
    requires RunIs(np, npe, t, lo, hi, |all|)
    ensures SelectionIs(all, entries, t, all[lo..hi])
  {
    SelectRun(all, entries, t, lo, hi, |all|);
    SelectRun(entries, entries, t, lo, hi, |all|);
  }

  // ------------------------------------------------------------ the answers

  /** The answer to one query: whether each response forms a catalog path, and what the tests note about it. */
  class SC {
    const responses: seq<bool>
    var statusM: int
    var swverid_uuidM: int

    constructor (responses: seq<bool>)
      ensures this.responses == responses && statusM == SWICAT_SC_STATUS_UNSET
    {
      this.responses := responses;
      statusM, swverid_uuidM := SWICAT_SC_STATUS_UNSET, 0;
    }
  }

  predicate Distinct(scs: seq<SC>)
  {
    forall i, j :: 0 <= i < j < |scs| ==> scs[i] != scs[j]
  }

  /** Every answer of a selection is reset and has its own alternation id. */
  ghost predicate Noted(dst: seq<SC>, own: seq<Entry>)
    reads dst
  {
    |dst| == |own| && forall j :: 0 <= j < |dst| ==> dst[j].swverid_uuidM == own[j].id && dst[j].statusM == SWICAT_SC_STATUS_UNSET
  }

  /** Read one entry of the type array. */
  method ReadOne(types: seq<string>, i: nat) returns (e: Entry)
    requires WellSized(types) && i < |types|
    ensures e == ReadEntries(types)[i]
  {
    var t := types[i][0];
    var r := Atoi(types[i][TA_UUID_OFFSET..]);
    e := Entry(t, r.0, r.1);
  }

  /** A selection picks distinct answers, and none of those that come after the first `n`. */
  lemma {:induction false} SelectFrom(scs: seq<SC>, entries: seq<Entry>, t: char, n: nat)
    requires n <= |entries| && Distinct(scs)
    ensures var dst := Select(scs, entries, t, n);
            && Distinct(dst)
            && (forall j, k :: 0 <= j < |dst| && n <= k < |scs| ==> dst[j] != scs[k])
  {
    if n == 0 {
    } else {
      SelectFrom(scs, entries, t, n - 1);
    }
  }

  lemma {:induction false} SelectHas(scs: seq<SC>, entries: seq<Entry>, t: char, i: nat, n: nat)
    requires i < n <= |entries| && i < |scs| && entries[i].t == t
    ensures scs[i] in Select(scs, entries, t, n)
  {
    if i == n - 1 {
    } else {
      SelectHas(scs, entries, t, i, n - 1);
    }
  }

  /** Reset one more answer, give it its id, and take it into the selection. */
  method Take(sc: SC, e: Entry, dst: seq<SC>, ghost own: seq<Entry>) returns (dst': seq<SC>)
    requires Noted(dst, own) && forall j :: 0 <= j < |dst| ==> dst[j] != sc
    modifies sc
    ensures dst' == dst + [sc] && Noted(dst', own + [e])
  {
    sc.statusM := SWICAT_SC_STATUS_UNSET;
    sc.swverid_uuidM := e.id;
    dst' := dst + [sc];
  }

  /** The answers to the queries of one type. */
  function AnswersOf(src: seq<SC>, types: seq<string>, t: char): seq<SC>
    requires WellSized(types) && |src| >= SL_FIRST_DEP_INDEX
  {
    Select(src[SL_FIRST_DEP_INDEX..], ReadEntries(types), t, |types|)
  }

  /** The entries of one type. */
  function EntriesOf(types: seq<string>, t: char): seq<Entry>
    requires WellSized(types)
  {
    Select(ReadEntries(types), ReadEntries(types), t, |types|)
  }

  /** The selection among the first `i` entries is made, and all of it reset and numbered. */
  ghost predicate TakenTo(src: seq<SC>, types: seq<string>, t: char, i: nat, dst: seq<SC>)
    requires WellSized(types) && |src| >= SL_FIRST_DEP_INDEX && i <= |types|
    reads dst
  {
    && dst == Select(src[SL_FIRST_DEP_INDEX..], ReadEntries(types), t, i)
    && Noted(dst, Select(ReadEntries(types), ReadEntries(types), t, i))
  }

  /** The next answer of the type, reset and given its id. */
  method TakeNext(src: seq<SC>, types: seq<string>, t: char, i: nat, e: Entry, dst: seq<SC>) returns (dst': seq<SC>)
    requires WellSized(types) && Distinct(src) && i < |types| && i + SL_FIRST_DEP_INDEX < |src|
    requires e == ReadEntries(types)[i] && e.t == t
    requires TakenTo(src, types, t, i, dst)
    modifies src[i + SL_FIRST_DEP_INDEX]
    ensures TakenTo(src, types, t, i + 1, dst')
  {
    ghost var scs := src[SL_FIRST_DEP_INDEX..];
    assert scs[i] == src[i + SL_FIRST_DEP_INDEX];
    SelectFrom(scs, ReadEntries(types), t, i);
    dst' := Take(src[i + SL_FIRST_DEP_INDEX], e, dst, Select(ReadEntries(types), ReadEntries(types), t, i));
  }

  /** One turn of the loop of depd_get_responses_by_type; not `ok` is a return of NULL. */
  method ReadNext(src: seq<SC>, types: seq<string>, t: char, i: nat, dst: seq<SC>) returns (ok: bool, dst': seq<SC>)
    requires WellSized(types) && |src| >= SL_FIRST_DEP_INDEX && Distinct(src) && i < |types|
    requires ReadableTo(ReadEntries(types), t, |src| - SL_FIRST_DEP_INDEX, i)
    requires TakenTo(src, types, t, i, dst)
    modifies AnswersOf(src, types, t)
    ensures ok ==> ReadableTo(ReadEntries(types), t, |src| - SL_FIRST_DEP_INDEX, i + 1)
    ensures !ok ==> !Readable(ReadEntries(types), t, |src| - SL_FIRST_DEP_INDEX)
    ensures ok ==> TakenTo(src, types, t, i + 1, dst')
  {
    var e := ReadOne(types, i);
    ok, dst' := true, dst;
    if e.t == t {
      if i + SL_FIRST_DEP_INDEX >= |src| {
        NotReadable(ReadEntries(types), t, |src| - SL_FIRST_DEP_INDEX, i);
        return false, [];
      }
      SelectHas(src[SL_FIRST_DEP_INDEX..], ReadEntries(types), t, i, |types|);
      dst' := TakeNext(src, types, t, i, e, dst);
      if e.bad {
        NotReadable(ReadEntries(types), t, |src| - SL_FIRST_DEP_INDEX, i);
        return false, [];
      }
    }
    ReadableStep(ReadEntries(types), t, |src| - SL_FIRST_DEP_INDEX, i);
  }

  /**
   depd_get_responses_by_type: the answers of one type, in order, each reset and given its alternation id; `ok` is
   false for NULL.  The first four of `src` are the answers to the same-package queries.  No answer of another
   type is written to.
   */
  method GetResponsesByType(src: seq<SC>, types: seq<string>, t: char) returns (ok: bool, dst: seq<SC>)
    requires WellSized(types) && |src| >= SL_FIRST_DEP_INDEX && Distinct(src)
    modifies AnswersOf(src, types, t)
    ensures ok <==> Readable(ReadEntries(types), t, |src| - SL_FIRST_DEP_INDEX)
    ensures ok ==> dst == AnswersOf(src, types, t) && Noted(dst, EntriesOf(types, t))
  {
    ok, dst := true, [];
    for i := 0 to |types|
      invariant ok && ReadableTo(ReadEntries(types), t, |src| - SL_FIRST_DEP_INDEX, i)
      invariant TakenTo(src, types, t, i, dst)
    {
      ok, dst := ReadNext(src, types, t, i, dst);
      if !ok {
        return false, [];
      }
    }
  }

  // ------------------------------------------------------------ testing the answers

  /** The status the responses of a query leave: the last one decides, and no response at all leaves it unset. */
  function StatusOf(responses: seq<bool>): int
  {
    if responses == [] then SWICAT_SC_STATUS_UNSET
    else if responses[|responses| - 1] then SWICAT_SC_STATUS_FOUND
    else SWICAT_SC_STATUS_NOT_FOUND
  }

  /** "Found" means that some entry exists exactly when the last response names one or none does. */
  lemma LastResponseDecides(responses: seq<bool>)
    ensures (StatusOf(responses) == SWICAT_SC_STATUS_FOUND <==> true in responses)
            <==> responses == [] || responses[|responses| - 1] || true !in responses
  {
    if responses != [] {
      assert responses[|responses| - 1] in responses;
    }
  }

  /** What the tests know of one answer. */
  datatype Mark = Mark(uuid: int, status: int)

  ghost function Marks(sca: seq<SC>): (m: seq<Mark>)
    reads sca
    ensures |m| == |sca| && forall i :: 0 <= i < |sca| ==> m[i] == Mark(sca[i].swverid_uuidM, sca[i].statusM)
  {
    seq(|sca|, i requires 0 <= i < |sca| reads sca => Mark(sca[i].swverid_uuidM, sca[i].statusM))
  }

  /** The marks that these answers and their entries in the type array call for. */
  function MarksFor(dst: seq<SC>, own: seq<Entry>): (m: seq<Mark>)
    requires |dst| == |own|
    ensures |m| == |dst|
  {
    seq(|dst|, j requires 0 <= j < |dst| => Mark(own[j].id, StatusOf(dst[j].responses)))
  }

  /** The inner loop of depd_requisite_test. */
  method TestResponses(sc: SC)
    requires sc.statusM == SWICAT_SC_STATUS_UNSET
    modifies sc`statusM
    ensures sc.statusM == StatusOf(sc.responses)
  {
    for j := 0 to |sc.responses|
      invariant sc.statusM == StatusOf(sc.responses[..j])
    {
      if sc.responses[j] {
        sc.statusM := SWICAT_SC_STATUS_FOUND;
      } else {
        sc.statusM := SWICAT_SC_STATUS_NOT_FOUND;
      }
    }
    assert sc.responses[..|sc.responses|] == sc.responses;
  }

  /** The outer loop of depd_requisite_test. */
  method TestSelection(sca: seq<SC>, ghost own: seq<Entry>)
    requires Distinct(sca) && Noted(sca, own)
    modifies sca
    ensures Marks(sca) == MarksFor(sca, own)
  {
    for i := 0 to |sca|
      invariant forall j :: 0 <= j < |sca| ==> sca[j].swverid_uuidM == own[j].id
      invariant forall j :: i <= j < |sca| ==> sca[j].statusM == SWICAT_SC_STATUS_UNSET
      invariant forall j :: 0 <= j < i ==> sca[j].statusM == StatusOf(sca[j].responses)
    {
      TestResponses(sca[i]);
    }
  }

  /** depd_requisite_test */
  method RequisiteTest(src: seq<SC>, types: seq<string>, t: char) returns (ok: bool, sca: seq<SC>)
    requires WellSized(types) && |src| >= SL_FIRST_DEP_INDEX && Distinct(src)
    modifies AnswersOf(src, types, t)
    ensures ok <==> Readable(ReadEntries(types), t, |src| - SL_FIRST_DEP_INDEX)
    ensures ok ==> sca == AnswersOf(src, types, t) && Distinct(sca) && |sca| == |EntriesOf(types, t)|
    ensures ok ==> Marks(sca) == MarksFor(sca, EntriesOf(types, t))
  {
    ok, sca := GetResponsesByType(src, types, t);
    if ok {
      SelectFrom(src[SL_FIRST_DEP_INDEX..], ReadEntries(types), t, |types|);
      TestSelection(sca, EntriesOf(types, t));
    }
  }

  // ------------------------------------------------------------ alternations

  /** Some member of the alternation was found. */
  ghost predicate GroupFound(m: seq<Mark>, uuid: int)
  {
    exists j :: 0 <= j < |m| && m[j].uuid == uuid && m[j].status == SWICAT_SC_STATUS_FOUND
  }

  /** A member that was looked for in vain, in an alternation of which nothing was found. */
  ghost predicate Unmet(m: seq<Mark>, i: int)
    requires 0 <= i < |m|
  {
    m[i].status == SWICAT_SC_STATUS_NOT_FOUND && !GroupFound(m, m[i].uuid)
  }

  /** The marks after the members of satisfied alternations that were not found have been struck out. */
  ghost predicate Struck(m: seq<Mark>, n: seq<Mark>, upTo: int)
  {
    && |n| == |m|
    && forall i :: 0 <= i < |m| ==>
         && n[i].uuid == m[i].uuid
         && n[i].status == if i < upTo && m[i].status != SWICAT_SC_STATUS_FOUND && GroupFound(m, m[i].uuid)
                           then SWICAT_SC_STATUS_DELETE else m[i].status
  }

  /** Striking out never changes what was found, so the order in which it is done does not matter. */
  lemma StrikingKeepsFound(m: seq<Mark>, n: seq<Mark>, upTo: int, uuid: int)
    requires Struck(m, n, upTo)
    ensures GroupFound(n, uuid) <==> GroupFound(m, uuid)
  {
    if GroupFound(m, uuid) {
      var j :| 0 <= j < |m| && m[j].uuid == uuid && m[j].status == SWICAT_SC_STATUS_FOUND;
      assert n[j].status == SWICAT_SC_STATUS_FOUND;
    }
    if GroupFound(n, uuid) {
      var j :| 0 <= j < |n| && n[j].uuid == uuid && n[j].status == SWICAT_SC_STATUS_FOUND;
      assert m[j].status == SWICAT_SC_STATUS_FOUND;
    }
  }

  /** One of the first `n` members of the alternation was found. */
  ghost predicate FoundBefore(m: seq<Mark>, uuid: int, n: nat)
    requires n <= |m|
  {
    exists j :: 0 <= j < n && m[j].uuid == uuid && m[j].status == SWICAT_SC_STATUS_FOUND
  }

  lemma FoundBeforeStep(m: seq<Mark>, uuid: int, n: nat)
    requires n < |m|
    ensures FoundBefore(m, uuid, n + 1) <==>
            FoundBefore(m, uuid, n) || (m[n].uuid == uuid && m[n].status == SWICAT_SC_STATUS_FOUND)
  {
  }

  /** delete_if_alternate_match */
  method DeleteIfAlternateMatch(sca: seq<SC>, alternate: SC)
    requires Distinct(sca) && alternate in sca && alternate.statusM != SWICAT_SC_STATUS_FOUND
    modifies alternate`statusM
    ensures alternate.statusM == if old(GroupFound(Marks(sca), alternate.swverid_uuidM)) then SWICAT_SC_STATUS_DELETE
                                 else old(alternate.statusM)
  {
    ghost var m := Marks(sca);
    var uuid := alternate.swverid_uuidM;
    for i := 0 to |sca|
      invariant alternate.statusM == if FoundBefore(m, uuid, i) then SWICAT_SC_STATUS_DELETE else old(alternate.statusM)
    {
      var sc := sca[i];
      FoundBeforeStep(m, uuid, i);
      assert m[i] == old(Mark(sc.swverid_uuidM, sc.statusM));
      if sc != alternate && sc.swverid_uuidM == uuid && sc.statusM == SWICAT_SC_STATUS_FOUND {
        alternate.statusM := SWICAT_SC_STATUS_DELETE;
      }
    }
    assert FoundBefore(m, uuid, |sca|) <==> GroupFound(m, uuid);
  }

  /** One turn of the loop of depd_handle_alternate_prerequisites; `m` are the marks at its start. */
  method HandleAlternate(sca: seq<SC>, i: nat, ghost m: seq<Mark>)
    requires Distinct(sca) && i < |sca| && Struck(m, Marks(sca), i)
    modifies sca[i]
    ensures Struck(m, Marks(sca), i + 1)
  {
    ghost var before := Marks(sca);
    var sc: SC := sca[i];
    StrikingKeepsFound(m, before, i, sc.swverid_uuidM);
    if sc.statusM != SWICAT_SC_STATUS_FOUND {
      DeleteIfAlternateMatch(sca, sc);
    }
    assert forall j :: 0 <= j < |sca| && j != i ==> Marks(sca)[j] == before[j];
  }

  /** depd_handle_alternate_prerequisites */
  method HandleAlternates(sca: seq<SC>)
    requires Distinct(sca)
    modifies sca
    ensures Struck(old(Marks(sca)), Marks(sca), |sca|)
  {
    ghost var m := Marks(sca);
    for i := 0 to |sca|
      invariant Struck(m, Marks(sca), i)
    {
      HandleAlternate(sca, i, m);
    }
  }

  /** How many of the first `n` members are unmet. */
  ghost function CountUnmet(m: seq<Mark>, n: nat): nat
    requires n <= |m|
  {
    if n == 0 then 0 else CountUnmet(m, n - 1) + if Unmet(m, n - 1) then 1 else 0
  }

  ghost function CountFound(m: seq<Mark>, n: nat): nat
    requires n <= |m|
  {
    if n == 0 then 0 else CountFound(m, n - 1) + if m[n - 1].status == SWICAT_SC_STATUS_FOUND then 1 else 0
  }

  /** depd_prerequisite_test; `ok` is false when the answers cannot be read, which ends the program. */
  method PrerequisiteTest(src: seq<SC>, types: seq<string>, enforce: bool) returns (ok: bool, ret: nat)
    requires WellSized(types) && |src| >= SL_FIRST_DEP_INDEX && Distinct(src)
    modifies AnswersOf(src, types, 'P')
    ensures ok <==> Readable(ReadEntries(types), 'P', |src| - SL_FIRST_DEP_INDEX)
    ensures ok ==> |AnswersOf(src, types, 'P')| == |EntriesOf(types, 'P')|
    ensures ok ==> var m := MarksFor(AnswersOf(src, types, 'P'), EntriesOf(types, 'P'));
                   ret == if enforce then CountUnmet(m, |m|) else 0
  {
    var sca;
    ret := 0;
    ok, sca := RequisiteTest(src, types, 'P');
    if ok {
      ghost var m := Marks(sca);
      HandleAlternates(sca);
      ret := CountNotFound(sca, enforce, m);
    }
  }

  /** The counting loop of depd_prerequisite_test; `m` are the marks before any was struck out. */
  method CountNotFound(sca: seq<SC>, enforce: bool, ghost m: seq<Mark>) returns (ret: nat)
    requires Struck(m, Marks(sca), |sca|)
    ensures ret == if enforce then CountUnmet(m, |m|) else 0
  {
    ret := 0;
    for i := 0 to |sca|
      invariant ret == if enforce then CountUnmet(m, i) else 0
    {
      assert Marks(sca)[i].status == sca[i].statusM;
      if sca[i].statusM == SWICAT_SC_STATUS_NOT_FOUND {
        if enforce {
          ret := ret + 1;
        }
      }
    }
  }

  /** depd_exrequisite_test */
  method ExrequisiteTest(src: seq<SC>, types: seq<string>, enforce: bool) returns (ok: bool, ret: nat)
    requires WellSized(types) && |src| >= SL_FIRST_DEP_INDEX && Distinct(src)
    modifies AnswersOf(src, types, 'E')
    ensures ok <==> Readable(ReadEntries(types), 'E', |src| - SL_FIRST_DEP_INDEX)
    ensures ok ==> |AnswersOf(src, types, 'E')| == |EntriesOf(types, 'E')|
    ensures ok ==> var m := MarksFor(AnswersOf(src, types, 'E'), EntriesOf(types, 'E'));
                   ret == if enforce then CountFound(m, |m|) else 0
  {
    var sca;
    ret := 0;
    ok, sca := RequisiteTest(src, types, 'E');
    if ok {
      ghost var m := Marks(sca);
      for i := 0 to |sca|
        invariant ret == if enforce then CountFound(m, i) else 0
      {
        if sca[i].statusM == SWICAT_SC_STATUS_FOUND {
          if enforce {
            ret := ret + 1;
          }
        }
      }
    }
  }

  // ------------------------------------------------------------ what the tests decide

  lemma {:induction false} CountUnmetZero(m: seq<Mark>, n: nat)
    requires n <= |m|
    ensures CountUnmet(m, n) == 0 <==> forall i :: 0 <= i < n ==> !Unmet(m, i)
  {
    if n == 0 {
    } else {
      CountUnmetZero(m, n - 1);
    }
  }

  lemma {:induction false} CountFoundZero(m: seq<Mark>, n: nat)
    requires n <= |m|
    ensures CountFound(m, n) == 0 <==> forall i :: 0 <= i < n ==> m[i].status != SWICAT_SC_STATUS_FOUND
  {
    if n == 0 {
    } else {
      CountFoundZero(m, n - 1);
    }
  }

  ghost function UnmetAmong(m: seq<Mark>, n: nat): set<int>
    requires n <= |m|
  {
    set i | 0 <= i < n && Unmet(m, i)
  }

  ghost function FoundAmong(m: seq<Mark>, n: nat): set<int>
    requires n <= |m|
  {
    set i | 0 <= i < n && m[i].status == SWICAT_SC_STATUS_FOUND
  }

  /** The counts are numbers of answers. */
  lemma {:induction false} UnmetCount(m: seq<Mark>, n: nat)
    requires n <= |m|
    ensures CountUnmet(m, n) == |UnmetAmong(m, n)|
  {
    if n == 0 {
    } else {
      UnmetCount(m, n - 1);
      assert UnmetAmong(m, n) == UnmetAmong(m, n - 1) + if Unmet(m, n - 1) then {n - 1} else {};
    }
  }

  lemma {:induction false} FoundCount(m: seq<Mark>, n: nat)
    requires n <= |m|
    ensures CountFound(m, n) == |FoundAmong(m, n)|
  {
    if n == 0 {
    } else {
      FoundCount(m, n - 1);
      assert FoundAmong(m, n) ==
             FoundAmong(m, n - 1) + if m[n - 1].status == SWICAT_SC_STATUS_FOUND then {n - 1} else {};
    }
  }

  /**
   With enforcement the prerequisite test lets a package pass exactly when every alternation has a member
   that was found, or none of whose members was answered at all.
   */
  lemma PrerequisitesAreAConjunctionOfAlternatives(m: seq<Mark>)
    requires forall i :: 0 <= i < |m| ==> SWICAT_SC_STATUS_UNSET <= m[i].status <= SWICAT_SC_STATUS_FOUND
    ensures CountUnmet(m, |m|) == 0 <==>
              forall i :: 0 <= i < |m| ==>
                || GroupFound(m, m[i].uuid)
                || (forall j :: 0 <= j < |m| && m[j].uuid == m[i].uuid ==> m[j].status == SWICAT_SC_STATUS_UNSET)
  {
    CountUnmetZero(m, |m|);
    forall i | 0 <= i < |m| && (forall k :: 0 <= k < |m| ==> !Unmet(m, k)) && !GroupFound(m, m[i].uuid)
      ensures forall j :: 0 <= j < |m| && m[j].uuid == m[i].uuid ==> m[j].status == SWICAT_SC_STATUS_UNSET
    {
      forall j | 0 <= j < |m| && m[j].uuid == m[i].uuid
        ensures m[j].status == SWICAT_SC_STATUS_UNSET
      {
        assert !Unmet(m, j);
      }
    }
  }

  // ------------------------------------------------------------ from the combined query to the decision

  /** The responses to the queries from `lo` on. */
  function Heard(src: seq<SC>, lo: nat, n: nat): (answers: seq<seq<bool>>)
    requires lo + n <= |src|
    ensures |answers| == n
  {
    seq(n, i requires 0 <= i < n => src[lo + i].responses)
  }

  /** The last response names an entry. */
  predicate Names(responses: seq<bool>)
  {
    responses != [] && responses[|responses| - 1]
  }

  /** Some member of the alternation is installed, as far as the last response tells. */
  ghost predicate SomeInstalled(specs: seq<Spec>, answers: seq<seq<bool>>, id: int)
    requires |specs| == |answers|
  {
    exists j :: 0 <= j < |specs| && specs[j].alterUuid == id && Names(answers[j])
  }

  /** Every alternation has an installed member, or is one that nothing was heard of. */
  ghost predicate AlternativesMet(specs: seq<Spec>, answers: seq<seq<bool>>)
    requires |specs| == |answers|
  {
    forall i :: 0 <= i < |specs| ==>
      || SomeInstalled(specs, answers, specs[i].alterUuid)
      || forall j :: 0 <= j < |specs| && specs[j].alterUuid == specs[i].alterUuid ==> answers[j] == []
  }

  ghost predicate NoneInstalled(answers: seq<seq<bool>>)
  {
    forall i :: 0 <= i < |answers| ==> !Names(answers[i])
  }

  /** The marks of some specs that were answered so. */
  function MarksOf(specs: seq<Spec>, answers: seq<seq<bool>>): (m: seq<Mark>)
    requires |specs| == |answers|
    ensures |m| == |specs|
    ensures forall i :: 0 <= i < |m| ==> m[i] == Mark(specs[i].alterUuid, StatusOf(answers[i]))
  {
    seq(|specs|, i requires 0 <= i < |specs| => Mark(specs[i].alterUuid, StatusOf(answers[i])))
  }

  function CombinedTypes(pre: seq<Spec>, ex: seq<Spec>, co: seq<Spec>): (types: seq<string>)
    ensures WellSized(types) && |types| == |pre| + |ex| + |co|
  {
    TypeEntries('P', pre) + TypeEntries('E', ex) + TypeEntries('C', co)
  }

  /** Where the queries of one type start among the combined ones. */
  function StartOf(np: nat, nx: nat, t: char): nat
  {
    if t == 'P' then 0 else if t == 'E' then np else np + nx
  }

  function CountOf(np: nat, nx: nat, nc: nat, t: char): nat
  {
    if t == 'P' then np else if t == 'E' then nx else nc
  }

  ghost predicate TagsAre(types: seq<string>, np: nat, nx: nat)
    requires WellSized(types)
  {
    forall i :: 0 <= i < |types| ==> ReadEntries(types)[i].t == Tag(np, np + nx, i)
  }

  lemma TypeTags(pre: seq<Spec>, ex: seq<Spec>, co: seq<Spec>)
    ensures TagsAre(CombinedTypes(pre, ex, co), |pre|, |ex|)
  {
    EntriesOfCombined(pre, ex, co);
  }

  /** The answers of one type are a run of all the answers. */
  lemma AnswersOfRun(src: seq<SC>, types: seq<string>, np: nat, nx: nat, nc: nat, t: char)
    requires WellSized(types) && |src| == SL_FIRST_DEP_INDEX + |types| && |types| == np + nx + nc
    requires TagsAre(types, np, nx) && t in ['P', 'E', 'C']
    ensures var mine := AnswersOf(src, types, t);
            && |mine| == CountOf(np, nx, nc, t)
            && forall j :: 0 <= j < |mine| ==> mine[j] == src[SL_FIRST_DEP_INDEX + StartOf(np, nx, t) + j]
  {
    var lo, n := StartOf(np, nx, t), CountOf(np, nx, nc, t);
    var scs, entries := src[SL_FIRST_DEP_INDEX..], ReadEntries(types);
    assert forall i :: 0 <= i < |entries| ==> (entries[i].t == t <==> lo <= i < lo + n);
    SelectRun(scs, entries, t, lo, lo + n, |types|);
    RunPoints(src, lo, lo + n, AnswersOf(src, types, t));
  }

  lemma RunPoints(src: seq<SC>, lo: nat, hi: nat, mine: seq<SC>)
    requires |src| >= SL_FIRST_DEP_INDEX && lo <= hi <= |src| - SL_FIRST_DEP_INDEX
    requires mine == if |src| - SL_FIRST_DEP_INDEX <= lo then [] else src[SL_FIRST_DEP_INDEX..][lo..hi]
    ensures |mine| == hi - lo && forall j :: 0 <= j < |mine| ==> mine[j] == src[SL_FIRST_DEP_INDEX + lo + j]
  {
  }

  lemma EntriesOfType(pre: seq<Spec>, ex: seq<Spec>, co: seq<Spec>, t: char)
    ensures var types, mine := CombinedTypes(pre, ex, co), OfType(pre, ex, co, t);
            && Readable(ReadEntries(types), t, |pre| + |ex| + |co|)
            && |EntriesOf(types, t)| == |mine|
            && forall j :: 0 <= j < |mine| ==> EntriesOf(types, t)[j].id == mine[j].alterUuid
  {
    AlignmentRoundTrip(pre, ex, co, t);
  }

  lemma MarksAgree(dst: seq<SC>, own: seq<Entry>, specs: seq<Spec>, src: seq<SC>, lo: nat)
    requires |dst| == |own| == |specs| && lo + |specs| <= |src|
    requires forall j :: 0 <= j < |specs| ==> own[j].id == specs[j].alterUuid
    requires forall j :: 0 <= j < |specs| ==> dst[j] == src[lo + j]
    ensures MarksFor(dst, own) == MarksOf(specs, Heard(src, lo, |specs|))
  {
  }

  /** Each spec is marked with its own alternation id and by the responses to its own query. */
  lemma CombinedMarks(pre: seq<Spec>, ex: seq<Spec>, co: seq<Spec>, src: seq<SC>, t: char, mine: seq<Spec>, lo: nat)
    requires |src| == SL_FIRST_DEP_INDEX + |pre| + |ex| + |co| && t in ['P', 'E', 'C']
    requires mine == OfType(pre, ex, co, t) && lo == SL_FIRST_DEP_INDEX + StartOf(|pre|, |ex|, t)
    ensures var types := CombinedTypes(pre, ex, co);
            && Readable(ReadEntries(types), t, |src| - SL_FIRST_DEP_INDEX)
            && |AnswersOf(src, types, t)| == |EntriesOf(types, t)| && lo + |mine| <= |src|
            && MarksFor(AnswersOf(src, types, t), EntriesOf(types, t)) == MarksOf(mine, Heard(src, lo, |mine|))
  {
    var types := CombinedTypes(pre, ex, co);
    TypeTags(pre, ex, co);
    AnswersOfRun(src, types, |pre|, |ex|, |co|, t);
    EntriesOfType(pre, ex, co, t);
    MarksAgree(AnswersOf(src, types, t), EntriesOf(types, t), mine, src, lo);
  }

  lemma MetMeans(specs: seq<Spec>, answers: seq<seq<bool>>)
    requires |specs| == |answers|
    ensures var m := MarksOf(specs, answers); CountUnmet(m, |m|) == 0 <==> AlternativesMet(specs, answers)
  {
    var m := MarksOf(specs, answers);
    PrerequisitesAreAConjunctionOfAlternatives(m);
    forall i | 0 <= i < |m| ensures GroupFound(m, m[i].uuid) <==> SomeInstalled(specs, answers, specs[i].alterUuid) {
      if GroupFound(m, m[i].uuid) {
        var j :| 0 <= j < |m| && m[j].uuid == m[i].uuid && m[j].status == SWICAT_SC_STATUS_FOUND;
        assert Names(answers[j]);
      }
      if SomeInstalled(specs, answers, specs[i].alterUuid) {
        var j :| 0 <= j < |specs| && specs[j].alterUuid == specs[i].alterUuid && Names(answers[j]);
        assert m[j].status == SWICAT_SC_STATUS_FOUND;
      }
    }
    forall j | 0 <= j < |m| ensures m[j].status == SWICAT_SC_STATUS_UNSET <==> answers[j] == [] {
    }
  }

  lemma ViolatedMeans(specs: seq<Spec>, answers: seq<seq<bool>>)
    requires |specs| == |answers|
    ensures var m := MarksOf(specs, answers); CountFound(m, |m|) == 0 <==> NoneInstalled(answers)
  {
    CountFoundZero(MarksOf(specs, answers), |specs|);
  }

  lemma PrerequisiteMarks(pre: seq<Spec>, ex: seq<Spec>, co: seq<Spec>, src: seq<SC>)
    requires |src| == SL_FIRST_DEP_INDEX + |pre| + |ex| + |co|
    ensures var types := CombinedTypes(pre, ex, co);
            && Readable(ReadEntries(types), 'P', |src| - SL_FIRST_DEP_INDEX)
            && |AnswersOf(src, types, 'P')| == |EntriesOf(types, 'P')|
            && MarksFor(AnswersOf(src, types, 'P'), EntriesOf(types, 'P')) ==
               MarksOf(pre, Heard(src, SL_FIRST_DEP_INDEX, |pre|))
  {
    CombinedMarks(pre, ex, co, src, 'P', pre, SL_FIRST_DEP_INDEX);
  }

  /** With enforcement, the prerequisites pass if and only if each alternation is met or was not heard of at all. */
  lemma PrerequisitesDecide(pre: seq<Spec>, ex: seq<Spec>, co: seq<Spec>, src: seq<SC>)
    requires |src| == SL_FIRST_DEP_INDEX + |pre| + |ex| + |co|
    ensures var types := CombinedTypes(pre, ex, co);
            && Readable(ReadEntries(types), 'P', |src| - SL_FIRST_DEP_INDEX)
            && |AnswersOf(src, types, 'P')| == |EntriesOf(types, 'P')|
            && var m := MarksFor(AnswersOf(src, types, 'P'), EntriesOf(types, 'P'));
            CountUnmet(m, |m|) == 0 <==> AlternativesMet(pre, Heard(src, SL_FIRST_DEP_INDEX, |pre|))
  {
    PrerequisiteMarks(pre, ex, co, src);
    MetMeans(pre, Heard(src, SL_FIRST_DEP_INDEX, |pre|));
  }

  /** With enforcement, the exrequisites pass if and only if none of them is installed, as far as last responses tell. */
  lemma ExrequisitesDecide(pre: seq<Spec>, ex: seq<Spec>, co: seq<Spec>, src: seq<SC>)
    requires |src| == SL_FIRST_DEP_INDEX + |pre| + |ex| + |co|
    ensures var types := CombinedTypes(pre, ex, co);
            && Readable(ReadEntries(types), 'E', |src| - SL_FIRST_DEP_INDEX)
            && |AnswersOf(src, types, 'E')| == |EntriesOf(types, 'E')|
            && var m := MarksFor(AnswersOf(src, types, 'E'), EntriesOf(types, 'E'));
            CountFound(m, |m|) == 0 <==> NoneInstalled(Heard(src, SL_FIRST_DEP_INDEX + |pre|, |ex|))
  {
    CombinedMarks(pre, ex, co, src, 'E', ex, SL_FIRST_DEP_INDEX + |pre|);
    ViolatedMeans(ex, Heard(src, SL_FIRST_DEP_INDEX + |pre|, |ex|));
  }

  /**
   The requisites as main tests them: the specs are combined, `src` has the answers to the same-package queries and then
   to these, and the package passes without enforcement, or when its alternations are met and no exrequisite is installed.
   */
  method TestRequisites(pre: seq<Spec>, ex: seq<Spec>, co: seq<Spec>, src: seq<SC>, enforce: bool)
    returns (pass: bool)
    requires |src| == SL_FIRST_DEP_INDEX + |pre| + |ex| + |co| && Distinct(src)
    modifies AnswersOf(src, CombinedTypes(pre, ex, co), 'P'), AnswersOf(src, CombinedTypes(pre, ex, co), 'E')
    ensures pass <==>
            || !enforce
            || (AlternativesMet(pre, Heard(src, SL_FIRST_DEP_INDEX, |pre|)) &&
                NoneInstalled(Heard(src, SL_FIRST_DEP_INDEX + |pre|, |ex|)))
  {
    var _, types := GetDependencySpecs(pre, ex, co);
    PrerequisitesDecide(pre, ex, co, src);
    var _, ret := PrerequisiteTest(src, types, enforce);
    if ret > 0 {
      return false;
    }
    ExrequisitesDecide(pre, ex, co, src);
    var _, ret' := ExrequisiteTest(src, types, enforce);
    pass := ret' == 0;
  }
}
