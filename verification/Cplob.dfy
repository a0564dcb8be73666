/**
 CPLOB, the growable NULL-terminated array of pointers that every list in the
 program is built on.

 The list is modelled in the form it has in C: a block of memory with a length
 (`nlen`) and a count (`nused`), both edited in place.  What the block holds is
 described twice.  `Raw()` is the used part of the block, NULLs included; each
 method says exactly what it does to it.  `Contents()` is the list of pointers a
 caller believes in, defined when the block is properly NULL-terminated.
 */
module Cplob {
  import opened Wrappers
  import opened Text

  const CPLOB_NINITLENGTH := 16
  const CPLOB_NLENGTHINCR := 8

  // ---------------------------------------------------------------- raw blocks

  /** The non-NULL entries, in order. */
  function NonNull<T>(r: seq<Option<T>>): (s: seq<T>)
  {
    if r == [] then []
    else (if r[0].Some? then [r[0].value] else []) + NonNull(r[1..])
  }

  /** The stored pointers followed by the one terminating NULL. */
  function Terminated<T>(s: seq<T>): (r: seq<Option<T>>)
  {
    seq(|s|, i requires 0 <= i < |s| => Some(s[i])) + [None]
  }

  /** `r` is the used part of a NULL-terminated array that holds `s`.  An array nobody has added to yet uses nothing. */
  ghost predicate Encodes<T>(r: seq<Option<T>>, s: seq<T>)
  {
    r == Terminated(s) || (r == [] && s == [])
  }

  /** `r` is the used part of some NULL-terminated array. */
  ghost predicate NullTerminated<T>(r: seq<Option<T>>)
  {
    r != [] ==> r[|r| - 1].None? && forall i :: 0 <= i < |r| - 1 ==> r[i].Some?
  }

  /** The pointers before the terminating NULL. */
  ghost function Stored<T>(r: seq<Option<T>>): (s: seq<T>)
    requires NullTerminated(r)
    ensures Encodes(r, s)
    ensures |s| == if r == [] then 0 else |r| - 1
    ensures forall i :: 0 <= i < |s| ==> r[i] == Some(s[i])
  {
    var s := seq(if r == [] then 0 else |r| - 1, i requires 0 <= i < |r| - 1 && r[i].Some? => r[i].value);
    assert r != [] ==> r == Terminated(s);
    s
  }

  /** What adding at the end of a NULL-terminated array does to its used part. */
  function AddNtaRaw<T>(r: seq<Option<T>>, addr: Option<T>): seq<Option<T>>
  {
    if r == [] then (if addr.None? then [None] else [addr, None])
    else r[..|r| - 1] + [addr, None]
  }

  /** The sequence without its element at index `i`, if it has one there. */
  function RemoveAt<X>(s: seq<X>, i: int): (r: seq<X>)
  {
    if 0 <= i < |s| then s[..i] + s[i + 1..] else s
  }

  /** The elements before the removed one stay where they are, and those after it move up by one. */
  lemma RemoveAtMeans<X>(s: seq<X>, i: nat)
    requires i < |s|
    ensures |RemoveAt(s, i)| == |s| - 1
    ensures forall k :: 0 <= k < |s| - 1 ==> RemoveAt(s, i)[k] == if k < i then s[k] else s[k + 1]
  {
  }

  lemma {:induction false} NonNullConcat<T>(a: seq<Option<T>>, b: seq<Option<T>>)
    ensures NonNull(a + b) == NonNull(a) + NonNull(b)
  {
    if a == [] {
      assert a + b == b;
    } else {
      NonNullConcat(a[1..], b);
      assert (a + b)[0] == a[0] && (a + b)[1..] == a[1..] + b;
      Assoc(if a[0].Some? then [a[0].value] else [], NonNull(a[1..]), NonNull(b));
    }
  }

  lemma {:induction false} NonNullOfTerminated<T>(s: seq<T>)
    ensures NonNull(Terminated(s)) == s
  {
    if s == [] {
      assert Terminated(s) == [None];
    } else {
      assert Terminated(s)[1..] == Terminated(s[1..]);
      NonNullOfTerminated(s[1..]);
    }
  }

  /**
   Adding NULL is only harmless to an array that stores nothing; otherwise the result is
   no longer NULL-terminated in the one place readers expect.
   */
  lemma AddingNull<T(!new)>(r: seq<Option<T>>, s: seq<T>)
    requires Encodes(r, s)
    ensures (exists t :: Encodes(AddNtaRaw(r, None), t)) <==> r == []
  {
    var r' := AddNtaRaw(r, None);
    if r == [] {
      assert r' == Terminated<T>([]);
      assert Encodes(r', []);
    } else {
      forall t ensures !Encodes(r', t) {
        assert |t| == |s| + 1 ==> Terminated(t)[|s|].Some?;
      }
    }
  }

  /** Removing a stored pointer keeps the array NULL-terminated and closes the gap. */
  lemma RemoveStored<T>(r: seq<Option<T>>, i: nat)
    requires NullTerminated(r) && i < |Stored(r)|
    ensures NullTerminated(RemoveAt(r, i))
    ensures Stored(RemoveAt(r, i)) == RemoveAt(Stored(r), i)
  {
  }

  /** Adding a pointer keeps the array NULL-terminated and appends. */
  lemma AddStored<T>(r: seq<Option<T>>, v: T)
    requires NullTerminated(r)
    ensures NullTerminated(AddNtaRaw(r, Some(v))) && Stored(AddNtaRaw(r, Some(v))) == Stored(r) + [v]
  {
  }

  // ---------------------------------------------------------------- whole runs

  datatype Op<T> = Add(v: T) | Remove(i: nat)

  /** What one operation means for the list of pointers; a removal outside it changes nothing. */
  function Apply<T>(op: Op<T>, s: seq<T>): seq<T>
  {
    match op
    case Add(v) => s + [v]
    case Remove(i) => RemoveAt(s, i)
  }

  function RunList<T>(ops: seq<Op<T>>, s: seq<T>): seq<T>
  {
    if ops == [] then s else RunList(ops[1..], Apply(ops[0], s))
  }

  lemma {:induction false} RunListStep<T>(ops: seq<Op<T>>, s: seq<T>, k: nat)
    requires k < |ops|
    ensures RunList(ops[..k + 1], s) == Apply(ops[k], RunList(ops[..k], s))
  {
    if k == 0 {
      assert ops[..1][1..] == [];
    } else {
      assert ops[..k + 1][1..] == ops[1..][..k];
      assert ops[..k][1..] == ops[1..][..k - 1];
      RunListStep(ops[1..], Apply(ops[0], s), k - 1);
    }
  }

  // ---------------------------------------------------------------- the object

  class CPLOB<T(==)> {
    var list: array<Option<T>>
    var nlen: int
    var nused: int

    /** The counters lie inside the allocated block. */
    ghost predicate Bounds()
      reads this
    {
      0 <= nused <= nlen <= list.Length
    }

    /** The used part of the block. */
    ghost function Raw(): seq<Option<T>>
      requires Bounds()
      reads this, list
    {
      list[..nused]
    }

    /** Every slot that is not in use holds NULL. */
    ghost predicate NullTail()
      requires Bounds()
      reads this, list
    {
      forall k :: nused <= k < list.Length ==> list[k].None?
    }

    /** A NULL-terminated array: what lists built with `AddNta` are. */
    ghost predicate Valid()
      reads this, list
    {
      Bounds() && nused < nlen && NullTerminated(Raw()) && NullTail()
    }

    /** The stored pointers. */
    ghost function Contents(): (s: seq<T>)
      requires Valid()
      reads this, list
      ensures Encodes(Raw(), s)
    {
      Stored(Raw())
    }

    /** cplob_open */
    constructor (nobj: int)
      ensures Valid() && fresh(list) && Contents() == []
      ensures nlen == if nobj <= 0 then CPLOB_NINITLENGTH else nobj
    {
      var n := if nobj <= 0 then CPLOB_NINITLENGTH else nobj;
      list := new Option<T>[n];
      nlen := n;
      nused := 0;
      new;
      NullList(0, n);
      ShallowReset();
    }

    /** null_list */
    method NullList(start: int, stop: int)
      requires 0 <= start <= stop <= list.Length
      modifies list
      ensures forall k :: start <= k < stop ==> list[k].None?
      ensures forall k :: 0 <= k < list.Length && !(start <= k < stop) ==> list[k] == old(list[k])
    {
      var i := start;
      while i < stop
        invariant start <= i <= stop
        invariant forall k :: start <= k < i ==> list[k].None?
        invariant forall k :: 0 <= k < list.Length && !(start <= k < i) ==> list[k] == old(list[k])
      {
        list[i] := None;
        i := i + 1;
      }
    }

    /** cplob_shallow_reset */
    method ShallowReset()
      requires Bounds()
      modifies this`nused, list
      ensures Bounds() && Raw() == []
      ensures nlen > 0 && (nlen == list.Length || old(Valid())) ==> Valid() && Contents() == []
    {
      nused := 0;
      NullList(0, nlen);
    }

    /** realloc: a block of `n` slots that keeps the common prefix of the old one. */
    static method Realloc(old_: array<Option<T>>, n: nat) returns (block: array<Option<T>>)
      ensures fresh(block) && block.Length == n
      ensures forall k :: 0 <= k < n && k < old_.Length ==> block[k] == old_[k]
    {
      block := new Option<T>[n];
      for i := 0 to n
        invariant forall k :: 0 <= k < i && k < old_.Length ==> block[k] == old_[k]
      {
        if i < old_.Length {
          block[i] := old_[i];
        }
      }
    }

    /** cplob_reopen: grow to `newLength` slots, the new ones NULL; never shrinks. */
    method Reopen(newLength: int)
      requires Bounds()
      modifies this`list, this`nlen
      ensures Bounds() && Raw() == old(Raw())
      ensures nlen >= newLength && nlen >= old(nlen)
      ensures list == old(list) || fresh(list)
      ensures list == old(list) ==> nlen == old(nlen)
      ensures forall k :: 0 <= k < old(nlen) ==> list[k] == old(list[k])
      ensures forall k :: old(nlen) <= k < nlen ==> list[k].None?
      ensures old(NullTail()) ==> NullTail()
    {
      var n := if newLength <= 1 then 2 else newLength;
      if n > nlen {
        list := Realloc(list, n);
        NullList(nlen, n);
        nlen := n;
      }
    }

    /** cplob_additem */
    method AddItem(index: int, addr: Option<T>)
      requires Bounds() && 0 <= index
      modifies this, list
      ensures Bounds()
      ensures list == old(list) || fresh(list)
      ensures nused == (if index + 1 > old(nused) then index + 1 else old(nused))
      ensures nlen >= old(nlen)
      ensures nlen == old(nlen) || nlen >= index + 1 + CPLOB_NLENGTHINCR
      ensures list[index] == addr
      ensures forall k :: 0 <= k < old(nlen) && k != index ==> list[k] == old(list[k])
      ensures old(NullTail()) ==> NullTail()
    {
      if index + 1 > nlen {
        Reopen(index + 1 + CPLOB_NLENGTHINCR);
      }
      list[index] := addr;
      if index + 1 > nused {
        nused := index + 1;
      }
    }

    /** cplob_add */
    method Add(addr: Option<T>)
      requires Bounds()
      modifies this, list
      ensures Bounds()
      ensures list == old(list) || fresh(list)
      ensures Raw() == old(Raw()) + [addr]
    {
      AddItem(nused, addr);
    }

    /** Write over the last used slot and terminate, in a block that has room. */
    method PutLast(addr: Option<T>)
      requires Bounds() && 0 < nused && nused + 1 < nlen
      modifies this, list
      ensures Bounds() && nused < nlen
      ensures list == old(list) || fresh(list)
      ensures Raw() == old(Raw())[..old(nused) - 1] + [addr, None]
      ensures old(NullTail()) ==> NullTail()
    {
      list[nused - 1] := addr;
      ghost var r := Raw();
      AddItem(nused, None);
      assert Raw() == r + [None];
    }

    /** cplob_add_nta: add at the end of a NULL-terminated array. */
    method AddNta(addr: Option<T>)
      requires Bounds()
      modifies this, list
      ensures Bounds() && nused < nlen
      ensures list == old(list) || fresh(list)
      ensures Raw() == AddNtaRaw(old(Raw()), addr)
      ensures old(NullTail()) ==> NullTail()
      ensures old(Valid()) && addr.Some? ==> Valid() && Contents() == old(Contents()) + [addr.value]
    {
      if NullTerminated(Raw()) && addr.Some? {
        AddStored(Raw(), addr.value);
      }
      if nused == 0 {
        Reopen(nused + 1 + CPLOB_NLENGTHINCR);
        nused := nused + 1;
        list[nused - 1] := addr;
        if addr.None? {
          return;
        }
      } else {
        Reopen(nused + CPLOB_NLENGTHINCR);
      }
      PutLast(addr);
    }

    /** cplob_val.  The slot just past the used part is readable too, so it must lie in the block. */
    method Val(index: int) returns (addr: Option<T>)
      requires Bounds() && (index == nused ==> nused < list.Length)
      ensures index < 0 || index > nused ==> addr.None?
      ensures 0 <= index <= nused ==> addr == list[index]
      ensures Valid() && index >= 0 ==> addr == if index < |Contents()| then Some(Contents()[index]) else None
    {
      if index < 0 {
        return None;
      }
      if index > nused {
        return None;
      }
      return list[index];
    }

    /** The memmove that closes the gap at slot `i`. */
    method MoveDown(i: int)
      requires Bounds() && 0 <= i < nused
      modifies list
      ensures Raw()[..nused - 1] == RemoveAt(old(Raw()), i)
      ensures list[nused - 1] == old(list[nused - 1])
      ensures forall k :: nused <= k < list.Length ==> list[k] == old(list[k])
    {
      forall k | i <= k < nused - 1 {
        list[k] := list[k + 1];
      }
    }

    /** The memmove and the count of one slot less that both removing routines share. */
    method CloseGap(i: int)
      requires Bounds() && 0 <= i < nused
      modifies this`nused, list
      ensures Bounds() && nused == old(nused) - 1
      ensures Raw() == RemoveAt(old(Raw()), i)
      ensures list[nused] == old(list[nused - 1])
      ensures forall k :: nused < k < list.Length ==> list[k] == old(list[k])
    {
      MoveDown(i);
      nused := nused - 1;
    }

    /** The same for a slot that holds NULL: no pointer is lost. */
    method CloseNullGap(i: int)
      requires Bounds() && 0 <= i < nused && list[i].None?
      modifies this`nused, list
      ensures Bounds() && nused == old(nused) - 1
      ensures Raw() == RemoveAt(old(Raw()), i) && NonNull(Raw()) == NonNull(old(Raw()))
    {
      ghost var r := Raw();
      CloseGap(i);
      DropNull(r[..i], r[i + 1..]);
      assert r == r[..i] + [None] + r[i + 1..];
    }

    /** The removal once the index is known to be in use. */
    method Drop(i: int)
      requires Bounds() && 0 <= i < nused
      modifies this`nused, this`nlen, list
      ensures Bounds() && Raw() == RemoveAt(old(Raw()), i)
      ensures forall k :: old(nused) <= k < list.Length ==> list[k] == old(list[k])
      ensures old(Valid()) && i < |old(Contents())| ==> Valid() && Contents() == RemoveAt(old(Contents()), i)
    {
      ghost var r := Raw();
      ghost var whole := Valid() && i < |Contents()|;
      CloseGap(i);
      nlen := nlen - 1;
      if whole {
        assert NullTail();
        RemoveStored(r, i);
      }
    }

    /** cplob_remove_index */
    method RemoveIndex(i: int) returns (ret: int)
      requires Bounds()
      modifies this`nused, this`nlen, list
      ensures Bounds() && Raw() == RemoveAt(old(Raw()), i)
      ensures ret == if 0 <= i < old(nused) then 0 else -1
      ensures forall k :: old(nused) <= k < list.Length ==> list[k] == old(list[k])
      ensures old(Valid()) && 0 <= i < |old(Contents())| ==>
                Valid() && Contents() == RemoveAt(old(Contents()), i)
      ensures ret == -1 ==> old(Valid()) ==> Valid() && Contents() == old(Contents())
    {
      if i < 0 || i >= nused {
        return -1;
      }
      if nused == 0 || nlen == 0 {
        return 0;
      }
      Drop(i);
      ret := 0;
    }

    /** vplob_get_nstore: how many of the used slots hold a pointer. */
    method GetNStore() returns (n: nat)
      requires Bounds()
      ensures n == |NonNull(Raw())|
      ensures Valid() ==> n == |Contents()|
    {
      n := 0;
      ghost var r := Raw();
      for i := 0 to nused
        invariant n == |NonNull(r[..i])|
      {
        assert r[..i + 1] == r[..i] + [r[i]];
        NonNullConcat(r[..i], [r[i]]);
        if list[i].Some? {
          n := n + 1;
        }
      }
      assert r[..nused] == r;
      if Valid() {
        NonNullOfTerminated(Contents());
      }
    }

    /**
     cplob_backfill_and_nullterminate.  Whatever the used part holds, the block afterwards starts with
     exactly its non-NULL entries, in order, followed by NULL; nothing else is counted as used but NULLs.
     */
    method BackfillAndNullTerminate()
      requires Bounds() && nused < nlen
      modifies this, list
      ensures Bounds()
      ensures list == old(list) || fresh(list)
      ensures NonNull(Raw()) == NonNull(old(Raw()))
      ensures var n := |NonNull(old(Raw()))|;
              && n <= nused && n < list.Length && list[n].None?
              && (forall k :: 0 <= k < n ==> Raw()[k] == Some(NonNull(old(Raw()))[k]))
              && (forall k :: n <= k < nused ==> Raw()[k].None?)
    {
      Backfill();
      if list[nused].Some? {
        ghost var before := Raw();
        Add(None);
        NonNullConcat(before, [None]);
        assert Raw()[nused - 1].None?;
      }
      CompactShape(Raw());
      ghost var n := |NonNull(Raw())|;
      assert n < nused ==> list[n] == Raw()[n];
    }

    /** The two loops that squeeze the NULLs out. */
    method Backfill()
      requires Bounds() && nused < nlen
      modifies this`nused, list
      ensures Bounds() && nused < nlen
      ensures NonNull(Raw()) == NonNull(old(Raw()))
      ensures PointersBefore(Raw(), nused - 1)
    {
      ghost var r := Raw();
      var i := 0;
      while i < nused
        invariant Bounds() && nused < nlen
        invariant 0 <= i <= nused
        invariant NonNull(Raw()) == NonNull(r)
        invariant PointersBefore(Raw(), if i < nused then i else i - 1)
        decreases nused - i
      {
        while i < nused && list[i].None?
          invariant Bounds() && nused < nlen
          invariant 0 <= i < nused
          invariant NonNull(Raw()) == NonNull(r)
          invariant PointersBefore(Raw(), i)
          decreases nused
        {
          if i + 1 == nused {
            break;
          }
          CloseNullGap(i);
        }
        i := i + 1;
      }
    }

    /** One operation; a removal is only asked for an index that names a stored pointer. */
    method PerformOne(op: Op<T>)
      requires Valid()
      modifies this, list
      ensures Valid() && Contents() == Apply(op, old(Contents()))
      ensures list == old(list) || fresh(list)
    {
      match op
      case Add(v) =>
        AddNta(Some(v));
      case Remove(i) =>
        var n := GetNStore();
        if i < n {
          var _ := RemoveIndex(i);
        }
    }

    /** Adds and removals in any order: the block keeps holding exactly the list of pointers the run describes. */
    method Perform(ops: seq<Op<T>>)
      requires Valid()
      modifies this, list
      ensures Valid() && Contents() == RunList(ops, old(Contents()))
      ensures list == old(list) || fresh(list)
    {
      ghost var s := Contents();
      assert ops[..0] == [];
      for k := 0 to |ops|
        invariant list == old(list) || fresh(list)
        invariant Valid() && Contents() == RunList(ops[..k], s)
      {
        RunListStep(ops, s, k);
        PerformOne(ops[k]);
      }
      assert ops[..|ops|] == ops;
    }

    /** vplob_remove_from_list: the count is taken once, and the index moves on after a removal too. */
    method RemoveFromList(addrToRemove: T)
      requires Valid()
      modifies this`nused, this`nlen, list
      ensures Valid() && Contents() == SkippingRemove(old(Contents()), addrToRemove)
    {
      ghost var s := Contents();
      var n := GetNStore();
      var i := 0;
      assert s[..0] == [] && s[0..] == s;
      while i < n
        invariant 0 <= i && n == |s| && Valid() && |Contents()| <= n < list.Length
        invariant SkipProgress(Contents(), i, addrToRemove) == SkippingRemove(s, addrToRemove)
      {
        SkipStep(Contents(), i, addrToRemove);
        RemoveIfEqual(i, addrToRemove);
        i := i + 1;
      }
    }

    /** One turn of the loop of `RemoveFromList`. */
    method RemoveIfEqual(i: nat, addr: T)
      requires Valid() && i < list.Length
      modifies this`nused, this`nlen, list
      ensures Valid()
      ensures Contents() == var c := old(Contents());
                            if i < |c| && c[i] == addr then RemoveAt(c, i) else c
    {
      assert i < nused ==> list[i] == Raw()[i];
      if list[i] == Some(addr) {
        var _ := RemoveIndex(i);
      }
    }
  }

  /** The list `RemoveFromList` is heading for when it holds `c` and is about to look at index `i`. */
  function SkipProgress<T(==)>(c: seq<T>, i: nat, a: T): seq<T>
  {
    if i < |c| then c[..i] + SkippingRemove(c[i..], a) else c
  }

  lemma SkipStep<T>(c: seq<T>, i: nat, a: T)
    ensures i < |c| && c[i] == a ==> SkipProgress(RemoveAt(c, i), i + 1, a) == SkipProgress(c, i, a)
    ensures i >= |c| || c[i] != a ==> SkipProgress(c, i + 1, a) == SkipProgress(c, i, a)
  {
    if i < |c| {
      assert c[i..][0] == c[i] && c[i..][1..] == c[i + 1..];
      if c[i] == a {
        SkipRemoved(c, i, a);
      } else {
        SkipKept(c, i, a);
      }
    }
  }

  lemma SkipKept<T>(c: seq<T>, i: nat, a: T)
    requires i < |c| && c[i] != a && c[i..][0] == c[i] && c[i..][1..] == c[i + 1..]
    ensures SkipProgress(c, i + 1, a) == SkipProgress(c, i, a)
  {
    assert c[..i + 1] == c[..i] + [c[i]];
    Assoc(c[..i], [c[i]], SkippingRemove(c[i + 1..], a));
    if i + 1 == |c| {
      assert c[..i + 1] == c && c[i + 1..] == [];
    }
  }

  lemma SkipRemoved<T>(c: seq<T>, i: nat, a: T)
    requires i < |c| && c[i] == a && c[i..][0] == c[i] && c[i..][1..] == c[i + 1..]
    ensures SkipProgress(RemoveAt(c, i), i + 1, a) == SkipProgress(c, i, a)
  {
    var d := RemoveAt(c, i);
    if i + 1 < |c| {
      assert c[i..][1] == c[i + 1] && c[i..][2..] == c[i + 2..];
      assert d[..i + 1] == c[..i] + [c[i + 1]] && d[i + 1..] == c[i + 2..];
      Assoc(c[..i], [c[i + 1]], SkippingRemove(c[i + 2..], a));
      if i + 1 == |d| {
        assert d[..i + 1] == d && c[i + 2..] == [];
      }
    } else {
      assert d == c[..i] && c[..i] + [] == c[..i];
    }
  }

  /** What is left when the element after each removed one is not looked at. */
  function SkippingRemove<T(==)>(s: seq<T>, a: T): seq<T>
  {
    if s == [] then []
    else if s[0] != a then [s[0]] + SkippingRemove(s[1..], a)
    else if |s| == 1 then []
    else [s[1]] + SkippingRemove(s[2..], a)
  }

  /** Two neighbours of the list are both the pointer to remove. */
  ghost predicate Doubled<T>(s: seq<T>, a: T)
  {
    exists k :: 0 <= k < |s| - 1 && s[k] == a && s[k + 1] == a
  }

  lemma DoubledTail<T>(s: seq<T>, a: T)
    requires s != []
    ensures Doubled(s, a) <==> (|s| > 1 && s[0] == a && s[1] == a) || Doubled(s[1..], a)
  {
    if Doubled(s, a) && !(|s| > 1 && s[0] == a && s[1] == a) {
      var k :| 0 <= k < |s| - 1 && s[k] == a && s[k + 1] == a;
      assert s[1..][k - 1] == a && s[1..][k - 1 + 1] == a;
    }
    if Doubled(s[1..], a) {
      var k :| 0 <= k < |s[1..]| - 1 && s[1..][k] == a && s[1..][k + 1] == a;
      assert s[k + 1] == a && s[k + 1 + 1] == a;
    }
  }

  /**
   `RemoveFromList` leaves no occurrence behind exactly when no two neighbours of the list are both the
   pointer to remove, and then what is left is the rest of the list, in order.
   */
  lemma {:induction false} RemoveFromListComplete<T>(s: seq<T>, a: T)
    ensures a !in SkippingRemove(s, a) <==> !Doubled(s, a)
    ensures a !in SkippingRemove(s, a) ==> SkippingRemove(s, a) == Without(s, a)
  {
    if s == [] {
    } else {
      DoubledTail(s, a);
      if s[0] != a {
        RemoveFromListComplete(s[1..], a);
      } else if |s| > 1 {
        RemoveFromListComplete(s[2..], a);
        DoubledTail(s[1..], a);
        assert s[1..][0] == s[1] && s[1..][1..] == s[2..];
        assert Without(s, a) == Without(s[1..], a);
      }
    }
  }

  function Repeated<T>(n: nat, a: T): seq<T>
  {
    seq(n, i => a)
  }

  /** Of a run of occurrences every other one is left, and what follows is treated as if the run were not there. */
  lemma {:induction false} RunsAreHalved<T>(n: nat, a: T, rest: seq<T>)
    requires rest == [] || rest[0] != a
    ensures SkippingRemove(Repeated(n, a) + rest, a) == Repeated(n / 2, a) + SkippingRemove(rest, a)
    decreases n
  {
    var s := Repeated(n, a) + rest;
    if n == 0 {
      assert s == rest;
    } else if n == 1 {
      assert s == [a] + rest;
      if rest != [] {
        assert s[2..] == rest[1..];
      }
    } else {
      assert s[2..] == Repeated(n - 2, a) + rest;
      RunsAreHalved(n - 2, a, rest);
      assert Repeated(n / 2, a) == [a] + Repeated(n / 2 - 1, a);
    }
  }

  function Without<T(==)>(s: seq<T>, a: T): seq<T>
  {
    if s == [] then [] else (if s[0] == a then [] else [s[0]]) + Without(s[1..], a)
  }

  /** Every slot before `i` holds a pointer. */
  ghost predicate PointersBefore<T>(r: seq<Option<T>>, i: int)
  {
    forall k :: 0 <= k < i && k < |r| ==> r[k].Some?
  }

  /** All pointers come before all NULLs. */
  ghost predicate Compact<T>(r: seq<Option<T>>)
  {
    forall j, k :: 0 <= j < k < |r| && r[j].None? ==> r[k].None?
  }

  /** Removing a NULL loses no pointer. */
  lemma DropNull<T>(a: seq<Option<T>>, b: seq<Option<T>>)
    ensures NonNull(a + [None] + b) == NonNull(a + b)
  {
    NonNullConcat(a + [None], b);
    NonNullConcat(a, [None]);
    NonNullConcat(a, b);
  }

  /** The block starts with exactly these pointers, and the rest of it is NULL. */
  ghost predicate StartsWith<T>(r: seq<Option<T>>, s: seq<T>)
  {
    && |s| <= |r|
    && (forall k :: 0 <= k < |s| ==> r[k] == Some(s[k]))
    && forall k :: |s| <= k < |r| ==> r[k].None?
  }

  lemma StartsWithCons<T>(x: Option<T>, rest: seq<Option<T>>)
    requires StartsWith(rest, NonNull(rest)) && Compact([x] + rest)
    ensures StartsWith([x] + rest, NonNull([x] + rest))
  {
    var r := [x] + rest;
    assert r[1..] == rest;
    if x.None? {
      assert forall k :: 0 <= k < |rest| ==> r[k + 1] == rest[k];
      assert NonNull(r) == NonNull(rest);
    } else {
      assert NonNull(r) == [x.value] + NonNull(rest);
    }
  }

  /** A compact block starts with exactly its non-NULL entries, and the rest of it is NULL. */
  lemma {:induction false} CompactShape<T>(r: seq<Option<T>>)
    requires Compact(r)
    ensures StartsWith(r, NonNull(r))
  {
    if r == [] {
    } else {
      CompactShape(r[1..]);
      assert r == [r[0]] + r[1..];
      StartsWithCons(r[0], r[1..]);
    }
  }
}
