/**
 The catalog on the wire.

 The archive member that carries the catalog is written twice: once to nowhere, to learn its size, and once for real
 after that size was announced.  Each time the catalog data itself is written twice as well, because its header comes
 first.  So there are four writings of the data, and the far end waits for a size that follows from the first.
 */
module CatalogMember {

  import opened Wrappers

  const POSIX_LIMIT := 64

  /** A file descriptor: what matters is how many bytes went into it. */
  class Channel {
    var bytes: nat

    constructor ()
      ensures bytes == 0
    {
      bytes := 0;
    }

    method Write(n: nat) returns (ret: nat)
      modifies this
      ensures bytes == old(bytes) + n && ret == n
    {
      bytes := bytes + n;
      ret := n;
    }
  }

  /** A writing of the catalog data: its length, or -1 for an error. */
  predicate DataSize(d: int)
  {
    d >= -1
  }

  function Bytes(d: int): nat
  {
    if d > 0 then d else 0
  }

  /** swpl_write_catalog_data, as far as its size goes. */
  method WriteCatalogData(ofd: Channel, d: int) returns (ret: int)
    requires DataSize(d)
    modifies ofd
    ensures ret == d && ofd.bytes == old(ofd.bytes) + Bytes(d)
  {
    if d > 0 {
      var _ := ofd.Write(d);
    }
    ret := d;
  }

  /** write_attribute_file: a header and one block, for a value within the limit. */
  method WriteAttributeFile(ofd: Channel, value: string) returns (ret: nat)
    requires |value| < POSIX_LIMIT
    modifies ofd
    ensures ret == 2 * TARRECORDSIZE && ofd.bytes == old(ofd.bytes) + ret
  {
    var n := ofd.Write(TARRECORDSIZE);
    ret := n;
    n := ofd.Write(TARRECORDSIZE);
    ret := ret + n;
  }

  datatype Attributes = Attributes(location: string, qualifier: string, vendorTag: string)

  predicate Short(a: Attributes)
  {
    |a.location| < POSIX_LIMIT && |a.qualifier| < POSIX_LIMIT && |a.vendorTag| < POSIX_LIMIT
  }

  /** What the member adds up to besides the catalog data: two headers and three attribute files. */
  const OVERHEAD := 2 * TARRECORDSIZE + 3 * 2 * TARRECORDSIZE

  /** The value returned after the two writings of the data gave `d1` and `d2`: a difference is lost in the sum. */
  function MemberSize(d1: int, d2: int): int
  {
    if d2 != d1 then -1 + 3 * 2 * TARRECORDSIZE else OVERHEAD + d1
  }

  /** write_catalog_archive_member */
  method WriteCatalogArchiveMember(ofd: Channel, nullfd: Channel, a: Attributes, d1: int, d2: int) returns (retval: int)
    requires Short(a) && DataSize(d1) && DataSize(d2)
    modifies ofd, nullfd
    ensures retval == MemberSize(d1, d2)
    ensures ofd != nullfd ==> ofd.bytes == old(ofd.bytes) + OVERHEAD + Bytes(d2)
  {
    retval := ofd.Write(TARRECORDSIZE);
    var size := WriteCatalogData(nullfd, d1);
    var ret := ofd.Write(TARRECORDSIZE);
    var again := WriteCatalogData(ofd, d2);
    if again != size {
      retval := -1;
    } else {
      retval := retval + (size + ret);
    }
    ret := WriteAttributeFile(ofd, a.location);
    retval := retval + ret;
    ret := WriteAttributeFile(ofd, a.qualifier);
    retval := retval + ret;
    ret := WriteAttributeFile(ofd, a.vendorTag);
    retval := retval + ret;
  }

  /** The four writings of the catalog data, in order. */
  datatype Writings = Writings(d1: int, d2: int, d3: int, d4: int)

  predicate Sizes(d: Writings)
  {
    DataSize(d.d1) && DataSize(d.d2) && DataSize(d.d3) && DataSize(d.d4)
  }

  /** The announced size; it is not announced if it does not fill whole blocks. */
  function Announced(d: Writings): int
  {
    MemberSize(d.d1, d.d2) + 2 * TARRECORDSIZE
  }

  predicate Announces(d: Writings)
  {
    MemberSize(d.d1, d.d2) >= 0 && Announced(d) % TARRECORDSIZE == 0
  }

  /** What the check after the sending compares with the announced size. */
  function Counted(d: Writings): int
  {
    MemberSize(d.d3, d.d4) + 2 * TARRECORDSIZE
  }

  /**
   send_catalog_tarfile: `sendRet` is the outcome of sending the task, `status` that of waiting for its end.  The
   sizes are checked before the announcement and after the sending.
   */
  method SendCatalogTarfile(ofd: Channel, nullfd: Channel, a: Attributes, d: Writings, sendRet: int, status: int)
    returns (ret: int)
    requires Short(a) && Sizes(d) && ofd != nullfd
    modifies ofd, nullfd
    ensures ret == if !Announces(d) then -1
                   else if sendRet != 0 then sendRet
                   else if MemberSize(d.d3, d.d4) < 0 || Counted(d) != Announced(d) then -1
                   else status
    ensures ofd.bytes == old(ofd.bytes) +
              if !Announces(d) || sendRet != 0 then 0
              else OVERHEAD + Bytes(d.d4) + if MemberSize(d.d3, d.d4) < 0 then 0 else 2 * TARRECORDSIZE
  {
    var scratch := new Channel();
    var stdinFileSize := WriteCatalogArchiveMember(nullfd, scratch, a, d.d1, d.d2);
    if stdinFileSize < 0 {
      return -1;
    }
    stdinFileSize := stdinFileSize + (TARRECORDSIZE + TARRECORDSIZE);
    if stdinFileSize % TARRECORDSIZE != 0 {
      return -1;
    }
    if sendRet != 0 {
      return sendRet;
    }
    ret := WriteCatalogArchiveMember(ofd, nullfd, a, d.d3, d.d4);
    if ret < 0 {
      return -1;
    }
    var dataret := ret;
    ret := ofd.Write(2 * TARRECORDSIZE);
    dataret := dataret + ret;
    if dataret != stdinFileSize {
      return -1;
    }
    ret := status;
  }

  // ------------------------------------------------------------ when the sizes agree

  /**
   The checks pass if and only if all four writings have the same size and that is a whole number of blocks; then
   exactly the announced number of bytes is sent.
   */
  lemma ChecksMean(d: Writings)
    requires Sizes(d)
    ensures Announces(d) <==> d.d1 == d.d2 && d.d1 % TARRECORDSIZE == 0
    ensures Announces(d) && Counted(d) == Announced(d) <==>
            d.d1 == d.d2 == d.d3 == d.d4 && d.d1 % TARRECORDSIZE == 0
    ensures MemberSize(d.d3, d.d4) >= 0
  {
    assert (-1 + 3 * 2 * TARRECORDSIZE + 2 * TARRECORDSIZE) % TARRECORDSIZE != 0;
    assert (OVERHEAD + d.d1 + 2 * TARRECORDSIZE) % TARRECORDSIZE == d.d1 % TARRECORDSIZE;
  }

  /**
   The member is made of the header of a directory, that of the data, and two blocks for each of three attribute files: eight blocks
   and the data, and ten with the end of the archive.
   */
  lemma SizesInBlocks(d: Writings)
    requires Sizes(d) && Announces(d)
    ensures MemberSize(d.d1, d.d2) == 8 * 512 + d.d1 && Announced(d) == 10 * 512 + d.d1
    ensures Counted(d) == Announced(d) <==> d.d3 == d.d4 == d.d1
  {
    ChecksMean(d);
  }

  /**
   Once a size is announced, the far end gets that many bytes exactly when the last writing has the first
   one's size.
   */
  lemma BytesMatch(d: Writings)
    requires Sizes(d) && Announces(d)
    ensures OVERHEAD + Bytes(d.d4) + 2 * TARRECORDSIZE == Announced(d) <==> Bytes(d.d4) == d.d1
  {
    ChecksMean(d);
  }

  /**
   The early return for a difference never happens: the error value is lost when the attribute files are added.  The
   check for whole blocks and the final comparison catch what it was meant to catch.
   */
  lemma DifferenceCaughtLater(d: Writings)
    requires Sizes(d)
    ensures MemberSize(d.d1, d.d2) >= 0
    ensures d.d1 != d.d2 ==> !Announces(d)
    ensures Announces(d) && d.d3 != d.d4 ==> Counted(d) != Announced(d)
  {
    ChecksMean(d);
  }
}
