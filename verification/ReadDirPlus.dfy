/**
 READDIRPLUS: a page of directory entries cut to the two byte budgets of the request and written as
 a dirlistplus3 (section 3.3.17 of RFC 1813).
 */
module ReadDirPlus {
  import opened Bytes
  import opened Xdr
  import opened Streams
  import opened Rpc
  import opened Nfs

  datatype DirEntry = DirEntry(fileid: u64, name: seq<byte>, attr: Fattr3)
  {
    /** Names are short enough to be serialized. */
    predicate Named() { |name| < U32_MAX }
  }

  datatype Page = Page(entries: seq<DirEntry>, end: bool)

  datatype Outcome<+T> = Done(value: T) | Failed(stat: NfsStat)

  datatype Args = Args(dir: seq<byte>, cookie: u64, cookieverf: seq<byte>, dircount: u32, maxcount: u32)

  // ---- file handles ----

  function IdToFh(gen: u64, id: u64): (fh: seq<byte>)
    ensures |fh| == 16
  {
    Le64(gen) + Le64(id)
  }

  function OfLe64(b: seq<byte>): u64
    requires |b| == 8
  {
    OfBe64([b[7], b[6], b[5], b[4], b[3], b[2], b[1], b[0]])
  }

  function FhToId(gen: u64, fh: seq<byte>): Outcome<u64>
  {
    if |fh| != 16 then Failed(NFS3ERR_OTHER(10001))
    else if OfLe64(fh[..8]) < gen then Failed(NFS3ERR_OTHER(70))
    else if OfLe64(fh[..8]) > gen then Failed(NFS3ERR_OTHER(10001))
    else Done(OfLe64(fh[8..]))
  }

  lemma Le64Inverse(n: u64)
    ensures OfLe64(Le64(n)) == n
  {
    hide Be64, OfBe64;
    Be64Inverse(n, Be64(n));
    var le := Le64(n);
    assert [le[7], le[6], le[5], le[4], le[3], le[2], le[1], le[0]] == Be64(n);
  }

  /**
   A handle names its file for as long as the server that issued it runs; a later one calls it stale, an earlier one
   bad, and bad is whatever is not 16 bytes long.
   */
  lemma HandleRoundTrip(gen: u64, id: u64, later: u64, fh: seq<byte>)
    requires gen < later
    ensures FhToId(gen, IdToFh(gen, id)) == Done(id)
    ensures FhToId(later, IdToFh(gen, id)).Failed? && FhToId(later, IdToFh(gen, id)).stat.Code() == 70
    ensures FhToId(gen, IdToFh(later, id)).Failed? && FhToId(gen, IdToFh(later, id)).stat.Code() == 10001
    ensures |fh| != 16 ==> FhToId(gen, fh).Failed? && FhToId(gen, fh).stat.Code() == 10001
  {
    hide Le64, OfLe64;
    Le64Inverse(gen);
    Le64Inverse(later);
    Le64Inverse(id);
    assert IdToFh(gen, id)[..8] == Le64(gen) && IdToFh(gen, id)[8..] == Le64(id);
    assert IdToFh(later, id)[..8] == Le64(later);
  }

  // ---- the parts of a reply ----

  function PostOpValue(a: Option<Fattr3>): Value
  {
    match a
    case None => Absent
    case Some(attr) => Present(AttrValue(attr))
  }

  lemma PostOpHasType(a: Option<Fattr3>)
    ensures HasType(PostOpAttrXdr(), PostOpValue(a))
    ensures |Encode(PostOpAttrXdr(), PostOpValue(a))| == if a.Some? then 88 else 4
  {
    hide Fattr3Xdr, AttrValue;
    if a.Some? {
      AttrValueHasType(a.value);
      AttrSize(AttrValue(a.value));
    }
  }

  lemma PostOpSerializes(a: Option<Fattr3>)
    ensures Serializable(PostOpValue(a))
  {
    hide Fattr3Xdr, AttrValue;
    if a.Some? {
      AttrValueHasType(a.value);
      AttrFixedSize();
      FixedSizeSerializes(Fattr3Xdr(), AttrValue(a.value));
    }
  }

  function EntryValue(gen: u64, e: DirEntry): Value
  {
    Both(Num(e.fileid), Both(Blob(e.name), Both(Num(e.fileid),
      Both(PostOpValue(Some(e.attr)), Present(Blob(IdToFh(gen, e.fileid)))))))
  }

  lemma EntryHasType(gen: u64, e: DirEntry)
    requires e.Named()
    ensures HasType(Entryplus3Xdr(), EntryValue(gen, e)) && Serializable(EntryValue(gen, e))
  {
    hide Fattr3Xdr, AttrValue, PostOpValue, Le64;
    var DirEntry(fileid, name, attr) := e;
    PostOpHasType(Some(attr));
    PostOpSerializes(Some(attr));
    var v := EntryValue(gen, e);
    var handle := v.rest.rest.rest.rest;
    assert Serializable(handle.v) && Serializable(handle);
    assert Serializable(v.rest.rest.rest) && Serializable(v.rest.rest) && Serializable(v.rest);
  }

  /** An entry takes 132 bytes and its name, filled up to whole words. */
  lemma EntrySize(gen: u64, e: DirEntry)
    requires e.Named()
    ensures HasType(Entryplus3Xdr(), EntryValue(gen, e))
    ensures |Encode(Entryplus3Xdr(), EntryValue(gen, e))| == 132 + 4 * ((|e.name| + 3) / 4)
  {
    hide Fattr3Xdr, AttrValue, PostOpValue, Be32, Be64, Le64, HasType;
    EntryHasType(gen, e);
    PostOpHasType(Some(e.attr));
    OpaqueLayout(e.name);
    OpaqueLayout(IdToFh(gen, e.fileid));
  }

  /** The entry on the wire: fileid, name, cookie, attributes and handle; the cookie is the fileid. */
  lemma EntryLayout(gen: u64, e: DirEntry)
    requires e.Named()
    ensures HasType(Entryplus3Xdr(), EntryValue(gen, e))
    ensures Encode(Entryplus3Xdr(), EntryValue(gen, e))
         == Be64(e.fileid) + (OpaqueBytes(e.name) + (Be64(e.fileid)
            + ((Be32(1) + AttrBytes(e.attr)) + (Be32(1) + OpaqueBytes(IdToFh(gen, e.fileid))))))
  {
    hide Fattr3Xdr, AttrValue, AttrBytes, OpaqueBytes, Be32, Be64, Le64;
    EntryHasType(gen, e);
    AttrLayout(e.attr);
    OpaqueIs(e.name);
    OpaqueIs(IdToFh(gen, e.fileid));
  }

  /** The size of one list element: TRUE and the entry. */
  function ElementSize(e: DirEntry): nat { 136 + 4 * ((|e.name| + 3) / 4) }

  function ElementBytes(gen: u64, e: DirEntry): (b: seq<byte>)
    requires e.Named()
    ensures |b| == ElementSize(e)
  {
    EntrySize(gen, e);
    Be32(1) + Encode(Entryplus3Xdr(), EntryValue(gen, e))
  }

  predicate AllNamed(es: seq<DirEntry>) { forall e | e in es :: e.Named() }

  /** The first k list elements, and the share of either budget they take. */
  function EntriesBytes(gen: u64, es: seq<DirEntry>, k: nat): (b: seq<byte>)
    requires AllNamed(es) && k <= |es|
    ensures |b| == EntriesSize(es, k)
  {
    if k == 0 then [] else EntriesBytes(gen, es, k - 1) + ElementBytes(gen, es[k - 1])
  }

  function EntriesSize(es: seq<DirEntry>, k: nat): nat
    requires k <= |es|
  {
    if k == 0 then 0 else EntriesSize(es, k - 1) + ElementSize(es[k - 1])
  }

  /** What dircount limits: fileid, name and cookie of the entries. */
  function DirSize(es: seq<DirEntry>, k: nat): nat
    requires k <= |es|
  {
    if k == 0 then 0 else DirSize(es, k - 1) + 8 + 4 + |es[k - 1].name| + 8
  }

  /** The cookie verifier: the modification time of the directory. */
  function DirVersion(attr: Option<Fattr3>): (b: seq<byte>)
    ensures |b| == 8
  {
    match attr
    case None => Zeros(8)
    case Some(a) => Be64(VersionWord(a.mtime))
  }

  function VersionWord(t: NfsTime): u64
  {
    var NfsTime(seconds, nseconds) := t;
    var hi: int := seconds;
    hi * 0x1_0000_0000 + nseconds
  }

  function StatusReply(xid: u32, stat: NfsStat, attr: Option<Fattr3>): seq<byte>
    requires stat.Code() in STAT_CODES
  {
    PostOpHasType(attr);
    EncodeMsg(MakeSuccessReply(xid)) + Encode(Nfsstat3Xdr(), Num(stat.Code()))
      + Encode(PostOpAttrXdr(), PostOpValue(attr))
  }

  function ReplyPrefix(xid: u32, attr: Option<Fattr3>): (b: seq<byte>)
    ensures |b| == if attr.Some? then 124 else 40
  {
    SuccessHeader(xid);
    PostOpHasType(attr);
    StatusReply(xid, NFS3_OK, attr) + DirVersion(attr)
  }

  /** A whole reply with the first k entries of a page. */
  function OkReply(xid: u32, attr: Option<Fattr3>, gen: u64, es: seq<DirEntry>, k: nat, eof: bool): seq<byte>
    requires AllNamed(es) && k <= |es|
  {
    ReplyPrefix(xid, attr) + EntriesBytes(gen, es, k) + Be32(0) + Be32(if eof then 1 else 0)
  }

  /** A reply without a listing: a success header, the status word, and the directory's attributes if there are any. */
  lemma StatusLayout(xid: u32, attr: Option<Fattr3>)
    ensures StatusReply(xid, NFS3ERR_NOENT, attr)[24..28] == Be32(2)
    ensures StatusReply(xid, NFS3ERR_IO, attr)[24..28] == Be32(5)
    ensures StatusReply(xid, NFS3ERR_NOTDIR, attr)[24..28] == Be32(20)
    ensures StatusReply(xid, NFS3ERR_BAD_COOKIE, attr)[24..28] == Be32(10003)
    ensures forall stat: NfsStat | stat.Code() in STAT_CODES ::
              && StatusReply(xid, stat, attr)[..24] == EncodeMsg(MakeSuccessReply(xid))
              && StatusReply(xid, stat, attr)[24..28] == Be32(stat.Code())
              && StatusReply(xid, stat, attr)[28..]
                 == match attr case None => Be32(0) case Some(a) => Be32(1) + AttrBytes(a)
  {
    hide EncodeMsg, Be32, AttrBytes, Fattr3Xdr, AttrValue;
    SuccessHeader(xid);
    PostOpHasType(attr);
    if attr.Some? { AttrLayout(attr.value); }
    forall stat: NfsStat | stat.Code() in STAT_CODES
      ensures && StatusReply(xid, stat, attr)[..24] == EncodeMsg(MakeSuccessReply(xid))
              && StatusReply(xid, stat, attr)[24..28] == Be32(stat.Code())
              && StatusReply(xid, stat, attr)[28..]
                 == match attr case None => Be32(0) case Some(a) => Be32(1) + AttrBytes(a)
    {
      assert Encode(Nfsstat3Xdr(), Num(stat.Code())) == Be32(stat.Code());
    }
    assert StatusReply(xid, NFS3ERR_NOENT, attr)[24..28] == Be32(NFS3ERR_NOENT.Code());
    assert StatusReply(xid, NFS3ERR_IO, attr)[24..28] == Be32(NFS3ERR_IO.Code());
    assert StatusReply(xid, NFS3ERR_NOTDIR, attr)[24..28] == Be32(NFS3ERR_NOTDIR.Code());
    assert StatusReply(xid, NFS3ERR_BAD_COOKIE, attr)[24..28] == Be32(NFS3ERR_BAD_COOKIE.Code());
  }

  // ---- the budgets ----

  /** The first k entries fit: with the prefix before them they stay below both limits. Nothing always fits. */
  predicate Fits(es: seq<DirEntry>, k: nat, base: nat, args: Args)
    requires k <= |es|
  {
    k > 0 ==> base + EntriesSize(es, k) < args.maxcount - 128 && DirSize(es, k) < args.dircount
  }

  /** k is the length of the longest prefix that fits. */
  ghost predicate LongestFit(es: seq<DirEntry>, k: nat, base: nat, args: Args)
  {
    k <= |es| && forall j: nat | j <= |es| :: Fits(es, j, base, args) <==> j <= k
  }

  /** Longer prefixes need more of both budgets. */
  lemma {:induction false} PrefixesGrow(es: seq<DirEntry>, j: nat, k: nat)
    requires j <= k <= |es|
    ensures EntriesSize(es, j) + 136 * (k - j) <= EntriesSize(es, k)
    ensures DirSize(es, j) + 20 * (k - j) <= DirSize(es, k)
    decreases k
  {
    if j < k { PrefixesGrow(es, j, k - 1); }
  }

  lemma FitStopsAt(es: seq<DirEntry>, k: nat, base: nat, args: Args)
    requires k <= |es| && Fits(es, k, base, args)
    requires k == |es| || !Fits(es, k + 1, base, args)
    ensures LongestFit(es, k, base, args)
  {
    forall j: nat | j <= |es| ensures Fits(es, j, base, args) <==> j <= k {
      if j <= k { PrefixesGrow(es, j, k); } else { PrefixesGrow(es, k + 1, j); }
    }
  }

  // ---- the handler ----

  /** A status and the directory attributes after a success header. */
  method SerializeStatus(xid: u32, stat: NfsStat, attr: Option<Fattr3>, dest: WriteCounter)
    requires stat.Code() in STAT_CODES
    modifies dest
    ensures dest.inner == old(dest.inner) + StatusReply(xid, stat, attr)
    ensures dest.count == old(dest.count) + |StatusReply(xid, stat, attr)|
  {
    hide EncodeMsg, Encode, PostOpValue, Fattr3Xdr;
    PostOpHasType(attr);
    PostOpSerializes(attr);
    SerializeMsg(MakeSuccessReply(xid), dest);
    Serialize(Nfsstat3Xdr(), Num(stat.Code()), dest);
    Serialize(PostOpAttrXdr(), PostOpValue(attr), dest);
  }

  /** The list element as it would be written, in a buffer of its own. */
  method ElementBuffer(gen: u64, e: DirEntry) returns (buf: seq<byte>)
    requires e.Named()
    ensures buf == ElementBytes(gen, e)
  {
    hide EntryValue, Entryplus3Xdr, HasType;
    EntryHasType(gen, e);
    var cursor := new WriteCounter([]);
    SerializeBool(true, cursor);
    Serialize(Entryplus3Xdr(), EntryValue(gen, e), cursor);
    buf := cursor.inner;
  }

  method SerializeBool(b: bool, dest: WriteCounter)
    modifies dest
    ensures dest.inner == old(dest.inner) + Be32(if b then 1 else 0)
    ensures dest.count == old(dest.count) + 4
  {
    Serialize(Bool, Flag(b), dest);
  }

  /** Everything of a successful reply before its list. */
  method SerializePrefix(xid: u32, dirAttr: Option<Fattr3>, dest: WriteCounter)
    modifies dest
    ensures dest.inner == old(dest.inner) + ReplyPrefix(xid, dirAttr)
    ensures dest.count == old(dest.count) + |ReplyPrefix(xid, dirAttr)|
  {
    hide StatusReply, DirVersion;
    SerializeStatus(xid, NFS3_OK, dirAttr, dest);
    Serialize(Fixed(8), Blob(DirVersion(dirAttr)), dest);
    assert dest.inner == old(dest.inner) + ReplyPrefix(xid, dirAttr);
  }

  /**
   The list of a successful reply: each entry is serialized to a buffer, and committed while both
   budgets allow it. base is what the reply already holds.
   */
  method SerializeEntries(es: seq<DirEntry>, gen: u64, args: Args, ghost base: nat, dest: WriteCounter)
    returns (ctr: nat, allEntriesWritten: bool)
    requires args.maxcount >= 128 && AllNamed(es) && dest.count == base
    modifies dest
    ensures ctr <= |es| && LongestFit(es, ctr, base, args) && (allEntriesWritten <==> ctr == |es|)
    ensures dest.inner == old(dest.inner) + EntriesBytes(gen, es, ctr)
    ensures dest.count == base + EntriesSize(es, ctr)
  {
    hide ElementBytes, ElementSize;
    var maxBytesAllowed := args.maxcount - 128;
    var accumulatedDircount := 0;
    allEntriesWritten := true;
    ctr := 0;
    for i := 0 to |es|
      invariant ctr == i && allEntriesWritten
      invariant dest.inner == old(dest.inner) + EntriesBytes(gen, es, i)
      invariant dest.count == base + EntriesSize(es, i)
      invariant accumulatedDircount == DirSize(es, i)
      invariant Fits(es, i, base, args)
    {
      var buf := ElementBuffer(gen, es[i]);
      var addedDircount := 8 + 4 + |es[i].name| + 8;
      if |buf| + dest.BytesWritten() < maxBytesAllowed && addedDircount + accumulatedDircount < args.dircount {
        ctr := ctr + 1;
        dest.WriteAll(buf);
        accumulatedDircount := accumulatedDircount + addedDircount;
      } else {
        allEntriesWritten := false;
        break;
      }
    }
    FitStopsAt(es, ctr, base, args);
  }

  /** The successful reply, written through a counter of its own. */
  method SerializeListing(xid: u32, args: Args, gen: u64, dirAttr: Option<Fattr3>, page: Page, output: WriteCounter)
    returns (ctr: nat)
    requires args.maxcount >= 128 && AllNamed(page.entries)
    modifies output
    ensures ctr <= |page.entries| && LongestFit(page.entries, ctr, |ReplyPrefix(xid, dirAttr)|, args)
    ensures output.inner == old(output.inner)
              + OkReply(xid, dirAttr, gen, page.entries, ctr, ctr == |page.entries| && page.end)
  {
    hide ReplyPrefix, EntriesBytes, LongestFit, Be32;
    var countingOutput := new WriteCounter(output.inner);
    SerializePrefix(xid, dirAttr, countingOutput);
    var allEntriesWritten;
    ctr, allEntriesWritten := SerializeEntries(page.entries, gen, args, |ReplyPrefix(xid, dirAttr)|, countingOutput);
    SerializeBool(false, countingOutput);
    SerializeBool(if allEntriesWritten then page.end else false, countingOutput);
    assert countingOutput.inner
        == old(output.inner) + OkReply(xid, dirAttr, gen, page.entries, ctr, ctr == |page.entries| && page.end);
    output.inner := countingOutput.inner;
  }

  /**
   Handles READDIRPLUS. dirAttr and listing are what the file system's getattr and readdir answer.
   Returns the number of entries written.
   */
  method NfsProc3ReadDirPlus(xid: u32, args: Args, gen: u64, dirAttr: Option<Fattr3>, listing: Outcome<Page>,
                             output: WriteCounter)
    returns (ctr: nat)
    requires FhToId(gen, args.dir).Done? ==> args.maxcount >= 128
    requires listing.Done? ==> AllNamed(listing.value.entries)
    requires listing.Failed? ==> listing.stat.Code() in STAT_CODES
    modifies output
    ensures FhToId(gen, args.dir).Failed? ==>
              output.inner == old(output.inner) + StatusReply(xid, FhToId(gen, args.dir).stat, None)
    ensures FhToId(gen, args.dir).Done? && listing.Failed? ==>
              output.inner == old(output.inner) + StatusReply(xid, listing.stat, dirAttr)
    ensures FhToId(gen, args.dir).Done? && listing.Done? ==>
              var es := listing.value.entries;
              && LongestFit(es, ctr, |ReplyPrefix(xid, dirAttr)|, args)
              && output.inner == old(output.inner)
                   + OkReply(xid, dirAttr, gen, es, ctr, ctr == |es| && listing.value.end)
  {
    hide ReplyPrefix, StatusReply, EntriesBytes, LongestFit, Be32;
    ctr := 0;
    var dirid := FhToId(gen, args.dir);
    if dirid.Failed? {
      SerializeStatus(xid, dirid.stat, None, output);
      return;
    }
    match listing
    case Failed(stat) => SerializeStatus(xid, stat, dirAttr, output);
    case Done(page) => ctr := SerializeListing(xid, args, gen, dirAttr, page, output);
  }

  /** A reply with attributes takes at most max(132, maxcount - 121) bytes. */
  lemma ReplyBound(xid: u32, attr: Option<Fattr3>, gen: u64, es: seq<DirEntry>, k: nat, eof: bool, args: Args)
    requires AllNamed(es) && LongestFit(es, k, |ReplyPrefix(xid, attr)|, args)
    ensures var size := |OkReply(xid, attr, gen, es, k, eof)|;
            && (attr.Some? ==> size <= 132 || size <= args.maxcount - 121)
            && (attr.None? ==> size <= 48 || size <= args.maxcount - 121)
  {
    assert Fits(es, k, |ReplyPrefix(xid, attr)|, args);
  }

  // ---- reading a reply back (section 3.3.17 of RFC 1813) ----

  datatype Listed = Listed(xid: u32, attr: Value, verf: seq<byte>, entries: seq<Value>, eof: bool)

  lemma {:induction false} DecodeShortens(s: Schema, b: seq<byte>)
    ensures Strict(s) && Decode(s, b).Ok? ==> |Decode(s, b).rest| <= |b|
  {
    if Strict(s) && Decode(s, b).Ok? {
      StrictIsWellFormed(s);
      DecodeParsed(s, b);
    }
  }

  /** (TRUE, entry)*, FALSE. */
  function ParseEntries(b: seq<byte>): Option<(seq<Value>, seq<byte>)>
    decreases |b|
  {
    if |b| < 4 then None
    else if OfBe32(b[..4]) == 0 then Some(([], b[4..]))
    else
      AttrTypesAreExacting();
      DecodeShortens(Entryplus3Xdr(), b[4..]);
      match Decode(Entryplus3Xdr(), b[4..])
      case Err => None
      case Ok(e, rest) =>
        match ParseEntries(rest)
        case None => None
        case Some((es, rest)) => Some(([e] + es, rest))
  }

  /** A client's reading of a successful reply, all of which must be consumed. */
  function ParseReply(b: seq<byte>): Option<Listed>
  {
    match DecodeMsg(b)
    case None => None
    case Some((m, b1)) =>
      if m != MakeSuccessReply(m.xid) then None else
      match Decode(HeadXdr(), b1)
      case Ok(Both(status, Both(attr, Blob(verf))), b2) =>
        if status != Num(0) then None else
        (match ParseEntries(b2)
         case None => None
         case Some((es, b3)) =>
           match Decode(Bool, b3)
           case Ok(Flag(eof), b4) => if b4 != [] then None else Some(Listed(m.xid, attr, verf, es, eof))
           case _ => None)
      case _ => None
  }

  /** The values of the first k entries. */
  function EntryValues(gen: u64, es: seq<DirEntry>, k: nat): (vs: seq<Value>)
    requires k <= |es|
    ensures |vs| == k && forall i | 0 <= i < k :: vs[i] == EntryValue(gen, es[i])
  {
    seq(k, i requires 0 <= i < k => EntryValue(gen, es[i]))
  }

  lemma {:induction false} EntriesFromFront(gen: u64, es: seq<DirEntry>, k: nat)
    requires AllNamed(es) && 0 < k <= |es|
    ensures EntriesBytes(gen, es, k) == ElementBytes(gen, es[0]) + EntriesBytes(gen, es[1..], k - 1)
  {
    hide ElementBytes;
    if k > 1 {
      EntriesFromFront(gen, es, k - 1);
    } else {
      assert EntriesBytes(gen, es, 0) == [] && EntriesBytes(gen, es[1..], 0) == [];
    }
  }

  lemma {:induction false} ParseElement(e: Value, tail: seq<byte>)
    requires HasType(Entryplus3Xdr(), e)
    ensures ParseEntries(Be32(1) + Encode(Entryplus3Xdr(), e) + tail)
         == match ParseEntries(tail)
            case None => None
            case Some((es, rest)) => Some(([e] + es, rest))
  {
    hide Decode, Encode, Entryplus3Xdr, HasType, Be32, OfBe32;
    var encoded := Encode(Entryplus3Xdr(), e);
    assert Be32(1) + encoded + tail == Be32(1) + (encoded + tail);
    FirstWord(Be32(1), encoded + tail);
    Be32Inverse(1, Be32(1));
    RoundTrip(Entryplus3Xdr(), e, tail);
  }

  lemma {:induction false} NoEntries(gen: u64, es: seq<DirEntry>)
    requires AllNamed(es)
    ensures EntriesBytes(gen, es, 0) == [] && EntryValues(gen, es, 0) == []
  {}

  lemma ElementIs(gen: u64, e: DirEntry)
    requires e.Named()
    ensures HasType(Entryplus3Xdr(), EntryValue(gen, e))
    ensures ElementBytes(gen, e) == Be32(1) + Encode(Entryplus3Xdr(), EntryValue(gen, e))
  {
    EntryHasType(gen, e);
  }

  lemma ValuesFromFront(gen: u64, es: seq<DirEntry>, k: nat)
    requires 0 < k <= |es|
    ensures EntryValues(gen, es, k) == [EntryValue(gen, es[0])] + EntryValues(gen, es[1..], k - 1)
  {}

  lemma {:induction false} ParseNoEntries(rest: seq<byte>)
    ensures ParseEntries(Be32(0) + rest) == Some(([], rest))
  {
    hide Be32, OfBe32, Decode, Entryplus3Xdr;
    FirstWord(Be32(0), rest);
    Be32Inverse(0, Be32(0));
  }

  lemma {:induction false} ParseEntriesInverse(gen: u64, es: seq<DirEntry>, k: nat, rest: seq<byte>)
    requires AllNamed(es) && k <= |es|
    ensures ParseEntries(EntriesBytes(gen, es, k) + Be32(0) + rest) == Some((EntryValues(gen, es, k), rest))
    decreases k
  {
    hide ParseEntries, EntriesBytes, EntryValues, ElementBytes, EntryValue, Encode, Entryplus3Xdr, HasType, Be32;
    if k == 0 {
      NoEntries(gen, es);
      assert [] + Be32(0) + rest == Be32(0) + rest;
      ParseNoEntries(rest);
    } else {
      var e := EntryValue(gen, es[0]);
      var tail := EntriesBytes(gen, es[1..], k - 1) + Be32(0) + rest;
      EntriesFromFront(gen, es, k);
      ElementIs(gen, es[0]);
      assert EntriesBytes(gen, es, k) + Be32(0) + rest == ElementBytes(gen, es[0]) + tail;
      ParseElement(e, tail);
      ParseEntriesInverse(gen, es[1..], k - 1, rest);
      ValuesFromFront(gen, es, k);
    }
  }

  /** Status, directory attributes and verifier, read as one struct. */
  function HeadXdr(): Schema { Then(Nfsstat3Xdr(), Then(PostOpAttrXdr(), Fixed(8))) }

  function HeadValue(attr: Option<Fattr3>): Value
  {
    Both(Num(0), Both(PostOpValue(attr), Blob(DirVersion(attr))))
  }

  lemma StatusHasType(stat: NfsStat)
    requires stat.Code() in STAT_CODES
    ensures HasType(Nfsstat3Xdr(), Num(stat.Code()))
  {}

  lemma Regrouped(a: seq<byte>, b: seq<byte>, c: seq<byte>, d: seq<byte>)
    ensures a + b + c + d == a + (b + (c + d))
  {}

  lemma RegroupedReply(a: seq<byte>, b: seq<byte>, c: seq<byte>, d: seq<byte>, e: seq<byte>)
    ensures (a + b) + c + d + e == a + (b + (c + d + e))
  {}

  lemma HeadEncoding(xid: u32, attr: Option<Fattr3>)
    ensures HasType(HeadXdr(), HeadValue(attr))
    ensures ReplyPrefix(xid, attr) == EncodeMsg(MakeSuccessReply(xid)) + Encode(HeadXdr(), HeadValue(attr))
  {
    hide PostOpAttrXdr, PostOpValue, DirVersion, EncodeMsg, Nfsstat3Xdr, Be32;
    assert HasType(Nfsstat3Xdr(), Num(0)) by { StatusHasType(NFS3_OK); }
    PostOpHasType(attr);
    var status, dir := Encode(Nfsstat3Xdr(), Num(0)), Encode(PostOpAttrXdr(), PostOpValue(attr));
    assert Encode(HeadXdr(), HeadValue(attr)) == status + (dir + DirVersion(attr));
    Regrouped(EncodeMsg(MakeSuccessReply(xid)), status, dir, DirVersion(attr));
  }

  /** A reply is read part by part. */
  lemma {:induction false} ParsesInParts(b: seq<byte>, xid: u32, b1: seq<byte>, attr: Value, verf: seq<byte>,
                                         b2: seq<byte>, es: seq<Value>, b3: seq<byte>, eof: bool)
    requires DecodeMsg(b) == Some((MakeSuccessReply(xid), b1))
    requires Decode(HeadXdr(), b1) == Ok(Both(Num(0), Both(attr, Blob(verf))), b2)
    requires ParseEntries(b2) == Some((es, b3)) && Decode(Bool, b3) == Ok(Flag(eof), [])
    ensures ParseReply(b) == Some(Listed(xid, attr, verf, es, eof))
  {
    hide DecodeMsg, Decode, ParseEntries, HeadXdr;
  }

  /** Every reply reads back: exactly the committed entries, in order, and the eof flag. */
  lemma ReplyReadsBack(xid: u32, attr: Option<Fattr3>, gen: u64, es: seq<DirEntry>, k: nat, eof: bool)
    requires AllNamed(es) && k <= |es|
    ensures ParseReply(OkReply(xid, attr, gen, es, k, eof))
         == Some(Listed(xid, PostOpValue(attr), DirVersion(attr), EntryValues(gen, es, k), eof))
  {
    hide HasType, Encode, Decode, EncodeMsg, DecodeMsg, ParseEntries, ParseReply, ReplyPrefix, HeadXdr, Be32,
         EntriesBytes, EntryValues, DirVersion, PostOpValue;
    var flag := Be32(if eof then 1 else 0);
    var list := EntriesBytes(gen, es, k) + Be32(0) + flag;
    HeadEncoding(xid, attr);
    var head := Encode(HeadXdr(), HeadValue(attr));
    RegroupedReply(EncodeMsg(MakeSuccessReply(xid)), head, EntriesBytes(gen, es, k), Be32(0), flag);
    MsgRoundTrip(MakeSuccessReply(xid), head + list);
    RoundTrip(HeadXdr(), HeadValue(attr), list);
    ParseEntriesInverse(gen, es, k, flag);
    BoolReadsBack(eof);
    ParsesInParts(OkReply(xid, attr, gen, es, k, eof), xid, head + list, PostOpValue(attr), DirVersion(attr), list,
                  EntryValues(gen, es, k), flag, eof);
  }

  // ---- what the reply says ----

  /** The fourteen fields of fattr3 in the order of RFC 1813. */
  predicate CarriesAttr(v: Value, a: Fattr3)
  {
    v == Both(Num(a.ftype), Both(Num(a.mode), Both(Num(a.nlink), Both(Num(a.uid), Both(Num(a.gid),
           Both(Num(a.size), Both(Num(a.used), Both(Both(Num(a.rdev1), Num(a.rdev2)), Both(Num(a.fsid),
             Both(Num(a.fileid), Both(Both(Num(a.atime.seconds), Num(a.atime.nseconds)),
               Both(Both(Num(a.mtime.seconds), Num(a.mtime.nseconds)),
                    Both(Num(a.ctime.seconds), Num(a.ctime.nseconds))))))))))))))
  }

  /** Fields of an entryplus3 as a client selects them. */
  function FileidOf(v: Value): Option<nat> { match v case Both(Num(id), _) => Some(id) case _ => None }

  function NameOf(v: Value): Option<seq<byte>>
  {
    match v case Both(_, Both(Blob(name), _)) => Some(name) case _ => None
  }

  function CookieOf(v: Value): Option<nat>
  {
    match v case Both(_, Both(_, Both(Num(cookie), _))) => Some(cookie) case _ => None
  }

  function AttrOf(v: Value): Option<Value>
  {
    match v case Both(_, Both(_, Both(_, Both(Present(attr), _)))) => Some(attr) case _ => None
  }

  function HandleOf(v: Value): Option<seq<byte>>
  {
    match v case Both(_, Both(_, Both(_, Both(_, Present(Blob(handle)))))) => Some(handle) case _ => None
  }

  /** The entry a client sees is this one: its id, as a cookie too, its name, its attributes and a handle to it. */
  ghost predicate Carries(v: Value, gen: u64, e: DirEntry)
  {
    && FileidOf(v) == Some(e.fileid) && CookieOf(v) == Some(e.fileid) && NameOf(v) == Some(e.name)
    && AttrOf(v).Some? && CarriesAttr(AttrOf(v).value, e.attr)
    && HandleOf(v).Some? && FhToId(gen, HandleOf(v).value) == Done(e.fileid)
  }

  lemma EntryCarries(gen: u64, e: DirEntry)
    ensures Carries(EntryValue(gen, e), gen, e)
  {
    hide Le64, OfLe64;
    Le64Inverse(gen);
    Le64Inverse(e.fileid);
    assert IdToFh(gen, e.fileid)[..8] == Le64(gen) && IdToFh(gen, e.fileid)[8..] == Le64(e.fileid);
  }

  /** The directory's attributes, if there are any, and a verifier made of its modification time, or zeros. */
  predicate CarriesDir(l: Listed, attr: Option<Fattr3>)
  {
    match attr
    case None => l.attr == Absent && l.verf == [0, 0, 0, 0, 0, 0, 0, 0]
    case Some(a) =>
      l.attr.Present? && CarriesAttr(l.attr.v, a) && l.verf == Be32(a.mtime.seconds) + Be32(a.mtime.nseconds)
  }

  lemma DirCarried(attr: Option<Fattr3>)
    ensures CarriesDir(Listed(0, PostOpValue(attr), DirVersion(attr), [], false), attr)
  {
    if attr.Some? { VersionIsTime(attr.value.mtime); }
  }

  lemma VersionIsTime(t: NfsTime)
    ensures Be64(VersionWord(t)) == Be32(t.seconds) + Be32(t.nseconds)
  {
    hide Be32;
    var NfsTime(seconds, nseconds) := t;
    SplitU64(0, seconds, nseconds);
  }

  /** A successful reply read back says of each committed entry, and of the directory, what they are. */
  lemma ReplyCarries(xid: u32, attr: Option<Fattr3>, gen: u64, es: seq<DirEntry>, k: nat, eof: bool)
    requires AllNamed(es) && k <= |es|
    ensures var l := ParseReply(OkReply(xid, attr, gen, es, k, eof));
            && l.Some? && l.value.xid == xid && l.value.eof == eof && CarriesDir(l.value, attr)
            && |l.value.entries| == k && forall i | 0 <= i < k :: Carries(l.value.entries[i], gen, es[i])
  {
    hide ParseReply, OkReply, EntryValue, Carries, PostOpValue, DirVersion, CarriesAttr;
    ReplyReadsBack(xid, attr, gen, es, k, eof);
    DirCarried(attr);
    forall i | 0 <= i < k ensures Carries(EntryValues(gen, es, k)[i], gen, es[i]) { EntryCarries(gen, es[i]); }
  }

  /** Where a client goes on after a reply: at the cookie of its last entry, or where it was. */
  function Resume(l: Listed, cookie: u64): u64
  {
    if l.entries == [] then cookie
    else
      match CookieOf(l.entries[|l.entries| - 1])
      case Some(next) => if next < 0x1_0000_0000_0000_0000 then next else 0
      case None => 0
  }

  lemma BoolReadsBack(b: bool)
    ensures Decode(Bool, Be32(if b then 1 else 0)) == Ok(Flag(b), [])
  {
    RoundTrip(Bool, Flag(b), []);
    assert Encode(Bool, Flag(b)) + [] == Be32(if b then 1 else 0);
  }
}
