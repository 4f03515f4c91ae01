/** The NFS version 3 types (RFC 1813) as instances of the XDR schemas. */
module Nfs {
  import opened Bytes
  import opened Xdr

  type Ftype = x: int | 1 <= x <= 7 witness 1

  const NF3REG: Ftype := 1
  const NF3DIR: Ftype := 2

  datatype NfsStat = NFS3_OK | NFS3ERR_NOENT | NFS3ERR_IO | NFS3ERR_NOTDIR | NFS3ERR_ISDIR
                   | NFS3ERR_BAD_COOKIE | NFS3ERR_OTHER(code: u32)
  {
    function Code(): u32 {
      match this
      case NFS3_OK => 0
      case NFS3ERR_NOENT => 2
      case NFS3ERR_IO => 5
      case NFS3ERR_NOTDIR => 20
      case NFS3ERR_ISDIR => 21
      case NFS3ERR_BAD_COOKIE => 10003
      case NFS3ERR_OTHER(code) => code
    }
  }

  const STAT_CODES: set<u32> := {0, 1, 2, 5, 6, 13, 17, 18, 19, 20, 21, 22, 27, 28, 30, 31, 63, 66, 69, 70,
                                 10001, 10002, 10003, 10004, 10005, 10006, 10007, 10008} + {71}

  /** The numbers of RFC 1813. */
  lemma AssignedNumbers()
    ensures NF3REG == 1 && NF3DIR == 2
    ensures NFS3_OK.Code() == 0 && NFS3ERR_NOENT.Code() == 2 && NFS3ERR_IO.Code() == 5
    ensures NFS3ERR_NOTDIR.Code() == 20 && NFS3ERR_ISDIR.Code() == 21 && NFS3ERR_BAD_COOKIE.Code() == 10003
  {}

  datatype NfsTime = NfsTime(seconds: u32, nseconds: u32)

  datatype Fattr3 = Fattr3(
    ftype: Ftype, mode: u32, nlink: u32, uid: u32, gid: u32, size: u64, used: u64,
    rdev1: u32, rdev2: u32, fsid: u64, fileid: u64, atime: NfsTime, mtime: NfsTime, ctime: NfsTime)

  datatype SetTime = DontChange | SetToServerTime | SetToClientTime(time: NfsTime)

  /** sattr3: what SETATTR and the creating calls are asked to set. */
  datatype Sattr3 = Sattr3(mode: Option<u32>, uid: Option<u32>, gid: Option<u32>, size: Option<u64>,
                           atime: SetTime, mtime: SetTime)

  // ---- schemas ----

  function Nfsstat3Xdr(): Schema { Enum(STAT_CODES) }
  function Ftype3Xdr(): Schema { Enum({1, 2, 3, 4, 5, 6, 7}) }
  function Nfstime3Xdr(): Schema { Then(U32, U32) }
  function Specdata3Xdr(): Schema { Then(U32, U32) }
  function Fattr3TimesXdr(): Schema { Then(Nfstime3Xdr(), Then(Nfstime3Xdr(), Nfstime3Xdr())) }
  function Fattr3IdsXdr(): Schema { Then(U64, Then(U64, Then(Specdata3Xdr(), Then(U64, Then(U64, Fattr3TimesXdr()))))) }
  function Fattr3Xdr(): Schema { Then(Ftype3Xdr(), Then(U32, Then(U32, Then(U32, Then(U32, Fattr3IdsXdr()))))) }
  function WccAttrXdr(): Schema { Then(U64, Then(Nfstime3Xdr(), Nfstime3Xdr())) }
  function PostOpAttrXdr(): Schema { Optional(Fattr3Xdr()) }
  function WccDataXdr(): Schema { Then(Optional(WccAttrXdr()), PostOpAttrXdr()) }
  function PostOpFh3Xdr(): Schema { Optional(Opaque) }
  function SetTimeXdr(): Schema { Switch(Arm(0, Void, Arm(1, Void, Arm(2, Nfstime3Xdr(), NoArms))), Reject) }
  function Sattr3Xdr(): Schema {
    Then(Optional(U32), Then(Optional(U32), Then(Optional(U32),
      Then(Optional(U64), Then(SetTimeXdr(), SetTimeXdr())))))
  }
  function Diropargs3Xdr(): Schema { Then(Opaque, Opaque) }
  function Symlinkdata3Xdr(): Schema { Then(Sattr3Xdr(), Opaque) }
  function Read3argsXdr(): Schema { Then(Opaque, Then(U64, U32)) }
  function Read3resokXdr(): Schema { Then(PostOpAttrXdr(), Then(U32, Then(Bool, Opaque))) }
  function Write3argsXdr(): Schema { Then(Opaque, Then(U64, Then(U32, Then(U32, Opaque)))) }
  function Setattr3argsXdr(): Schema { Then(Opaque, Then(Sattr3Xdr(), Optional(Nfstime3Xdr()))) }
  function Mkdir3argsXdr(): Schema { Then(Diropargs3Xdr(), Sattr3Xdr()) }
  function Symlink3argsXdr(): Schema { Then(Diropargs3Xdr(), Symlinkdata3Xdr()) }
  function Readdir3argsXdr(): Schema { Then(Opaque, Then(U64, Then(Fixed(8), U32))) }
  function Readdirplus3argsXdr(): Schema { Then(Opaque, Then(U64, Then(Fixed(8), Then(U32, U32)))) }
  function Entry3Xdr(): Schema { Then(U64, Then(Opaque, U64)) }
  function Entryplus3Xdr(): Schema { Then(U64, Then(Opaque, Then(U64, Then(PostOpAttrXdr(), PostOpFh3Xdr())))) }

  ghost predicate NfsType(s: Schema)
  {
    s == Fattr3Xdr() || s == WccDataXdr() || s == PostOpFh3Xdr() || s == Sattr3Xdr() || s == Diropargs3Xdr()
    || s == Read3argsXdr() || s == Read3resokXdr() || s == Write3argsXdr() || s == Setattr3argsXdr()
    || s == Mkdir3argsXdr() || s == Symlink3argsXdr() || s == Readdir3argsXdr() || s == Readdirplus3argsXdr()
    || s == Entry3Xdr() || s == Entryplus3Xdr()
  }

  ghost predicate Exacting(s: Schema) { Strict(s) && Aligned(s) }

  lemma AttrTypesAreExacting()
    ensures Exacting(Fattr3Xdr()) && Exacting(WccDataXdr()) && Exacting(Read3resokXdr()) && Exacting(Entryplus3Xdr())
  {}

  lemma SattrTypesAreExacting()
    ensures Exacting(Sattr3Xdr()) && Exacting(Setattr3argsXdr())
    ensures Exacting(Mkdir3argsXdr()) && Exacting(Symlink3argsXdr())
  {}

  lemma PlainTypesAreExacting()
    ensures Exacting(PostOpFh3Xdr()) && Exacting(Diropargs3Xdr()) && Exacting(Read3argsXdr())
    ensures Exacting(Write3argsXdr()) && Exacting(Readdir3argsXdr()) && Exacting(Readdirplus3argsXdr())
    ensures Exacting(Entry3Xdr())
  {}

  lemma NfsTypesAreExacting(s: Schema)
    requires NfsType(s)
    ensures Exacting(s)
  {
    hide Exacting, Fattr3Xdr, WccDataXdr, PostOpFh3Xdr, Sattr3Xdr, Diropargs3Xdr, Read3argsXdr, Read3resokXdr,
         Write3argsXdr, Setattr3argsXdr, Mkdir3argsXdr, Symlink3argsXdr, Readdir3argsXdr, Readdirplus3argsXdr,
         Entry3Xdr, Entryplus3Xdr;
    AttrTypesAreExacting();
    SattrTypesAreExacting();
    PlainTypesAreExacting();
  }

  /** Every NFS type is decoded exactly, and its encodings are whole words long. */
  lemma {:induction false} NfsTypesDecodeExactly(s: Schema, v: Value, p: seq<byte>, rest: seq<byte>)
    requires NfsType(s)
    ensures Decode(s, p + rest) == Ok(v, rest)
       <==> HasType(s, v) && Tolerates(p, Encode(s, v), Labels(s, v))
    ensures HasType(s, v) ==> WholeWords(|Encode(s, v)|) && Decode(s, Encode(s, v) + rest) == Ok(v, rest)
  {
    hide NfsType, Decode, Encode, HasType, Tolerates, Labels, Strict, Aligned;
    NfsTypesAreExacting(s);
    DecodesExactly(s, v, p, rest);
    if HasType(s, v) {
      EncodingIsAligned(s, v);
      RoundTrip(s, v, rest);
    }
  }

  // ---- arguments on the wire ----

  /** A counted string of bytes, filled up with zeros to whole words. */
  function OpaqueBytes(b: seq<byte>): seq<byte>
    requires |b| <= U32_MAX
  {
    Be32(|b|) + b + Zeros(4 * ((|b| + 3) / 4) - |b|)
  }

  lemma OpaqueIs(b: seq<byte>)
    requires |b| <= U32_MAX
    ensures HasType(Opaque, Blob(b)) && Encode(Opaque, Blob(b)) == OpaqueBytes(b)
  {
    hide Be32;
    OpaqueLayout(b);
    var e := Encode(Opaque, Blob(b));
    assert e == e[..4] + e[4..4 + |b|] + e[4 + |b|..];
  }

  /** The arguments of LOOKUP, READ, WRITE and READDIRPLUS, field by field. */
  lemma ArgumentLayouts(fh: seq<byte>, name: seq<byte>, offset: u64, count: u32, stable: u32, data: seq<byte>,
                        cookie: u64, verf: seq<byte>, dircount: u32, maxcount: u32)
    requires |fh| <= U32_MAX && |name| <= U32_MAX && |data| <= U32_MAX && |verf| == 8
    ensures var lookup := Both(Blob(fh), Blob(name));
            HasType(Diropargs3Xdr(), lookup) && Encode(Diropargs3Xdr(), lookup) == OpaqueBytes(fh) + OpaqueBytes(name)
    ensures var read := Both(Blob(fh), Both(Num(offset), Num(count)));
            && HasType(Read3argsXdr(), read)
            && Encode(Read3argsXdr(), read) == OpaqueBytes(fh) + (Be64(offset) + Be32(count))
    ensures var write := Both(Blob(fh), Both(Num(offset), Both(Num(count), Both(Num(stable), Blob(data)))));
            && HasType(Write3argsXdr(), write)
            && Encode(Write3argsXdr(), write)
               == OpaqueBytes(fh) + (Be64(offset) + (Be32(count) + (Be32(stable) + OpaqueBytes(data))))
    ensures var list := Both(Blob(fh), Both(Num(cookie), Both(Blob(verf), Both(Num(dircount), Num(maxcount)))));
            && HasType(Readdirplus3argsXdr(), list)
            && Encode(Readdirplus3argsXdr(), list)
               == OpaqueBytes(fh) + (Be64(cookie) + (verf + (Be32(dircount) + Be32(maxcount))))
  {
    hide Be32, Be64, OpaqueBytes;
    OpaqueIs(fh);
    OpaqueIs(name);
    OpaqueIs(data);
  }

  // ---- attributes and directory entries as values ----

  function TimeValue(t: NfsTime): Value { Both(Num(t.seconds), Num(t.nseconds)) }

  function AttrValue(a: Fattr3): Value
  {
    var times := Both(TimeValue(a.atime), Both(TimeValue(a.mtime), TimeValue(a.ctime)));
    var ids := Both(Num(a.size), Both(Num(a.used), Both(Both(Num(a.rdev1), Num(a.rdev2)),
                 Both(Num(a.fsid), Both(Num(a.fileid), times)))));
    Both(Num(a.ftype), Both(Num(a.mode), Both(Num(a.nlink), Both(Num(a.uid), Both(Num(a.gid), ids)))))
  }

  lemma AttrValueHasType(a: Fattr3)
    ensures HasType(Fattr3Xdr(), AttrValue(a))
  {
    var Fattr3(ftype, mode, nlink, uid, gid, size, used, rdev1, rdev2, fsid, fileid, atime, mtime, ctime) := a;
    var NfsTime(as_, an) := atime;
    var NfsTime(ms, mn) := mtime;
    var NfsTime(cs, cn) := ctime;
  }

  function TimeBytes(t: NfsTime): seq<byte> { Be32(t.seconds) + Be32(t.nseconds) }

  /** Attributes on the wire: the fourteen fields of fattr3 in the order of RFC 1813. */
  function AttrBytes(a: Fattr3): seq<byte>
  {
    Be32(a.ftype) + (Be32(a.mode) + (Be32(a.nlink) + (Be32(a.uid) + (Be32(a.gid) + (Be64(a.size) + (Be64(a.used)
      + ((Be32(a.rdev1) + Be32(a.rdev2)) + (Be64(a.fsid) + (Be64(a.fileid)
      + (TimeBytes(a.atime) + (TimeBytes(a.mtime) + TimeBytes(a.ctime))))))))))))
  }

  lemma AttrLayout(a: Fattr3)
    ensures HasType(Fattr3Xdr(), AttrValue(a)) && Encode(Fattr3Xdr(), AttrValue(a)) == AttrBytes(a)
  {
    hide Be32, Be64;
    AttrValueHasType(a);
  }

  /** Attributes take 84 bytes on the wire. */
  lemma {:induction false} AttrSize(v: Value)
    requires HasType(Fattr3Xdr(), v)
    ensures |Encode(Fattr3Xdr(), v)| == 84
  {
    hide HasType, Encode;
    AttrFixedSize();
    FixedSizeIsSize(Fattr3Xdr(), v);
  }

  lemma AttrFixedSize()
    ensures FixedSize(Fattr3Xdr()) == Some(84)
  {
    hide Fattr3IdsXdr;
    AttrIdsFixedSize();
  }

  lemma AttrIdsFixedSize()
    ensures FixedSize(Fattr3IdsXdr()) == Some(64)
  {
    hide Fattr3TimesXdr;
    AttrTimesFixedSize();
  }

  lemma AttrTimesFixedSize()
    ensures FixedSize(Fattr3TimesXdr()) == Some(24)
  {}

  // ---- settable attributes and the other structures on the wire ----

  function WordValue(o: Option<u32>): Value { match o case None => Absent case Some(n) => Present(Num(n)) }

  function LongValue(o: Option<u64>): Value { match o case None => Absent case Some(n) => Present(Num(n)) }

  function SetTimeValue(t: SetTime): Value
  {
    match t
    case DontChange => Case(0, Unit)
    case SetToServerTime => Case(1, Unit)
    case SetToClientTime(time) => Case(2, TimeValue(time))
  }

  function SattrValue(a: Sattr3): Value
  {
    Both(WordValue(a.mode), Both(WordValue(a.uid), Both(WordValue(a.gid), Both(LongValue(a.size),
      Both(SetTimeValue(a.atime), SetTimeValue(a.mtime))))))
  }

  function WordBytes(o: Option<u32>): seq<byte> { match o case None => Be32(0) case Some(n) => Be32(1) + Be32(n) }

  function LongBytes(o: Option<u64>): seq<byte> { match o case None => Be32(0) case Some(n) => Be32(1) + Be64(n) }

  function SetTimeBytes(t: SetTime): seq<byte>
  {
    match t
    case DontChange => Be32(0)
    case SetToServerTime => Be32(1)
    case SetToClientTime(time) => Be32(2) + TimeBytes(time)
  }

  /** Mode, uid, gid and size, each if it is to be set, and what becomes of the two times. */
  function SattrBytes(a: Sattr3): seq<byte>
  {
    WordBytes(a.mode) + (WordBytes(a.uid) + (WordBytes(a.gid) + (LongBytes(a.size)
      + (SetTimeBytes(a.atime) + SetTimeBytes(a.mtime)))))
  }

  lemma SetTimeLayout(t: SetTime)
    ensures HasType(SetTimeXdr(), SetTimeValue(t)) && Encode(SetTimeXdr(), SetTimeValue(t)) == SetTimeBytes(t)
  {
    hide Be32;
    if t.SetToClientTime? { var NfsTime(s, n) := t.time; }
    assert t.DontChange? ==> Be32(0) + [] == Be32(0);
    assert t.SetToServerTime? ==> Be32(1) + [] == Be32(1);
  }

  lemma NumLayout(word: Option<u32>, long: Option<u64>)
    ensures HasType(Optional(U32), WordValue(word)) && Encode(Optional(U32), WordValue(word)) == WordBytes(word)
    ensures HasType(Optional(U64), LongValue(long)) && Encode(Optional(U64), LongValue(long)) == LongBytes(long)
  {
    hide Be32, Be64;
  }

  lemma SattrLayout(a: Sattr3)
    ensures HasType(Sattr3Xdr(), SattrValue(a)) && Encode(Sattr3Xdr(), SattrValue(a)) == SattrBytes(a)
  {
    hide Be32, Be64, WordValue, LongValue, SetTimeValue, WordBytes, LongBytes, SetTimeBytes, SetTimeXdr;
    NumLayout(a.mode, a.size);
    NumLayout(a.uid, None);
    NumLayout(a.gid, None);
    SetTimeLayout(a.atime);
    SetTimeLayout(a.mtime);
  }

  /** The arguments of SETATTR (with its guard), MKDIR, SYMLINK and READDIR, field by field. */
  lemma ChangeArgumentLayouts(fh: seq<byte>, name: seq<byte>, target: seq<byte>, a: Sattr3, guard: NfsTime,
                              cookie: u64, verf: seq<byte>, count: u32)
    requires |fh| <= U32_MAX && |name| <= U32_MAX && |target| <= U32_MAX && |verf| == 8
    ensures var unguarded, guarded := Both(Blob(fh), Both(SattrValue(a), Absent)),
                                      Both(Blob(fh), Both(SattrValue(a), Present(TimeValue(guard))));
            && HasType(Setattr3argsXdr(), unguarded) && HasType(Setattr3argsXdr(), guarded)
            && Encode(Setattr3argsXdr(), unguarded) == OpaqueBytes(fh) + (SattrBytes(a) + Be32(0))
            && Encode(Setattr3argsXdr(), guarded) == OpaqueBytes(fh) + (SattrBytes(a) + (Be32(1) + TimeBytes(guard)))
    ensures var mkdir := Both(Both(Blob(fh), Blob(name)), SattrValue(a));
            && HasType(Mkdir3argsXdr(), mkdir)
            && Encode(Mkdir3argsXdr(), mkdir) == OpaqueBytes(fh) + OpaqueBytes(name) + SattrBytes(a)
    ensures var symlink := Both(Both(Blob(fh), Blob(name)), Both(SattrValue(a), Blob(target)));
            && HasType(Symlink3argsXdr(), symlink)
            && Encode(Symlink3argsXdr(), symlink)
               == OpaqueBytes(fh) + OpaqueBytes(name) + (SattrBytes(a) + OpaqueBytes(target))
    ensures var list := Both(Blob(fh), Both(Num(cookie), Both(Blob(verf), Num(count))));
            && HasType(Readdir3argsXdr(), list)
            && Encode(Readdir3argsXdr(), list) == OpaqueBytes(fh) + (Be64(cookie) + (verf + Be32(count)))
  {
    hide Be32, Be64, OpaqueBytes, Sattr3Xdr, SattrValue, SattrBytes;
    SattrLayout(a);
    OpaqueIs(fh);
    OpaqueIs(name);
    OpaqueIs(target);
    var NfsTime(s, n) := guard;
  }

  /** READ's result, weak cache consistency data and a READDIR entry, field by field. */
  lemma ResultLayouts(attr: Fattr3, count: u32, eof: bool, data: seq<byte>, size: u64, mtime: NfsTime, ctime: NfsTime,
                      fileid: u64, name: seq<byte>, cookie: u64)
    requires |data| <= U32_MAX && |name| <= U32_MAX
    ensures var read := Both(Present(AttrValue(attr)), Both(Num(count), Both(Flag(eof), Blob(data))));
            && HasType(Read3resokXdr(), read)
            && Encode(Read3resokXdr(), read)
               == Be32(1) + AttrBytes(attr) + (Be32(count) + (Be32(if eof then 1 else 0) + OpaqueBytes(data)))
    ensures var before := Both(Num(size), Both(TimeValue(mtime), TimeValue(ctime)));
            var wcc := Both(Present(before), Present(AttrValue(attr)));
            && HasType(WccDataXdr(), wcc)
            && Encode(WccDataXdr(), wcc)
               == Be32(1) + (Be64(size) + (TimeBytes(mtime) + TimeBytes(ctime))) + (Be32(1) + AttrBytes(attr))
    ensures HasType(WccDataXdr(), Both(Absent, Absent))
            && Encode(WccDataXdr(), Both(Absent, Absent)) == Be32(0) + Be32(0)
    ensures var entry := Both(Num(fileid), Both(Blob(name), Num(cookie)));
            && HasType(Entry3Xdr(), entry)
            && Encode(Entry3Xdr(), entry) == Be64(fileid) + (OpaqueBytes(name) + Be64(cookie))
  {
    hide Be32, Be64, OpaqueBytes, Fattr3Xdr, AttrValue, AttrBytes;
    AttrLayout(attr);
    OpaqueIs(data);
    OpaqueIs(name);
    var NfsTime(ms, mn) := mtime;
    var NfsTime(cs, cn) := ctime;
  }
}
