/** DemoFS: an in-memory file system kept as a vector of entries whose ids are their positions. */
module DemoFs {
  import opened Bytes
  import opened Nfs
  import opened ReadDirPlus
  import opened Enumeration
  import opened ChunkedRead

  datatype FSContents = File(bytes: seq<byte>) | Directory(list: seq<u64>)
  datatype FSEntry = FSEntry(id: u64, attr: Fattr3, name: seq<byte>, parent: u64, contents: FSContents)

  datatype Sattr = Sattr(uid: Option<u32>, gid: Option<u32>, size: Option<u64>, atime: SetTime, mtime: SetTime)

  const WORD: nat := 0x1_0000_0000_0000_0000
  const EPOCH := NfsTime(0, 0)

  function MakeFile(name: seq<byte>, id: u64, parent: u64, contents: seq<byte>): FSEntry
    requires |contents| < WORD
  {
    var size: u64 := |contents|;
    FSEntry(id, Fattr3(NF3REG, 493, 1, 507, 507, size, size, 0, 0, 0, id, EPOCH, EPOCH, EPOCH),
            name, parent, File(contents))
  }

  function MakeDir(name: seq<byte>, id: u64, parent: u64, contents: seq<u64>): FSEntry
  {
    FSEntry(id, Fattr3(NF3DIR, 511, 1, 507, 507, 0, 0, 0, 0, 0, id, EPOCH, EPOCH, EPOCH),
            name, parent, Directory(contents))
  }

  // ---- what every run keeps ----

  /** A file's size and used say how long it is. */
  predicate Sized(e: FSEntry)
  {
    e.contents.File? ==> |e.contents.bytes| == e.attr.size == e.attr.used && e.attr.ftype == NF3REG
  }

  /** A directory's list: distinct ids in range, not 0, of entries whose parent it is. */
  predicate DirSound(fs: seq<FSEntry>, d: nat)
    requires d < |fs|
  {
    fs[d].contents.Directory? ==>
      var list := fs[d].contents.list;
      && fs[d].attr.ftype == NF3DIR
      && (forall k | 0 <= k < |list| :: 0 < list[k] < |fs| && fs[list[k]].parent == d)
      && (forall j, k | 0 <= j < k < |list| :: list[j] != list[k])
  }

  ghost predicate WellFormed(fs: seq<FSEntry>)
  {
    && 0 < |fs| < WORD
    && (forall i | 0 <= i < |fs| :: fs[i].id == fs[i].attr.fileid == i && fs[i].parent < |fs| && Sized(fs[i]))
    && (forall d | 0 <= d < |fs| :: DirSound(fs, d))
  }

  // ---- the operations ----

  function Resized(bytes: seq<byte>, size: nat): (r: seq<byte>)
    ensures |r| == size
    ensures forall k | 0 <= k < size :: r[k] == if k < |bytes| then bytes[k] else 0
  {
    if size <= |bytes| then bytes[..size] else bytes + Zeros(size - |bytes|)
  }

  /** A write takes effect only where it extends the file. */
  function Overwritten(bytes: seq<byte>, offset: nat, data: seq<byte>): seq<byte>
  {
    if offset + |data| <= |bytes| then bytes else Resized(bytes, offset) + data
  }

  function Written(fs: seq<FSEntry>, id: nat, offset: nat, data: seq<byte>): seq<FSEntry>
    requires id < |fs| && offset + |data| < WORD
  {
    var e := fs[id];
    match e.contents
    case Directory(_) => fs[id := e.(attr := e.attr.(used := e.attr.size))]
    case File(bytes) =>
      var size := if offset + |data| > |bytes| then offset + |data| else e.attr.size;
      fs[id := e.(attr := e.attr.(size := size, used := size), contents := File(Overwritten(bytes, offset, data)))]
  }

  function Created(fs: seq<FSEntry>, dirid: nat, name: seq<byte>): seq<FSEntry>
    requires dirid <= |fs| < WORD - 1
  {
    var grown := fs + [MakeFile(name, |fs|, dirid, [])];
    match grown[dirid].contents
    case File(_) => grown
    case Directory(list) => grown[dirid := grown[dirid].(contents := Directory(list + [|fs|]))]
  }

  function TimeSet(old_: NfsTime, set_: SetTime, now: NfsTime): NfsTime
  {
    match set_
    case DontChange => old_
    case SetToServerTime => now
    case SetToClientTime(time) => time
  }

  function AttrsSet(fs: seq<FSEntry>, id: nat, a: Sattr, now: NfsTime): seq<FSEntry>
    requires id < |fs|
  {
    var e := fs[id];
    var attr := e.attr.(atime := TimeSet(e.attr.atime, a.atime, now), mtime := TimeSet(e.attr.mtime, a.mtime, now),
                        uid := if a.uid.Some? then a.uid.value else e.attr.uid,
                        gid := if a.gid.Some? then a.gid.value else e.attr.gid);
    match a.size
    case None => fs[id := e.(attr := attr)]
    case Some(size) =>
      fs[id := e.(attr := attr.(size := size, used := size),
                  contents := if e.contents.File? then File(Resized(e.contents.bytes, size)) else e.contents)]
  }

  // ---- every run is well formed ----

  datatype Op =
    | DoWrite(id: nat, offset: nat, data: seq<byte>)
    | DoCreate(dirid: nat, name: seq<byte>)
    | DoSetAttr(id: nat, a: Sattr, now: NfsTime)

  /** Calls that do not index beyond the vector nor compute an offset beyond a machine word. */
  predicate Allowed(fs: seq<FSEntry>, op: Op)
  {
    match op
    case DoWrite(id, offset, data) => id < |fs| && offset + |data| < WORD
    case DoCreate(dirid, _) => dirid <= |fs| < WORD - 1
    case DoSetAttr(_, _, _) => true
  }

  function Apply(fs: seq<FSEntry>, op: Op): seq<FSEntry>
    requires Allowed(fs, op)
  {
    match op
    case DoWrite(id, offset, data) => Written(fs, id, offset, data)
    case DoCreate(dirid, name) => Created(fs, dirid, name)
    case DoSetAttr(id, a, now) => if id < |fs| then AttrsSet(fs, id, a, now) else fs
  }

  ghost predicate AllowedRun(fs: seq<FSEntry>, ops: seq<Op>)
    decreases |ops|
  {
    ops != [] ==> Allowed(fs, ops[0]) && AllowedRun(Apply(fs, ops[0]), ops[1..])
  }

  ghost function Run(fs: seq<FSEntry>, ops: seq<Op>): seq<FSEntry>
    requires AllowedRun(fs, ops)
    decreases |ops|
  {
    if ops == [] then fs else Run(Apply(fs, ops[0]), ops[1..])
  }

  /** An entry that keeps its id, parent and kind, and its list if it has one, keeps the whole well formed. */
  lemma UpdatedWellFormed(fs: seq<FSEntry>, id: nat, e: FSEntry)
    requires WellFormed(fs) && id < |fs| && Sized(e) && e.id == e.attr.fileid == id && e.parent == fs[id].parent
    requires e.attr.ftype == fs[id].attr.ftype
    requires if fs[id].contents.Directory? then e.contents == fs[id].contents else e.contents.File?
    ensures WellFormed(fs[id := e])
  {
    var gs := fs[id := e];
    forall d | 0 <= d < |gs| ensures DirSound(gs, d) {
      assert DirSound(fs, d);
    }
  }

  lemma CreatedWellFormed(fs: seq<FSEntry>, dirid: nat, name: seq<byte>)
    requires WellFormed(fs) && dirid <= |fs| < WORD - 1
    ensures WellFormed(Created(fs, dirid, name))
  {
    var r := Created(fs, dirid, name);
    forall d | 0 <= d < |r| ensures DirSound(r, d) {
      if d < |fs| { assert DirSound(fs, d); }
    }
  }

  lemma ApplyWellFormed(fs: seq<FSEntry>, op: Op)
    requires WellFormed(fs) && Allowed(fs, op)
    ensures WellFormed(Apply(fs, op))
  {
    hide WellFormed, DirSound;
    match op
    case DoCreate(dirid, name) => CreatedWellFormed(fs, dirid, name);
    case DoWrite(id, offset, data) =>
      EntryFits(fs, id);
      UpdatedWellFormed(fs, id, Written(fs, id, offset, data)[id]);
    case DoSetAttr(id, a, now) =>
      if id < |fs| {
        EntryFits(fs, id);
        UpdatedWellFormed(fs, id, AttrsSet(fs, id, a, now)[id]);
      }
  }

  lemma EntryFits(fs: seq<FSEntry>, id: nat)
    requires WellFormed(fs) && id < |fs|
    ensures Sized(fs[id]) && fs[id].id == fs[id].attr.fileid == id
  {}

  /** In every state a run of creates, writes and setattrs reaches, the vector is well formed. */
  lemma {:induction false} RunsWellFormed(fs: seq<FSEntry>, ops: seq<Op>)
    requires WellFormed(fs) && AllowedRun(fs, ops)
    ensures WellFormed(Run(fs, ops))
    decreases |ops|
  {
    hide WellFormed, Apply, Allowed;
    if ops != [] {
      ApplyWellFormed(fs, ops[0]);
      RunsWellFormed(Apply(fs, ops[0]), ops[1..]);
    }
  }

  // ---- listing ----

  function EntryOf(fs: seq<FSEntry>, id: u64): DirEntry
    requires id < |fs|
  {
    DirEntry(id, fs[id].name, fs[id].attr)
  }

  /** The directory as a listing, in the order of its list. */
  function ListingOf(fs: seq<FSEntry>, d: nat): (L: Listing)
    requires d < |fs| && DirSound(fs, d) && fs[d].contents.Directory?
    ensures |L| == |fs[d].contents.list|
  {
    var list := fs[d].contents.list;
    seq(|list|, k requires 0 <= k < |list| => EntryOf(fs, list[k]))
  }

  /** The cookie is unambiguous: the listing's ids are distinct and not 0. */
  lemma ListingIsProper(fs: seq<FSEntry>, d: nat)
    requires WellFormed(fs) && d < |fs| && fs[d].contents.Directory?
    ensures DirSound(fs, d) && Proper(Demo, ListingOf(fs, d))
  {
    assert DirSound(fs, d);
  }

  // ---- names ----

  /** The first entry of the list with this name. */
  function FirstNamed(fs: seq<FSEntry>, list: seq<u64>, name: seq<byte>): Option<u64>
  {
    if list == [] then None
    else if list[0] < |fs| && fs[list[0]].name == name then Some(list[0])
    else FirstNamed(fs, list[1..], name)
  }

  const DOT: seq<byte> := [46]
  const DOT_DOT: seq<byte> := [46, 46]

  function Found(fs: seq<FSEntry>, dirid: nat, name: seq<byte>): Outcome<u64>
  {
    if dirid >= |fs| || dirid >= WORD then Failed(NFS3ERR_NOENT)
    else
      match fs[dirid].contents
      case File(_) => Failed(NFS3ERR_NOTDIR)
      case Directory(list) =>
        if name == DOT then Done(dirid)
        else if name == DOT_DOT then Done(fs[dirid].parent)
        else
          match FirstNamed(fs, list, name)
          case Some(id) => Done(id)
          case None => Failed(NFS3ERR_NOENT)
  }

  lemma {:induction false} FirstNamedAppend(fs: seq<FSEntry>, list: seq<u64>, id: u64, name: seq<byte>)
    requires id < |fs| && fs[id].name == name
    ensures FirstNamed(fs, list + [id], name)
         == if FirstNamed(fs, list, name).Some? then FirstNamed(fs, list, name) else Some(id)
    decreases |list|
  {
    if list != [] {
      assert (list + [id])[1..] == list[1..] + [id];
      FirstNamedAppend(fs, list[1..], id, name);
    }
  }

  lemma {:induction false} FirstNamedSame(fs: seq<FSEntry>, gs: seq<FSEntry>, list: seq<u64>, name: seq<byte>)
    requires |fs| <= |gs| && forall k | 0 <= k < |list| :: list[k] < |fs| && gs[list[k]].name == fs[list[k]].name
    ensures FirstNamed(gs, list, name) == FirstNamed(fs, list, name)
    decreases |list|
  {
    if list != [] { FirstNamedSame(fs, gs, list[1..], name); }
  }

  /** A created file is what lookup finds if and only if lookup found nothing under its name before. */
  lemma CreateThenLookup(fs: seq<FSEntry>, dirid: nat, name: seq<byte>)
    requires WellFormed(fs) && |fs| < WORD - 1 && dirid < |fs| && fs[dirid].contents.Directory?
    ensures Found(Created(fs, dirid, name), dirid, name) == Done(|fs|)
       <==> Found(fs, dirid, name) == Failed(NFS3ERR_NOENT)
  {
    hide FirstNamed, DirSound;
    var gs, list := Created(fs, dirid, name), fs[dirid].contents.list;
    ListInRange(fs, dirid);
    assert fs[dirid].parent < |fs|;
    FirstNamedSame(fs, gs, list, name);
    FirstNamedAppend(gs, list, |fs|, name);
    FirstNamedInList(fs, list, name);
  }

  lemma ListInRange(fs: seq<FSEntry>, d: nat)
    requires WellFormed(fs) && d < |fs| && fs[d].contents.Directory?
    ensures forall k | 0 <= k < |fs[d].contents.list| :: fs[d].contents.list[k] < |fs|
  {
    assert DirSound(fs, d);
  }

  lemma {:induction false} FirstNamedInList(fs: seq<FSEntry>, list: seq<u64>, name: seq<byte>)
    ensures FirstNamed(fs, list, name).Some? ==> FirstNamed(fs, list, name).value < |fs|
    decreases |list|
  {
    if list != [] { FirstNamedInList(fs, list[1..], name); }
  }

  /** The k-th entry of the list is the first with this name. */
  predicate FirstAt(fs: seq<FSEntry>, list: seq<u64>, k: nat, name: seq<byte>)
  {
    && k < |list| && list[k] < |fs| && fs[list[k]].name == name
    && forall j | 0 <= j < k :: list[j] < |fs| ==> fs[list[j]].name != name
  }

  lemma {:induction false} FirstNamedIs(fs: seq<FSEntry>, list: seq<u64>, name: seq<byte>)
    ensures match FirstNamed(fs, list, name)
            case Some(id) => exists k: nat :: FirstAt(fs, list, k, name) && list[k] == id
            case None => forall j | 0 <= j < |list| :: list[j] < |fs| ==> fs[list[j]].name != name
    decreases |list|
  {
    if list != [] {
      if list[0] < |fs| && fs[list[0]].name == name {
        assert FirstAt(fs, list, 0, name);
      } else {
        FirstNamedIs(fs, list[1..], name);
        if FirstNamed(fs, list, name).Some? {
          var k: nat :| FirstAt(fs, list[1..], k, name) && list[1..][k] == FirstNamed(fs, list, name).value;
          assert FirstAt(fs, list, k + 1, name);
        }
      }
    }
  }

  /**
   Lookup in a directory answers the directory itself for ".", its parent for "..", and for any other name the
   directory's first child of that name, if it has one.
   */
  lemma LookupAnswers(fs: seq<FSEntry>, dirid: nat, name: seq<byte>)
    requires WellFormed(fs) && dirid < |fs| && fs[dirid].contents.Directory?
    ensures var list, r := fs[dirid].contents.list, Found(fs, dirid, name);
            && (name == [46] ==> r == Done(dirid))
            && (name == [46, 46] ==> r == Done(fs[dirid].parent))
            && (name != [46] && name != [46, 46] ==>
                  && (r.Done? ==> exists k: nat :: FirstAt(fs, list, k, name) && list[k] == r.value
                                              && fs[r.value].parent == dirid)
                  && (r.Failed? ==> r == Failed(NFS3ERR_NOENT)
                                    && forall j | 0 <= j < |list| :: list[j] < |fs| && fs[list[j]].name != name))
  {
    hide FirstNamed;
    FirstNamedIs(fs, fs[dirid].contents.list, name);
    ListInRange(fs, dirid);
    ChildrenKnowTheirParent(fs, dirid);
    assert fs[dirid].parent < |fs|;
  }

  lemma ChildrenKnowTheirParent(fs: seq<FSEntry>, d: nat)
    requires WellFormed(fs) && d < |fs| && fs[d].contents.Directory?
    ensures forall k | 0 <= k < |fs[d].contents.list| ::
              fs[d].contents.list[k] < |fs| && fs[fs[d].contents.list[k]].parent == d
  {
    assert DirSound(fs, d);
  }

  // ---- what each operation changes ----

  /** The entry differs at most in what it contains and in the attributes that say so. */
  predicate SameButContents(e: FSEntry, was: FSEntry)
  {
    e == was.(contents := e.contents, attr := was.attr.(size := e.attr.size, used := e.attr.used))
  }

  /** Only the entries with these ids changed. */
  predicate OnlyChanged(fs: seq<FSEntry>, was: seq<FSEntry>, id: nat)
  {
    |fs| >= |was| && forall i | 0 <= i < |was| && i != id :: fs[i] == was[i]
  }

  /**
   A write that extends a file leaves what was before the offset, fills a gap with zeros, and ends the file with the
   data; any other write leaves the bytes as they were. Nothing but the file's contents and sizes changes.
   */
  lemma WriteChanges(fs: seq<FSEntry>, id: nat, offset: nat, data: seq<byte>)
    requires WellFormed(fs) && id < |fs| && fs[id].contents.File? && offset + |data| < WORD
    ensures var gs := Written(fs, id, offset, data);
            && |gs| == |fs| && OnlyChanged(gs, fs, id) && SameButContents(gs[id], fs[id]) && gs[id].contents.File?
            && var was, now := fs[id].contents.bytes, gs[id].contents.bytes;
               && gs[id].attr.size == gs[id].attr.used == |now|
               && if offset + |data| <= |was| then now == was
                  else |now| == offset + |data| && now[offset..] == data
                       && forall k | 0 <= k < offset :: now[k] == if k < |was| then was[k] else 0
  {
    assert Sized(fs[id]);
  }

  /** A directory cannot be written to: it stays as it was, but for an attribute. */
  lemma WriteLeavesDirectories(fs: seq<FSEntry>, id: nat, offset: nat, data: seq<byte>)
    requires id < |fs| && fs[id].contents.Directory? && offset + |data| < WORD
    ensures var gs := Written(fs, id, offset, data);
            |gs| == |fs| && OnlyChanged(gs, fs, id) && gs[id] == fs[id].(attr := fs[id].attr.(used := fs[id].attr.size))
  {}

  /** Creation adds an empty file of that name and puts it last in the directory's list; nothing else changes. */
  lemma CreateChanges(fs: seq<FSEntry>, dirid: nat, name: seq<byte>)
    requires WellFormed(fs) && dirid < |fs| < WORD - 1
    ensures var gs, id := Created(fs, dirid, name), |fs|;
            && |gs| == |fs| + 1 && OnlyChanged(gs, fs, dirid)
            && gs[id].name == name && gs[id].parent == dirid && gs[id].contents == File([])
            && gs[id].id == id
            && gs[id].attr == Fattr3(NF3REG, 0x1ED, 1, 507, 507, 0, 0, 0, 0, 0, id, NfsTime(0, 0), NfsTime(0, 0),
                                     NfsTime(0, 0))
            && (fs[dirid].contents.Directory? ==>
                  gs[dirid] == fs[dirid].(contents := Directory(fs[dirid].contents.list + [id])))
            && (fs[dirid].contents.File? ==> gs[dirid] == fs[dirid])
  {
    hide WellFormed;
  }

  /** What a setattr asks for a time to become. */
  predicate TimeIs(t: NfsTime, was: NfsTime, set_: SetTime, now: NfsTime)
  {
    && (set_.DontChange? ==> t == was)
    && (set_.SetToServerTime? ==> t == now)
    && (set_.SetToClientTime? ==> t == set_.time)
  }

  /**
   setattr sets the owner, the group and the times it is given, each to its own value. A size keeps the bytes of a
   file below it and fills up with zeros. Nothing else changes.
   */
  lemma SetAttrChanges(fs: seq<FSEntry>, id: nat, a: Sattr, now: NfsTime)
    requires WellFormed(fs) && id < |fs|
    ensures var gs := AttrsSet(fs, id, a, now);
            && |gs| == |fs| && OnlyChanged(gs, fs, id)
            && var e, was := gs[id], fs[id];
               && (e.attr.uid == if a.uid.Some? then a.uid.value else was.attr.uid)
               && (e.attr.gid == if a.gid.Some? then a.gid.value else was.attr.gid)
               && TimeIs(e.attr.atime, was.attr.atime, a.atime, now)
               && TimeIs(e.attr.mtime, was.attr.mtime, a.mtime, now)
               && SameButContents(e, was.(attr := was.attr.(uid := e.attr.uid, gid := e.attr.gid,
                                                            atime := e.attr.atime, mtime := e.attr.mtime)))
               && (a.size.None? ==>
                     e.contents == was.contents && e.attr.size == was.attr.size && e.attr.used == was.attr.used)
               && (a.size.Some? ==>
                     && e.attr.size == e.attr.used == a.size.value
                     && (was.contents.Directory? ==> e.contents == was.contents)
                     && (was.contents.File? ==>
                           && e.contents.File? && |e.contents.bytes| == a.size.value
                           && forall k | 0 <= k < a.size.value ::
                                e.contents.bytes[k] == if k < |was.contents.bytes| then was.contents.bytes[k] else 0))
  {
    hide WellFormed;
  }

  // ---- contents ----

  /** What was written reads back if and only if the write extended the file or changed nothing. */
  lemma WriteThenRead(bytes: seq<byte>, offset: nat, data: seq<byte>)
    ensures Chunk(Overwritten(bytes, offset, data), offset, |data|).0 == data
       <==> offset + |data| > |bytes| || bytes[offset..offset + |data|] == data
  {
    var r := Overwritten(bytes, offset, data);
    if offset + |data| > |bytes| {
      assert r[offset..] == data;
    } else {
      assert r[offset..][..|data|] == bytes[offset..offset + |data|];
    }
  }

  /** So it is for a write to a file of the vector, read back with READ. */
  lemma WrittenThenRead(fs: seq<FSEntry>, id: nat, offset: nat, data: seq<byte>)
    requires id < |fs| && fs[id].contents.File? && offset + |data| < WORD
    ensures var was, now := fs[id].contents.bytes, Written(fs, id, offset, data)[id].contents;
            now.File? && (Chunk(now.bytes, offset, |data|).0 == data
                          <==> offset + |data| > |was| || was[offset..offset + |data|] == data)
  {
    hide Chunk, Overwritten;
    WriteThenRead(fs[id].contents.bytes, offset, data);
  }

  /** Writing J over the first letter of a.txt leaves the h there. */
  lemma WriteIsDropped()
    ensures var file := Written(DefaultEntries(), 2, 0, [74])[2].contents;
            file.File? && Chunk(file.bytes, 0, 1).0 == [104]
  {
    var bytes := Text("hello world\n");
    assert |bytes| == 12 && bytes[0] == 104;
    assert Chunk(bytes, 0, 1).0 == bytes[..1] == [104];
  }

  lemma ResizedPrefix(bytes: seq<byte>, m: nat, n: nat)
    requires m <= n
    ensures Resized(bytes, n)[..m] == Resized(bytes, m)
  {}

  // ---- as it runs ----

  function Text(s: string): seq<byte> { seq(|s|, i requires 0 <= i < |s| => s[i] as int % 0x100) }

  function DefaultEntries(): seq<FSEntry>
  {
    [MakeFile([], 0, 0, []), MakeDir(Text("/"), 1, 1, [2, 3, 4]),
     MakeFile(Text("a.txt"), 2, 1, Text("hello world\n")),
     MakeFile(Text("b.txt"), 3, 1, Text("Greetings to xet data\n")),
     MakeDir(Text("another_dir"), 4, 1, [5]), MakeFile(Text("thisworks.txt"), 5, 4, Text("i hope\n"))]
  }

  lemma DefaultWellFormed()
    ensures WellFormed(DefaultEntries())
  {
    hide Text;
  }

  class DemoFS {
    var fs: seq<FSEntry>

    constructor ()
      ensures fs == DefaultEntries() && WellFormed(fs)
    {
      fs := DefaultEntries();
      DefaultWellFormed();
    }

    method GetAttr(id: u64) returns (r: Outcome<Fattr3>)
      ensures r == if id < |fs| then Done(fs[id].attr) else Failed(NFS3ERR_NOENT)
    {
      r := if id >= |fs| then Failed(NFS3ERR_NOENT) else Done(fs[id].attr);
    }

    method Write(id: u64, offset: u64, data: seq<byte>) returns (r: Outcome<Fattr3>)
      requires WellFormed(fs) && Allowed(fs, DoWrite(id, offset, data))
      modifies this
      ensures WellFormed(fs) && fs == Written(old(fs), id, offset, data) && r == Done(fs[id].attr)
      ensures fs == Apply(old(fs), DoWrite(id, offset, data))
    {
      hide WellFormed;
      ApplyWellFormed(fs, DoWrite(id, offset, data));
      ghost var was := fs;
      var fssize := fs[id].attr.size;
      if fs[id].contents.File? {
        var bytes := fs[id].contents.bytes;
        if offset + |data| > |bytes| {
          ResizedPrefix(bytes, offset, offset + |data|);
          bytes := Resized(bytes, offset + |data|);
          bytes := bytes[..offset] + data;
          fssize := |bytes|;
        }
        fs := fs[id := fs[id].(contents := File(bytes))];
      }
      fs := fs[id := fs[id].(attr := fs[id].attr.(size := fssize))];
      fs := fs[id := fs[id].(attr := fs[id].attr.(used := fssize))];
      assert fs[id] == Written(was, id, offset, data)[id];
      assert fs == Written(was, id, offset, data);
      r := GetAttr(id);
    }

    method Create(dirid: u64, filename: seq<byte>) returns (newid: u64, attr: Fattr3)
      requires WellFormed(fs) && Allowed(fs, DoCreate(dirid, filename))
      modifies this
      ensures WellFormed(fs) && fs == Created(old(fs), dirid, filename)
      ensures fs == Apply(old(fs), DoCreate(dirid, filename))
      ensures newid == |old(fs)| && attr == fs[newid].attr
    {
      ApplyWellFormed(fs, DoCreate(dirid, filename));
      newid := |fs|;
      fs := fs + [MakeFile(filename, newid, dirid, [])];
      if fs[dirid].contents.Directory? {
        fs := fs[dirid := fs[dirid].(contents := Directory(fs[dirid].contents.list + [newid]))];
      }
      var r := GetAttr(newid);
      attr := r.value;
    }

    method SetAttr(id: u64, a: Sattr, now: NfsTime) returns (r: Outcome<Fattr3>)
      requires WellFormed(fs)
      modifies this
      ensures WellFormed(fs) && fs == Apply(old(fs), DoSetAttr(id, a, now))
      ensures if id < |old(fs)| then fs == AttrsSet(old(fs), id, a, now) && r == Done(fs[id].attr)
              else fs == old(fs) && r == Failed(NFS3ERR_NOENT)
    {
      hide WellFormed;
      if id >= |fs| { return Failed(NFS3ERR_NOENT); }
      ApplyWellFormed(fs, DoSetAttr(id, a, now));
      var entry := fs[id];
      match a.atime {
        case DontChange =>
        case SetToClientTime(c) => entry := entry.(attr := entry.attr.(atime := c));
        case SetToServerTime => entry := entry.(attr := entry.attr.(atime := now));
      }
      match a.mtime {
        case DontChange =>
        case SetToClientTime(c) => entry := entry.(attr := entry.attr.(mtime := c));
        case SetToServerTime => entry := entry.(attr := entry.attr.(mtime := now));
      }
      if a.uid.Some? { entry := entry.(attr := entry.attr.(uid := a.uid.value)); }
      if a.gid.Some? { entry := entry.(attr := entry.attr.(gid := a.gid.value)); }
      if a.size.Some? {
        entry := entry.(attr := entry.attr.(size := a.size.value, used := a.size.value));
        if entry.contents.File? { entry := entry.(contents := File(Resized(entry.contents.bytes, a.size.value))); }
      }
      fs := fs[id := entry];
      r := Done(entry.attr);
    }

    method Lookup(dirid: u64, filename: seq<byte>) returns (r: Outcome<u64>)
      ensures r == Found(fs, dirid, filename)
    {
      if dirid >= |fs| { return Failed(NFS3ERR_NOENT); }
      match fs[dirid].contents {
        case File(_) => return Failed(NFS3ERR_NOTDIR);
        case Directory(dir) =>
          if filename == DOT { return Done(dirid); }
          if filename == DOT_DOT { return Done(fs[dirid].parent); }
          for i := 0 to |dir|
            invariant FirstNamed(fs, dir[i..], filename) == FirstNamed(fs, dir, filename)
          {
            if dir[i] < |fs| && fs[dir[i]].name == filename { return Done(dir[i]); }
            assert dir[i..][1..] == dir[i + 1..];
          }
      }
      r := Failed(NFS3ERR_NOENT);
    }

    method Read(id: u64, offset: u64, count: u32) returns (r: Outcome<(seq<byte>, bool)>)
      requires WellFormed(fs) && offset + count < WORD
      ensures r == if id >= |fs| then Failed(NFS3ERR_NOENT)
                   else if fs[id].contents.Directory? then Failed(NFS3ERR_ISDIR)
                   else Done(Chunk(fs[id].contents.bytes, offset, count))
    {
      if id >= |fs| { return Failed(NFS3ERR_NOENT); }
      match fs[id].contents
      case Directory(_) => r := Failed(NFS3ERR_ISDIR);
      case File(bytes) =>
        var buf, eof := ReadChunk(bytes, offset, count);
        r := Done((buf, eof));
    }

    static method Position(dir: seq<u64>, id: u64) returns (pos: Option<nat>)
      ensures pos.None? ==> id !in dir
      ensures pos.Some? ==> pos.value < |dir| && dir[pos.value] == id && id !in dir[..pos.value]
    {
      for i := 0 to |dir|
        invariant id !in dir[..i]
      {
        if dir[i] == id { return Some(i); }
      }
      pos := None;
    }

    /** The entries of a directory from a position on, at most max(1, maxEntries) of them. */
    method ShowFrom(dirid: u64, startIndex: nat, maxEntries: nat) returns (page: Page)
      requires WellFormed(fs) && dirid < |fs| && fs[dirid].contents.Directory?
      requires startIndex <= |fs[dirid].contents.list|
      ensures DirSound(fs, dirid) && page == PageFrom(ListingOf(fs, dirid), startIndex, maxEntries)
    {
      hide WellFormed, DirSound, ListingOf, PageFrom, Proper;
      ListingIsProper(fs, dirid);
      ghost var L := ListingOf(fs, dirid);
      ghost var limit := if maxEntries == 0 then 1 else maxEntries;
      var dir := fs[dirid].contents.list;
      var remainingLength := |dir| - startIndex;
      var entries: seq<DirEntry> := [];
      var i := startIndex;
      while i < |dir|
        invariant startIndex <= i <= |dir| && entries == L[startIndex..i]
        invariant i - startIndex <= limit && (i < |dir| ==> i - startIndex < limit)
        decreases |dir| - i
      {
        EntryAt(fs, dirid, i);
        assert L[startIndex..i + 1] == L[startIndex..i] + [L[i]];
        entries := entries + [DirEntry(dir[i], fs[dir[i]].name, fs[dir[i]].attr)];
        i := i + 1;
        if |entries| >= maxEntries { break; }
      }
      PageStops(L, startIndex, i, maxEntries);
      page := Page(entries, |entries| == remainingLength);
    }

    /** Resumes after the cookie's position, and refuses a cookie that is not in the directory. */
    method ReadDir(dirid: u64, startAfter: u64, maxEntries: nat) returns (r: Outcome<Page>)
      requires WellFormed(fs)
      ensures dirid >= |fs| ==> r == Failed(NFS3ERR_NOENT)
      ensures dirid < |fs| && fs[dirid].contents.File? ==> r == Failed(NFS3ERR_NOTDIR)
      ensures dirid < |fs| && fs[dirid].contents.Directory? ==>
                && DirSound(fs, dirid)
                && var L := ListingOf(fs, dirid);
                   match Start(Demo, L, startAfter)
                   case None => r == Failed(NFS3ERR_BAD_COOKIE)
                   case Some(start) => start <= |L| && r == Done(PageFrom(L, start, maxEntries))
    {
      hide WellFormed, DirSound, ListingOf, Start, PageFrom, Proper;
      if dirid >= |fs| { return Failed(NFS3ERR_NOENT); }
      match fs[dirid].contents
      case File(_) => r := Failed(NFS3ERR_NOTDIR);
      case Directory(dir) =>
        ListingIsProper(fs, dirid);
        ghost var L := ListingOf(fs, dirid);
        StartsAtZero(Demo, L);
        var startIndex := 0;
        if startAfter > 0 {
          var pos := Position(dir, startAfter);
          PositionIsStart(fs, dirid, startAfter, pos);
          if pos.None? { return Failed(NFS3ERR_BAD_COOKIE); }
          startIndex := pos.value + 1;
        }
        var page := ShowFrom(dirid, startIndex, maxEntries);
        r := Done(page);
    }
  }

  lemma PageStops(L: Listing, start: nat, stop: nat, maxEntries: nat)
    requires start <= stop <= |L|
    requires var limit := if maxEntries == 0 then 1 else maxEntries;
             stop - start <= limit && (stop == |L| || stop - start == limit)
    ensures PageFrom(L, start, maxEntries) == Page(L[start..stop], stop - start == |L| - start)
  {}

  lemma EntryAt(fs: seq<FSEntry>, d: nat, i: nat)
    requires WellFormed(fs) && d < |fs| && fs[d].contents.Directory? && i < |fs[d].contents.list|
    ensures var c := fs[d].contents.list[i];
            c < |fs| && DirSound(fs, d) && ListingOf(fs, d)[i] == DirEntry(c, fs[c].name, fs[c].attr)
  {
    assert DirSound(fs, d);
  }

  lemma PositionIsStart(fs: seq<FSEntry>, d: nat, cookie: u64, pos: Option<nat>)
    requires WellFormed(fs) && d < |fs| && fs[d].contents.Directory? && DirSound(fs, d) && cookie > 0
    requires pos.None? ==> cookie !in fs[d].contents.list
    requires pos.Some? ==> pos.value < |fs[d].contents.list| && fs[d].contents.list[pos.value] == cookie
    ensures Start(Demo, ListingOf(fs, d), cookie) == if pos.None? then None else Some(pos.value + 1)
  {
    var L := ListingOf(fs, d);
    assert forall k | 0 <= k < |L| :: L[k].fileid == fs[d].contents.list[k];
    if pos.Some? {
      ListingIsProper(fs, d);
      ResumesAfter(Demo, L, pos.value);
    }
  }
}
