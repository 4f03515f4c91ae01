/**
 MirrorFS's cache of the mirrored directory tree: entries by id, ids by path, cached child sets, a
 fresh-id counter and interned names. The disk is a parameter: every operation takes the answers the
 disk gives while it runs, and nothing is assumed about them.
 */
module FsMap {
  import opened Bytes
  import opened Nfs
  import opened ReadDirPlus

  type Name = seq<byte>
  type Symbol = nat
  type Path = seq<Symbol>
  type Fileid = nat

  /** The file metadata that matters to the cache; the others are never compared. */
  datatype Metadata = Metadata(ftype: Ftype, size: u64, mtime: NfsTime, others: Others)
  datatype Others = Others(mode: u32, nlink: u32, uid: u32, gid: u32, used: u64, rdev1: u32, rdev2: u32, fsid: u64,
                           atime: NfsTime, ctime: NfsTime)

  datatype Attr = Attr(fileid: Fileid, meta: Metadata)

  datatype Entry = Entry(name: Path, fsmeta: Attr, childrenMeta: Attr, children: Option<set<Fileid>>)

  datatype State = State(next: nat, symbols: seq<Name>, entries: map<Fileid, Entry>, ids: map<Path, Fileid>)

  /** Only modification time, size, type and id are compared. */
  predicate Differ(a: Attr, b: Attr)
  {
    a.fileid != b.fileid || a.meta.mtime != b.meta.mtime || a.meta.size != b.meta.size || a.meta.ftype != b.meta.ftype
  }

  // ---- what the disk may answer ----

  datatype Stat = Gone | Unreadable | Found(meta: Metadata)
  datatype DirListing = NoListing | Listed(found: seq<(Name, Metadata)>, complete: bool)
  datatype RemoveAnswer = NothingThere | NotRemoved | Removed
  datatype RenameAnswer = NoTargetDir | NoSource | NotRenamed | Renamed

  datatype Refreshed = Delete | Reload | Noop

  // ---- interned names ----

  function CheckInterned(symbols: seq<Name>, name: Name): Option<Symbol>
  {
    if name !in symbols then None else Some(IndexOf(symbols, name))
  }

  function IndexOf(symbols: seq<Name>, name: Name): (i: nat)
    requires name in symbols
    ensures i < |symbols| && symbols[i] == name
  {
    if symbols[0] == name then 0 else 1 + IndexOf(symbols[1..], name)
  }

  function Intern(symbols: seq<Name>, name: Name): (r: (seq<Name>, Symbol))
    ensures symbols <= r.0 && r.1 < |r.0| && r.0[r.1] == name
  {
    if name in symbols then (symbols, IndexOf(symbols, name)) else (symbols + [name], |symbols|)
  }

  // ---- deletion ----

  predicate Edge(entries: map<Fileid, Entry>, a: Fileid, b: Fileid)
  {
    a in entries && entries[a].children.Some? && b in entries[a].children.value
  }

  ghost predicate Chain(entries: map<Fileid, Entry>, c: seq<Fileid>)
  {
    c != [] && forall k | 0 <= k < |c| - 1 :: Edge(entries, c[k], c[k + 1])
  }

  /** b is a, or reached from a through cached children of live entries. */
  ghost predicate Reaches(entries: map<Fileid, Entry>, a: Fileid, b: Fileid)
  {
    exists c :: Chain(entries, c) && c[0] == a && c[|c| - 1] == b
  }

  ghost function Doomed(s: State, id: Fileid): set<Fileid>
  {
    set x | x in s.entries && Reaches(s.entries, id, x)
  }

  function NamesOf(s: State, xs: set<Fileid>): set<Path>
  {
    set x | x in xs && x in s.entries :: s.entries[x].name
  }

  /** Everything reachable from id goes, from both maps. */
  ghost function DeleteEntry(s: State, id: Fileid): State
  {
    s.(entries := s.entries - Doomed(s, id), ids := s.ids - NamesOf(s, Doomed(s, id)))
  }

  // ---- FSMap ----

  function Init(meta: Metadata): State
  {
    State(1, [], map[0 := Entry([], Attr(1, meta), Attr(1, meta), None)], map[[] := 0])
  }

  function FindChild(s: State, dirid: Fileid, filename: Name): Option<Fileid>
  {
    if dirid !in s.entries || filename !in s.symbols then None
    else
      var path := s.entries[dirid].name + [IndexOf(s.symbols, filename)];
      if path in s.ids then Some(s.ids[path]) else None
  }

  ghost function RefreshEntry(s: State, id: Fileid, stat: Stat): (State, Outcome<Refreshed>)
  {
    if id !in s.entries then (s, Failed(NFS3ERR_NOENT))
    else
      match stat
      case Gone => (DeleteEntry(s, id), Done(Delete))
      case Unreadable => (s, Failed(NFS3ERR_IO))
      case Found(meta) =>
        var entry := s.entries[id];
        var attr := Attr(id, meta);
        if !Differ(attr, entry.fsmeta) then (s, Done(Noop))
        else if entry.fsmeta.meta.ftype != meta.ftype then (DeleteEntry(s, id), Done(Delete))
        else (s.(entries := s.entries[id := entry.(fsmeta := attr)]), Done(Reload))
  }

  function CreateEntry(s: State, path: Path, meta: Metadata): (State, Fileid)
  {
    if path in s.ids then
      var id := s.ids[path];
      if id in s.entries then
        (s.(entries := s.entries[id := s.entries[id].(fsmeta := Attr(id, meta))]), id)
      else (s, id)
    else
      var attr := Attr(s.next, meta);
      (State(s.next + 1, s.symbols, s.entries[s.next := Entry(path, attr, attr, None)], s.ids[path := s.next]), s.next)
  }

  /** Creates an entry for each name found in dir; the ids join kids. */
  function CreateAll(s: State, dir: Path, found: seq<(Name, Metadata)>, kids: set<Fileid>): (State, set<Fileid>)
    decreases |found|
  {
    if found == [] then (s, kids)
    else
      var (s1, id) := CreateNamed(s, dir, found[0].0, found[0].1);
      CreateAll(s1, dir, found[1..], kids + {id})
  }

  function CreateNamed(s: State, dir: Path, name: Name, meta: Metadata): (State, Fileid)
  {
    var (symbols, sym) := Intern(s.symbols, name);
    CreateEntry(s.(symbols := symbols), dir + [sym], meta)
  }

  function SetChildren(s: State, id: Fileid, kids: Option<set<Fileid>>): State
    requires id in s.entries
  {
    s.(entries := s.entries[id := s.entries[id].(children := kids)])
  }

  function RefreshDirList(s: State, id: Fileid, listing: DirListing): (State, Outcome<()>)
  {
    if id !in s.entries then (s, Failed(NFS3ERR_NOENT))
    else
      var entry := s.entries[id];
      if entry.children.Some? && !Differ(entry.childrenMeta, entry.fsmeta) then (s, Done(()))
      else if entry.fsmeta.meta.ftype != NF3DIR || listing.NoListing? then (s, Done(()))
      else
        var (s1, kids) := CreateAll(s, entry.name, listing.found, {});
        if !listing.complete then (s1, Failed(NFS3ERR_IO))
        else if id !in s1.entries then (s1, Failed(NFS3ERR_NOENT))
        else (SetChildren(s1, id, Some(kids)), Done(()))
  }

  // ---- MirrorFS ----

  /** Adds an id to, or takes it from, a cached child set, if the directory is live and has one. */
  function AddChild(s: State, dirid: Fileid, id: Fileid): State
  {
    if dirid in s.entries && s.entries[dirid].children.Some? then
      SetChildren(s, dirid, Some(s.entries[dirid].children.value + {id}))
    else s
  }

  function DropChild(s: State, dirid: Fileid, id: Fileid): State
  {
    if dirid in s.entries && s.entries[dirid].children.Some? then
      SetChildren(s, dirid, Some(s.entries[dirid].children.value - {id}))
    else s
  }

  /** made: whether the disk created the object, and with which error not. */
  ghost function CreateFsObject(s: State, dirid: Fileid, name: Name, made: Outcome<()>, stat: Stat,
                                meta: Option<Metadata>)
    : (State, Outcome<Fileid>)
  {
    if dirid !in s.entries then (s, Failed(NFS3ERR_NOENT))
    else if made.Failed? then (s, Failed(made.stat))
    else
      var dir := s.entries[dirid].name;
      var s1 := RefreshEntry(s, dirid, stat).0;
      if meta.None? then (s1.(symbols := Intern(s1.symbols, name).0), Failed(NFS3ERR_IO))
      else
        var (s2, id) := CreateNamed(s1, dir, name, meta.value);
        if dirid !in s2.entries then (s2, Failed(NFS3ERR_NOENT)) else (AddChild(s2, dirid, id), Done(id))
  }

  ghost function Lookup(s: State, dirid: Fileid, name: Name, exists_: bool, stat: Stat, listing: DirListing)
    : (State, Outcome<Fileid>)
  {
    var hit := FindChild(s, dirid, name);
    if hit.Some? && hit.value in s.entries then (s, Done(hit.value))
    else if dirid !in s.entries || !exists_ then (s, Failed(NFS3ERR_NOENT))
    else
      var (s1, refreshed) := RefreshEntry(s, dirid, stat);
      if refreshed.Failed? then (s1, Failed(refreshed.stat))
      else if refreshed.value.Delete? then (s1, Failed(NFS3ERR_NOENT))
      else
        var s2 := RefreshDirList(s1, dirid, listing).0;
        match FindChild(s2, dirid, name)
        case None => (s2, Failed(NFS3ERR_NOENT))
        case Some(id) => (s2, Done(id))
  }

  ghost function GetAttr(s: State, id: Fileid, stat: Stat): (State, Outcome<Attr>)
  {
    var (s1, refreshed) := RefreshEntry(s, id, stat);
    if refreshed.Failed? then (s1, Failed(refreshed.stat))
    else if refreshed.value.Delete? || id !in s1.entries then (s1, Failed(NFS3ERR_NOENT))
    else (s1, Done(s1.entries[id].fsmeta))
  }

  function SetAttr(s: State, id: Fileid, applied: Outcome<()>, meta: Option<Metadata>): (State, Outcome<Attr>)
  {
    if id !in s.entries then (s, Failed(NFS3ERR_NOENT))
    else if applied.Failed? then (s, Failed(applied.stat))
    else if meta.None? then (s, Failed(NFS3ERR_IO))
    else
      var attr := Attr(id, meta.value);
      (s.(entries := s.entries[id := s.entries[id].(fsmeta := attr)]), Done(attr))
  }

  /** The listing part of readdir: refresh, relist, and the child set the page is cut from. */
  ghost function ReadDirChildren(s: State, dirid: Fileid, stat: Stat, listing: DirListing)
    : (State, Outcome<set<Fileid>>)
  {
    var (s1, refreshed) := RefreshEntry(s, dirid, stat);
    if refreshed.Failed? then (s1, Failed(refreshed.stat))
    else
      var (s2, relisted) := RefreshDirList(s1, dirid, listing);
      if relisted.Failed? then (s2, Failed(relisted.stat))
      else if dirid !in s2.entries then (s2, Failed(NFS3ERR_NOENT))
      else if s2.entries[dirid].fsmeta.meta.ftype != NF3DIR then (s2, Failed(NFS3ERR_NOTDIR))
      else if s2.entries[dirid].children.None? then (s2, Failed(NFS3ERR_IO))
      else (s2, Done(s2.entries[dirid].children.value))
  }

  datatype MirrorEntry = MirrorEntry(fileid: Fileid, name: Name, attr: Attr)
  datatype MirrorPage = MirrorPage(entries: seq<MirrorEntry>, end: bool)

  /** The ids of a child set above the cookie; cookie 0 is the start. */
  function Above(children: set<Fileid>, startAfter: Fileid): set<Fileid>
  {
    set c | c in children && (startAfter == 0 || c > startAfter)
  }

  /** The page cut from a child set: fails if an id it would show is dangling. */
  ghost function CutPage(s: State, children: set<Fileid>, startAfter: Fileid, maxEntries: nat): Outcome<MirrorPage>
  {
    var ids := SortedSeq(Above(children, startAfter));
    var limit := if maxEntries == 0 then 1 else maxEntries;
    var n := if |ids| <= limit then |ids| else limit;
    if exists i :: 0 <= i < n && ids[i] !in s.entries then Failed(NFS3ERR_NOENT)
    else Done(MirrorPage(seq(n, i requires 0 <= i < n => ShowEntry(s, ids[i])), n == |ids|))
  }

  const NO_METADATA := Metadata(NF3REG, 0, NfsTime(0, 0), Others(0, 0, 0, 0, 0, 0, 0, 0, NfsTime(0, 0), NfsTime(0, 0)))

  /** An entry as readdir shows it, under the last component of its path. */
  function ShowEntry(s: State, id: Fileid): MirrorEntry
  {
    if id !in s.entries then MirrorEntry(id, [], Attr(id, NO_METADATA))
    else MirrorEntry(id, LastName(s.symbols, s.entries[id].name), s.entries[id].fsmeta)
  }

  function LastName(symbols: seq<Name>, path: Path): Name
  {
    if path == [] || path[|path| - 1] >= |symbols| then [] else symbols[path[|path| - 1]]
  }

  // ---- ordered iteration over a child set ----

  ghost function MinOf(xs: set<Fileid>): (m: Fileid)
    requires xs != {}
    ensures m in xs && forall x | x in xs :: m <= x
  {
    var x :| x in xs;
    if xs == {x} then x
    else
      var m := MinOf(xs - {x});
      assert forall y | y in xs :: y == x || y in xs - {x};
      if x < m then x else m
  }

  /** The elements in ascending order. */
  ghost function SortedSeq(xs: set<Fileid>): (q: seq<Fileid>)
    ensures Ascending(q) && forall x :: x in q <==> x in xs
  {
    if xs == {} then [] else [MinOf(xs)] + SortedSeq(xs - {MinOf(xs)})
  }

  ghost predicate Ascending(q: seq<Fileid>) { forall i, j | 0 <= i < j < |q| :: q[i] < q[j] }

  /** An ascending sequence is determined by its elements. */
  lemma {:induction false} AscendingUnique(p: seq<Fileid>, q: seq<Fileid>)
    requires Ascending(p) && Ascending(q) && forall x :: x in p <==> x in q
    ensures p == q
  {
    assert (p != [] ==> p[0] in q) && (q != [] ==> q[0] in p);
    if p != [] {
      forall x ensures x in p[1..] <==> x in q[1..] {
        assert x in p[1..] <==> x in p && x != p[0];
        assert x in q[1..] <==> x in q && x != q[0];
      }
      AscendingUnique(p[1..], q[1..]);
    }
  }

  /** What remove does to the maps once the disk has removed the file. */
  function Forget(s: State, dirid: Fileid, path: Path): State
  {
    if path !in s.ids then s
    else
      var id := s.ids[path];
      DropChild(s.(entries := s.entries - {id}, ids := s.ids - {path}), dirid, id)
  }

  /** The maps after the disk's removal, before the directory is refreshed. */
  function AfterRemove(s: State, dirid: Fileid, name: Name): State
    requires dirid in s.entries
  {
    var (symbols, sym) := Intern(s.symbols, name);
    Forget(s.(symbols := symbols), dirid, s.entries[dirid].name + [sym])
  }

  ghost function Remove(s: State, dirid: Fileid, name: Name, answer: RemoveAnswer, stat: Stat): (State, Outcome<()>)
  {
    if dirid !in s.entries || answer.NothingThere? then (s, Failed(NFS3ERR_NOENT))
    else if answer.NotRemoved? then (s, Failed(NFS3ERR_IO))
    else
      (RefreshEntry(AfterRemove(s, dirid, name), dirid, stat).0, Done(()))
  }

  /** What rename does to the maps once the disk has renamed the file. */
  function Move(s: State, fromDirid: Fileid, from: Path, toDirid: Fileid, to: Path): State
    requires from in s.ids && s.ids[from] in s.entries
  {
    var id := s.ids[from];
    var s1 := s.(entries := s.entries[id := s.entries[id].(name := to)], ids := (s.ids - {from})[to := id]);
    if toDirid == fromDirid then s1 else AddChild(DropChild(s1, fromDirid, id), toDirid, id)
  }

  /** The maps after the disk's rename, before the directories are refreshed. */
  function AfterMove(s: State, fromDirid: Fileid, fromName: Name, toDirid: Fileid, toName: Name): State
    requires fromDirid in s.entries && toDirid in s.entries
  {
    var (symbols1, oldsym) := Intern(s.symbols, fromName);
    var (symbols2, newsym) := Intern(symbols1, toName);
    var s1 := s.(symbols := symbols2);
    var from, to := s.entries[fromDirid].name + [oldsym], s.entries[toDirid].name + [newsym];
    if from in s1.ids && s1.ids[from] in s1.entries then Move(s1, fromDirid, from, toDirid, to) else s1
  }

  ghost function Rename(s: State, fromDirid: Fileid, fromName: Name, toDirid: Fileid, toName: Name,
                        answer: RenameAnswer, fromStat: Stat, toStat: Stat): (State, Outcome<()>)
  {
    if fromDirid !in s.entries || toDirid !in s.entries then (s, Failed(NFS3ERR_NOENT))
    else if answer.NoTargetDir? || answer.NoSource? then (s, Failed(NFS3ERR_NOENT))
    else if answer.NotRenamed? then (s, Failed(NFS3ERR_IO))
    else
      var s2 := AfterMove(s, fromDirid, fromName, toDirid, toName);
      var s3 := RefreshEntry(s2, fromDirid, fromStat).0;
      (if toDirid != fromDirid then RefreshEntry(s3, toDirid, toStat).0 else s3, Done(()))
  }

  // ---- runs ----

  datatype Op =
    | DoLookup(dirid: Fileid, name: Name, exists_: bool, stat: Stat, listing: DirListing)
    | DoGetAttr(id: Fileid, stat: Stat)
    | DoSetAttr(id: Fileid, applied: Outcome<()>, meta: Option<Metadata>)
    | DoReadDir(dirid: Fileid, stat: Stat, listing: DirListing)
    | DoCreate(dirid: Fileid, name: Name, made: Outcome<()>, stat: Stat, newMeta: Option<Metadata>)
    | DoRemove(dirid: Fileid, name: Name, answer: RemoveAnswer, stat: Stat)
    | DoRename(fromDirid: Fileid, fromName: Name, toDirid: Fileid, toName: Name,
               renamed: RenameAnswer, fromStat: Stat, toStat: Stat)

  ghost function Apply(s: State, op: Op): State
  {
    match op
    case DoLookup(dirid, name, exists_, stat, listing) => Lookup(s, dirid, name, exists_, stat, listing).0
    case DoGetAttr(id, stat) => GetAttr(s, id, stat).0
    case DoSetAttr(id, applied, meta) => SetAttr(s, id, applied, meta).0
    case DoReadDir(dirid, stat, listing) => ReadDirChildren(s, dirid, stat, listing).0
    case DoCreate(dirid, name, made, stat, meta) => CreateFsObject(s, dirid, name, made, stat, meta).0
    case DoRemove(dirid, name, answer, stat) => Remove(s, dirid, name, answer, stat).0
    case DoRename(fd, fn, td, tn, answer, fs, ts) => Rename(s, fd, fn, td, tn, answer, fs, ts).0
  }

  ghost function Run(s: State, ops: seq<Op>): State
    decreases |ops|
  {
    if ops == [] then s else Run(Apply(s, ops[0]), ops[1..])
  }
}
