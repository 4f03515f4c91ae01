/** What a client finds after one operation on the cache, whatever the disk answered while it ran. */
module FsMapEffects {
  import opened Bytes
  import opened Nfs
  import opened ReadDirPlus
  import opened FsMap
  import opened FsMapSafety
  import opened FsMapTree
  import opened FsMapCollect

  /** Of two files' metadata, what the cache looks at is the same. */
  predicate LooksSame(a: Metadata, b: Metadata)
  {
    && a.ftype == b.ftype && a.size == b.size
    && a.mtime.seconds == b.mtime.seconds && a.mtime.nseconds == b.mtime.nseconds
  }

  /**
   getattr answers exactly for live files the disk has with their type: the id, and the disk's type, size and
   modification time; all of the disk's metadata if any of these had changed, and the cached ones if not. Nothing
   else in the cache changes. A file that is gone, or of another type, is forgotten.
   */
  lemma GetAttrAgrees(s: State, id: Fileid, stat: Stat)
    ensures var (t, r) := GetAttr(s, id, stat);
            && (r.Done? <==> id in s.entries && stat.Found? && stat.meta.ftype == s.entries[id].fsmeta.meta.ftype)
            && (r.Done? ==>
                  && r.value.fileid == id && LooksSame(r.value.meta, stat.meta)
                  && (!LooksSame(s.entries[id].fsmeta.meta, stat.meta) ==> r.value.meta == stat.meta)
                  && (LooksSame(s.entries[id].fsmeta.meta, stat.meta) && s.entries[id].fsmeta.fileid == id ==>
                        r.value == s.entries[id].fsmeta)
                  && t == s.(entries := s.entries[id := s.entries[id].(fsmeta := r.value)]))
            && (id !in s.entries ==> r == Failed(NFS3ERR_NOENT) && t == s)
            && (id in s.entries && stat.Unreadable? ==> r == Failed(NFS3ERR_IO) && t == s)
            && (Deletes(s, id, stat) ==> r == Failed(NFS3ERR_NOENT) && id !in t.entries)
  {
    hide Reaches;
    if id in s.entries {
      ReachesItself(s.entries, id);
      assert s.entries[id := s.entries[id]] == s.entries;
    }
  }

  lemma ReachesItself(entries: map<Fileid, Entry>, id: Fileid)
    ensures Reaches(entries, id, id)
  {
    assert Chain(entries, [id]);
  }

  /** A refresh that leaves its entry live takes nothing away from the maps. */
  lemma RefreshLive(s: State, id: Fileid, stat: Stat)
    requires id in RefreshEntry(s, id, stat).0.entries
    ensures var t := RefreshEntry(s, id, stat).0;
            t.ids == s.ids && t.entries.Keys == s.entries.Keys
            && forall i | i in s.entries :: t.entries[i].name == s.entries[i].name
  {
    hide Reaches;
    ReachesItself(s.entries, id);
  }

  /** Lookup answers only live ids, under the path of the directory and the name. */
  lemma {:induction false} LookupFindsLive(s: State, dirid: Fileid, name: Name, exists_: bool, stat: Stat,
                                           listing: DirListing)
    requires Sound(s)
    ensures var (t, r) := Lookup(s, dirid, name, exists_, stat, listing);
            r.Done? ==>
              && FindChild(t, dirid, name) == Some(r.value) && r.value in t.entries && r.value != 0
              && t.entries[r.value].name == t.entries[dirid].name + [IndexOf(t.symbols, name)]
  {
    hide RefreshEntry, RefreshDirList, FindChild, Sound;
    RefreshSound(s, dirid, stat);
    RelistSound(RefreshEntry(s, dirid, stat).0, dirid, listing);
    HitsAreLive(Lookup(s, dirid, name, exists_, stat, listing).0, dirid, name, []);
  }

  /** The cached child set is not current, so the directory is listed anew. */
  predicate Relists(s: State, id: Fileid)
  {
    id in s.entries && s.entries[id].fsmeta.meta.ftype == NF3DIR
    && (s.entries[id].children.None? || Outdated(s.entries[id]))
  }

  /** The directory is not as it was when its entry was made. */
  predicate Outdated(e: Entry)
  {
    !LooksSame(e.childrenMeta.meta, e.fsmeta.meta) || e.childrenMeta.fileid != e.fsmeta.fileid
  }

  /** A name the disk lists is found, even if the listing breaks off later. */
  lemma LookupFindsListed(s: State, dirid: Fileid, name: Name, stat: Stat, listing: DirListing)
    requires Sound(s) && Relists(RefreshEntry(s, dirid, stat).0, dirid)
    requires RefreshEntry(s, dirid, stat).1.Done? && listing.Listed? && name in ListedNames(listing.found)
    ensures Lookup(s, dirid, name, true, stat, listing).1.Done?
  {
    hide RefreshEntry, CreateAll, Interned, Reaches, IdsFresh, PathsSound, KeepsKnown, IdsOf, Grows;
    RefreshSound(s, dirid, stat);
    LiveIsNotDeleted(s, dirid, stat);
    var s1 := RefreshEntry(s, dirid, stat).0;
    var dir := s1.entries[dirid].name;
    assert Interned(s1.symbols, dir);
    CreateAllKnows(s1, dir, listing.found, {});
    CreateAllSound(s1, dir, listing.found, {});
    assert Known(CreateAll(s1, dir, listing.found, {}).0, dir, name);
  }

  lemma LiveIsNotDeleted(s: State, id: Fileid, stat: Stat)
    requires id in RefreshEntry(s, id, stat).0.entries
    ensures RefreshEntry(s, id, stat).1 != Done(Delete) && id in s.entries
  {
    hide Reaches;
    ReachesItself(s.entries, id);
  }

  /** An object created is what lookup then finds, without asking the disk, and its directory's list has it. */
  lemma CreateThenLookup(s: State, dirid: Fileid, name: Name, made: Outcome<()>, stat: Stat, meta: Option<Metadata>,
                         exists_: bool, later: Stat, listing: DirListing)
    requires Sound(s)
    ensures var (t, r) := CreateFsObject(s, dirid, name, made, stat, meta);
            r.Done? ==>
              && meta.Some? && r.value in t.entries && t.entries[r.value].fsmeta == Attr(r.value, meta.value)
              && Lookup(t, dirid, name, exists_, later, listing) == (t, Done(r.value))
              && (t.entries[dirid].children.Some? ==> r.value in t.entries[dirid].children.value)
  {
    hide RefreshEntry, Intern, Interned, CreateNamed, FindChild, Lookup, AddChild, With;
    var (t, r) := CreateFsObject(s, dirid, name, made, stat, meta);
    if r.Done? {
      var dir := s.entries[dirid].name;
      RefreshSound(s, dirid, stat);
      RefreshKeepsName(s, dirid, stat);
      var s1 := RefreshEntry(s, dirid, stat).0;
      CreateNamedKnows(s1, dir, name, meta.value, name);
      CreateNamedSound(s1, dir, name, meta.value);
      var (s2, id) := CreateNamed(s1, dir, name, meta.value);
      assert id in s2.entries && s2.entries[id].fsmeta == Attr(id, meta.value) by {
        CreatedMeta(s1, dir, name, meta.value);
      }
      DirNameKept(s1, s2, dirid, dir);
      assert FindChild(s2, dirid, name) == Some(id) by { KnownIsFound(s2, dirid, name); }
      AddsChild(s2, dirid, id);
      AddChildFinds(s2, dirid, id, name);
      HitAnswers(t, dirid, name, id, exists_, later, listing);
      JoinsList(s2.entries[dirid].children, id);
    }
  }

  lemma KnownIsFound(s: State, dirid: Fileid, name: Name)
    requires dirid in s.entries && Known(s, s.entries[dirid].name, name)
    ensures FindChild(s, dirid, name) == Some(KnownId(s, s.entries[dirid].name, name))
  {}

  lemma AddChildFinds(s: State, dirid: Fileid, id: Fileid, name: Name)
    ensures FindChild(AddChild(s, dirid, id), dirid, name) == FindChild(s, dirid, name)
  {}

  lemma HitAnswers(s: State, dirid: Fileid, name: Name, id: Fileid, exists_: bool, stat: Stat, listing: DirListing)
    requires FindChild(s, dirid, name) == Some(id) && id in s.entries
    ensures Lookup(s, dirid, name, exists_, stat, listing) == (s, Done(id))
  {
    hide RefreshEntry, RefreshDirList;
  }

  lemma JoinsList(kids: Option<set<Fileid>>, id: Fileid)
    ensures With(kids, id).Some? ==> id in With(kids, id).value
  {}

  /** A new entry holds the disk's metadata, twice, and no child set; an entry there already has its own renewed. */
  lemma CreatedMeta(s: State, dir: Path, name: Name, meta: Metadata)
    requires Sound(s)
    ensures var (t, id) := CreateNamed(s, dir, name, meta);
            var attr := Attr(id, meta);
            && id in t.entries && t.entries[id].fsmeta == attr
            && (id !in s.entries ==>
                  id == s.next && t.entries[id].childrenMeta == attr && t.entries[id].children == None)
            && (id in s.entries ==> t.entries[id] == s.entries[id].(fsmeta := attr))
            && t.entries.Keys == s.entries.Keys + {id}
            && forall i | i in s.entries && i != id :: t.entries[i] == s.entries[i]
  {
    hide SymbolsSound, Intern;
  }

  /** Entries for other names leave a known name's entry alone. */
  lemma {:induction false} OthersKeepEntry(s: State, dir: Path, found: seq<(Name, Metadata)>, kids: set<Fileid>,
                                           name: Name)
    requires Sound(s) && Interned(s.symbols, dir) && forall c | c in kids :: 0 < c < s.next
    requires Known(s, dir, name) && forall j | 0 <= j < |found| :: found[j].0 != name
    ensures var t, id := CreateAll(s, dir, found, kids).0, KnownId(s, dir, name);
            && Known(t, dir, name) && KnownId(t, dir, name) == id
            && id in s.entries && id in t.entries && t.entries[id] == s.entries[id]
    decreases |found|
  {
    hide Sound, Known, KnownId, CreateNamed, Interned, Grows;
    KnownIsLive(s, dir, name);
    if found != [] {
      var (s1, id) := CreateNamed(s, dir, found[0].0, found[0].1);
      CreateNamedSound(s, dir, found[0].0, found[0].1);
      CreateNamedKnows(s, dir, found[0].0, found[0].1, name);
      CreatedMeta(s, dir, found[0].0, found[0].1);
      NamesApart(s1, dir, found[0].0, name);
      OthersKeepEntry(s1, dir, found[1..], kids + {id}, name);
    }
  }

  lemma KnownIsLive(s: State, dir: Path, name: Name)
    requires Sound(s) && Known(s, dir, name)
    ensures KnownId(s, dir, name) in s.entries
  {
    hide IdsFresh, SymbolsSound;
  }

  /** Two known names of a directory have different ids. */
  lemma NamesApart(s: State, dir: Path, a: Name, b: Name)
    requires Sound(s) && Known(s, dir, a) && Known(s, dir, b) && a != b
    ensures KnownId(s, dir, a) != KnownId(s, dir, b)
  {
    hide IdsFresh, SymbolsSound;
    assert (dir + [IndexOf(s.symbols, a)])[|dir|] != (dir + [IndexOf(s.symbols, b)])[|dir|];
  }

  /** After a listing each name's entry has the metadata the disk gave for it, the last ones if it was listed again. */
  lemma {:induction false} ListedMetadata(s: State, dir: Path, found: seq<(Name, Metadata)>, kids: set<Fileid>, i: nat)
    requires Sound(s) && Interned(s.symbols, dir) && forall c | c in kids :: 0 < c < s.next
    requires i < |found| && forall j | i < j < |found| :: found[j].0 != found[i].0
    ensures var t, name := CreateAll(s, dir, found, kids).0, found[i].0;
            && Known(t, dir, name)
            && var id := KnownId(t, dir, name); id in t.entries && t.entries[id].fsmeta == Attr(id, found[i].1)
    decreases i
  {
    hide Sound, Known, KnownId, CreateNamed, Interned, Grows;
    var (s1, id) := CreateNamed(s, dir, found[0].0, found[0].1);
    CreateNamedSound(s, dir, found[0].0, found[0].1);
    if i > 0 {
      ListedMetadata(s1, dir, found[1..], kids + {id}, i - 1);
    } else {
      CreatedMeta(s, dir, found[0].0, found[0].1);
      CreateNamedKnows(s, dir, found[0].0, found[0].1, found[0].0);
      OthersKeepEntry(s1, dir, found[1..], kids + {id}, found[0].0);
    }
  }

  /** A removed name is found no more, and the id it had is dead. */
  lemma RemoveThenFind(s: State, dirid: Fileid, name: Name, answer: RemoveAnswer, stat: Stat)
    requires Sound(s)
    ensures var (t, r) := Remove(s, dirid, name, answer, stat);
            r.Done? ==>
              && FindChild(t, dirid, name) == None
              && (FindChild(s, dirid, name).Some? ==> FindChild(s, dirid, name).value !in t.entries)
  {
    hide RefreshEntry, Interned;
    var (t, r) := Remove(s, dirid, name, answer, stat);
    if r.Done? {
      var (symbols, sym) := Intern(s.symbols, name);
      var path := s.entries[dirid].name + [sym];
      var s1 := Forget(s.(symbols := symbols), dirid, path);
      InternedIndex(s, name);
      RefreshOnlyDrops(s1, dirid, stat);
    }
  }

  lemma {:induction false} InternedIndex(s: State, name: Name)
    ensures var (symbols, sym) := Intern(s.symbols, name); name in symbols && IndexOf(symbols, name) == sym
  {
    if name !in s.symbols { NewIndex(s.symbols, name); }
  }

  lemma RefreshOnlyDrops(s: State, id: Fileid, stat: Stat)
    ensures var t := RefreshEntry(s, id, stat).0;
            && t.symbols == s.symbols && t.next == s.next
            && (forall i | i in t.entries ::
                  && i in s.entries && t.entries[i].name == s.entries[i].name
                  && t.entries[i].children == s.entries[i].children
                  && (i != id ==> t.entries[i] == s.entries[i]))
            && (forall p | p in t.ids :: p in s.ids && t.ids[p] == s.ids[p])
  {
    hide Reaches;
  }

  /** A refresh that leaves its entry live changes no answer of find_child. */
  lemma RefreshKeepsFinding(s: State, id: Fileid, stat: Stat, dirid: Fileid, name: Name)
    requires id in RefreshEntry(s, id, stat).0.entries
    ensures FindChild(RefreshEntry(s, id, stat).0, dirid, name) == FindChild(s, dirid, name)
  {
    hide RefreshEntry;
    RefreshLive(s, id, stat);
    RefreshOnlyDrops(s, id, stat);
  }

  /** The directory and name lead to different paths. */
  predicate Elsewhere(s: State, fd: Fileid, fn: Name, td: Fileid, tn: Name)
    requires fd in s.entries && td in s.entries
  {
    s.entries[fd].name != s.entries[td].name || fn != tn
  }

  /** Before the refreshes: the moved entry is found under its new name only, and no other path changed its id. */
  lemma MoveThenFind(s: State, fd: Fileid, fn: Name, td: Fileid, tn: Name)
    requires Sound(s) && fd in s.entries && td in s.entries && FindChild(s, fd, fn).Some?
    ensures var t, id := AfterMove(s, fd, fn, td, tn), FindChild(s, fd, fn);
            && (id != Some(td) ==> FindChild(t, td, tn) == id)
            && (Elsewhere(s, fd, fn, td, tn) ==> FindChild(t, fd, fn) == None)
            && forall p | p in t.ids :: t.ids[p] == id.value || (p in s.ids && t.ids[p] == s.ids[p])
  {
    var (symbols1, oldsym) := Intern(s.symbols, fn);
    var (symbols2, newsym) := Intern(symbols1, tn);
    BothInterned(s, fn, tn);
    var from, to := s.entries[fd].name + [oldsym], s.entries[td].name + [newsym];
    hide Intern, IndexOf, Interned, IdsFresh, SymbolsSound;
    var t := AfterMove(s, fd, fn, td, tn);
    var id := FindChild(s, fd, fn).value;
    assert s.ids[from] == id;
    assert t.symbols == symbols2 && t.ids == (s.ids - {from})[to := id];
    assert id != fd && t.entries[fd].name == s.entries[fd].name;
    assert id != td ==> t.entries[td].name == s.entries[td].name;
    assert from == to ==> s.entries[fd].name == from[..|from| - 1] == s.entries[td].name && oldsym == newsym;
  }

  lemma BothInterned(s: State, fn: Name, tn: Name)
    ensures var (symbols1, oldsym) := Intern(s.symbols, fn);
            var (symbols2, newsym) := Intern(symbols1, tn);
            && fn in symbols2 && IndexOf(symbols2, fn) == oldsym && tn in symbols2 && IndexOf(symbols2, tn) == newsym
            && (oldsym == newsym ==> fn == tn)
            && (fn in s.symbols ==> IndexOf(s.symbols, fn) == oldsym)
  {
    var symbols1 := Intern(s.symbols, fn).0;
    InternedIndex(s, fn);
    InternedIndex(s.(symbols := symbols1), tn);
    IndexOfStable(symbols1, Intern(symbols1, tn).0, fn);
  }

  /** What is found after a refresh was found before it. */
  lemma RefreshFindsNoMore(s: State, id: Fileid, stat: Stat, dirid: Fileid, name: Name)
    ensures var t := RefreshEntry(s, id, stat).0;
            FindChild(t, dirid, name).Some? ==> FindChild(t, dirid, name) == FindChild(s, dirid, name)
  {
    hide RefreshEntry;
    RefreshOnlyDrops(s, id, stat);
  }

  /**
   A renamed file keeps its id: the new name finds the id the old name had if both directories are still live after
   the rename, and nothing else at any rate, unless the entry moved is the target directory; the old name finds
   nothing; and no other path changed its id.
   */
  lemma RenameThenFind(s: State, op: Op)
    requires Sound(s) && op.DoRename? && op.fromDirid in s.entries && op.toDirid in s.entries && op.renamed.Renamed?
    requires FindChild(s, op.fromDirid, op.fromName).Some?
    ensures var t, id := Apply(s, op), FindChild(s, op.fromDirid, op.fromName);
            && (id != Some(op.toDirid) ==>
                  && FindChild(t, op.toDirid, op.toName) in {None, id}
                  && (op.fromDirid in t.entries && op.toDirid in t.entries ==>
                        FindChild(t, op.toDirid, op.toName) == id))
            && (Elsewhere(s, op.fromDirid, op.fromName, op.toDirid, op.toName) ==>
                  FindChild(t, op.fromDirid, op.fromName) == None)
            && forall p | p in t.ids :: t.ids[p] == id.value || (p in s.ids && t.ids[p] == s.ids[p])
  {
    hide RefreshEntry, AfterMove, FindChild, Sound, Elsewhere;
    var (fd, td) := (op.fromDirid, op.toDirid);
    var s2 := AfterMove(s, fd, op.fromName, td, op.toName);
    var s3 := RefreshEntry(s2, fd, op.fromStat).0;
    var t := Apply(s, op);
    MoveThenFind(s, fd, op.fromName, td, op.toName);
    RefreshOnlyDrops(s2, fd, op.fromStat);
    RefreshFindsNoMore(s2, fd, op.fromStat, td, op.toName);
    RefreshFindsNoMore(s2, fd, op.fromStat, fd, op.fromName);
    if td != fd {
      RefreshOnlyDrops(s3, td, op.toStat);
      RefreshFindsNoMore(s3, td, op.toStat, td, op.toName);
      RefreshFindsNoMore(s3, td, op.toStat, fd, op.fromName);
    }
    if fd in t.entries && td in t.entries {
      RefreshKeepsFinding(s2, fd, op.fromStat, td, op.toName);
      if td != fd { RefreshKeepsFinding(s3, td, op.toStat, td, op.toName); }
    }
  }

  // ---- cached child sets ----

  /** Of the entries live in both states, only these directories' cached child sets may differ. */
  ghost predicate SameLists(s: State, t: State, dirs: set<Fileid>)
  {
    forall i | i in s.entries && i in t.entries && i !in dirs :: t.entries[i].children == s.entries[i].children
  }

  function With(kids: Option<set<Fileid>>, id: Fileid): Option<set<Fileid>>
  {
    if kids.None? then None else Some(kids.value + {id})
  }

  function Without(kids: Option<set<Fileid>>, id: Fileid): Option<set<Fileid>>
  {
    if kids.None? then None else Some(kids.value - {id})
  }

  /** A created object joins its directory's cached child set; no other is touched. */
  lemma CreateJoinsList(s: State, dirid: Fileid, name: Name, made: Outcome<()>, stat: Stat, meta: Option<Metadata>)
    requires Sound(s)
    ensures var (t, r) := CreateFsObject(s, dirid, name, made, stat, meta);
            && SameLists(s, t, {dirid})
            && (r.Done? ==>
                  dirid in s.entries && dirid in t.entries
                  && t.entries[dirid].children == With(s.entries[dirid].children, r.value))
  {
    hide RefreshEntry, Intern, Interned, CreateNamed, Grows;
    if dirid in s.entries && made.Done? && meta.Some? {
      RefreshOnlyDrops(s, dirid, stat);
      RefreshSound(s, dirid, stat);
      var s1 := RefreshEntry(s, dirid, stat).0;
      CreatedMeta(s1, s.entries[dirid].name, name, meta.value);
      var (s2, id) := CreateNamed(s1, s.entries[dirid].name, name, meta.value);
      assert id !in s1.entries ==> id !in s.entries;
    } else if dirid in s.entries && made.Done? {
      RefreshOnlyDrops(s, dirid, stat);
    }
  }

  /** A removed file leaves its directory's cached child set; no other is touched. */
  lemma RemoveLeavesList(s: State, dirid: Fileid, name: Name, answer: RemoveAnswer, stat: Stat)
    requires Sound(s)
    ensures var (t, r), gone := Remove(s, dirid, name, answer, stat), FindChild(s, dirid, name);
            && SameLists(s, t, {dirid})
            && (r.Done? && dirid in t.entries ==>
                  t.entries[dirid].children == if gone.None? then s.entries[dirid].children
                                               else Without(s.entries[dirid].children, gone.value))
  {
    hide RefreshEntry, Intern, IndexOf, Interned;
    if dirid in s.entries {
      InternedIndex(s, name);
      NewNameUnknown(s, dirid, name);
      RefreshOnlyDrops(AfterRemove(s, dirid, name), dirid, stat);
    }
  }

  /** What interning a name makes of find_child's path: if it finds nothing, nothing is mapped there. */
  lemma NewNameUnknown(s: State, dirid: Fileid, name: Name)
    requires Sound(s) && dirid in s.entries
    ensures var path := s.entries[dirid].name + [Intern(s.symbols, name).1];
            FindChild(s, dirid, name) == if path in s.ids then Some(s.ids[path]) else None
  {
    hide IdsFresh, IndexOf;
    var path := s.entries[dirid].name + [Intern(s.symbols, name).1];
    assert path in s.ids ==> path[|path| - 1] < |s.symbols|;
  }

  /** What a move between two directories makes of an entry's cached child set. */
  function MovedKids(kids: Option<set<Fileid>>, i: Fileid, fd: Fileid, td: Fileid, id: Fileid): Option<set<Fileid>>
  {
    if fd == td then kids else if i == fd then Without(kids, id) else if i == td then With(kids, id) else kids
  }

  /** The moved id changes path and directory; nothing else changes. */
  ghost predicate MovedChild(s: State, t: State, fd: Fileid, td: Fileid, id: Fileid)
  {
    && t.entries.Keys == s.entries.Keys
    && forall i | i in s.entries ::
         && t.entries[i] == s.entries[i].(name := t.entries[i].name,
                                          children := MovedKids(s.entries[i].children, i, fd, td, id))
         && (i != id ==> t.entries[i].name == s.entries[i].name)
  }

  lemma MoveMovesChild(s: State, fd: Fileid, from: Path, td: Fileid, to: Path)
    requires fd in s.entries && td in s.entries && from in s.ids && s.ids[from] in s.entries
    ensures MovedChild(s, Move(s, fd, from, td, to), fd, td, s.ids[from])
  {
    hide AddChild, DropChild, With, Without;
    var id := s.ids[from];
    var s1 := s.(entries := s.entries[id := s.entries[id].(name := to)], ids := (s.ids - {from})[to := id]);
    if fd != td {
      DropsChild(s1, fd, id);
      AddsChild(DropChild(s1, fd, id), td, id);
    }
  }

  lemma AddsChild(s: State, d: Fileid, id: Fileid)
    ensures var t := AddChild(s, d, id);
            t.entries.Keys == s.entries.Keys
            && forall i | i in s.entries ::
                 t.entries[i] == s.entries[i].(children := if i == d then With(s.entries[i].children, id)
                                                           else s.entries[i].children)
  {}

  lemma DropsChild(s: State, d: Fileid, id: Fileid)
    ensures var t := DropChild(s, d, id);
            t.entries.Keys == s.entries.Keys
            && forall i | i in s.entries ::
                 t.entries[i] == s.entries[i].(children := if i == d then Without(s.entries[i].children, id)
                                                           else s.entries[i].children)
  {}

  lemma AfterMoveMovesChild(s: State, fd: Fileid, fn: Name, td: Fileid, tn: Name)
    requires Sound(s) && fd in s.entries && td in s.entries && FindChild(s, fd, fn).Some?
    ensures MovedChild(s, AfterMove(s, fd, fn, td, tn), fd, td, FindChild(s, fd, fn).value)
  {
    BothInterned(s, fn, tn);
    hide Intern, IndexOf, Interned, SymbolsSound, IdsFresh, Move;
    var (symbols1, oldsym) := Intern(s.symbols, fn);
    var (symbols2, newsym) := Intern(symbols1, tn);
    MoveMovesChild(s.(symbols := symbols2), fd, s.entries[fd].name + [oldsym], td, s.entries[td].name + [newsym]);
  }

  /**
   A renamed file moves from the cached child set of one directory to that of the other, within one directory none
   changes; no other entry changes at all, but for the path of the one moved.
   */
  lemma RenameMovesChild(s: State, op: Op)
    requires Sound(s) && op.DoRename? && op.fromDirid in s.entries && op.toDirid in s.entries && op.renamed.Renamed?
    requires FindChild(s, op.fromDirid, op.fromName).Some?
    ensures var t, id := Apply(s, op), FindChild(s, op.fromDirid, op.fromName).value;
            var fd, td := op.fromDirid, op.toDirid;
            && (fd == td ==> SameLists(s, t, {}))
            && (fd != td ==>
                  && SameLists(s, t, {fd, td})
                  && (fd in t.entries ==>
                        t.entries[fd].children == Without(s.entries[fd].children, id))
                  && (td in t.entries ==>
                        t.entries[td].children == With(s.entries[td].children, id)))
            && (forall i | i in t.entries :: i in s.entries && (i != id ==> t.entries[i].name == s.entries[i].name))
            && forall i | i in t.entries && i != fd && i != td ::
                 t.entries[i] == s.entries[i].(name := t.entries[i].name)
  {
    hide RefreshEntry, AfterMove, FindChild, Sound;
    var (fd, td) := (op.fromDirid, op.toDirid);
    AfterMoveMovesChild(s, fd, op.fromName, td, op.toName);
    var s2 := AfterMove(s, fd, op.fromName, td, op.toName);
    var s3 := RefreshEntry(s2, fd, op.fromStat).0;
    RefreshOnlyDrops(s2, fd, op.fromStat);
    RefreshOnlyDrops(s3, td, op.toStat);
  }

  // ---- the metadata a listing is compared with ----

  /** Entries live in both states were made with the same metadata. */
  ghost predicate SameStamps(s: State, t: State)
  {
    forall i | i in s.entries && i in t.entries :: t.entries[i].childrenMeta == s.entries[i].childrenMeta
  }

  lemma StampsJoin(s: State, t: State, u: State)
    requires SameStamps(s, t) && SameStamps(t, u) && Grows(t, u) && Grows(s, t) && IdsFresh(s)
    ensures SameStamps(s, u)
  {}

  lemma CreateNamedStamps(s: State, dir: Path, name: Name, meta: Metadata)
    requires IdsFresh(s)
    ensures SameStamps(s, CreateNamed(s, dir, name, meta).0)
  {
    hide Intern;
  }

  lemma {:induction false} CreateAllStamps(s: State, dir: Path, found: seq<(Name, Metadata)>, kids: set<Fileid>)
    requires Sound(s) && Interned(s.symbols, dir) && forall c | c in kids :: 0 < c < s.next
    ensures SameStamps(s, CreateAll(s, dir, found, kids).0)
    decreases |found|
  {
    hide PathsSound, SymbolsSound, IdsFresh, Interned, CreateNamed, SameStamps, Grows;
    if found != [] {
      var (s1, id) := CreateNamed(s, dir, found[0].0, found[0].1);
      CreateNamedSound(s, dir, found[0].0, found[0].1);
      CreateNamedStamps(s, dir, found[0].0, found[0].1);
      CreateAllStamps(s1, dir, found[1..], kids + {id});
      CreateAllSound(s1, dir, found[1..], kids + {id});
      StampsJoin(s, s1, CreateAll(s, dir, found, kids).0);
    } else {
      StampsReflexive(s);
    }
  }

  lemma StampsReflexive(s: State)
    ensures SameStamps(s, s)
  {}

  lemma RelistStamps(s: State, id: Fileid, listing: DirListing)
    requires Sound(s)
    ensures SameStamps(s, RefreshDirList(s, id, listing).0)
  {
    hide PathsSound, IdsFresh, Interned, CreateAll, Differ;
    if id in s.entries && listing.Listed? {
      assert Interned(s.symbols, s.entries[id].name);
      CreateAllStamps(s, s.entries[id].name, listing.found, {});
    }
  }

  lemma RefreshStamps(s: State, id: Fileid, stat: Stat)
    ensures SameStamps(s, RefreshEntry(s, id, stat).0)
  {
    hide Reaches;
  }

  lemma CreateFsObjectStamps(s: State, op: Op)
    requires Sound(s) && op.DoCreate?
    ensures SameStamps(s, Apply(s, op))
  {
    hide RefreshEntry, CreateNamed, Intern, PathsSound, SymbolsSound, IdsFresh, Grows;
    if op.dirid in s.entries && op.made.Done? {
      RefreshSound(s, op.dirid, op.stat);
      RefreshStamps(s, op.dirid, op.stat);
      if op.newMeta.Some? {
        var s1 := RefreshEntry(s, op.dirid, op.stat).0;
        var dir := s.entries[op.dirid].name;
        InternedStays(s, s1, op.dirid);
        CreateNamedSound(s1, dir, op.name, op.newMeta.value);
        CreateNamedStamps(s1, dir, op.name, op.newMeta.value);
        StampsJoin(s, s1, CreateNamed(s1, dir, op.name, op.newMeta.value).0);
      }
    }
  }

  lemma InternedStays(s: State, t: State, id: Fileid)
    requires Sound(s) && id in s.entries && t.symbols == s.symbols
    ensures Interned(t.symbols, s.entries[id].name)
  {}

  lemma AfterMoveStamps(s: State, fd: Fileid, fn: Name, td: Fileid, tn: Name)
    requires fd in s.entries && td in s.entries
    ensures SameStamps(s, AfterMove(s, fd, fn, td, tn)) && AfterMove(s, fd, fn, td, tn).entries.Keys == s.entries.Keys
  {
    hide Intern;
  }

  /** No operation updates the metadata a directory's listing is compared with. */
  lemma ApplyStamps(s: State, op: Op)
    requires Sound(s)
    ensures SameStamps(s, Apply(s, op))
  {
    hide Sound, SameStamps, RefreshEntry, RefreshDirList, AfterMove, CreateFsObject, FindChild, Grows;
    StampsReflexive(s);
    SoundIsFresh(s);
    match op
    case DoLookup(dirid, name, exists_, stat, listing) => RefreshRelistStamps(s, dirid, stat, listing);
    case DoGetAttr(id, stat) => RefreshStamps(s, id, stat);
    case DoSetAttr(id, applied, meta) => SetAttrStamps(s, id, applied, meta);
    case DoReadDir(dirid, stat, listing) => RefreshRelistStamps(s, dirid, stat, listing);
    case DoCreate(dirid, name, made, stat, meta) => CreateFsObjectStamps(s, op);
    case DoRemove(dirid, name, answer, stat) => RemoveStamps(s, dirid, name, answer, stat);
    case DoRename(fd, fn, td, tn, answer, fs, ts) => RenameStamps(s, op);
  }

  lemma SoundIsFresh(s: State)
    requires Sound(s)
    ensures IdsFresh(s)
  {}

  lemma SetAttrStamps(s: State, id: Fileid, applied: Outcome<()>, meta: Option<Metadata>)
    ensures SameStamps(s, SetAttr(s, id, applied, meta).0)
  {}

  lemma RefreshRelistStamps(s: State, id: Fileid, stat: Stat, listing: DirListing)
    requires Sound(s)
    ensures SameStamps(s, RefreshEntry(s, id, stat).0)
    ensures SameStamps(s, RefreshDirList(RefreshEntry(s, id, stat).0, id, listing).0)
  {
    hide Sound, SameStamps, RefreshEntry, RefreshDirList, Grows;
    SoundIsFresh(s);
    RefreshSound(s, id, stat);
    RefreshStamps(s, id, stat);
    var s1 := RefreshEntry(s, id, stat).0;
    RelistSound(s1, id, listing);
    RelistStamps(s1, id, listing);
    StampsJoin(s, s1, RefreshDirList(s1, id, listing).0);
  }

  lemma RemoveStamps(s: State, dirid: Fileid, name: Name, answer: RemoveAnswer, stat: Stat)
    ensures SameStamps(s, Remove(s, dirid, name, answer, stat).0)
  {
    hide RefreshEntry, Intern;
    if dirid in s.entries {
      RefreshOnlyDrops(AfterRemove(s, dirid, name), dirid, stat);
      RefreshStamps(AfterRemove(s, dirid, name), dirid, stat);
    }
  }

  lemma RenameStamps(s: State, op: Op)
    requires op.DoRename?
    ensures SameStamps(s, Apply(s, op))
  {
    hide RefreshEntry, AfterMove;
    var (fd, td) := (op.fromDirid, op.toDirid);
    if fd in s.entries && td in s.entries {
      AfterMoveStamps(s, fd, op.fromName, td, op.toName);
      var s2 := AfterMove(s, fd, op.fromName, td, op.toName);
      var s3 := RefreshEntry(s2, fd, op.fromStat).0;
      RefreshOnlyDrops(s2, fd, op.fromStat);
      RefreshStamps(s2, fd, op.fromStat);
      RefreshOnlyDrops(s3, td, op.toStat);
      RefreshStamps(s3, td, op.toStat);
    }
  }

  /** So over every run a directory is compared with the metadata it was made with, however often it was listed. */
  lemma {:induction false} RunStamps(s: State, ops: seq<Op>)
    requires Sound(s)
    ensures SameStamps(s, Run(s, ops))
    decreases |ops|
  {
    hide Sound, Apply, SameStamps, Grows;
    StampsReflexive(s);
    SoundIsFresh(s);
    if ops != [] {
      var t := Apply(s, ops[0]);
      ApplySound(s, ops[0]);
      ApplyStamps(s, ops[0]);
      AllRunsSound(t, ops[1..]);
      RunStamps(t, ops[1..]);
      StampsJoin(s, t, Run(t, ops[1..]));
    }
  }
}
