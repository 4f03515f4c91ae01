/** When the operations on the cache succeed, with which status they fail, and what a failure leaves. */
module FsMapOutcomes {
  import opened Bytes
  import opened Nfs
  import opened ReadDirPlus
  import opened FsMap
  import opened FsMapSafety
  import opened FsMapCollect
  import opened FsMapEffects

  // ---- listing a directory ----

  /**
   A cached child set is kept as long as the directory looks as it did, or is not a directory, or the disk gives no
   listing; otherwise a complete listing replaces it by the ids of the names found.
   */
  lemma RelistOutcome(s: State, id: Fileid, listing: DirListing)
    requires Sound(s)
    ensures var (t, r) := RefreshDirList(s, id, listing);
            && (id !in s.entries ==> t == s && r == Failed(NFS3ERR_NOENT))
            && (id in s.entries && (!Relists(s, id) || listing.NoListing?) ==> t == s && r == Done(()))
            && (Relists(s, id) && listing.Listed? && !listing.complete ==> r == Failed(NFS3ERR_IO))
            && (Relists(s, id) && listing.Listed? && listing.complete ==>
                  && r == Done(()) && id in t.entries
                  && t.entries[id].children == Some(IdsOf(t, s.entries[id].name, ListedNames(listing.found)))
                  && t.entries[id].fsmeta.meta.ftype == NF3DIR)
  {
    hide CreateAll, Interned, IdsOf, PathsSound, IdsFresh;
    if Relists(s, id) && listing.Listed? {
      var dir := s.entries[id].name;
      assert Interned(s.symbols, dir);
      CreateAllKnows(s, dir, listing.found, {});
      CreateAllSound(s, dir, listing.found, {});
      CreateAllKeepsDir(s, dir, listing.found, {}, id);
      var (s1, kids) := CreateAll(s, dir, listing.found, {});
      assert kids == IdsOf(s1, dir, ListedNames(listing.found));
      if listing.complete { SameIds(s1, SetChildren(s1, id, Some(kids)), dir, ListedNames(listing.found)); }
    }
  }

  /** What is known depends on the symbols and the paths only. */
  lemma SameIds(s: State, t: State, dir: Path, names: set<Name>)
    requires t.symbols == s.symbols && t.ids == s.ids
    ensures IdsOf(t, dir, names) == IdsOf(s, dir, names)
    ensures forall n :: Known(t, dir, n) <==> Known(s, dir, n)
  {
    assert forall n :: Known(t, dir, n) <==> Known(s, dir, n);
    assert forall n | Known(s, dir, n) :: KnownId(t, dir, n) == KnownId(s, dir, n);
  }

  /** The names found in a directory are entries of it, so its own metadata stays. */
  lemma {:induction false} CreateAllKeepsDir(s: State, dir: Path, found: seq<(Name, Metadata)>, kids: set<Fileid>,
                                             id: Fileid)
    requires Sound(s) && Interned(s.symbols, dir) && id in s.entries && s.entries[id].name == dir
    requires forall c | c in kids :: 0 < c < s.next
    ensures var t := CreateAll(s, dir, found, kids).0; id in t.entries && t.entries[id] == s.entries[id]
    decreases |found|
  {
    hide Sound, Interned, CreateNamed, Grows;
    if found != [] {
      var (s1, c) := CreateNamed(s, dir, found[0].0, found[0].1);
      CreateNamedSound(s, dir, found[0].0, found[0].1);
      CreateNamedKeepsDir(s, dir, found[0].0, found[0].1, id);
      CreateAllKeepsDir(s1, dir, found[1..], kids + {c}, id);
    }
  }

  lemma CreateNamedKeepsDir(s: State, dir: Path, name: Name, meta: Metadata, id: Fileid)
    requires Sound(s) && id in s.entries && s.entries[id].name == dir
    ensures var t := CreateNamed(s, dir, name, meta).0; id in t.entries && t.entries[id] == s.entries[id]
  {
    hide SymbolsSound, Intern;
    var path := dir + [Intern(s.symbols, name).1];
    assert |path| == |dir| + 1;
  }

  /** What readdir pages through, or the status it fails with. */
  lemma ReadDirOutcome(s: State, dirid: Fileid, stat: Stat, listing: DirListing)
    requires Sound(s)
    ensures var (t, r) := ReadDirChildren(s, dirid, stat, listing);
            var s1 := RefreshEntry(s, dirid, stat).0;
            && (dirid !in s.entries || Deletes(s, dirid, stat) ==> r == Failed(NFS3ERR_NOENT))
            && (dirid in s.entries && stat.Unreadable? ==> r == Failed(NFS3ERR_IO) && t == s)
            && (dirid in s.entries && stat.Found? && !Deletes(s, dirid, stat) ==>
                  && dirid in s1.entries
                  && (stat.meta.ftype != NF3DIR ==> r == Failed(NFS3ERR_NOTDIR) && t == s1)
                  && (stat.meta.ftype == NF3DIR && (!Relists(s1, dirid) || listing.NoListing?) ==>
                        && t == s1
                        && r == match s1.entries[dirid].children
                                case None => Failed(NFS3ERR_IO)
                                case Some(kids) => Done(kids))
                  && (Relists(s1, dirid) && listing.Listed? ==>
                        r == if listing.complete
                             then Done(IdsOf(t, s1.entries[dirid].name, ListedNames(listing.found)))
                             else Failed(NFS3ERR_IO)))
  {
    hide Relists, RefreshDirList, Sound, IdsOf, Reaches;
    RefreshSound(s, dirid, stat);
    var s1 := RefreshEntry(s, dirid, stat).0;
    RelistOutcome(s1, dirid, listing);
    if dirid in s.entries { ReachesItself(s.entries, dirid); }
    RelistsDirectories(s1, dirid);
  }

  /** A readdir that lists the directory anew shows each name with the metadata the disk gave for it. */
  lemma RelistedMetadata(s: State, dirid: Fileid, stat: Stat, listing: DirListing, i: nat)
    requires Sound(s) && Relists(RefreshEntry(s, dirid, stat).0, dirid) && listing.Listed? && i < |listing.found|
    requires forall j | i < j < |listing.found| :: listing.found[j].0 != listing.found[i].0
    ensures var t := ReadDirChildren(s, dirid, stat, listing).0;
            var dir := RefreshEntry(s, dirid, stat).0.entries[dirid].name;
            var (name, meta) := listing.found[i];
            RefreshEntry(s, dirid, stat).1.Done? ==>
              && Known(t, dir, name)
              && var id := KnownId(t, dir, name); id in t.entries && t.entries[id].fsmeta == Attr(id, meta)
  {
    hide RefreshEntry, CreateAll, Interned, PathsSound, IdsFresh;
    RefreshSound(s, dirid, stat);
    var s1 := RefreshEntry(s, dirid, stat).0;
    var dir := s1.entries[dirid].name;
    assert Interned(s1.symbols, dir);
    ListedMetadata(s1, dir, listing.found, {}, i);
    if RefreshEntry(s, dirid, stat).1.Done? {
      SameIds(CreateAll(s1, dir, listing.found, {}).0, ReadDirChildren(s, dirid, stat, listing).0, dir, {});
    }
  }

  lemma RelistsDirectories(s: State, id: Fileid)
    ensures Relists(s, id) ==> id in s.entries && s.entries[id].fsmeta.meta.ftype == NF3DIR
  {}

  // ---- the other operations ----

  lemma LookupOutcome(s: State, dirid: Fileid, name: Name, exists_: bool, stat: Stat, listing: DirListing)
    requires Sound(s)
    ensures var (t, r) := Lookup(s, dirid, name, exists_, stat, listing);
            var hit := FindChild(s, dirid, name);
            && (hit.Some? ==> r == Done(hit.value) && t == s)
            && (hit.None? && (dirid !in s.entries || !exists_) ==> r == Failed(NFS3ERR_NOENT) && t == s)
            && (hit.None? && dirid in s.entries && exists_ ==>
                  && (stat.Unreadable? ==> r == Failed(NFS3ERR_IO) && t == s)
                  && (Deletes(s, dirid, stat) ==> r == Failed(NFS3ERR_NOENT) && dirid !in t.entries)
                  && (stat.Found? && !Deletes(s, dirid, stat) ==>
                        r == match FindChild(t, dirid, name)
                             case None => Failed(NFS3ERR_NOENT)
                             case Some(id) => Done(id)))
  {
    hide RefreshDirList, FindChild, Reaches;
    HitsAreLive(s, dirid, name, []);
    if dirid in s.entries { ReachesItself(s.entries, dirid); }
  }

  /** setattr answers and keeps what the disk reports afterwards; a failure changes nothing. */
  lemma SetAttrOutcome(s: State, id: Fileid, applied: Outcome<()>, meta: Option<Metadata>)
    ensures var (t, r) := SetAttr(s, id, applied, meta);
            && (id !in s.entries ==> r == Failed(NFS3ERR_NOENT))
            && (id in s.entries && applied.Failed? ==> r == Failed(applied.stat))
            && (id in s.entries && applied.Done? && meta.None? ==> r == Failed(NFS3ERR_IO))
            && (id in s.entries && applied.Done? && meta.Some? ==>
                  && r == Done(Attr(id, meta.value)) && t.ids == s.ids && t.entries.Keys == s.entries.Keys
                  && t.entries[id] == s.entries[id].(fsmeta := Attr(id, meta.value))
                  && forall i | i in s.entries && i != id :: t.entries[i] == s.entries[i])
            && (r.Failed? ==> t == s)
  {}

  /** Creation fails before the disk did it with the disk's status, and after it only if the directory is lost. */
  lemma CreateOutcome(s: State, dirid: Fileid, name: Name, made: Outcome<()>, stat: Stat, meta: Option<Metadata>)
    requires Sound(s)
    ensures var (t, r) := CreateFsObject(s, dirid, name, made, stat, meta);
            && (dirid !in s.entries ==> r == Failed(NFS3ERR_NOENT) && t == s)
            && (dirid in s.entries && made.Failed? ==> r == Failed(made.stat) && t == s)
            && (dirid in s.entries && made.Done? && meta.None? ==> r == Failed(NFS3ERR_IO))
            && (dirid in s.entries && made.Done? && meta.Some? ==>
                  (r.Done? <==> !Deletes(s, dirid, stat)) && (r.Failed? ==> r == Failed(NFS3ERR_NOENT)))
  {
    hide Intern, Interned, Reaches, CreateNamed;
    if dirid in s.entries && made.Done? && meta.Some? {
      var dir := s.entries[dirid].name;
      ReachesItself(s.entries, dirid);
      RefreshSound(s, dirid, stat);
      var s1 := RefreshEntry(s, dirid, stat).0;
      assert Interned(s1.symbols, dir);
      CreateNamedSound(s1, dir, name, meta.value);
    }
  }

  /** Once the disk has removed the file, remove succeeds; until then it changes nothing. */
  lemma RemoveOutcome(s: State, dirid: Fileid, name: Name, answer: RemoveAnswer, stat: Stat)
    ensures var (t, r) := Remove(s, dirid, name, answer, stat);
            && (r.Done? <==> dirid in s.entries && answer.Removed?)
            && (dirid !in s.entries || answer.NothingThere? ==> r == Failed(NFS3ERR_NOENT))
            && (dirid in s.entries && answer.NotRemoved? ==> r == Failed(NFS3ERR_IO))
            && (r.Failed? ==> t == s)
  {
    hide RefreshEntry, AfterRemove;
  }

  /** Once the disk has renamed the file, rename succeeds; until then it changes nothing. */
  lemma RenameOutcome(s: State, fd: Fileid, fn: Name, td: Fileid, tn: Name, answer: RenameAnswer, fs: Stat, ts: Stat)
    ensures var (t, r) := Rename(s, fd, fn, td, tn, answer, fs, ts);
            && (r.Done? <==> fd in s.entries && td in s.entries && answer.Renamed?)
            && (fd !in s.entries || td !in s.entries || answer.NoTargetDir? || answer.NoSource? ==>
                  r == Failed(NFS3ERR_NOENT))
            && (fd in s.entries && td in s.entries && answer.NotRenamed? ==> r == Failed(NFS3ERR_IO))
            && (r.Failed? ==> t == s)
  {
    hide RefreshEntry, AfterMove;
  }

  // ---- the directories are refreshed after a change ----

  /** The entry is forgotten if the disk has lost or retyped it, and otherwise looks as it does on the disk. */
  ghost predicate UpToDate(s: State, t: State, id: Fileid, stat: Stat)
    requires id in s.entries
  {
    && (Deletes(s, id, stat) ==> id !in t.entries)
    && (id in t.entries && stat.Found? ==> LooksSame(t.entries[id].fsmeta.meta, stat.meta))
  }

  lemma RefreshRefreshes(s: State, id: Fileid, stat: Stat)
    requires id in s.entries
    ensures UpToDate(s, RefreshEntry(s, id, stat).0, id, stat)
    ensures !Deletes(s, id, stat) ==> id in RefreshEntry(s, id, stat).0.entries
  {
    hide Reaches;
    ReachesItself(s.entries, id);
  }

  /** A creation that reached the disk refreshes its directory. */
  lemma CreateRefreshes(s: State, dirid: Fileid, name: Name, made: Outcome<()>, stat: Stat, meta: Option<Metadata>)
    requires Sound(s) && dirid in s.entries && made.Done?
    ensures UpToDate(s, CreateFsObject(s, dirid, name, made, stat, meta).0, dirid, stat)
  {
    hide RefreshEntry, Intern, CreateNamed, SymbolsSound, PathsSound;
    RefreshSound(s, dirid, stat);
    RefreshRefreshes(s, dirid, stat);
    RefreshOnlyDrops(s, dirid, stat);
    var s1 := RefreshEntry(s, dirid, stat).0;
    if meta.Some? {
      var dir := s.entries[dirid].name;
      if dirid in s1.entries {
        CreateNamedKeepsDir(s1, dir, name, meta.value, dirid);
      } else {
        CreateMakesOne(s1, dir, name, meta.value, dirid);
      }
    }
  }

  /** The only id a creation can make live is the next one, or one that a path has. */
  lemma CreateMakesOne(s: State, dir: Path, name: Name, meta: Metadata, id: Fileid)
    requires Sound(s) && id !in s.entries && id < s.next
    ensures id !in CreateNamed(s, dir, name, meta).0.entries
  {
    hide SymbolsSound, Intern;
  }

  /** A removal refreshes its directory. */
  lemma RemoveRefreshes(s: State, dirid: Fileid, name: Name, answer: RemoveAnswer, stat: Stat)
    requires Sound(s)
    ensures var (t, r) := Remove(s, dirid, name, answer, stat); r.Done? ==> UpToDate(s, t, dirid, stat)
  {
    hide RefreshEntry, Intern, Interned, SymbolsSound;
    if Remove(s, dirid, name, answer, stat).1.Done? {
      RefreshRefreshes(AfterRemove(s, dirid, name), dirid, stat);
    }
  }

  /** A rename refreshes both directories. */
  lemma RenameRefreshes(s: State, fd: Fileid, fn: Name, td: Fileid, tn: Name, answer: RenameAnswer, fs: Stat, ts: Stat)
    ensures var (t, r) := Rename(s, fd, fn, td, tn, answer, fs, ts);
            r.Done? ==> UpToDate(s, t, fd, fs) && (fd != td ==> UpToDate(s, t, td, ts))
  {
    hide RefreshEntry, AfterMove;
    if Rename(s, fd, fn, td, tn, answer, fs, ts).1.Done? {
      var s2 := AfterMove(s, fd, fn, td, tn);
      var s3 := RefreshEntry(s2, fd, fs).0;
      AfterMoveKeepsMeta(s, fd, fn, td, tn);
      RefreshRefreshes(s2, fd, fs);
      RefreshOnlyDrops(s2, fd, fs);
      RefreshOnlyDrops(s3, td, ts);
      if td in s3.entries { RefreshRefreshes(s3, td, ts); }
    }
  }

  lemma AfterMoveKeepsMeta(s: State, fd: Fileid, fn: Name, td: Fileid, tn: Name)
    requires fd in s.entries && td in s.entries
    ensures var t := AfterMove(s, fd, fn, td, tn);
            t.entries.Keys == s.entries.Keys
            && forall i | i in s.entries :: t.entries[i].fsmeta == s.entries[i].fsmeta
  {
    hide Intern;
  }
}
