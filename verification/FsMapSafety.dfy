/** What every run of the cache keeps. */
module FsMapSafety {
  import opened Bytes
  import opened ReadDirPlus
  import opened FsMap

  // ---- the invariant of all runs ----

  /** Every mapped path leads to a live entry carrying that exact path. */
  ghost predicate PathsSound(s: State)
  {
    forall p | p in s.ids :: s.ids[p] in s.entries && s.entries[s.ids[p]].name == p
  }

  /** Ids in use were handed out already; id 0 is the root's, and no child's; the others' attributes carry their id. */
  ghost predicate IdsFresh(s: State)
  {
    && 0 < s.next
    && (forall i | i in s.entries :: i < s.next && (i == 0 <==> s.entries[i].name == []))
    && (forall i | i in s.entries && i != 0 :: s.entries[i].fsmeta.fileid == i)
    && (forall i | i in s.entries && s.entries[i].children.Some? ::
          forall c | c in s.entries[i].children.value :: 0 < c < s.next)
  }

  ghost predicate Interned(symbols: seq<Name>, path: Path)
  {
    forall k | 0 <= k < |path| :: path[k] < |symbols|
  }

  /** Names are interned once, and every symbol of a live path resolves to one. */
  ghost predicate SymbolsSound(s: State)
  {
    && (forall i, j | 0 <= i < j < |s.symbols| :: s.symbols[i] != s.symbols[j])
    && (forall i | i in s.entries :: Interned(s.symbols, s.entries[i].name))
  }

  ghost predicate Sound(s: State) { PathsSound(s) && IdsFresh(s) && SymbolsSound(s) }

  /** The operations never hand out an id again: what is live was live, or is new. */
  ghost predicate Grows(s: State, t: State)
  {
    && s.next <= t.next && s.symbols <= t.symbols
    && forall i | i in t.entries :: i in s.entries || s.next <= i < t.next
  }

  lemma SoundInit(meta: Metadata)
    ensures Sound(Init(meta))
  {}

  lemma InternSound(s: State, name: Name)
    requires Sound(s)
    ensures Sound(s.(symbols := Intern(s.symbols, name).0))
    ensures Grows(s, s.(symbols := Intern(s.symbols, name).0))
  {
    var t := s.(symbols := Intern(s.symbols, name).0);
    forall i | i in t.entries ensures Interned(t.symbols, t.entries[i].name) {
      assert Interned(s.symbols, s.entries[i].name);
    }
  }

  lemma DeleteSound(s: State, id: Fileid)
    requires Sound(s)
    ensures Sound(DeleteEntry(s, id)) && Grows(s, DeleteEntry(s, id))
  {
    hide Doomed, Interned;
    var t := DeleteEntry(s, id);
    forall p | p in s.ids && s.ids[p] in Doomed(s, id) ensures p !in t.ids {
      assert s.entries[s.ids[p]].name in NamesOf(s, Doomed(s, id));
    }
  }

  /** Updating one entry's metadata or child set. */
  lemma UpdateSound(s: State, id: Fileid, entry: Entry)
    requires Sound(s) && id in s.entries && entry.name == s.entries[id].name
    requires entry.fsmeta.fileid == id || entry.fsmeta == s.entries[id].fsmeta
    requires entry.children.Some? ==> forall c | c in entry.children.value :: 0 < c < s.next
    ensures var t := s.(entries := s.entries[id := entry]); Sound(t) && Grows(s, t)
  {
    hide Interned;
  }

  lemma UpdateMetaSound(s: State, id: Fileid, meta: Metadata)
    requires Sound(s) && id in s.entries
    ensures var t := s.(entries := s.entries[id := s.entries[id].(fsmeta := Attr(id, meta))]); Sound(t) && Grows(s, t)
  {
    hide Interned;
    UpdateSound(s, id, s.entries[id].(fsmeta := Attr(id, meta)));
  }

  lemma GrowsReflexive(s: State)
    ensures Grows(s, s)
  {}

  lemma RefreshSound(s: State, id: Fileid, stat: Stat)
    requires Sound(s)
    ensures Sound(RefreshEntry(s, id, stat).0) && Grows(s, RefreshEntry(s, id, stat).0)
    ensures RefreshEntry(s, id, stat).0.next == s.next && RefreshEntry(s, id, stat).0.symbols == s.symbols
  {
    hide Sound, Grows, Differ;
    if id in s.entries {
      DeleteSound(s, id);
      if stat.Found? { UpdateMetaSound(s, id, stat.meta); }
    }
    GrowsReflexive(s);
  }

  lemma CreateEntrySound(s: State, path: Path, meta: Metadata)
    requires Sound(s) && path != [] && Interned(s.symbols, path)
    ensures var (t, id) := CreateEntry(s, path, meta);
            && Sound(t) && Grows(s, t) && path in t.ids && t.ids[path] == id
            && t.symbols == s.symbols
            && (forall i | i in s.entries :: i in t.entries && t.entries[i].name == s.entries[i].name)
  {
    if path in s.ids {
      var id := s.ids[path];
      UpdateSound(s, id, s.entries[id].(fsmeta := Attr(id, meta)));
    } else {
      var (t, id) := CreateEntry(s, path, meta);
      assert SymbolsSound(t) by { hide Interned; }
      assert IdsFresh(t) by { hide Interned; }
      assert PathsSound(t) by { hide Interned; }
    }
  }

  lemma CreateNamedSound(s: State, dir: Path, name: Name, meta: Metadata)
    requires Sound(s) && Interned(s.symbols, dir)
    ensures var (t, id) := CreateNamed(s, dir, name, meta);
            && Sound(t) && Grows(s, t) && 0 < id < t.next && Interned(t.symbols, dir)
            && id in t.entries && |t.entries[id].name| == |dir| + 1 && t.entries[id].name[..|dir|] == dir
            && (forall i | i in s.entries :: i in t.entries && t.entries[i].name == s.entries[i].name)
  {
    var (symbols, sym) := Intern(s.symbols, name);
    InternSound(s, name);
    var path := dir + [sym];
    assert Interned(symbols, path);
    CreateEntrySound(s.(symbols := symbols), path, meta);
  }

  lemma {:induction false} CreateAllSound(s: State, dir: Path, found: seq<(Name, Metadata)>, kids: set<Fileid>)
    requires Sound(s) && Interned(s.symbols, dir) && forall c | c in kids :: 0 < c < s.next
    ensures var (t, all) := CreateAll(s, dir, found, kids);
            && Sound(t) && Grows(s, t) && (forall c | c in all :: 0 < c < t.next)
            && (forall i | i in s.entries :: i in t.entries && t.entries[i].name == s.entries[i].name)
    decreases |found|
  {
    hide Sound, Interned, CreateNamed;
    if found != [] {
      CreateNamedSound(s, dir, found[0].0, found[0].1);
      var (s1, id) := CreateNamed(s, dir, found[0].0, found[0].1);
      CreateAllSound(s1, dir, found[1..], kids + {id});
    }
  }

  lemma RelistSound(s: State, id: Fileid, listing: DirListing)
    requires Sound(s)
    ensures Sound(RefreshDirList(s, id, listing).0) && Grows(s, RefreshDirList(s, id, listing).0)
  {
    hide Interned, CreateAll, Differ;
    if id in s.entries && listing.Listed? {
      CreateAllSound(s, s.entries[id].name, listing.found, {});
      var (s1, kids) := CreateAll(s, s.entries[id].name, listing.found, {});
      UpdateSound(s1, id, s1.entries[id].(children := Some(kids)));
    }
  }

  lemma ChildSound(s: State, dirid: Fileid, id: Fileid)
    requires Sound(s) && 0 < id < s.next
    ensures Sound(AddChild(s, dirid, id)) && Grows(s, AddChild(s, dirid, id))
    ensures Sound(DropChild(s, dirid, id)) && Grows(s, DropChild(s, dirid, id))
  {
    hide Interned;
    if dirid in s.entries && s.entries[dirid].children.Some? {
      var kids := s.entries[dirid].children.value;
      UpdateSound(s, dirid, s.entries[dirid].(children := Some(kids + {id})));
      UpdateSound(s, dirid, s.entries[dirid].(children := Some(kids - {id})));
    }
  }

  lemma ForgetSound(s: State, dirid: Fileid, path: Path)
    requires Sound(s) && path != []
    ensures Sound(Forget(s, dirid, path)) && Grows(s, Forget(s, dirid, path))
  {
    hide Interned;
    if path in s.ids {
      var id := s.ids[path];
      var s1 := s.(entries := s.entries - {id}, ids := s.ids - {path});
      assert Sound(s1);
      ChildSound(s1, dirid, id);
    }
  }

  lemma MoveSound(s: State, fromDirid: Fileid, from: Path, toDirid: Fileid, to: Path)
    requires Sound(s) && from in s.ids && from != [] && to != [] && Interned(s.symbols, to)
    ensures Sound(Move(s, fromDirid, from, toDirid, to)) && Grows(s, Move(s, fromDirid, from, toDirid, to))
  {
    hide Interned;
    var id := s.ids[from];
    var s1 := s.(entries := s.entries[id := s.entries[id].(name := to)], ids := (s.ids - {from})[to := id]);
    assert PathsSound(s1);
    assert Sound(s1);
    ChildSound(s1, fromDirid, id);
    ChildSound(DropChild(s1, fromDirid, id), toDirid, id);
  }

  lemma CreateFsObjectSound(s: State, dirid: Fileid, name: Name, made: Outcome<()>, stat: Stat, meta: Option<Metadata>)
    requires Sound(s)
    ensures var t := CreateFsObject(s, dirid, name, made, stat, meta).0; Sound(t) && Grows(s, t)
  {
    hide Interned, RefreshEntry, CreateNamed, Intern, AddChild;
    if dirid in s.entries && made.Done? {
      RefreshSound(s, dirid, stat);
      var s1 := RefreshEntry(s, dirid, stat).0;
      if meta.None? {
        InternSound(s1, name);
      } else {
        CreateNamedSound(s1, s.entries[dirid].name, name, meta.value);
        var (s2, id) := CreateNamed(s1, s.entries[dirid].name, name, meta.value);
        ChildSound(s2, dirid, id);
      }
    }
  }

  lemma RemoveSound(s: State, dirid: Fileid, name: Name, answer: RemoveAnswer, stat: Stat)
    requires Sound(s)
    ensures var t := Remove(s, dirid, name, answer, stat).0; Sound(t) && Grows(s, t)
  {
    hide Interned, RefreshEntry, Intern, Forget;
    if dirid in s.entries && answer.Removed? {
      var (symbols, sym) := Intern(s.symbols, name);
      InternSound(s, name);
      var s1 := s.(symbols := symbols);
      var path := s.entries[dirid].name + [sym];
      ForgetSound(s1, dirid, path);
      RefreshSound(Forget(s1, dirid, path), dirid, stat);
    }
  }

  lemma AfterMoveSound(s: State, fd: Fileid, fn: Name, td: Fileid, tn: Name)
    requires Sound(s) && fd in s.entries && td in s.entries
    ensures Sound(AfterMove(s, fd, fn, td, tn)) && Grows(s, AfterMove(s, fd, fn, td, tn))
  {
    hide Intern, Move;
    var (symbols1, oldsym) := Intern(s.symbols, fn);
    var (symbols2, newsym) := Intern(symbols1, tn);
    InternSound(s, fn);
    InternSound(s.(symbols := symbols1), tn);
    var s1 := s.(symbols := symbols2);
    var from, to := s.entries[fd].name + [oldsym], s.entries[td].name + [newsym];
    assert Interned(symbols2, s.entries[td].name);
    assert Interned(symbols2, to);
    if from in s1.ids { MoveSound(s1, fd, from, td, to); }
  }

  lemma RenameSound(s: State, fd: Fileid, fn: Name, td: Fileid, tn: Name, answer: RenameAnswer, fs: Stat, ts: Stat)
    requires Sound(s)
    ensures var t := Rename(s, fd, fn, td, tn, answer, fs, ts).0; Sound(t) && Grows(s, t)
  {
    hide Sound, RefreshEntry, AfterMove;
    GrowsReflexive(s);
    if fd in s.entries && td in s.entries && answer.Renamed? {
      AfterMoveSound(s, fd, fn, td, tn);
      var s2 := AfterMove(s, fd, fn, td, tn);
      RefreshSound(s2, fd, fs);
      RefreshSound(RefreshEntry(s2, fd, fs).0, td, ts);
    }
  }

  lemma ApplySound(s: State, op: Op)
    requires Sound(s)
    ensures Sound(Apply(s, op)) && Grows(s, Apply(s, op))
  {
    hide Sound, RefreshEntry, RefreshDirList, Rename, Remove, CreateFsObject, FindChild;
    assert Grows(s, s);
    match op
    case DoLookup(dirid, name, exists_, stat, listing) =>
      RefreshSound(s, dirid, stat);
      RelistSound(RefreshEntry(s, dirid, stat).0, dirid, listing);
    case DoGetAttr(id, stat) => RefreshSound(s, id, stat);
    case DoSetAttr(id, applied, meta) =>
      if id in s.entries && meta.Some? { UpdateMetaSound(s, id, meta.value); }
    case DoReadDir(dirid, stat, listing) =>
      RefreshSound(s, dirid, stat);
      RelistSound(RefreshEntry(s, dirid, stat).0, dirid, listing);
    case DoCreate(dirid, name, made, stat, meta) => CreateFsObjectSound(s, dirid, name, made, stat, meta);
    case DoRemove(dirid, name, answer, stat) => RemoveSound(s, dirid, name, answer, stat);
    case DoRename(fd, fn, td, tn, answer, fs, ts) => RenameSound(s, fd, fn, td, tn, answer, fs, ts);
  }

  /**
   In every state any sequence of operations reaches, whatever the disk answered: mapped paths are sound,
   ids are fresh and never handed out twice, and every symbol resolves.
   */
  lemma {:induction false} AllRunsSound(s: State, ops: seq<Op>)
    requires Sound(s)
    ensures Sound(Run(s, ops)) && Grows(s, Run(s, ops))
    decreases |ops|
  {
    hide Sound, Apply;
    if ops != [] {
      ApplySound(s, ops[0]);
      AllRunsSound(Apply(s, ops[0]), ops[1..]);
    }
  }

  /** No id is reissued: one that is not live and below the counter stays dead for ever. */
  lemma {:induction false} DeadIdsStayDead(s: State, ops: seq<Op>, id: Fileid)
    requires Sound(s) && id < s.next && id !in s.entries
    ensures id !in Run(s, ops).entries
  {
    hide Sound, Run;
    AllRunsSound(s, ops);
  }

  /** A lookup hit is always live, so the test for it never fails; nor does rename's unwrap. */
  lemma {:induction false} HitsAreLive(s: State, dirid: Fileid, name: Name, path: Path)
    requires Sound(s)
    ensures FindChild(s, dirid, name).Some? ==>
              var id := FindChild(s, dirid, name).value;
              && id in s.entries && id != 0
              && s.entries[id].name == s.entries[dirid].name + [IndexOf(s.symbols, name)]
    ensures path in s.ids ==> s.ids[path] in s.entries
  {}

  /** path_to_id is injective. */
  lemma PathsInjective(s: State, p: Path, q: Path)
    requires Sound(s) && p in s.ids && q in s.ids && s.ids[p] == s.ids[q]
    ensures p == q
  {}

  // ---- relisting an unchanged directory ----

  lemma {:induction false} IndexOfStable(symbols: seq<Name>, more: seq<Name>, name: Name)
    requires name in symbols && symbols <= more
    ensures name in more && IndexOf(more, name) == IndexOf(symbols, name)
  {
    if symbols[0] != name {
      assert name in symbols[1..] && symbols[1..] <= more[1..];
      IndexOfStable(symbols[1..], more[1..], name);
    }
  }

  /** The name is interned and its path in dir mapped. */
  ghost predicate Known(s: State, dir: Path, name: Name)
  {
    name in s.symbols && dir + [IndexOf(s.symbols, name)] in s.ids
  }

  ghost function KnownId(s: State, dir: Path, name: Name): Fileid
    requires Known(s, dir, name)
  {
    s.ids[dir + [IndexOf(s.symbols, name)]]
  }

  lemma CreateNamedKnows(s: State, dir: Path, name: Name, meta: Metadata, other: Name)
    requires Sound(s)
    ensures var (t, id) := CreateNamed(s, dir, name, meta);
            && Known(t, dir, name) && KnownId(t, dir, name) == id
            && (Known(s, dir, other) ==> Known(t, dir, other) && KnownId(t, dir, other) == KnownId(s, dir, other))
            && (Known(s, dir, name) ==> t.next == s.next && t.ids == s.ids && t.symbols == s.symbols)
  {
    var (symbols, sym) := Intern(s.symbols, name);
    if name !in s.symbols { NewIndex(s.symbols, name); }
    if other in s.symbols { IndexOfStable(s.symbols, symbols, other); }
  }

  lemma {:induction false} NewIndex(symbols: seq<Name>, name: Name)
    requires name !in symbols
    ensures IndexOf(symbols + [name], name) == |symbols|
  {
    if symbols != [] {
      assert (symbols + [name])[1..] == symbols[1..] + [name] && (symbols + [name])[0] == symbols[0];
      NewIndex(symbols[1..], name);
    }
  }

  function ListedNames(found: seq<(Name, Metadata)>): set<Name>
  {
    if found == [] then {} else {found[0].0} + ListedNames(found[1..])
  }

  ghost function IdsOf(s: State, dir: Path, names: set<Name>): set<Fileid>
  {
    set n | n in names && Known(s, dir, n) :: KnownId(s, dir, n)
  }

  ghost predicate KeepsKnown(s: State, t: State, dir: Path)
  {
    forall n | Known(s, dir, n) :: Known(t, dir, n) && KnownId(t, dir, n) == KnownId(s, dir, n)
  }

  /** A listing's child set: the ids of the names found, which all become known. */
  lemma {:induction false} CreateAllKnows(s: State, dir: Path, found: seq<(Name, Metadata)>, kids: set<Fileid>)
    requires Sound(s) && Interned(s.symbols, dir)
    ensures var (t, all) := CreateAll(s, dir, found, kids);
            && KeepsKnown(s, t, dir)
            && (forall n | n in ListedNames(found) :: Known(t, dir, n))
            && all == kids + IdsOf(t, dir, ListedNames(found))
            && ((forall n | n in ListedNames(found) :: Known(s, dir, n)) ==>
                  t.next == s.next && t.ids == s.ids && t.symbols == s.symbols)
    decreases |found|
  {
    hide Sound, Known, KnownId, CreateNamed, Interned;
    if found != [] {
      var f := found[0];
      var (s1, id) := CreateNamed(s, dir, f.0, f.1);
      CreateNamedSound(s, dir, f.0, f.1);
      forall n ensures Known(s1, dir, f.0) && KnownId(s1, dir, f.0) == id
                    && (Known(s, dir, n) ==> Known(s1, dir, n) && KnownId(s1, dir, n) == KnownId(s, dir, n)) {
        CreateNamedKnows(s, dir, f.0, f.1, n);
      }
      CreateNamedKnows(s, dir, f.0, f.1, f.0);
      CreateAllKnows(s1, dir, found[1..], kids + {id});
      var t := CreateAll(s, dir, found, kids).0;
      assert IdsOf(t, dir, ListedNames(found)) == {id} + IdsOf(t, dir, ListedNames(found[1..]));
    }
  }

  lemma KnownIdsAgree(t: State, u: State, dir: Path, names: set<Name>)
    requires KeepsKnown(t, u, dir) && forall n | n in names :: Known(t, dir, n)
    ensures IdsOf(t, dir, names) == IdsOf(u, dir, names)
  {
    hide Known, KnownId;
    forall id | id in IdsOf(u, dir, names) ensures id in IdsOf(t, dir, names) {
      var n :| n in names && Known(u, dir, n) && KnownId(u, dir, n) == id;
      assert KnownId(t, dir, n) == id;
    }
    forall id | id in IdsOf(t, dir, names) ensures id in IdsOf(u, dir, names) {
      var n :| n in names && Known(t, dir, n) && KnownId(t, dir, n) == id;
      assert KnownId(u, dir, n) == id;
    }
  }

  /**
   Listing a directory again, with the same names in any order, any number of times each and with any
   metadata, hands out no id and gives the same child set, so cookies survive relisting.
   */
  lemma {:induction false} RelistKeepsIds(s: State, dir: Path, found: seq<(Name, Metadata)>,
                                          again: seq<(Name, Metadata)>)
    requires Sound(s) && Interned(s.symbols, dir) && ListedNames(found) == ListedNames(again)
    ensures var (t, kids) := CreateAll(s, dir, found, {});
            var (u, kids') := CreateAll(t, dir, again, {});
            kids' == kids && u.next == t.next && u.ids == t.ids
  {
    hide Sound, Known, KnownId, Interned, CreateAll, IdsOf, KeepsKnown;
    var t := CreateAll(s, dir, found, {}).0;
    var u := CreateAll(t, dir, again, {}).0;
    CreateAllKnows(s, dir, found, {});
    CreateAllSound(s, dir, found, {});
    DirStaysInterned(s, t, dir);
    CreateAllKnows(t, dir, again, {});
    KnownIdsAgree(t, u, dir, ListedNames(found));
  }

  lemma DirStaysInterned(s: State, t: State, dir: Path)
    requires Interned(s.symbols, dir) && s.symbols <= t.symbols
    ensures Interned(t.symbols, dir)
  {}
}
