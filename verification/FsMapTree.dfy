/** The stronger invariant: the cached part of the directory tree really is a tree. */
module FsMapTree {
  import opened Bytes
  import opened ReadDirPlus
  import opened FsMap
  import opened FsMapSafety

  /** The two maps are mutual inverses. */
  ghost predicate Inverse(s: State)
  {
    forall i | i in s.entries :: s.entries[i].name in s.ids && s.ids[s.entries[i].name] == i
  }

  predicate Extends(child: Path, dir: Path)
  {
    |child| == |dir| + 1 && child[..|dir|] == dir
  }

  /** A live cached child's path is its parent's path plus one component. */
  ghost predicate Kinship(s: State)
  {
    forall i, c | Edge(s.entries, i, c) && c in s.entries :: Extends(s.entries[c].name, s.entries[i].name)
  }

  ghost predicate Tree(s: State) { Sound(s) && Inverse(s) && Kinship(s) }

  lemma TreeInit(meta: Metadata)
    ensures Tree(Init(meta))
  {}

  /** Each live entry has at most one caching parent. */
  lemma OneParent(s: State, i: Fileid, j: Fileid, c: Fileid)
    requires Tree(s) && Edge(s.entries, i, c) && Edge(s.entries, j, c) && c in s.entries
    ensures i == j
  {
    assert s.entries[i].name == s.entries[j].name;
  }

  // ---- every operation but rename keeps it ----

  lemma DeleteTree(s: State, id: Fileid)
    requires Tree(s)
    ensures Tree(DeleteEntry(s, id))
  {
    DeleteSound(s, id);
    hide Doomed, Sound, Extends;
    var t := DeleteEntry(s, id);
    forall i | i in t.entries ensures t.entries[i].name in t.ids && t.ids[t.entries[i].name] == i {
      assert s.entries[i].name !in NamesOf(s, Doomed(s, id));
    }
    forall i, c | Edge(t.entries, i, c) && c in t.entries ensures Extends(t.entries[c].name, t.entries[i].name) {
      assert Edge(s.entries, i, c);
    }
  }

  /** Updating one entry's metadata, or giving it a child set of true children. */
  lemma UpdateTree(s: State, id: Fileid, entry: Entry)
    requires Tree(s) && id in s.entries && entry.name == s.entries[id].name
    requires entry.fsmeta.fileid == id || entry.fsmeta == s.entries[id].fsmeta
    requires entry.children.Some? ==>
               forall c | c in entry.children.value ::
                 0 < c < s.next && (c in s.entries ==> Extends(s.entries[c].name, entry.name))
    ensures Tree(s.(entries := s.entries[id := entry]))
  {
    UpdateSound(s, id, entry);
    hide Sound, Extends;
    var t := s.(entries := s.entries[id := entry]);
    forall i, c | Edge(t.entries, i, c) && c in t.entries ensures Extends(t.entries[c].name, t.entries[i].name) {
      if i != id { assert Edge(s.entries, i, c); }
    }
  }

  lemma UpdateMetaTree(s: State, id: Fileid, meta: Metadata)
    requires Tree(s) && id in s.entries
    ensures Tree(s.(entries := s.entries[id := s.entries[id].(fsmeta := Attr(id, meta))]))
  {
    var entry := s.entries[id];
    if entry.children.Some? {
      forall c | c in entry.children.value
        ensures 0 < c < s.next && (c in s.entries ==> Extends(s.entries[c].name, entry.name))
      {
        assert Edge(s.entries, id, c);
      }
    }
    UpdateTree(s, id, entry.(fsmeta := Attr(id, meta)));
  }

  lemma RefreshTree(s: State, id: Fileid, stat: Stat)
    requires Tree(s)
    ensures Tree(RefreshEntry(s, id, stat).0)
  {
    hide Tree;
    if id in s.entries {
      DeleteTree(s, id);
      if stat.Found? { UpdateMetaTree(s, id, stat.meta); }
    }
  }

  lemma InternTree(s: State, name: Name)
    requires Tree(s)
    ensures Tree(s.(symbols := Intern(s.symbols, name).0))
  {
    InternSound(s, name);
  }

  lemma CreateEntryTree(s: State, path: Path, meta: Metadata)
    requires Tree(s) && path != [] && Interned(s.symbols, path)
    ensures Tree(CreateEntry(s, path, meta).0)
  {
    CreateEntrySound(s, path, meta);
    var (t, id) := CreateEntry(s, path, meta);
    hide SymbolsSound, Extends;
    forall i, c | Edge(t.entries, i, c) && c in t.entries ensures Extends(t.entries[c].name, t.entries[i].name) {
      assert Edge(s.entries, i, c);
    }
  }

  lemma CreateNamedTree(s: State, dir: Path, name: Name, meta: Metadata)
    requires Tree(s) && Interned(s.symbols, dir)
    ensures Tree(CreateNamed(s, dir, name, meta).0)
  {
    var (symbols, sym) := Intern(s.symbols, name);
    InternTree(s, name);
    assert Interned(symbols, dir + [sym]);
    CreateEntryTree(s.(symbols := symbols), dir + [sym], meta);
  }

  lemma TreeIsSound(s: State)
    requires Tree(s)
    ensures Sound(s)
  {}

  lemma {:induction false} CreateAllTree(s: State, dir: Path, found: seq<(Name, Metadata)>, kids: set<Fileid>)
    requires Tree(s) && Interned(s.symbols, dir)
    requires forall c | c in kids :: 0 < c < s.next && (c in s.entries ==> Extends(s.entries[c].name, dir))
    ensures var (t, all) := CreateAll(s, dir, found, kids);
            Tree(t) && forall c | c in all :: 0 < c < t.next && (c in t.entries ==> Extends(t.entries[c].name, dir))
    decreases |found|
  {
    hide Tree, Sound, Interned, CreateNamed;
    TreeIsSound(s);
    if found != [] {
      CreateNamedSound(s, dir, found[0].0, found[0].1);
      CreateNamedTree(s, dir, found[0].0, found[0].1);
      var (s1, id) := CreateNamed(s, dir, found[0].0, found[0].1);
      CreateAllTree(s1, dir, found[1..], kids + {id});
    }
  }

  lemma RelistTree(s: State, id: Fileid, listing: DirListing)
    requires Tree(s)
    ensures Tree(RefreshDirList(s, id, listing).0)
  {
    hide Interned, CreateAll, Differ, Extends;
    if id in s.entries && listing.Listed? {
      var dir := s.entries[id].name;
      CreateAllSound(s, dir, listing.found, {});
      CreateAllTree(s, dir, listing.found, {});
      var (s1, kids) := CreateAll(s, dir, listing.found, {});
      UpdateTree(s1, id, s1.entries[id].(children := Some(kids)));
    }
  }

  lemma AddChildTree(s: State, dirid: Fileid, id: Fileid)
    requires Tree(s) && 0 < id < s.next
    requires dirid in s.entries && id in s.entries ==> Extends(s.entries[id].name, s.entries[dirid].name)
    ensures Tree(AddChild(s, dirid, id))
  {
    if dirid in s.entries && s.entries[dirid].children.Some? {
      var kids := s.entries[dirid].children.value;
      forall c | c in kids
        ensures 0 < c < s.next && (c in s.entries ==> Extends(s.entries[c].name, s.entries[dirid].name))
      {
        assert Edge(s.entries, dirid, c);
      }
      UpdateTree(s, dirid, s.entries[dirid].(children := Some(kids + {id})));
    }
  }

  lemma DropChildTree(s: State, dirid: Fileid, id: Fileid)
    requires Tree(s)
    ensures Tree(DropChild(s, dirid, id))
  {
    if dirid in s.entries && s.entries[dirid].children.Some? {
      var kids := s.entries[dirid].children.value;
      forall c | c in kids
        ensures 0 < c < s.next && (c in s.entries ==> Extends(s.entries[c].name, s.entries[dirid].name))
      {
        assert Edge(s.entries, dirid, c);
      }
      UpdateTree(s, dirid, s.entries[dirid].(children := Some(kids - {id})));
    }
  }

  lemma EntryRemovedSymbols(s: State, id: Fileid)
    requires SymbolsSound(s)
    ensures SymbolsSound(s.(entries := s.entries - {id}))
    ensures forall ids :: SymbolsSound(s.(entries := s.entries - {id}, ids := ids))
  {}

  lemma ForgetTree(s: State, dirid: Fileid, path: Path)
    requires Tree(s) && path != []
    ensures Tree(Forget(s, dirid, path))
  {
    if path in s.ids {
      var id := s.ids[path];
      var s1 := s.(entries := s.entries - {id}, ids := s.ids - {path});
      assert Tree(s1) by {
        hide SymbolsSound, Extends;
        EntryRemovedSymbols(s, id);
        forall i, c | Edge(s1.entries, i, c) && c in s1.entries
          ensures Extends(s1.entries[c].name, s1.entries[i].name)
        {
          assert Edge(s.entries, i, c);
        }
      }
      DropChildTree(s1, dirid, id);
    }
  }

  lemma CreateFsObjectTree(s: State, dirid: Fileid, name: Name, made: Outcome<()>, stat: Stat, meta: Option<Metadata>)
    requires Tree(s)
    ensures Tree(CreateFsObject(s, dirid, name, made, stat, meta).0)
  {
    hide RefreshEntry, CreateNamed, Intern, AddChild;
    if dirid in s.entries && made.Done? {
      var dir := s.entries[dirid].name;
      RefreshSound(s, dirid, stat);
      RefreshTree(s, dirid, stat);
      RefreshKeepsName(s, dirid, stat);
      var s1 := RefreshEntry(s, dirid, stat).0;
      if meta.None? {
        InternTree(s1, name);
      } else {
        CreateNamedSound(s1, dir, name, meta.value);
        CreateNamedTree(s1, dir, name, meta.value);
        var (s2, id) := CreateNamed(s1, dir, name, meta.value);
        DirNameKept(s1, s2, dirid, dir);
        AddChildTree(s2, dirid, id);
      }
    }
  }

  lemma RefreshKeepsName(s: State, id: Fileid, stat: Stat)
    ensures var t := RefreshEntry(s, id, stat).0;
            forall i | i in t.entries :: i in s.entries && t.entries[i].name == s.entries[i].name
  {}

  /** dirid, if live after a creation, was live before it and has the same name, or it is the creation. */
  lemma DirNameKept(s: State, t: State, dirid: Fileid, dir: Path)
    requires Sound(s) && Grows(s, t) && dirid < s.next
    requires dirid in s.entries ==> s.entries[dirid].name == dir
    requires forall i | i in s.entries :: i in t.entries && t.entries[i].name == s.entries[i].name
    ensures dirid in t.entries ==> t.entries[dirid].name == dir
  {}

  lemma AfterRemoveTree(s: State, dirid: Fileid, name: Name)
    requires Tree(s) && dirid in s.entries
    ensures Tree(AfterRemove(s, dirid, name))
  {
    hide Tree, Intern, Forget;
    var (symbols, sym) := Intern(s.symbols, name);
    InternTree(s, name);
    ForgetTree(s.(symbols := symbols), dirid, s.entries[dirid].name + [sym]);
  }

  lemma RemoveTree(s: State, dirid: Fileid, name: Name, answer: RemoveAnswer, stat: Stat)
    requires Tree(s)
    ensures Tree(Remove(s, dirid, name, answer, stat).0)
  {
    hide Tree, RefreshEntry, AfterRemove;
    if dirid in s.entries && answer.Removed? {
      AfterRemoveTree(s, dirid, name);
      RefreshTree(AfterRemove(s, dirid, name), dirid, stat);
    }
  }

  // ---- rename keeps it exactly when it is tame ----

  /**
   A move is tame when it changes nothing, or its target path is not mapped, the moved entry has no live
   cached child, and the target directory is not the moved entry with a cached child set.
   */
  ghost predicate MoveTame(s: State, from: Path, toDirid: Fileid, to: Path)
    requires from in s.ids && s.ids[from] in s.entries
  {
    var id := s.ids[from];
    from == to
    || (&& to !in s.ids
        && (forall c | c in s.entries :: !Edge(s.entries, id, c))
        && !(toDirid == id && s.entries[id].children.Some?))
  }

  lemma TameMoveKeepsTree(s: State, fd: Fileid, from: Path, td: Fileid, to: Path)
    requires Tree(s) && fd in s.entries && td in s.entries && from in s.ids
    requires Extends(from, s.entries[fd].name) && Extends(to, s.entries[td].name) && Interned(s.symbols, to)
    requires MoveTame(s, from, td, to)
    ensures Tree(Move(s, fd, from, td, to))
  {
    if from == to {
      assert s.entries[fd].name == s.entries[td].name;
      assert s.entries[s.ids[from] := s.entries[s.ids[from]].(name := to)] == s.entries;
      assert (s.ids - {from})[to := s.ids[from]] == s.ids;
      assert Move(s, fd, from, td, to) == s;
    } else {
      MoveSound(s, fd, from, td, to);
      MoveInverse(s, fd, from, td, to);
      MoveKinship(s, fd, from, td, to);
    }
  }

  lemma MoveInverse(s: State, fd: Fileid, from: Path, td: Fileid, to: Path)
    requires Tree(s) && from in s.ids && to !in s.ids
    ensures Inverse(Move(s, fd, from, td, to))
  {
    hide IdsFresh, SymbolsSound, Kinship;
    var id := s.ids[from];
    var t := Move(s, fd, from, td, to);
    forall i | i in t.entries ensures t.entries[i].name in t.ids && t.ids[t.entries[i].name] == i {
      assert i == id || (t.entries[i].name == s.entries[i].name && s.entries[i].name != from);
    }
  }

  lemma MoveKinship(s: State, fd: Fileid, from: Path, td: Fileid, to: Path)
    requires Tree(s) && fd in s.entries && td in s.entries && from in s.ids && from != to
    requires Extends(from, s.entries[fd].name) && Extends(to, s.entries[td].name)
    requires MoveTame(s, from, td, to)
    ensures Kinship(Move(s, fd, from, td, to))
  {
    hide IdsFresh, SymbolsSound;
    var id := s.ids[from];
    var t := Move(s, fd, from, td, to);
    forall i, c | Edge(t.entries, i, c) && c in t.entries ensures Extends(t.entries[c].name, t.entries[i].name) {
      if c != id {
        assert Edge(s.entries, i, c);
      } else if i != td || td == fd {
        assert Edge(s.entries, i, c) && s.entries[i].name == from[..|from| - 1];
        assert s.entries[i].name == s.entries[fd].name;
      }
    }
  }

  lemma WildMoveBreaksTree(s: State, fd: Fileid, from: Path, td: Fileid, to: Path)
    requires Tree(s) && fd in s.entries && td in s.entries && from in s.ids
    requires Extends(from, s.entries[fd].name) && Extends(to, s.entries[td].name)
    requires !MoveTame(s, from, td, to)
    ensures !Tree(Move(s, fd, from, td, to))
  {
    hide SymbolsSound, IdsFresh;
    var id := s.ids[from];
    var t := Move(s, fd, from, td, to);
    if to in s.ids {
      var j := s.ids[to];
      assert j != id && t.entries[j].name == to && t.ids[to] == id;
    } else if td == id && s.entries[id].children.Some? {
      assert fd != id;
      assert Edge(t.entries, id, id) && id in t.entries;
    } else {
      var c :| c in s.entries && Edge(s.entries, id, c);
      assert c != id && id != fd;
      assert Edge(t.entries, id, c) && t.entries[c].name == s.entries[c].name && t.entries[id].name == to;
      assert Extends(s.entries[c].name, from) && !Extends(s.entries[c].name, to);
    }
  }

  /** Moving an entry in a tree leaves a tree if and only if the move is tame. */
  lemma MoveKeepsTreeIffTame(s: State, fd: Fileid, from: Path, td: Fileid, to: Path)
    requires Tree(s) && fd in s.entries && td in s.entries && from in s.ids
    requires Extends(from, s.entries[fd].name) && Extends(to, s.entries[td].name) && Interned(s.symbols, to)
    ensures Tree(Move(s, fd, from, td, to)) <==> MoveTame(s, from, td, to)
  {
    if MoveTame(s, from, td, to) {
      TameMoveKeepsTree(s, fd, from, td, to);
    } else {
      WildMoveBreaksTree(s, fd, from, td, to);
    }
  }

  /** The condition on a rename operation as a caller meets it: before the call, in terms of names. */
  ghost predicate Tame(s: State, op: Op)
  {
    op.DoRename? && op.fromDirid in s.entries && op.toDirid in s.entries && op.renamed.Renamed? ==>
      var (symbols1, oldsym) := Intern(s.symbols, op.fromName);
      var newsym := Intern(symbols1, op.toName).1;
      var from, to := s.entries[op.fromDirid].name + [oldsym], s.entries[op.toDirid].name + [newsym];
      from in s.ids && s.ids[from] in s.entries ==> MoveTame(s, from, op.toDirid, to)
  }

  /** The maps are a tree after the disk's rename if and only if the rename is tame. */
  lemma AfterMoveTree(s: State, op: Op)
    requires Tree(s) && op.DoRename?
    requires op.fromDirid in s.entries && op.toDirid in s.entries && op.renamed.Renamed?
    ensures Tree(AfterMove(s, op.fromDirid, op.fromName, op.toDirid, op.toName)) <==> Tame(s, op)
  {
    hide Intern, Move;
    var (fd, td) := (op.fromDirid, op.toDirid);
    var (symbols1, oldsym) := Intern(s.symbols, op.fromName);
    var (symbols2, newsym) := Intern(symbols1, op.toName);
    InternTree(s, op.fromName);
    InternTree(s.(symbols := symbols1), op.toName);
    var s1 := s.(symbols := symbols2);
    var from, to := s.entries[fd].name + [oldsym], s.entries[td].name + [newsym];
    assert Interned(symbols2, s.entries[td].name);
    assert Interned(symbols2, to);
    if from in s1.ids {
      assert MoveTame(s1, from, td, to) <==> MoveTame(s, from, td, to);
      MoveKeepsTreeIffTame(s1, fd, from, td, to);
    }
  }

  /** A refresh that deletes nothing neither makes nor breaks a tree. */
  lemma RefreshTreeIff(s: State, id: Fileid, stat: Stat)
    requires Sound(s) && RefreshEntry(s, id, stat).1 != Done(Delete)
    ensures Tree(RefreshEntry(s, id, stat).0) <==> Tree(s)
  {
    var t := RefreshEntry(s, id, stat).0;
    hide RefreshEntry, Extends, Interned;
    if Tree(s) { RefreshTree(s, id, stat); }
    RefreshKeepsNames(s, id, stat);
    if Tree(t) {
      assert forall i, c | Edge(s.entries, i, c) :: Edge(t.entries, i, c);
    }
  }

  lemma RefreshKeepsNames(s: State, id: Fileid, stat: Stat)
    requires RefreshEntry(s, id, stat).1 != Done(Delete)
    ensures var t := RefreshEntry(s, id, stat).0;
            && t.next == s.next && t.symbols == s.symbols && t.ids == s.ids && t.entries.Keys == s.entries.Keys
            && forall i | i in s.entries ::
                 t.entries[i].name == s.entries[i].name && t.entries[i].children == s.entries[i].children
  {}

  /** A whole rename whose refreshes delete nothing keeps the tree if and only if it is tame. */
  lemma RenameKeepsTreeIffTame(s: State, op: Op)
    requires Tree(s) && op.DoRename? && op.fromDirid in s.entries && op.toDirid in s.entries && op.renamed.Renamed?
    requires var s2 := AfterMove(s, op.fromDirid, op.fromName, op.toDirid, op.toName);
             var (s3, r) := RefreshEntry(s2, op.fromDirid, op.fromStat);
             && r != Done(Delete)
             && (op.toDirid != op.fromDirid ==> RefreshEntry(s3, op.toDirid, op.toStat).1 != Done(Delete))
    ensures Tree(Apply(s, op)) <==> Tame(s, op)
  {
    hide RefreshEntry, AfterMove, Tree, Tame, Sound, Grows;
    TreeIsSound(s);
    AfterMoveTree(s, op);
    AfterMoveSound(s, op.fromDirid, op.fromName, op.toDirid, op.toName);
    var s2 := AfterMove(s, op.fromDirid, op.fromName, op.toDirid, op.toName);
    RefreshSound(s2, op.fromDirid, op.fromStat);
    RefreshTreeIff(s2, op.fromDirid, op.fromStat);
    if op.toDirid != op.fromDirid {
      RefreshTreeIff(RefreshEntry(s2, op.fromDirid, op.fromStat).0, op.toDirid, op.toStat);
    }
  }

  lemma RenameTree(s: State, op: Op)
    requires Tree(s) && op.DoRename? && Tame(s, op)
    ensures Tree(Apply(s, op))
  {
    hide RefreshEntry, AfterMove, Tree, Tame;
    if op.fromDirid in s.entries && op.toDirid in s.entries && op.renamed.Renamed? {
      AfterMoveTree(s, op);
      var s2 := AfterMove(s, op.fromDirid, op.fromName, op.toDirid, op.toName);
      RefreshTree(s2, op.fromDirid, op.fromStat);
      RefreshTree(RefreshEntry(s2, op.fromDirid, op.fromStat).0, op.toDirid, op.toStat);
    }
  }

  lemma ApplyTree(s: State, op: Op)
    requires Tree(s) && Tame(s, op)
    ensures Tree(Apply(s, op))
  {
    hide Sound, Tree, Tame, RefreshEntry, RefreshDirList, Rename, Remove, CreateFsObject, FindChild;
    match op
    case DoLookup(dirid, name, exists_, stat, listing) =>
      RefreshTree(s, dirid, stat);
      RelistTree(RefreshEntry(s, dirid, stat).0, dirid, listing);
    case DoGetAttr(id, stat) => RefreshTree(s, id, stat);
    case DoSetAttr(id, applied, meta) =>
      SetAttrTree(s, id, applied, meta);
    case DoReadDir(dirid, stat, listing) =>
      RefreshTree(s, dirid, stat);
      RelistTree(RefreshEntry(s, dirid, stat).0, dirid, listing);
    case DoCreate(dirid, name, made, stat, meta) => CreateFsObjectTree(s, dirid, name, made, stat, meta);
    case DoRemove(dirid, name, answer, stat) => RemoveTree(s, dirid, name, answer, stat);
    case DoRename(fd, fn, td, tn, answer, fs, ts) => RenameTree(s, op);
  }

  lemma SetAttrTree(s: State, id: Fileid, applied: Outcome<()>, meta: Option<Metadata>)
    requires Tree(s)
    ensures Tree(SetAttr(s, id, applied, meta).0)
  {
    if id in s.entries && meta.Some? { UpdateMetaTree(s, id, meta.value); }
  }

  ghost predicate TameRun(s: State, ops: seq<Op>)
    decreases |ops|
  {
    ops != [] ==> Tame(s, ops[0]) && TameRun(Apply(s, ops[0]), ops[1..])
  }

  /** Runs whose renames are tame keep the tree, whatever the disk answers. */
  lemma {:induction false} TameRunsKeepTree(s: State, ops: seq<Op>)
    requires Tree(s) && TameRun(s, ops)
    ensures Tree(Run(s, ops))
    decreases |ops|
  {
    hide Tree, Apply, Tame;
    if ops != [] {
      ApplyTree(s, ops[0]);
      TameRunsKeepTree(Apply(s, ops[0]), ops[1..]);
    }
  }
}
