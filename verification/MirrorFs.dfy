/** MirrorFS as it runs: the cache is an object whose maps are updated in place, one operation at a time. */
module MirrorFs {
  import opened Bytes
  import opened Nfs
  import opened ReadDirPlus
  import Map = FsMap
  import opened FsMap
  import opened FsMapSafety
  import opened FsMapCollect

  // ---- the steps of the two loops ----

  function Elements(q: seq<Fileid>): set<Fileid> { set x | x in q }

  function RemoveAll(s: State, xs: set<Fileid>): State
  {
    s.(entries := s.entries - xs, ids := s.ids - NamesOf(s, xs))
  }

  lemma RemoveNone(s: State)
    ensures RemoveAll(s, Elements([])) == s
  {}

  /** Removing one more id: it and its name go if it is still there. */
  lemma RemoveOne(s: State, xs: set<Fileid>, x: Fileid)
    ensures var t := RemoveAll(s, xs);
            RemoveAll(s, xs + {x})
              == if x in t.entries then t.(entries := t.entries - {x}, ids := t.ids - {t.entries[x].name}) else t
  {
    if x in s.entries {
      assert NamesOf(s, xs + {x}) == NamesOf(s, xs) + {s.entries[x].name};
    } else {
      assert NamesOf(s, xs + {x}) == NamesOf(s, xs);
    }
  }

  lemma RemoveReachable(s: State, xs: set<Fileid>, id: Fileid)
    requires forall x :: x in xs <==> Reaches(s.entries, id, x)
    ensures RemoveAll(s, xs) == DeleteEntry(s, id)
  {
    hide Reaches;
    assert NamesOf(s, xs) == NamesOf(s, Doomed(s, id));
  }

  lemma {:induction false} VisitUnfolds(entries: map<Fileid, Entry>, id: Fileid, n: nat)
    requires Ends(entries, id, n)
    ensures id in entries && entries[id].children.Some? ==>
              var kids := SortedSeq(entries[id].children.value);
              n > 0 && (forall k | k in kids :: Ends(entries, k, n - 1))
              && Visit(entries, id, n) == [id] + VisitAll(entries, kids, n - 1)
    ensures !(id in entries && entries[id].children.Some?) ==> Visit(entries, id, n) == [id]
  {
    assert forall k | k in Children(entries, id) :: Edge(entries, id, k);
    if Children(entries, id) == {} { assert SortedSeq(Children(entries, id)) == []; }
  }

  lemma {:induction false} KidsUnfold(entries: map<Fileid, Entry>, kids: seq<Fileid>, n: nat, i: nat)
    requires (forall k | k in kids :: Ends(entries, k, n)) && i < |kids|
    ensures VisitAll(entries, kids[i..], n) == Visit(entries, kids[i], n) + VisitAll(entries, kids[i + 1..], n)
  {
    assert kids[i..][0] == kids[i] && kids[i..][1..] == kids[i + 1..];
  }

  lemma {:induction false} NoKids(entries: map<Fileid, Entry>, n: nat)
    ensures VisitAll(entries, [], n) == []
  {}

  class FSMap {
    var nextFileid: nat
    var symbols: seq<Name>
    var idToPath: map<Fileid, Entry>
    var pathToId: map<Path, Fileid>

    ghost function View(): State
      reads this
    {
      State(nextFileid, symbols, idToPath, pathToId)
    }

    constructor (meta: Metadata)
      ensures View() == Init(meta)
    {
      nextFileid, symbols := 1, [];
      idToPath := map[0 := Entry([], Attr(1, meta), Attr(1, meta), None)];
      pathToId := map[[] := 0];
    }

    method InternName(name: Name) returns (sym: Symbol)
      modifies this`symbols
      ensures (symbols, sym) == Intern(old(symbols), name)
    {
      var r := Intern(symbols, name);
      symbols, sym := r.0, r.1;
    }

    static method Least(xs: set<Fileid>) returns (m: Fileid)
      requires xs != {}
      ensures m in xs && forall x | x in xs :: m <= x
    {
      m :| m in xs;
      var rest := xs - {m};
      while rest != {}
        invariant m in xs && rest <= xs && forall x | x in xs && x !in rest :: m <= x
        decreases rest
      {
        var x :| x in rest;
        if x < m { m := x; }
        rest := rest - {x};
      }
    }

    /** A child set in ascending order, as its iterator yields it. */
    static method InOrder(xs: set<Fileid>) returns (q: seq<Fileid>)
      ensures q == SortedSeq(xs)
    {
      q := [];
      var left := xs;
      while left != {}
        invariant Ascending(q) && left <= xs
        invariant forall x :: x in q <==> x in xs && x !in left
        invariant forall i, y | 0 <= i < |q| && y in left :: q[i] < y
        decreases left
      {
        var m := Least(left);
        assert forall x :: x in q + [m] <==> x in q || x == m;
        q := q + [m];
        left := left - {m};
      }
      AscendingUnique(q, SortedSeq(xs));
    }

    /** Pushes id, then what is reachable through each of its cached children. */
    method CollectAllChildren(id: Fileid, ret: seq<Fileid>, ghost n: nat) returns (out: seq<Fileid>)
      requires Ends(idToPath, id, n)
      ensures out == ret + Visit(idToPath, id, n)
      decreases n
    {
      hide Ends, Visit, VisitAll, SortedSeq;
      VisitUnfolds(idToPath, id, n);
      out := ret + [id];
      if id in idToPath && idToPath[id].children.Some? {
        var kids := InOrder(idToPath[id].children.value);
        assert kids[0..] == kids;
        for i := 0 to |kids|
          invariant forall k | k in kids[i..] :: k in kids
          invariant out + VisitAll(idToPath, kids[i..], n - 1) == ret + Visit(idToPath, id, n)
        {
          KidsUnfold(idToPath, kids, n - 1, i);
          ghost var rest := VisitAll(idToPath, kids[i + 1..], n - 1);
          assert out + (Visit(idToPath, kids[i], n - 1) + rest) == out + Visit(idToPath, kids[i], n - 1) + rest;
          out := CollectAllChildren(kids[i], out, n - 1);
        }
        NoKids(idToPath, n - 1);
        assert kids[|kids|..] == [];
      }
    }

    /** Removes everything collected from both maps, when the recursion from id ends. */
    method DeleteEntry(id: Fileid)
      requires Terminates(idToPath, id)
      modifies this`idToPath, this`pathToId
      ensures View() == Map.DeleteEntry(old(View()), id)
    {
      hide Ends, Visit, Reaches, NamesOf;
      ghost var n :| Ends(idToPath, id, n);
      var children := CollectAllChildren(id, [], n);
      VisitsExactlyReachable(idToPath, id, n);
      ghost var s := View();
      RemoveNone(s);
      for i := 0 to |children|
        invariant View() == RemoveAll(s, Elements(children[..i]))
      {
        RemoveOne(s, Elements(children[..i]), children[i]);
        assert Elements(children[..i + 1]) == Elements(children[..i]) + {children[i]};
        if children[i] in idToPath {
          var ent := idToPath[children[i]];
          idToPath := idToPath - {children[i]};
          pathToId := pathToId - {ent.name};
        }
      }
      assert children[..|children|] == children;
      RemoveReachable(s, Elements(children), id);
    }

    method FindChild(id: Fileid, filename: Name) returns (r: Option<Fileid>)
      ensures r == Map.FindChild(View(), id, filename)
    {
      if id !in idToPath { return None; }
      var name := idToPath[id].name;
      var sym := CheckInterned(symbols, filename);
      if sym.None? { return None; }
      name := name + [sym.value];
      r := if name in pathToId then Some(pathToId[name]) else None;
    }

    method RefreshEntry(id: Fileid, stat: Stat) returns (r: Outcome<Refreshed>)
      requires RefreshEnds(View(), id, stat)
      modifies this`idToPath, this`pathToId
      ensures (View(), r) == Map.RefreshEntry(old(View()), id, stat)
    {
      if id !in idToPath { return Failed(NFS3ERR_NOENT); }
      var entry := idToPath[id];
      match stat
      case Gone =>
        DeleteEntry(id);
        r := Done(Delete);
      case Unreadable =>
        r := Failed(NFS3ERR_IO);
      case Found(meta) =>
        var attr := Attr(id, meta);
        if !Differ(attr, entry.fsmeta) { return Done(Noop); }
        if entry.fsmeta.meta.ftype != meta.ftype {
          DeleteEntry(id);
          return Done(Delete);
        }
        idToPath := idToPath[id := entry.(fsmeta := attr)];
        r := Done(Reload);
    }

    method CreateEntry(fullpath: Path, meta: Metadata) returns (id: Fileid)
      modifies this`nextFileid, this`idToPath, this`pathToId
      ensures (View(), id) == Map.CreateEntry(old(View()), fullpath, meta)
    {
      if fullpath in pathToId {
        id := pathToId[fullpath];
        if id in idToPath { idToPath := idToPath[id := idToPath[id].(fsmeta := Attr(id, meta))]; }
      } else {
        id := nextFileid;
        nextFileid := nextFileid + 1;
        idToPath := idToPath[id := Entry(fullpath, Attr(id, meta), Attr(id, meta), None)];
        pathToId := pathToId[fullpath := id];
      }
    }

    method RefreshDirList(id: Fileid, listing: DirListing) returns (r: Outcome<()>)
      modifies this
      ensures (View(), r) == Map.RefreshDirList(old(View()), id, listing)
    {
      if id !in idToPath { return Failed(NFS3ERR_NOENT); }
      var entry := idToPath[id];
      if entry.children.Some? && !Differ(entry.childrenMeta, entry.fsmeta) { return Done(()); }
      if entry.fsmeta.meta.ftype != NF3DIR { return Done(()); }
      if listing.NoListing? { return Done(()); }
      var curPath := entry.name;
      var newChildren: set<Fileid> := {};
      ghost var all := CreateAll(View(), curPath, listing.found, {});
      var found := listing.found;
      for i := 0 to |found|
        invariant curPath == entry.name
        invariant CreateAll(View(), curPath, found[i..], newChildren) == all
      {
        ghost var before := View();
        assert found[i..][0] == found[i] && found[i..][1..] == found[i + 1..];
        var sym := InternName(found[i].0);
        curPath := curPath + [sym];
        var nextId := CreateEntry(curPath, found[i].1);
        newChildren := newChildren + {nextId};
        curPath := curPath[..|curPath| - 1];
        assert (View(), nextId) == CreateNamed(before, curPath, found[i].0, found[i].1);
      }
      assert all == (View(), newChildren);
      if !listing.complete { return Failed(NFS3ERR_IO); }
      if id !in idToPath { return Failed(NFS3ERR_NOENT); }
      idToPath := idToPath[id := idToPath[id].(children := Some(newChildren))];
      r := Done(());
    }

    method CreateFsObject(dirid: Fileid, objectname: Name, made: Outcome<()>, stat: Stat, meta: Option<Metadata>)
      returns (r: Outcome<Fileid>)
      requires OpEnds(View(), DoCreate(dirid, objectname, made, stat, meta))
      modifies this
      ensures (View(), r) == Map.CreateFsObject(old(View()), dirid, objectname, made, stat, meta)
      ensures View() == Apply(old(View()), DoCreate(dirid, objectname, made, stat, meta))
    {
      if dirid !in idToPath { return Failed(NFS3ERR_NOENT); }
      var ent := idToPath[dirid];
      if made.Failed? { return Failed(made.stat); }
      var _ := RefreshEntry(dirid, stat);
      ghost var s1 := View();
      var sym := InternName(objectname);
      var name := ent.name + [sym];
      if meta.None? { return Failed(NFS3ERR_IO); }
      var fileid := CreateEntry(name, meta.value);
      assert (View(), fileid) == CreateNamed(s1, ent.name, objectname, meta.value);
      if dirid !in idToPath { return Failed(NFS3ERR_NOENT); }
      InsertChild(dirid, fileid);
      r := Done(fileid);
    }

    method InsertChild(dirid: Fileid, id: Fileid)
      modifies this`idToPath
      ensures View() == AddChild(old(View()), dirid, id)
    {
      if dirid in idToPath && idToPath[dirid].children.Some? {
        var kids := idToPath[dirid].children.value + {id};
        idToPath := idToPath[dirid := idToPath[dirid].(children := Some(kids))];
      }
    }

    method RemoveChild(dirid: Fileid, id: Fileid)
      modifies this`idToPath
      ensures View() == DropChild(old(View()), dirid, id)
    {
      if dirid in idToPath && idToPath[dirid].children.Some? {
        var kids := idToPath[dirid].children.value - {id};
        idToPath := idToPath[dirid := idToPath[dirid].(children := Some(kids))];
      }
    }

    method Lookup(dirid: Fileid, filename: Name, existsOnDisk: bool, stat: Stat, listing: DirListing)
      returns (r: Outcome<Fileid>)
      requires OpEnds(View(), DoLookup(dirid, filename, existsOnDisk, stat, listing))
      modifies this
      ensures (View(), r) == Map.Lookup(old(View()), dirid, filename, existsOnDisk, stat, listing)
      ensures View() == Apply(old(View()), DoLookup(dirid, filename, existsOnDisk, stat, listing))
    {
      var hit := FindChild(dirid, filename);
      if hit.Some? && hit.value in idToPath { return Done(hit.value); }
      if dirid !in idToPath { return Failed(NFS3ERR_NOENT); }
      if !existsOnDisk { return Failed(NFS3ERR_NOENT); }
      var refreshed := RefreshEntry(dirid, stat);
      if refreshed.Failed? { return Failed(refreshed.stat); }
      if refreshed.value.Delete? { return Failed(NFS3ERR_NOENT); }
      var _ := RefreshDirList(dirid, listing);
      hit := FindChild(dirid, filename);
      r := if hit.None? then Failed(NFS3ERR_NOENT) else Done(hit.value);
    }

    method GetAttr(id: Fileid, stat: Stat) returns (r: Outcome<Attr>)
      requires OpEnds(View(), DoGetAttr(id, stat))
      modifies this
      ensures (View(), r) == Map.GetAttr(old(View()), id, stat)
      ensures View() == Apply(old(View()), DoGetAttr(id, stat))
    {
      var refreshed := RefreshEntry(id, stat);
      if refreshed.Failed? { return Failed(refreshed.stat); }
      if refreshed.value.Delete? || id !in idToPath { return Failed(NFS3ERR_NOENT); }
      r := Done(idToPath[id].fsmeta);
    }

    method SetAttr(id: Fileid, applied: Outcome<()>, meta: Option<Metadata>) returns (r: Outcome<Attr>)
      modifies this
      ensures (View(), r) == Map.SetAttr(old(View()), id, applied, meta)
      ensures View() == Apply(old(View()), DoSetAttr(id, applied, meta))
    {
      if id !in idToPath { return Failed(NFS3ERR_NOENT); }
      if applied.Failed? { return Failed(applied.stat); }
      if meta.None? { return Failed(NFS3ERR_IO); }
      idToPath := idToPath[id := idToPath[id].(fsmeta := Attr(id, meta.value))];
      r := Done(Attr(id, meta.value));
    }

    /** The page after startAfter, at most max(1, maxEntries) entries long. */
    method ReadDir(dirid: Fileid, startAfter: Fileid, maxEntries: nat, stat: Stat, listing: DirListing)
      returns (r: Outcome<MirrorPage>)
      requires OpEnds(View(), DoReadDir(dirid, stat, listing))
      modifies this
      ensures View() == ReadDirChildren(old(View()), dirid, stat, listing).0
      ensures View() == Apply(old(View()), DoReadDir(dirid, stat, listing))
      ensures var kids := ReadDirChildren(old(View()), dirid, stat, listing).1;
              r == if kids.Failed? then Failed(kids.stat) else CutPage(View(), kids.value, startAfter, maxEntries)
    {
      var refreshed := RefreshEntry(dirid, stat);
      if refreshed.Failed? { return Failed(refreshed.stat); }
      var relisted := RefreshDirList(dirid, listing);
      if relisted.Failed? { return Failed(relisted.stat); }
      if dirid !in idToPath { return Failed(NFS3ERR_NOENT); }
      var entry := idToPath[dirid];
      if entry.fsmeta.meta.ftype != NF3DIR { return Failed(NFS3ERR_NOTDIR); }
      if entry.children.None? { return Failed(NFS3ERR_IO); }
      r := ShowPage(entry.children.value, startAfter, maxEntries);
    }

    method ShowPage(children: set<Fileid>, startAfter: Fileid, maxEntries: nat) returns (r: Outcome<MirrorPage>)
      ensures r == CutPage(View(), children, startAfter, maxEntries)
    {
      hide SortedSeq, Above;
      var range := InOrder(Above(children, startAfter));
      var entries: seq<MirrorEntry> := [];
      ghost var s := View();
      ghost var limit := if maxEntries == 0 then 1 else maxEntries;
      ghost var n := if |range| <= limit then |range| else limit;
      var i := 0;
      while i < |range|
        invariant i == |entries| <= n && (i < |range| ==> i < n)
        invariant forall j | 0 <= j < i :: range[j] in idToPath && entries[j] == ShowEntry(s, range[j])
        decreases |range| - i
      {
        var fileid := range[i];
        if fileid !in idToPath {
          assert range[i] !in s.entries;
          return Failed(NFS3ERR_NOENT);
        }
        var fileent := idToPath[fileid];
        entries := entries + [MirrorEntry(fileid, LastName(symbols, fileent.name), fileent.fsmeta)];
        i := i + 1;
        if |entries| >= maxEntries { break; }
      }
      assert i == n;
      assert entries == seq(n, j requires 0 <= j < n => ShowEntry(s, range[j]));
      r := Done(MirrorPage(entries, |entries| == |range|));
    }

    method Remove(dirid: Fileid, filename: Name, answer: RemoveAnswer, stat: Stat) returns (r: Outcome<()>)
      requires OpEnds(View(), DoRemove(dirid, filename, answer, stat))
      modifies this
      ensures (View(), r) == Map.Remove(old(View()), dirid, filename, answer, stat)
      ensures View() == Apply(old(View()), DoRemove(dirid, filename, answer, stat))
    {
      if dirid !in idToPath { return Failed(NFS3ERR_NOENT); }
      var ent := idToPath[dirid];
      if answer.NothingThere? { return Failed(NFS3ERR_NOENT); }
      if answer.NotRemoved? { return Failed(NFS3ERR_IO); }
      var filesym := InternName(filename);
      var sympath := ent.name + [filesym];
      ghost var s1 := View();
      if sympath in pathToId {
        var fileid := pathToId[sympath];
        idToPath := idToPath - {fileid};
        pathToId := pathToId - {sympath};
        RemoveChild(dirid, fileid);
      }
      assert View() == Forget(s1, dirid, sympath);
      var _ := RefreshEntry(dirid, stat);
      r := Done(());
    }

    method Rename(fromDirid: Fileid, fromFilename: Name, toDirid: Fileid, toFilename: Name,
                  answer: RenameAnswer, fromStat: Stat, toStat: Stat) returns (r: Outcome<()>)
      requires Sound(View())
      requires OpEnds(View(), DoRename(fromDirid, fromFilename, toDirid, toFilename, answer, fromStat, toStat))
      modifies this
      ensures (View(), r)
           == Map.Rename(old(View()), fromDirid, fromFilename, toDirid, toFilename, answer, fromStat, toStat)
      ensures View() == Apply(old(View()), DoRename(fromDirid, fromFilename, toDirid, toFilename, answer,
                                                    fromStat, toStat))
    {
      hide Intern, Terminates, Map.RefreshEntry, IdsFresh, SymbolsSound;
      if fromDirid !in idToPath { return Failed(NFS3ERR_NOENT); }
      var fromDirent := idToPath[fromDirid];
      if toDirid !in idToPath { return Failed(NFS3ERR_NOENT); }
      var toDirent := idToPath[toDirid];
      if answer.NoTargetDir? || answer.NoSource? { return Failed(NFS3ERR_NOENT); }
      if answer.NotRenamed? { return Failed(NFS3ERR_IO); }
      ghost var s2 := AfterMove(View(), fromDirid, fromFilename, toDirid, toFilename);
      var oldsym := InternName(fromFilename);
      var newsym := InternName(toFilename);
      var fromSympath := fromDirent.name + [oldsym];
      var toSympath := toDirent.name + [newsym];
      if fromSympath in pathToId {
        var fileid := pathToId[fromSympath];
        idToPath := idToPath[fileid := idToPath[fileid].(name := toSympath)];
        pathToId := pathToId - {fromSympath};
        pathToId := pathToId[toSympath := fileid];
        if toDirid != fromDirid {
          RemoveChild(fromDirid, fileid);
          InsertChild(toDirid, fileid);
        }
      }
      assert View() == s2;
      var _ := RefreshEntry(fromDirid, fromStat);
      if toDirid != fromDirid { var _ := RefreshEntry(toDirid, toStat); }
      r := Done(());
    }
  }
}
