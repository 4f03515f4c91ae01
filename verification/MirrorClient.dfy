/**
 MirrorFS as a client sees it: the names its entries are shown under, and what the bytes of its READDIRPLUS replies
 say, call after call, while the cache, the directory and the disk go on changing.
 */
module MirrorClient {
  import opened Bytes
  import opened Xdr
  import opened ReadDirPlus
  import opened Enumeration
  import opened MirrorListing
  import Map = FsMap
  import Safety = FsMapSafety
  import Trees = FsMapTree
  import Effects = FsMapEffects

  // ---- what an entry is shown as ----

  /** A live entry is shown with its id, and with the metadata the cache has of it, field by field. */
  lemma ShownFields(s: Map.State, id: Map.Fileid)
    requires Safety.Sound(s) && id in s.entries && 0 < id < WORD
    ensures var e, m := AsEntry(Map.ShowEntry(s, id)), s.entries[id].fsmeta.meta;
            && e.fileid == id && e.attr.fileid == id
            && e.attr.ftype == m.ftype && e.attr.size == m.size && e.attr.mtime == m.mtime
            && e.attr.mode == m.others.mode && e.attr.nlink == m.others.nlink && e.attr.uid == m.others.uid
            && e.attr.gid == m.others.gid && e.attr.used == m.others.used && e.attr.rdev1 == m.others.rdev1
            && e.attr.rdev2 == m.others.rdev2 && e.attr.fsid == m.others.fsid && e.attr.atime == m.others.atime
            && e.attr.ctime == m.others.ctime
  {}

  /** Under a sound state's symbols the last component of a path is a name, and that name's symbol. */
  lemma LastNameIs(s: Map.State, id: Map.Fileid, dir: Map.Path)
    requires Safety.Sound(s) && id in s.entries && Trees.Extends(s.entries[id].name, dir)
    ensures var name := Map.ShowEntry(s, id).name;
            name in s.symbols && s.entries[id].name == dir + [Map.IndexOf(s.symbols, name)]
  {
    var path := s.entries[id].name;
    var sym := path[|path| - 1];
    assert Safety.Interned(s.symbols, path);
    assert s.symbols[sym] == Map.ShowEntry(s, id).name;
    assert path == dir + [sym];
  }

  /** A mapped entry of a directory is shown under the name that lookup finds it by. */
  lemma ShownNameFinds(s: Map.State, dirid: Map.Fileid, id: Map.Fileid)
    requires Safety.Sound(s) && dirid in s.entries && id in s.entries
    requires Trees.Extends(s.entries[id].name, s.entries[dirid].name)
    requires s.entries[id].name in s.ids && s.ids[s.entries[id].name] == id
    ensures Map.FindChild(s, dirid, Map.ShowEntry(s, id).name) == Some(id)
  {
    hide Map.ShowEntry, Map.IndexOf, Safety.PathsSound, Safety.IdsFresh, Safety.SymbolsSound;
    LastNameIs(s, id, s.entries[dirid].name);
  }

  /** In a tree every entry of every page of a directory is live, and shown under the name that lookup finds it by. */
  lemma PagesNameTheirEntries(s: Map.State, dirid: Map.Fileid, cookie: u64, maxEntries: nat)
    requires Trees.Tree(s) && dirid in s.entries && s.entries[dirid].children.Some?
    ensures var cut := Map.CutPage(s, s.entries[dirid].children.value, cookie, maxEntries);
            cut.Done? ==> forall i | 0 <= i < |cut.value.entries| ::
                            && cut.value.entries[i].fileid in s.entries
                            && Map.FindChild(s, dirid, cut.value.entries[i].name) == Some(cut.value.entries[i].fileid)
                            && cut.value.entries[i].attr == s.entries[cut.value.entries[i].fileid].fsmeta
  {
    hide Map.LastName, Map.FindChild, Safety.Sound, Map.SortedSeq;
    var kids := s.entries[dirid].children.value;
    var ids := Map.SortedSeq(Map.Above(kids, cookie));
    var cut := Map.CutPage(s, kids, cookie, maxEntries);
    if cut.Done? {
      forall i | 0 <= i < |cut.value.entries|
        ensures var e := cut.value.entries[i];
                e.fileid in s.entries && Map.FindChild(s, dirid, e.name) == Some(e.fileid)
                && e.attr == s.entries[e.fileid].fsmeta
      {
        var id := ids[i];
        assert id in ids && id in kids;
        assert cut.value.entries[i] == Map.ShowEntry(s, id);
        assert Map.Edge(s.entries, dirid, id);
        ShownNameFinds(s, dirid, id);
      }
    }
  }

  /** A known name is what its entry is shown under. */
  lemma KnownIsShown(s: Map.State, dir: Map.Path, name: Map.Name)
    requires Safety.Sound(s) && Safety.Known(s, dir, name)
    ensures var id := Safety.KnownId(s, dir, name); id in s.entries && Map.ShowEntry(s, id).name == name
  {}

  /** After a listing the names shown over the whole directory are exactly those the disk listed. */
  lemma RelistedNames(s: Map.State, dirid: Map.Fileid, stat: Map.Stat, listing: Map.DirListing)
    requires Safety.Sound(s) && Effects.Relists(Map.RefreshEntry(s, dirid, stat).0, dirid) && listing.Listed?
    ensures var (t, kids) := Map.ReadDirChildren(s, dirid, stat, listing);
            kids.Done? ==>
              var L := ListingOf(t, kids.value);
              forall n :: n in Safety.ListedNames(listing.found) <==> exists i :: 0 <= i < |L| && L[i].name == n
  {
    hide Map.ReadDirChildren, Map.RefreshEntry, Safety.Sound, Safety.Known, Safety.KnownId, AsAttr,
         Map.ShowEntry;
    RelistedChildren(s, dirid, stat, listing);
    ReadingSound(s, dirid, Turn([], stat, listing, Call(Args([], 0, [], 0, 0), 0, 0, false)));
    var (t, kids) := Map.ReadDirChildren(s, dirid, stat, listing);
    var dir := Map.RefreshEntry(s, dirid, stat).0.entries[dirid].name;
    if kids.Done? {
      var q, L := Map.SortedSeq(kids.value), ListingOf(t, kids.value);
      forall n | n in Safety.ListedNames(listing.found) ensures exists i :: 0 <= i < |L| && L[i].name == n {
        KnownIsShown(t, dir, n);
        assert Safety.KnownId(t, dir, n) in kids.value;
        var i :| 0 <= i < |q| && q[i] == Safety.KnownId(t, dir, n);
        assert L[i].name == n;
      }
      forall i | 0 <= i < |L| ensures L[i].name in Safety.ListedNames(listing.found) {
        assert q[i] in kids.value;
        var n :| n in Safety.ListedNames(listing.found) && Safety.Known(t, dir, n) && Safety.KnownId(t, dir, n) == q[i];
        KnownIsShown(t, dir, n);
      }
    }
  }

  // ---- names received over several calls ----

  /** A cut page shows the known name's entry under that name. */
  lemma CutShowsName(t: Map.State, kids: set<Map.Fileid>, cookie: u64, maxEntries: nat, dir: Map.Path, name: Map.Name)
    requires Safety.Sound(t) && MirrorListing.Words(kids) && Safety.Known(t, dir, name)
    ensures var cut := Map.CutPage(t, kids, cookie, maxEntries);
            cut.Done? ==> forall i | 0 <= i < |cut.value.entries|
                                     && AsPage(cut.value).entries[i].fileid == Safety.KnownId(t, dir, name) ::
                            AsPage(cut.value).entries[i].name == name
  {
    hide Safety.Sound, Map.SortedSeq, AsAttr, Safety.Known, Safety.KnownId;
    var cut := Map.CutPage(t, kids, cookie, maxEntries);
    var ids := Map.SortedSeq(Map.Above(kids, cookie));
    KnownIsShown(t, dir, name);
    if cut.Done? {
      forall i | 0 <= i < |cut.value.entries| && AsPage(cut.value).entries[i].fileid == Safety.KnownId(t, dir, name)
        ensures AsPage(cut.value).entries[i].name == name
      {
        assert ids[i] in ids && ids[i] in kids;
        assert AsPage(cut.value).entries[i] == AsEntry(Map.ShowEntry(t, ids[i]));
      }
    }
  }

  /** Every entry received with the id of a name listed at every call carries that name. */
  lemma {:induction false} WalkedNames(s: Map.State, dirid: Map.Fileid, cookie: u64, turns: seq<Turn>,
                                       name: Map.Name, id: u64)
    requires Safety.Sound(s) && Walks(s, dirid, cookie, turns) && ListedThroughout(s, dirid, turns, name, id)
    ensures forall e | e in WalkedEntries(s, dirid, cookie, turns) && e.fileid == id :: e.name == name
    decreases |turns|
  {
    hide Map.RefreshEntry, Map.Run, Map.ReadDirChildren, Map.CutPage, Safety.Sound, Safety.Known, Safety.KnownId,
         LongestFit, Sent, Onward, AsPage;
    if turns != [] {
      var v := turns[0];
      var (t, kids) := Reading(s, dirid, v);
      ReadingSound(s, dirid, v);
      SucceededReading(s, dirid, cookie, v);
      var dir := Map.RefreshEntry(Map.Run(s, v.ops), dirid, v.stat).0.entries[dirid].name;
      CutShowsName(t, kids.value, cookie, v.call.args.dircount / 16, dir, name);
      var cut := Cut(s, dirid, cookie, v).value;
      WalkedNames(t, dirid, Onward(Sent(cut, v.call.count), cookie), turns[1..], name, id);
      assert forall e | e in AsPage(cut).entries[..v.call.count] :: e in AsPage(cut).entries;
    }
  }

  // ---- from the bytes of the replies ----

  /** What happens before a call, what the disk answers during its readdir, and the call and its reply in bytes. */
  datatype Visit = Visit(ops: seq<Map.Op>, stat: Map.Stat, listing: Map.DirListing, x: Exchange)

  function TurnOf(v: Visit): Turn { Turn(v.ops, v.stat, v.listing, CallOf(v.x)) }

  function TurnsOf(vs: seq<Visit>): (turns: seq<Turn>)
    ensures |turns| == |vs| && forall i | 0 <= i < |vs| :: turns[i] == TurnOf(vs[i])
  {
    seq(|vs|, i requires 0 <= i < |vs| => TurnOf(vs[i]))
  }

  /**
   A client lists a directory of MirrorFS, each call resuming at the cookie it read in the last entry of the reply
   before. Before each call any operations run; the counter has not wrapped; readdir succeeds.
   */
  ghost predicate Browses(s: Map.State, dirid: Map.Fileid, cookie: u64, vs: seq<Visit>)
    decreases |vs|
  {
    vs != [] ==>
      var v := vs[0];
      var t, cut := Reading(s, dirid, TurnOf(v)).0, Cut(s, dirid, cookie, TurnOf(v));
      && t.next <= WORD && cut.Done? && Replies(AsPage(cut.value), v.x) && (Got(v.x).eof ==> |vs| == 1)
      && Browses(t, dirid, Resume(Got(v.x), cookie), vs[1..])
  }

  /** The entries the client read. */
  function Browsed(vs: seq<Visit>): seq<Value>
  {
    if vs == [] then [] else Got(vs[0].x).entries + Browsed(vs[1..])
  }

  lemma VisitIsTurn(cut: Map.MirrorPage, x: Exchange, cookie: u64)
    requires Replies(AsPage(cut), x)
    ensures AnsweredFrom(Done(cut), CallOf(x))
    ensures var count := |Got(x).entries|;
            && Resume(Got(x), cookie) == Onward(Sent(cut, count), cookie)
            && DescribeAll(Got(x).entries, AsPage(cut).entries[..count])
  {
    hide Replies, LongestFit, Carries, ReplyPrefix, Resume, Got, AsAttr, Describes;
    ReadsTheReply(AsPage(cut), x, cookie);
    var count := |Got(x).entries|;
    DescribesStretch(Got(x).entries, x.gen, AsPage(cut).entries);
    if count > 0 { assert AsPage(cut).entries[count - 1].fileid == Sent(cut, count)[count - 1]; }
  }

  /** What is read from the bytes is what the walk delivers. */
  lemma {:induction false} BrowseWalks(s: Map.State, dirid: Map.Fileid, cookie: u64, vs: seq<Visit>)
    requires Browses(s, dirid, cookie, vs)
    ensures Walks(s, dirid, cookie, TurnsOf(vs))
    ensures DescribeAll(Browsed(vs), WalkedEntries(s, dirid, cookie, TurnsOf(vs)))
    decreases |vs|
  {
    hide Reading, Cut, Replies, AnsweredFrom, Got, Resume, Onward, Sent, Describes, AsPage, ReplyPrefix;
    if vs != [] {
      var v := vs[0];
      var cut := Cut(s, dirid, cookie, TurnOf(v)).value;
      VisitIsTurn(cut, v.x, cookie);
      BrowseWalks(Reading(s, dirid, TurnOf(v)).0, dirid, Resume(Got(v.x), cookie), vs[1..]);
      assert TurnsOf(vs)[1..] == TurnsOf(vs[1..]);
    }
  }

  lemma DescribedFields(vs: seq<Value>, es: seq<DirEntry>)
    requires DescribeAll(vs, es)
    ensures |vs| == |es| == |Ids(es)|
    ensures forall i | 0 <= i < |vs| ::
              && FileidOf(vs[i]) == Some(Ids(es)[i]) && CookieOf(vs[i]) == FileidOf(vs[i])
              && NameOf(vs[i]) == Some(es[i].name)
  {
    hide CarriesAttr, FhToId;
    forall i | 0 <= i < |vs|
      ensures FileidOf(vs[i]) == Some(Ids(es)[i]) && CookieOf(vs[i]) == FileidOf(vs[i])
      ensures NameOf(vs[i]) == Some(es[i].name)
    {
      assert Describes(vs[i], es[i]);
    }
  }

  ghost predicate WasReadIn(vs: seq<Value>, id: nat) { exists i :: 0 <= i < |vs| && FileidOf(vs[i]) == Some(id) }

  /**
   A client of MirrorFS that resumes at the cookies it reads, from cookie 0, while any operations run between its
   calls and whatever the disk answers: it reads no id twice, and none that no call's child set had; and once it reads
   eof, it has read every id that was in the child set at each call.
   */
  lemma {:induction false} BrowseIsSafe(s: Map.State, dirid: Map.Fileid, vs: seq<Visit>)
    requires Safety.Sound(s) && Browses(s, dirid, 0, vs)
    ensures var got, sets := Browsed(vs), ChildSets(s, dirid, TurnsOf(vs));
            && (forall i, j | 0 <= i < j < |got| :: FileidOf(got[i]) != FileidOf(got[j]))
            && (forall i | 0 <= i < |got| :: FileidOf(got[i]).Some? && InSome(sets, FileidOf(got[i]).value))
            && (vs != [] && Got(vs[|vs| - 1].x).eof ==> forall x: u64 | InEvery(sets, x) :: WasReadIn(got, x))
  {
    hide Browses, Browsed, Walks, ChildSets, WalkedIds, WalkedEntries, Safety.Sound, DescribeAll, FileidOf, Got, InSome,
         InEvery, Ids, ReplyPrefix;
    var turns := TurnsOf(vs);
    BrowseWalks(s, dirid, 0, vs);
    WalkedEntriesIds(s, dirid, 0, turns);
    WalkIsSafe(s, dirid, turns);
    DescribedFields(Browsed(vs), WalkedEntries(s, dirid, 0, turns));
    var ids := WalkedIds(s, dirid, 0, turns);
    assert forall i | 0 <= i < |ids| :: FileidOf(Browsed(vs)[i]) == Some(ids[i]) && ids[i] in ids;
    if vs != [] && Got(vs[|vs| - 1].x).eof {
      assert turns[|turns| - 1].call.eof;
      forall x: u64 | InEvery(ChildSets(s, dirid, turns), x) ensures WasReadIn(Browsed(vs), x) {
        var i :| 0 <= i < |ids| && ids[i] == x;
        assert FileidOf(Browsed(vs)[i]) == Some(x);
      }
    }
  }

  /** One entry, and no other, has the id, and it has the name. */
  ghost predicate OnceNamed(vs: seq<Value>, id: nat, name: Map.Name)
  {
    exists i :: 0 <= i < |vs| && FileidOf(vs[i]) == Some(id) && NameOf(vs[i]) == Some(name)
                && forall j | 0 <= j < |vs| && j != i :: FileidOf(vs[j]) != Some(id)
  }

  /** A name the disk lists at every call, under one id, has been read exactly once, with that id, when eof is read. */
  lemma {:induction false} ListedNameIsRead(s: Map.State, dirid: Map.Fileid, vs: seq<Visit>, name: Map.Name, id: u64)
    requires Safety.Sound(s) && Browses(s, dirid, 0, vs) && vs != [] && Got(vs[|vs| - 1].x).eof
    requires ListedThroughout(s, dirid, TurnsOf(vs), name, id)
    ensures OnceNamed(Browsed(vs), id, name)
  {
    hide Browses, Browsed, Walks, ChildSets, WalkedIds, WalkedEntries, Safety.Sound, DescribeAll, FileidOf, NameOf, Got,
         ListedThroughout, ReplyPrefix;
    var turns := TurnsOf(vs);
    BrowseWalks(s, dirid, 0, vs);
    WalkedEntriesIds(s, dirid, 0, turns);
    assert turns[|turns| - 1].call.eof;
    ListedNameArrives(s, dirid, turns, name, id);
    WalkedNames(s, dirid, 0, turns, name, id);
    var es := WalkedEntries(s, dirid, 0, turns);
    DescribedFields(Browsed(vs), es);
    var ids := WalkedIds(s, dirid, 0, turns);
    var i :| 0 <= i < |ids| && ids[i] == id && forall j | 0 <= j < |ids| && j != i :: ids[j] != id;
    assert es[i] in es && es[i].fileid == id;
    assert FileidOf(Browsed(vs)[i]) == Some(id) && NameOf(Browsed(vs)[i]) == Some(name);
  }
}
