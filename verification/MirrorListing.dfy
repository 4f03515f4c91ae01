/**
 MirrorFS's pages, cut from a child set by id, are the pages of one ascending listing; and what a client receives
 over several calls while the cache, the directory and the disk go on changing.
 */
module MirrorListing {
  import opened Bytes
  import opened Nfs
  import opened ReadDirPlus
  import opened Enumeration
  import Map = FsMap
  import Safety = FsMapSafety
  import Effects = FsMapEffects
  import Outcomes = FsMapOutcomes

  // ---- from the cache's entries to the handler's ----

  const WORD: nat := 0x1_0000_0000_0000_0000

  /** An id as the machine word it is. */
  function Word(n: nat): u64 { if n < WORD then n else 0 }

  function AsAttr(a: Map.Attr): Fattr3
  {
    var Attr(fileid, Metadata(ftype, size, mtime, others)) := a;
    var Others(mode, nlink, uid, gid, used, rdev1, rdev2, fsid, atime, ctime) := others;
    Fattr3(ftype, mode, nlink, uid, gid, size, used, rdev1, rdev2, fsid, Word(fileid), atime, mtime, ctime)
  }

  function AsEntry(e: Map.MirrorEntry): DirEntry { DirEntry(Word(e.fileid), e.name, AsAttr(e.attr)) }

  function AsPage(p: Map.MirrorPage): (page: Page)
    ensures |page.entries| == |p.entries| && page.end == p.end
  {
    Page(seq(|p.entries|, i requires 0 <= i < |p.entries| => AsEntry(p.entries[i])), p.end)
  }

  /** The child set as a listing: each id in ascending order, as the cache shows it now. */
  ghost function ListingOf(s: Map.State, children: set<Map.Fileid>): (L: Listing)
    ensures |L| == |Map.SortedSeq(children)|
    ensures forall i | 0 <= i < |L| :: L[i] == AsEntry(Map.ShowEntry(s, Map.SortedSeq(children)[i]))
  {
    var q := Map.SortedSeq(children);
    seq(|q|, i requires 0 <= i < |q| => AsEntry(Map.ShowEntry(s, q[i])))
  }

  // ---- one page ----

  /** The listing shows the child set: its ids in ascending order. */
  ghost predicate Shows(L: Listing, children: set<Map.Fileid>)
  {
    Ids(L) == Map.SortedSeq(children)
  }

  lemma ShownIsProper(L: Listing, children: set<Map.Fileid>)
    requires Shows(L, children) && 0 !in children
    ensures Proper(Mirror, L)
  {
    var q := Map.SortedSeq(children);
    assert forall i | 0 <= i < |L| :: L[i].fileid == q[i] && q[i] in children;
  }

  /** In every state a run reaches, a child set that readdir pages through holds no id 0. */
  lemma {:induction false} PagedSetsLackZero(s: Map.State, ops: seq<Map.Op>, dirid: Map.Fileid, stat: Map.Stat,
                                             listing: Map.DirListing)
    requires Safety.Sound(s)
    ensures var kids := Map.ReadDirChildren(Map.Run(s, ops), dirid, stat, listing).1;
            kids.Done? ==> 0 !in kids.value
  {
    hide Map.Run, Map.RefreshEntry, Map.RefreshDirList, Safety.SymbolsSound, Safety.PathsSound;
    Safety.AllRunsSound(s, ops);
    var t := Map.Run(s, ops);
    Safety.RefreshSound(t, dirid, stat);
    Safety.RelistSound(Map.RefreshEntry(t, dirid, stat).0, dirid, listing);
  }

  /** The ids above a cookie are those from the position where the cookie resumes. */
  lemma AboveIsRest(L: Listing, children: set<Map.Fileid>, cookie: u64)
    requires Shows(L, children) && 0 !in children
    ensures Start(Mirror, L, cookie).Some? && Start(Mirror, L, cookie).value <= |L|
    ensures Map.SortedSeq(Map.Above(children, cookie)) == Ids(L)[Start(Mirror, L, cookie).value..]
  {
    hide Map.SortedSeq, Start, Proper;
    ShownIsProper(L, children);
    StartSplits(L, cookie);
    assert cookie == 0 ==> Start(Mirror, L, cookie) == Some(0) by { StartsAtZero(Mirror, L); }
    var start := Start(Mirror, L, cookie).value;
    SuffixIsAbove(Ids(L), Map.SortedSeq(Map.Above(children, cookie)), start, cookie);
  }

  lemma SuffixIsAbove(q: seq<Map.Fileid>, above: seq<Map.Fileid>, start: nat, cookie: u64)
    requires Map.Ascending(q) && Map.Ascending(above) && start <= |q|
    requires forall j | 0 <= j < start :: q[j] <= cookie
    requires forall j | start <= j < |q| :: q[j] > cookie
    requires cookie == 0 ==> start == 0
    requires forall x :: x in above <==> x in q && (cookie == 0 || x > cookie)
    ensures above == q[start..]
  {
    forall x ensures x in above <==> x in q[start..] {
      if x in q {
        var i :| 0 <= i < |q| && q[i] == x;
        if i >= start { assert q[start..][i - start] == x; }
      }
    }
    Map.AscendingUnique(above, q[start..]);
  }

  /** The ids of the page cut are those of the listing's page; readdir fails exactly if one of them is dangling. */
  lemma CutsTheIds(s: Map.State, L: Listing, children: set<Map.Fileid>, cookie: u64, maxEntries: nat)
    requires Shows(L, children) && 0 !in children
    ensures Proper(Mirror, L) && Start(Mirror, L, cookie).Some? && Start(Mirror, L, cookie).value <= |L|
    ensures var page := PageFrom(L, Start(Mirror, L, cookie).value, maxEntries);
            var cut := Map.CutPage(s, children, cookie, maxEntries);
            && (cut.Failed? <==> exists i :: 0 <= i < |page.entries| && page.entries[i].fileid !in s.entries)
            && (cut.Done? ==>
                  && cut.value.end == page.end && |cut.value.entries| == |page.entries|
                  && forall i | 0 <= i < |page.entries| :: cut.value.entries[i].fileid == page.entries[i].fileid)
  {
    hide Map.SortedSeq, Map.Ascending, Map.LastName, Map.Above, Start, Proper, PageFrom, Ids, Shows;
    ShownIsProper(L, children);
    AboveIsRest(L, children, cookie);
    PageIds(L, Start(Mirror, L, cookie).value, maxEntries);
  }

  lemma PageIds(L: Listing, start: nat, maxEntries: nat)
    requires start <= |L|
    ensures var page, rest := PageFrom(L, start, maxEntries), Ids(L)[start..];
            var limit := if maxEntries == 0 then 1 else maxEntries;
            && |page.entries| == (if |rest| <= limit then |rest| else limit)
            && (page.end <==> |page.entries| == |rest|)
            && forall i | 0 <= i < |page.entries| :: page.entries[i].fileid == rest[i]
  {}

  /** Child sets as sound states have them: no id 0, and ids the counter gave out before it wrapped. */
  predicate Words(children: set<Map.Fileid>) { forall c | c in children :: 0 < c < WORD }

  lemma ListingShows(s: Map.State, children: set<Map.Fileid>)
    requires Words(children)
    ensures Shows(ListingOf(s, children), children)
  {
    var q, L := Map.SortedSeq(children), ListingOf(s, children);
    forall i | 0 <= i < |q| ensures Ids(L)[i] == q[i] {
      assert q[i] in children;
    }
  }

  /**
   readdir's page, as the handler gets it, is the page the child set's listing has from where the cookie resumes:
   the same ids, names and attributes, and the same end. It fails exactly if one of its ids is dangling.
   */
  lemma CutsThePage(s: Map.State, children: set<Map.Fileid>, cookie: u64, maxEntries: nat)
    requires Words(children)
    ensures var L := ListingOf(s, children);
            && Proper(Mirror, L) && Start(Mirror, L, cookie).Some? && Start(Mirror, L, cookie).value <= |L|
            && var page := PageFrom(L, Start(Mirror, L, cookie).value, maxEntries);
               var cut := Map.CutPage(s, children, cookie, maxEntries);
               && (cut.Failed? <==> exists i :: 0 <= i < |page.entries| && page.entries[i].fileid !in s.entries)
               && (cut.Done? ==> AsPage(cut.value) == page)
  {
    hide Map.SortedSeq, Map.Ascending, Map.LastName, Map.Above, Start, Proper, PageFrom, Ids, Shows, AsEntry;
    var L := ListingOf(s, children);
    ListingShows(s, children);
    AboveIsRest(L, children, cookie);
    CutsTheIds(s, L, children, cookie, maxEntries);
    var start := Start(Mirror, L, cookie).value;
    var page := PageFrom(L, start, maxEntries);
    var cut := Map.CutPage(s, children, cookie, maxEntries);
    if cut.Done? {
      ShownIds(s, children);
      PageEntries(L, start, maxEntries);
      var ids := Map.SortedSeq(Map.Above(children, cookie));
      forall i | 0 <= i < |page.entries| ensures AsPage(cut.value).entries[i] == page.entries[i] {
        assert ids[i] == Map.SortedSeq(children)[start + i];
      }
    }
  }

  lemma {:induction false} ShownIds(s: Map.State, children: set<Map.Fileid>)
    requires Words(children)
    ensures Ids(ListingOf(s, children)) == Map.SortedSeq(children)
  {
    ListingShows(s, children);
  }

  lemma PageEntries(L: Listing, start: nat, maxEntries: nat)
    requires start <= |L|
    ensures var es := PageFrom(L, start, maxEntries).entries;
            start + |es| <= |L| && forall i | 0 <= i < |es| :: es[i] == L[start + i]
  {}

  // ---- a whole listing, while everything changes ----

  /** What happens before a call, what the disk answers during its readdir, and the call as the client sees it. */
  datatype Turn = Turn(ops: seq<Map.Op>, stat: Map.Stat, listing: Map.DirListing, call: Call)

  ghost function Reading(s: Map.State, dirid: Map.Fileid, v: Turn): (Map.State, Outcome<set<Map.Fileid>>)
  {
    Map.ReadDirChildren(Map.Run(s, v.ops), dirid, v.stat, v.listing)
  }

  /** The handler answers the call from the page that readdir cut: the entries that fit, and eof if they are all. */
  ghost predicate AnsweredFrom(cut: Outcome<Map.MirrorPage>, c: Call)
  {
    && cut.Done? && c.count <= |cut.value.entries|
    && LongestFit(AsPage(cut.value).entries, c.count, c.base, c.args)
    && (c.eof <==> c.count == |cut.value.entries| && cut.value.end)
  }

  /** The ids of the entries a call delivers. */
  function Sent(cut: Map.MirrorPage, count: nat): (ids: seq<u64>)
    requires count <= |cut.entries|
    ensures |ids| == count && forall i | 0 <= i < count :: ids[i] == Word(cut.entries[i].fileid)
  {
    seq(count, i requires 0 <= i < count => Word(cut.entries[i].fileid))
  }

  function Onward(ids: seq<u64>, cookie: u64): u64 { if ids == [] then cookie else ids[|ids| - 1] }

  ghost function Cut(s: Map.State, dirid: Map.Fileid, cookie: u64, v: Turn): Outcome<Map.MirrorPage>
  {
    var (t, kids) := Reading(s, dirid, v);
    if kids.Failed? then Failed(kids.stat) else Map.CutPage(t, kids.value, cookie, v.call.args.dircount / 16)
  }

  /**
   A client lists a directory from a cookie on. Before each call any operations run; the counter has not wrapped;
   the call succeeds; and the next call resumes at the last id received.
   */
  ghost predicate Walks(s: Map.State, dirid: Map.Fileid, cookie: u64, turns: seq<Turn>)
    decreases |turns|
  {
    turns != [] ==>
      var v := turns[0];
      var t, cut := Reading(s, dirid, v).0, Cut(s, dirid, cookie, v);
      && t.next <= WORD && AnsweredFrom(cut, v.call) && (v.call.eof ==> |turns| == 1)
      && Walks(t, dirid, Onward(Sent(cut.value, v.call.count), cookie), turns[1..])
  }

  ghost function WalkedIds(s: Map.State, dirid: Map.Fileid, cookie: u64, turns: seq<Turn>): seq<u64>
    requires Walks(s, dirid, cookie, turns)
    decreases |turns|
  {
    if turns == [] then []
    else
      var v := turns[0];
      var ids := Sent(Cut(s, dirid, cookie, v).value, v.call.count);
      ids + WalkedIds(Reading(s, dirid, v).0, dirid, Onward(ids, cookie), turns[1..])
  }

  /** The entries received. */
  ghost function WalkedEntries(s: Map.State, dirid: Map.Fileid, cookie: u64, turns: seq<Turn>): seq<DirEntry>
    requires Walks(s, dirid, cookie, turns)
    decreases |turns|
  {
    if turns == [] then []
    else
      var v := turns[0];
      var cut := Cut(s, dirid, cookie, v).value;
      AsPage(cut).entries[..v.call.count]
        + WalkedEntries(Reading(s, dirid, v).0, dirid, Onward(Sent(cut, v.call.count), cookie), turns[1..])
  }

  lemma SentAreIds(cut: Map.MirrorPage, count: nat)
    requires count <= |cut.entries|
    ensures Ids(AsPage(cut).entries[..count]) == Sent(cut, count)
  {
    hide AsAttr;
    forall i | 0 <= i < count ensures AsPage(cut).entries[i].fileid == Sent(cut, count)[i] {
      assert AsPage(cut).entries[i] == AsEntry(cut.entries[i]);
    }
  }

  lemma IdsJoin(a: seq<DirEntry>, b: seq<DirEntry>)
    ensures Ids(a + b) == Ids(a) + Ids(b)
  {}

  /** The ids received are those of the entries received. */
  lemma {:induction false} WalkedEntriesIds(s: Map.State, dirid: Map.Fileid, cookie: u64, turns: seq<Turn>)
    requires Walks(s, dirid, cookie, turns)
    ensures Ids(WalkedEntries(s, dirid, cookie, turns)) == WalkedIds(s, dirid, cookie, turns)
    decreases |turns|
  {
    hide AsPage, Reading, Ids, Sent, LongestFit, Onward;
    if turns != [] {
      var v := turns[0];
      var cut := Cut(s, dirid, cookie, v).value;
      var (t, next) := (Reading(s, dirid, v).0, Onward(Sent(cut, v.call.count), cookie));
      SentAreIds(cut, v.call.count);
      WalkedEntriesIds(t, dirid, next, turns[1..]);
      IdsJoin(AsPage(cut).entries[..v.call.count], WalkedEntries(t, dirid, next, turns[1..]));
    }
  }

  /** The child sets paged through, call by call. */
  ghost function ChildSets(s: Map.State, dirid: Map.Fileid, turns: seq<Turn>): (sets: seq<set<Map.Fileid>>)
    ensures |sets| == |turns|
    decreases |turns|
  {
    if turns == [] then []
    else
      var (t, kids) := Reading(s, dirid, turns[0]);
      [if kids.Done? then kids.value else {}] + ChildSets(t, dirid, turns[1..])
  }

  ghost function Listings(s: Map.State, dirid: Map.Fileid, turns: seq<Turn>): (Ls: seq<Listing>)
    ensures |Ls| == |turns|
    decreases |turns|
  {
    if turns == [] then []
    else
      var (t, kids) := Reading(s, dirid, turns[0]);
      [if kids.Done? then ListingOf(t, kids.value) else []] + Listings(t, dirid, turns[1..])
  }

  function Calls(turns: seq<Turn>): (calls: seq<Call>)
    ensures |calls| == |turns| && forall i | 0 <= i < |turns| :: calls[i] == turns[i].call
  {
    seq(|turns|, i requires 0 <= i < |turns| => turns[i].call)
  }

  /** A readdir in a sound state leaves a sound state, and pages through ids that were handed out. */
  lemma {:induction false} ReadingSound(s: Map.State, dirid: Map.Fileid, v: Turn)
    requires Safety.Sound(s)
    ensures var (t, kids) := Reading(s, dirid, v);
            Safety.Sound(t) && (kids.Done? ==> forall c | c in kids.value :: 0 < c < t.next)
  {
    hide Map.Run, Map.RefreshEntry, Map.RefreshDirList, Safety.SymbolsSound, Safety.PathsSound;
    Safety.AllRunsSound(s, v.ops);
    var s1 := Map.Run(s, v.ops);
    Safety.RefreshSound(s1, dirid, v.stat);
    Safety.RelistSound(Map.RefreshEntry(s1, dirid, v.stat).0, dirid, v.listing);
  }

  /** One call is served from the child set's listing, and delivers its next stretch. */
  lemma TurnServed(t: Map.State, kids: set<Map.Fileid>, cookie: u64, c: Call)
    requires Words(kids)
    requires AnsweredFrom(Map.CutPage(t, kids, cookie, c.args.dircount / 16), c)
    ensures var L := ListingOf(t, kids);
            && Proper(Mirror, L) && Start(Mirror, L, cookie).Some?
            && var start := Start(Mirror, L, cookie).value;
               && start <= |L| && Served(L, start, c) && start + c.count <= |L|
               && var ids := Sent(Map.CutPage(t, kids, cookie, c.args.dircount / 16).value, c.count);
                  ids == Ids(L[start..start + c.count]) && Onward(ids, cookie) == NextCookie(L, start, c.count, cookie)
  {
    hide LongestFit, Map.CutPage, Start, Proper, PageFrom, AsPage, ListingOf, Sent, Onward, NextCookie;
    var L := ListingOf(t, kids);
    CutsThePage(t, kids, cookie, c.args.dircount / 16);
    var cut := Map.CutPage(t, kids, cookie, c.args.dircount / 16).value;
    SentIsStretch(L, Start(Mirror, L, cookie).value, cut, cookie, c);
  }

  lemma SentIsStretch(L: Listing, start: nat, cut: Map.MirrorPage, cookie: u64, c: Call)
    requires start <= |L| && AsPage(cut) == PageFrom(L, start, c.args.dircount / 16) && c.count <= |cut.entries|
    ensures start + c.count <= |L|
    ensures Sent(cut, c.count) == Ids(L[start..start + c.count])
    ensures Onward(Sent(cut, c.count), cookie) == NextCookie(L, start, c.count, cookie)
  {
    hide PageFrom, AsAttr;
    PageEntries(L, start, c.args.dircount / 16);
    forall i | 0 <= i < c.count ensures Sent(cut, c.count)[i] == L[start + i].fileid {
      assert AsPage(cut).entries[i].fileid == Word(cut.entries[i].fileid);
    }
  }

  /** A walk over the cache is a walk over the listings its child sets have. */
  lemma {:induction false} WalkWanders(s: Map.State, dirid: Map.Fileid, cookie: u64, turns: seq<Turn>)
    requires Safety.Sound(s) && Walks(s, dirid, cookie, turns)
    ensures var Ls, calls := Listings(s, dirid, turns), Calls(turns);
            && (forall L | L in Ls :: Proper(Mirror, L))
            && Wanders(Ls, cookie, calls) && WalkedIds(s, dirid, cookie, turns) == WanderedIds(Ls, cookie, calls)
            && forall k | 0 <= k < |turns| :: Ids(Ls[k]) == Map.SortedSeq(ChildSets(s, dirid, turns)[k])
    decreases |turns|
  {
    hide Reading, Safety.Sound, Map.CutPage, Map.SortedSeq, Served, Start, Proper, Ids, Sent, Onward, NextCookie,
         AnsweredFrom;
    if turns != [] {
      var v := turns[0];
      var (t, kids) := Reading(s, dirid, v);
      ReadingSound(s, dirid, v);
      SucceededReading(s, dirid, cookie, v);
      TurnServed(t, kids.value, cookie, v.call);
      ShownIds(t, kids.value);
      var ids := Sent(Cut(s, dirid, cookie, v).value, v.call.count);
      WalkWanders(t, dirid, Onward(ids, cookie), turns[1..]);
      assert Calls(turns)[1..] == Calls(turns[1..]);
    }
  }

  lemma SucceededReading(s: Map.State, dirid: Map.Fileid, cookie: u64, v: Turn)
    requires AnsweredFrom(Cut(s, dirid, cookie, v), v.call)
    ensures var (t, kids) := Reading(s, dirid, v);
            kids.Done? && AnsweredFrom(Map.CutPage(t, kids.value, cookie, v.call.args.dircount / 16), v.call)
  {}

  predicate InSome(sets: seq<set<Map.Fileid>>, x: Map.Fileid) { exists k :: 0 <= k < |sets| && x in sets[k] }

  predicate InEvery(sets: seq<set<Map.Fileid>>, x: Map.Fileid) { forall k | 0 <= k < |sets| :: x in sets[k] }

  /**
   Listing a directory of MirrorFS from cookie 0 while any operations run between the calls and whatever the disk
   answers: no id is received twice; none is received that no call's child set had; and once eof is received, every
   id that was in the child set at each call has been received, so exactly once.
   */
  lemma {:induction false} WalkIsSafe(s: Map.State, dirid: Map.Fileid, turns: seq<Turn>)
    requires Safety.Sound(s) && Walks(s, dirid, 0, turns)
    ensures var got, sets := WalkedIds(s, dirid, 0, turns), ChildSets(s, dirid, turns);
            && (forall i, j | 0 <= i < j < |got| :: got[i] != got[j])
            && (forall x | x in got :: InSome(sets, x))
            && (turns != [] && turns[|turns| - 1].call.eof ==>
                  forall x: u64 | InEvery(sets, x) :: x in got)
  {
    hide Walks, WalkedIds, ChildSets, Listings, Wanders, WanderedIds, Proper, Ids, Safety.Sound;
    var Ls, calls, sets := Listings(s, dirid, turns), Calls(turns), ChildSets(s, dirid, turns);
    WalkWanders(s, dirid, 0, turns);
    WanderingIsSafe(Ls, calls);
    forall k, x: u64 | 0 <= k < |turns| ensures x in Ids(Ls[k]) <==> x in sets[k] {
      assert Ids(Ls[k]) == Map.SortedSeq(sets[k]);
    }
    forall x | x in WalkedIds(s, dirid, 0, turns) ensures InSome(sets, x) {
      var L :| L in Ls && x in Ids(L);
      var k :| 0 <= k < |Ls| && Ls[k] == L;
      assert x in sets[k];
    }
    if turns != [] && turns[|turns| - 1].call.eof {
      NoZeros(s, dirid, turns);
      forall x: u64 | InEvery(sets, x) ensures x in WalkedIds(s, dirid, 0, turns) {
        assert forall L | L in Ls :: x in Ids(L);
        assert x in sets[0];
      }
    }
  }

  lemma {:induction false} NoZeros(s: Map.State, dirid: Map.Fileid, turns: seq<Turn>)
    requires Safety.Sound(s) && turns != []
    ensures 0 !in ChildSets(s, dirid, turns)[0]
  {
    hide Reading, Safety.Sound;
    ReadingSound(s, dirid, turns[0]);
  }

  // ---- names the disk lists ----

  /** A readdir that lists the directory anew pages through exactly the ids of the names found. */
  lemma RelistedChildren(s: Map.State, dirid: Map.Fileid, stat: Map.Stat, listing: Map.DirListing)
    requires Safety.Sound(s) && Effects.Relists(Map.RefreshEntry(s, dirid, stat).0, dirid) && listing.Listed?
    ensures var s1 := Map.RefreshEntry(s, dirid, stat).0;
            var (t, kids) := Map.ReadDirChildren(s, dirid, stat, listing);
            var dir, names := s1.entries[dirid].name, Safety.ListedNames(listing.found);
            kids.Done? ==> kids.value == Safety.IdsOf(t, dir, names) && forall n | n in names :: Safety.Known(t, dir, n)
  {
    hide Map.RefreshEntry, Map.CreateAll, Safety.Interned, Safety.Known, Safety.KnownId;
    Safety.RefreshSound(s, dirid, stat);
    var s1 := Map.RefreshEntry(s, dirid, stat).0;
    var dir, names := s1.entries[dirid].name, Safety.ListedNames(listing.found);
    assert Safety.Interned(s1.symbols, dir);
    Safety.CreateAllKnows(s1, dir, listing.found, {});
    var (s2, all) := Map.CreateAll(s1, dir, listing.found, {});
    if dirid in s2.entries { Outcomes.SameIds(s2, Map.SetChildren(s2, dirid, Some(all)), dir, names); }
  }

  /** At each call the directory is listed anew, the disk lists the name, and the name has this id. */
  ghost predicate ListedThroughout(s: Map.State, dirid: Map.Fileid, turns: seq<Turn>, name: Map.Name, id: Map.Fileid)
    decreases |turns|
  {
    turns != [] ==>
      var v := turns[0];
      var s1 := Map.RefreshEntry(Map.Run(s, v.ops), dirid, v.stat).0;
      var t := Reading(s, dirid, v).0;
      && Effects.Relists(s1, dirid) && v.listing.Listed? && name in Safety.ListedNames(v.listing.found)
      && Safety.Known(t, s1.entries[dirid].name, name) && Safety.KnownId(t, s1.entries[dirid].name, name) == id
      && ListedThroughout(t, dirid, turns[1..], name, id)
  }

  lemma {:induction false} ListedIsInEvery(s: Map.State, dirid: Map.Fileid, cookie: u64, turns: seq<Turn>,
                                           name: Map.Name, id: Map.Fileid)
    requires Safety.Sound(s) && Walks(s, dirid, cookie, turns) && ListedThroughout(s, dirid, turns, name, id)
    ensures InEvery(ChildSets(s, dirid, turns), id)
    decreases |turns|
  {
    hide Map.RefreshEntry, Map.Run, Map.ReadDirChildren, Map.CutPage, Safety.Sound, Safety.Known, Safety.KnownId,
         Effects.Relists, AnsweredFrom;
    if turns != [] {
      var v := turns[0];
      Safety.AllRunsSound(s, v.ops);
      RelistedChildren(Map.Run(s, v.ops), dirid, v.stat, v.listing);
      SucceededReading(s, dirid, cookie, v);
      ReadingSound(s, dirid, v);
      var next := Onward(Sent(Cut(s, dirid, cookie, v).value, v.call.count), cookie);
      ListedIsInEvery(Reading(s, dirid, v).0, dirid, next, turns[1..], name, id);
    }
  }

  ghost predicate Once(ids: seq<u64>, id: u64)
  {
    exists i :: 0 <= i < |ids| && ids[i] == id && forall j | 0 <= j < |ids| && j != i :: ids[j] != id
  }

  /** A name the disk lists at every call, under one id, is received exactly once by the time eof is. */
  lemma {:induction false} ListedNameArrives(s: Map.State, dirid: Map.Fileid, turns: seq<Turn>, name: Map.Name, id: u64)
    requires Safety.Sound(s) && Walks(s, dirid, 0, turns) && ListedThroughout(s, dirid, turns, name, id)
    requires turns != [] && turns[|turns| - 1].call.eof
    ensures Once(WalkedIds(s, dirid, 0, turns), id)
  {
    hide Walks, ListedThroughout, Safety.Sound, InEvery;
    ListedIsInEvery(s, dirid, 0, turns, name, id);
    WalkIsSafe(s, dirid, turns);
    var got := WalkedIds(s, dirid, 0, turns);
    assert id in got;
    var i :| 0 <= i < |got| && got[i] == id;
    assert forall j | 0 <= j < |got| && j != i :: got[j] != got[i];
  }
}
