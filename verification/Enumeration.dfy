/**
 Listing a directory with a sequence of READDIRPLUS calls, each resuming after the last entry received:
 the file systems' readdir contract, the cut made by the handler's budgets, and the client's loop.
 */
module Enumeration {
  import opened Bytes
  import opened Nfs
  import opened ReadDirPlus
  import opened Xdr

  type Listing = seq<DirEntry>

  // ---- readdir ----

  /** What readdir returns from position start: at most max(1, maxEntries) entries, and whether these are all. */
  function PageFrom(L: Listing, start: nat, maxEntries: nat): Page
    requires start <= |L|
  {
    var limit := if maxEntries == 0 then 1 else maxEntries;
    var stop := if |L| - start <= limit then |L| else start + limit;
    Page(L[start..stop], stop == |L|)
  }

  /** How the two file systems find the position after a cookie: by position, or by order. */
  datatype Server = Demo | Mirror

  function Start(server: Server, L: Listing, cookie: u64): Option<nat>
  {
    if cookie == 0 then Some(0)
    else if server.Demo? then
      (if exists i :: 0 <= i < |L| && L[i].fileid == cookie then Some(FirstIndex(L, cookie) + 1) else None)
    else Some(CountUpTo(L, cookie))
  }

  function FirstIndex(L: Listing, id: u64): (i: nat)
    requires exists i :: 0 <= i < |L| && L[i].fileid == id
    ensures i < |L| && L[i].fileid == id && forall j | 0 <= j < i :: L[j].fileid != id
  {
    if L[0].fileid == id then 0
    else
      assert exists i :: 0 <= i < |L[1..]| && L[1..][i].fileid == id by {
        var i :| 0 <= i < |L| && L[i].fileid == id;
        assert L[1..][i - 1].fileid == id;
      }
      var k := FirstIndex(L[1..], id);
      assert forall j | 0 < j < k + 1 :: L[j] == L[1..][j - 1];
      k + 1
  }

  /** The length of the leading run of ids up to and including cookie. */
  function CountUpTo(L: Listing, cookie: u64): (n: nat)
    ensures n <= |L| && (forall j | 0 <= j < n :: L[j].fileid <= cookie) && (n < |L| ==> L[n].fileid > cookie)
  {
    if L == [] || L[0].fileid > cookie then 0 else 1 + CountUpTo(L[1..], cookie)
  }

  predicate Ascending(L: Listing) { forall i, j | 0 <= i < j < |L| :: L[i].fileid < L[j].fileid }

  /** A directory listing: distinct nonzero ids, ascending where readdir relies on order. */
  predicate Proper(server: Server, L: Listing)
  {
    && (forall i | 0 <= i < |L| :: L[i].fileid != 0)
    && (forall i, j | 0 <= i < j < |L| :: L[i].fileid != L[j].fileid)
    && (server.Mirror? ==> Ascending(L))
  }

  lemma {:induction false} CountIs(L: Listing, cookie: u64, m: nat)
    requires m <= |L| && (forall j | 0 <= j < m :: L[j].fileid <= cookie)
    requires m < |L| ==> L[m].fileid > cookie
    requires Ascending(L)
    ensures CountUpTo(L, cookie) == m
  {}

  /** A cookie that is an entry's id resumes right after that entry. */
  lemma ResumesAfter(server: Server, L: Listing, i: nat)
    requires Proper(server, L) && i < |L|
    ensures Start(server, L, L[i].fileid) == Some(i + 1)
  {
    var cookie := L[i].fileid;
    if server.Demo? {
      var k := FirstIndex(L, cookie);
      assert k == i;
    } else {
      CountIs(L, cookie, i + 1);
    }
  }

  // ---- one call ----

  /** A call as the client sees it: its budgets, the bytes before the list, entries received and eof. */
  datatype Call = Call(args: Args, base: nat, count: nat, eof: bool)

  /** The handler answers the call from position start of the listing. */
  ghost predicate Served(L: Listing, start: nat, c: Call)
    requires start <= |L|
  {
    var page := PageFrom(L, start, c.args.dircount / 16);
    && c.count <= |page.entries|
    && LongestFit(page.entries, c.count, c.base, c.args)
    && (c.eof <==> c.count == |page.entries| && page.end)
  }

  /** The entries sent are the next ones of the listing, and eof says exactly that none is left. */
  lemma ServedIsNext(L: Listing, start: nat, c: Call)
    requires start <= |L| && Served(L, start, c)
    ensures start + c.count <= |L|
    ensures PageFrom(L, start, c.args.dircount / 16).entries[..c.count] == L[start..start + c.count]
    ensures c.eof <==> start + c.count == |L|
  {
    var page := PageFrom(L, start, c.args.dircount / 16);
    assert |page.entries| > 0 || start == |L|;
  }

  lemma PageIsPart(L: Listing, start: nat, maxEntries: nat)
    requires start <= |L|
    ensures start + |PageFrom(L, start, maxEntries).entries| <= |L|
    ensures forall e | e in PageFrom(L, start, maxEntries).entries :: e in L
  {}

  /** The reply's bytes tell the client just that. */
  lemma ClientSees(xid: u32, attr: Option<Fattr3>, gen: u64, L: Listing, start: nat, args: Args, k: nat)
    requires start <= |L| && AllNamed(L)
    requires LongestFit(PageFrom(L, start, args.dircount / 16).entries, k, |ReplyPrefix(xid, attr)|, args)
    ensures var page := PageFrom(L, start, args.dircount / 16);
            && AllNamed(page.entries) && start + k <= |L|
            && ParseReply(OkReply(xid, attr, gen, page.entries, k, k == |page.entries| && page.end))
               == Some(Listed(xid, PostOpValue(attr), DirVersion(attr), EntryValues(gen, L[start..start + k], k),
                              start + k == |L|))
  {
    hide ParseReply, OkReply, ReplyPrefix, EntryValue, PostOpValue, DirVersion, Fits;
    var page := PageFrom(L, start, args.dircount / 16);
    PageIsPart(L, start, args.dircount / 16);
    ServedIsNext(L, start, Call(args, |ReplyPrefix(xid, attr)|, k, k == |page.entries| && page.end));
    ReplyReadsBack(xid, attr, gen, page.entries, k, k == |page.entries| && page.end);
    assert forall i | 0 <= i < k :: page.entries[i] == L[start..start + k][i];
    assert EntryValues(gen, page.entries, k) == EntryValues(gen, L[start..start + k], k);
  }

  /** The budgets hold the next entry, if there is one. */
  predicate Roomy(L: Listing, start: nat, c: Call)
  {
    start < |L| ==> Fits([L[start]], 1, c.base, c.args)
  }

  /** A call gets at least one entry exactly when there is one and its budgets hold it. */
  lemma Progress(L: Listing, start: nat, c: Call)
    requires start <= |L| && Served(L, start, c)
    ensures c.count > 0 <==> start < |L| && Roomy(L, start, c)
  {
    var es := PageFrom(L, start, c.args.dircount / 16).entries;
    if start < |L| {
      assert es[0] == L[start];
      assert EntriesSize(es, 1) == EntriesSize(es, 0) + ElementSize(es[0]);
      assert EntriesSize([L[start]], 1) == EntriesSize([L[start]], 0) + ElementSize(L[start]);
      assert DirSize(es, 1) == DirSize(es, 0) + 20 + |es[0].name|;
      assert DirSize([L[start]], 1) == DirSize([L[start]], 0) + 20 + |L[start].name|;
      assert Fits(es, 1, c.base, c.args) <==> 1 <= c.count;
    }
  }

  // ---- a whole listing of an unchanged directory ----

  function NextCookie(L: Listing, start: nat, count: nat, cookie: u64): u64
    requires start + count <= |L|
  {
    if count == 0 then cookie else L[start + count - 1].fileid
  }

  /** The client calls until eof, each call resuming at the cookie of the last entry received. */
  ghost predicate Lists(server: Server, L: Listing, cookie: u64, calls: seq<Call>)
    decreases |calls|
  {
    calls != [] ==>
      var start := Start(server, L, cookie);
      && start.Some? && start.value <= |L| && Served(L, start.value, calls[0])
      && start.value + calls[0].count <= |L|
      && (calls[0].eof ==> |calls| == 1)
      && Lists(server, L, NextCookie(L, start.value, calls[0].count, cookie), calls[1..])
  }

  ghost function Received(server: Server, L: Listing, cookie: u64, calls: seq<Call>): seq<DirEntry>
    requires Lists(server, L, cookie, calls)
    decreases |calls|
  {
    if calls == [] then []
    else
      var start := Start(server, L, cookie).value;
      PageFrom(L, start, calls[0].args.dircount / 16).entries[..calls[0].count]
        + Received(server, L, NextCookie(L, start, calls[0].count, cookie), calls[1..])
  }

  ghost predicate AllRoomy(server: Server, L: Listing, cookie: u64, calls: seq<Call>)
    requires Lists(server, L, cookie, calls)
    decreases |calls|
  {
    calls != [] ==>
      var start := Start(server, L, cookie).value;
      && Roomy(L, start, calls[0])
      && AllRoomy(server, L, NextCookie(L, start, calls[0].count, cookie), calls[1..])
  }

  lemma StartsAtZero(server: Server, L: Listing)
    ensures Start(server, L, 0) == Some(0)
  {}

  lemma NextCookieResumes(server: Server, L: Listing, start: nat, count: nat, cookie: u64)
    requires Proper(server, L) && Start(server, L, cookie) == Some(start) && start + count <= |L|
    ensures Start(server, L, NextCookie(L, start, count, cookie)) == Some(start + count)
  {
    hide Proper, Start;
    if count > 0 { ResumesAfter(server, L, start + count - 1); }
  }

  lemma StretchesJoin(L: Listing, start: nat, a: seq<DirEntry>, b: seq<DirEntry>)
    requires start + |a| + |b| <= |L| && a == L[start..start + |a|] && b == L[start + |a|..start + |a| + |b|]
    ensures a + b == L[start..start + |a + b|]
  {
    SlicesJoin(L, start, start + |a|, start + |a| + |b|);
  }

  /** From position start, what is received is the next stretch of the listing, and at eof all of its rest. */
  lemma {:induction false} ListsFrom(server: Server, L: Listing, start: nat, cookie: u64, calls: seq<Call>)
    requires Proper(server, L) && Start(server, L, cookie) == Some(start) && start <= |L|
    requires Lists(server, L, cookie, calls)
    ensures var got := Received(server, L, cookie, calls);
            && start + |got| <= |L| && got == L[start..start + |got|]
            && (calls != [] && calls[|calls| - 1].eof ==> start + |got| == |L|)
    decreases |calls|
  {
    hide Served, PageFrom, Proper, LongestFit, Start, NextCookie;
    if calls != [] {
      var c := calls[0];
      ServedIsNext(L, start, c);
      var next := NextCookie(L, start, c.count, cookie);
      NextCookieResumes(server, L, start, c.count, cookie);
      ListsFrom(server, L, start + c.count, next, calls[1..]);
      StretchesJoin(L, start, L[start..start + c.count], Received(server, L, next, calls[1..]));
    }
  }

  /** Calls whose budgets hold the next entry each bring one, unless none was left. */
  lemma {:induction false} RoomyCallsBring(server: Server, L: Listing, start: nat, cookie: u64, calls: seq<Call>)
    requires Proper(server, L) && Start(server, L, cookie) == Some(start) && start <= |L|
    requires Lists(server, L, cookie, calls) && AllRoomy(server, L, cookie, calls)
    ensures var got := Received(server, L, cookie, calls);
            |got| >= |calls| || (|got| == 0 && |calls| == 1 && calls[0].eof)
    decreases |calls|
  {
    hide Served, PageFrom, Proper, LongestFit, Start, NextCookie, Roomy;
    if calls != [] {
      var c := calls[0];
      ServedIsNext(L, start, c);
      Progress(L, start, c);
      var next := NextCookie(L, start, c.count, cookie);
      NextCookieResumes(server, L, start, c.count, cookie);
      ListsFrom(server, L, start + c.count, next, calls[1..]);
      RoomyCallsBring(server, L, start + c.count, next, calls[1..]);
    }
  }

  /**
   Listing an unchanged directory from cookie 0 until eof yields the whole listing in order, whatever
   the budgets; and if every call's budgets hold its next entry, eof arrives within max(1, |L|) calls.
   */
  lemma {:induction false} ListingIsComplete(server: Server, L: Listing, calls: seq<Call>)
    requires Proper(server, L) && Lists(server, L, 0, calls) && calls != []
    ensures calls[|calls| - 1].eof ==> Received(server, L, 0, calls) == L
    ensures AllRoomy(server, L, 0, calls) ==>
              && |calls| <= (if L == [] then 1 else |L|)
              && (|calls| == (if L == [] then 1 else |L|) ==> calls[|calls| - 1].eof)
  {
    hide Proper, Lists, Received, AllRoomy;
    StartsAtZero(server, L);
    ListsFrom(server, L, 0, 0, calls);
    if AllRoomy(server, L, 0, calls) { RoomyCallsBring(server, L, 0, 0, calls); }
    if |Received(server, L, 0, calls)| == |L| {
      EofWhenAllReceived(server, L, 0, 0, calls);
      assert L[0..|L|] == L;
    }
  }

  /** If the calls delivered everything, the last one said so. */
  lemma {:induction false} EofWhenAllReceived(server: Server, L: Listing, start: nat, cookie: u64, calls: seq<Call>)
    requires Proper(server, L) && Start(server, L, cookie) == Some(start) && start <= |L|
    requires Lists(server, L, cookie, calls) && calls != []
    requires start + |Received(server, L, cookie, calls)| == |L|
    ensures calls[|calls| - 1].eof
    decreases |calls|
  {
    hide Served, PageFrom, Proper, LongestFit, Start, NextCookie, Roomy;
    var c := calls[0];
    ServedIsNext(L, start, c);
    var next := NextCookie(L, start, c.count, cookie);
    NextCookieResumes(server, L, start, c.count, cookie);
    if |calls| == 1 {
      assert Received(server, L, next, []) == [];
    } else {
      EofWhenAllReceived(server, L, start + c.count, next, calls[1..]);
    }
  }

  // ---- the same, as a client sees it: from the bytes of the replies ----

  datatype Exchange = Exchange(args: Args, xid: u32, attr: Option<Fattr3>, gen: u64, reply: seq<byte>)

  /** What the client reads in a reply. */
  function Got(x: Exchange): Listed
  {
    match ParseReply(x.reply)
    case Some(l) => l
    case None => Listed(0, Absent, [], [], false)
  }

  /** The reply is the one the handler writes for this page. */
  ghost predicate Replies(page: Page, x: Exchange)
  {
    AllNamed(page.entries) && exists k :: RepliesWith(page, x, k)
  }

  ghost predicate RepliesWith(page: Page, x: Exchange, k: nat)
    requires AllNamed(page.entries)
  {
    && LongestFit(page.entries, k, |ReplyPrefix(x.xid, x.attr)|, x.args)
    && x.reply == OkReply(x.xid, x.attr, x.gen, page.entries, k, k == |page.entries| && page.end)
  }

  function CallOf(x: Exchange): Call
  {
    Call(x.args, |ReplyPrefix(x.xid, x.attr)|, |Got(x).entries|, Got(x).eof)
  }

  function CallsOf(xs: seq<Exchange>): (calls: seq<Call>)
    ensures |calls| == |xs| && forall i | 0 <= i < |xs| :: calls[i] == CallOf(xs[i])
  {
    seq(|xs|, i requires 0 <= i < |xs| => CallOf(xs[i]))
  }

  /** The entry read is this entry of the directory. */
  ghost predicate Describes(v: Value, e: DirEntry) { exists gen :: Carries(v, gen, e) }

  ghost predicate DescribeAll(vs: seq<Value>, es: seq<DirEntry>)
  {
    |vs| == |es| && forall i | 0 <= i < |vs| :: Describes(vs[i], es[i])
  }

  /** The client reads the entries sent and the eof; and goes on at the id of the last entry. */
  lemma ReadsTheReply(page: Page, x: Exchange, cookie: u64)
    requires Replies(page, x)
    ensures var count := |Got(x).entries|;
            && LongestFit(page.entries, count, |ReplyPrefix(x.xid, x.attr)|, x.args) && count <= |page.entries|
            && (Got(x).eof <==> count == |page.entries| && page.end)
            && (forall i | 0 <= i < count :: Carries(Got(x).entries[i], x.gen, page.entries[i]))
            && Resume(Got(x), cookie) == if count == 0 then cookie else page.entries[count - 1].fileid
  {
    hide ParseReply, OkReply, ReplyPrefix, CarriesAttr, CarriesDir, FhToId, Fits;
    var k :| RepliesWith(page, x, k);
    ReplyCarries(x.xid, x.attr, x.gen, page.entries, k, k == |page.entries| && page.end);
  }

  /** The client calls until eof, each call resuming at the cookie read in the last entry. */
  ghost predicate Fetches(server: Server, L: Listing, cookie: u64, xs: seq<Exchange>)
    decreases |xs|
  {
    xs != [] ==>
      var start := Start(server, L, cookie);
      && start.Some? && start.value <= |L| && Replies(PageFrom(L, start.value, xs[0].args.dircount / 16), xs[0])
      && (Got(xs[0]).eof ==> |xs| == 1)
      && Fetches(server, L, Resume(Got(xs[0]), cookie), xs[1..])
  }

  function Fetched(xs: seq<Exchange>): seq<Value>
  {
    if xs == [] then [] else Got(xs[0]).entries + Fetched(xs[1..])
  }

  lemma ExchangeIsCall(L: Listing, start: nat, cookie: u64, x: Exchange)
    requires start <= |L| && Replies(PageFrom(L, start, x.args.dircount / 16), x)
    ensures Served(L, start, CallOf(x)) && start + |Got(x).entries| <= |L|
    ensures Resume(Got(x), cookie) == NextCookie(L, start, |Got(x).entries|, cookie)
    ensures DescribeAll(Got(x).entries, L[start..start + |Got(x).entries|])
  {
    hide Replies, LongestFit, Carries, ReplyPrefix, Resume, Got, PageFrom, Describes;
    var page := PageFrom(L, start, x.args.dircount / 16);
    ReadsTheReply(page, x, cookie);
    ServedIsNext(L, start, CallOf(x));
    DescribesStretch(Got(x).entries, x.gen, page.entries);
  }

  lemma DescribesStretch(vs: seq<Value>, gen: u64, es: seq<DirEntry>)
    requires |vs| <= |es| && forall i | 0 <= i < |vs| :: Carries(vs[i], gen, es[i])
    ensures DescribeAll(vs, es[..|vs|])
  {
    hide Carries;
    forall i | 0 <= i < |vs| ensures Describes(vs[i], es[..|vs|][i]) { assert Carries(vs[i], gen, es[i]); }
  }

  lemma {:induction false} FetchesAreLists(server: Server, L: Listing, cookie: u64, xs: seq<Exchange>)
    requires Fetches(server, L, cookie, xs)
    ensures Lists(server, L, cookie, CallsOf(xs))
    ensures DescribeAll(Fetched(xs), Received(server, L, cookie, CallsOf(xs)))
    decreases |xs|
  {
    hide Replies, Served, Start, PageFrom, Got, Resume, NextCookie, Describes, ReplyPrefix;
    if xs != [] {
      var x := xs[0];
      var start := Start(server, L, cookie).value;
      ExchangeIsCall(L, start, cookie, x);
      FetchesAreLists(server, L, Resume(Got(x), cookie), xs[1..]);
      assert CallsOf(xs)[1..] == CallsOf(xs[1..]);
      ServedIsNext(L, start, CallOf(x));
    }
  }

  /**
   A client that resumes at the cookies it reads, from cookie 0 until the eof it reads, has read the whole directory
   in order, each entry with its id, name, attributes and a handle to it; and if every call's budgets hold its next
   entry, eof comes within max(1, |L|) calls.
   */
  lemma {:induction false} FetchIsComplete(server: Server, L: Listing, xs: seq<Exchange>)
    requires Proper(server, L) && Fetches(server, L, 0, xs) && xs != []
    ensures Lists(server, L, 0, CallsOf(xs))
    ensures Got(xs[|xs| - 1]).eof ==> DescribeAll(Fetched(xs), L)
    ensures AllRoomy(server, L, 0, CallsOf(xs)) ==>
              && |xs| <= (if L == [] then 1 else |L|)
              && (|xs| == (if L == [] then 1 else |L|) ==> Got(xs[|xs| - 1]).eof)
  {
    hide Proper, Fetches, Lists, Received, AllRoomy, DescribeAll, Got, ReplyPrefix;
    FetchesAreLists(server, L, 0, xs);
    ListingIsComplete(server, L, CallsOf(xs));
  }

  // ---- a directory that changes between calls ----

  /** Each call is answered from the listing the directory has at that moment. */
  ghost predicate Wanders(Ls: seq<Listing>, cookie: u64, calls: seq<Call>)
    requires |Ls| == |calls|
    decreases |calls|
  {
    calls != [] ==>
      && Start(Mirror, Ls[0], cookie).Some?
      && var start := Start(Mirror, Ls[0], cookie).value;
      && start <= |Ls[0]| && Served(Ls[0], start, calls[0])
      && start + calls[0].count <= |Ls[0]|
      && (calls[0].eof ==> |calls| == 1)
      && Wanders(Ls[1..], NextCookie(Ls[0], start, calls[0].count, cookie), calls[1..])
  }

  ghost function WanderedIds(Ls: seq<Listing>, cookie: u64, calls: seq<Call>): seq<u64>
    requires |Ls| == |calls| && Wanders(Ls, cookie, calls)
    decreases |calls|
  {
    if calls == [] then []
    else
      var start := Start(Mirror, Ls[0], cookie).value;
      Ids(Ls[0][start..start + calls[0].count])
        + WanderedIds(Ls[1..], NextCookie(Ls[0], start, calls[0].count, cookie), calls[1..])
  }

  function Ids(L: Listing): (ids: seq<u64>)
    ensures |ids| == |L| && forall i | 0 <= i < |L| :: ids[i] == L[i].fileid
  {
    seq(|L|, i requires 0 <= i < |L| => L[i].fileid)
  }

  ghost predicate Increasing(ids: seq<u64>) { forall i, j | 0 <= i < j < |ids| :: ids[i] < ids[j] }

  /** Where a call resumes: everything before is at or below the cookie, everything after above it. */
  lemma StartSplits(L: Listing, cookie: u64)
    requires Proper(Mirror, L)
    ensures Start(Mirror, L, cookie).Some?
    ensures var start := Start(Mirror, L, cookie).value;
            && start <= |L|
            && (forall j | 0 <= j < start :: L[j].fileid <= cookie)
            && (forall j | start <= j < |L| :: L[j].fileid > cookie)
  {}

  /** What one call sends is increasing, lies above its cookie and ends at the next cookie. */
  lemma WanderSends(L: Listing, start: nat, count: nat, cookie: u64)
    requires Proper(Mirror, L) && start + count <= |L|
    requires forall j | start <= j < |L| :: L[j].fileid > cookie
    ensures var ids, next := Ids(L[start..start + count]), NextCookie(L, start, count, cookie);
            && Increasing(ids) && (forall i | 0 <= i < count :: cookie < ids[i] <= next)
            && cookie <= next
  {
    var ids := Ids(L[start..start + count]);
    assert forall i | 0 <= i < count :: ids[i] == L[start + i].fileid;
  }

  /** An id after the cookie that the call did not send lies beyond the next cookie, and the call was not the last. */
  lemma WanderSkips(L: Listing, start: nat, count: nat, cookie: u64, x: u64)
    requires Proper(Mirror, L) && start + count <= |L| && cookie < x && x in Ids(L)
    requires forall j | 0 <= j < start :: L[j].fileid <= cookie
    ensures x in Ids(L[start..start + count]) || (NextCookie(L, start, count, cookie) < x && start + count < |L|)
  {
    var i :| 0 <= i < |L| && Ids(L)[i] == x;
    if i < start + count { assert Ids(L[start..start + count])[i - start] == x; }
  }

  lemma NothingIncreases()
    ensures Increasing([])
  {}

  lemma IncreasingJoins(a: seq<u64>, b: seq<u64>, cookie: u64, next: u64)
    requires Increasing(a) && Increasing(b) && cookie <= next
    requires (forall i | 0 <= i < |a| :: cookie < a[i] <= next) && forall i | 0 <= i < |b| :: next < b[i]
    ensures Increasing(a + b) && forall i | 0 <= i < |a + b| :: cookie < (a + b)[i]
  {}

  lemma {:induction false} WanderIncreases(Ls: seq<Listing>, cookie: u64, calls: seq<Call>)
    requires |Ls| == |calls| && Wanders(Ls, cookie, calls)
    requires forall L | L in Ls :: Proper(Mirror, L)
    ensures var got := WanderedIds(Ls, cookie, calls);
            Increasing(got) && forall i | 0 <= i < |got| :: cookie < got[i]
    decreases |calls|
  {
    hide Served, Proper, Start, NextCookie, Ids, Increasing;
    if calls != [] {
      var L, count := Ls[0], calls[0].count;
      StartSplits(L, cookie);
      var start := Start(Mirror, L, cookie).value;
      WanderSends(L, start, count, cookie);
      var next := NextCookie(L, start, count, cookie);
      WanderIncreases(Ls[1..], next, calls[1..]);
      IncreasingJoins(Ids(L[start..start + count]), WanderedIds(Ls[1..], next, calls[1..]), cookie, next);
    } else {
      assert Increasing([]) by { NothingIncreases(); }
    }
  }

  lemma {:induction false} WanderReturnsMembers(Ls: seq<Listing>, cookie: u64, calls: seq<Call>, x: u64)
    requires |Ls| == |calls| && Wanders(Ls, cookie, calls) && x in WanderedIds(Ls, cookie, calls)
    ensures exists L | L in Ls :: x in Ids(L)
    decreases |calls|
  {
    hide Served, Start, NextCookie, Ids;
    var L, count := Ls[0], calls[0].count;
    var start := Start(Mirror, L, cookie).value;
    if x in Ids(L[start..start + count]) {
      SubIds(L, start, count, x);
    } else {
      WanderReturnsMembers(Ls[1..], NextCookie(L, start, count, cookie), calls[1..], x);
    }
  }

  lemma {:induction false} WanderReturnsStayers(Ls: seq<Listing>, cookie: u64, calls: seq<Call>, x: u64)
    requires |Ls| == |calls| && Wanders(Ls, cookie, calls) && calls != [] && calls[|calls| - 1].eof
    requires forall L | L in Ls :: Proper(Mirror, L)
    requires cookie < x && forall L | L in Ls :: x in Ids(L)
    ensures x in WanderedIds(Ls, cookie, calls)
    decreases |calls|
  {
    hide Served, Proper, Start, NextCookie, Ids;
    var L, c := Ls[0], calls[0];
    StartSplits(L, cookie);
    var start := Start(Mirror, L, cookie).value;
    ServedIsNext(L, start, c);
    WanderSkips(L, start, c.count, cookie, x);
    if x !in Ids(L[start..start + c.count]) {
      WanderReturnsStayers(Ls[1..], NextCookie(L, start, c.count, cookie), calls[1..], x);
    }
  }

  /**
   However the directory changes between calls: no id is returned twice, every id returned was in the
   directory when it was returned, and once eof is reached every id present throughout was returned,
   even if the cookie's own entry is gone.
   */
  lemma {:induction false} WanderingIsSafe(Ls: seq<Listing>, calls: seq<Call>)
    requires |Ls| == |calls| && Wanders(Ls, 0, calls)
    requires forall L | L in Ls :: Proper(Mirror, L)
    ensures var got := WanderedIds(Ls, 0, calls);
            && (forall i, j | 0 <= i < j < |got| :: got[i] != got[j])
            && (forall x | x in got :: exists L | L in Ls :: x in Ids(L))
    ensures calls != [] && calls[|calls| - 1].eof ==>
              forall x: u64 | x != 0 && (forall L | L in Ls :: x in Ids(L)) :: x in WanderedIds(Ls, 0, calls)
  {
    hide Proper, Wanders, WanderedIds, Ids;
    WanderIncreases(Ls, 0, calls);
    forall x | x in WanderedIds(Ls, 0, calls) ensures exists L | L in Ls :: x in Ids(L) {
      WanderReturnsMembers(Ls, 0, calls, x);
    }
    if calls != [] && calls[|calls| - 1].eof {
      forall x: u64 | x != 0 && forall L | L in Ls :: x in Ids(L) ensures x in WanderedIds(Ls, 0, calls) {
        WanderReturnsStayers(Ls, 0, calls, x);
      }
    }
  }

  lemma SubIds(L: Listing, start: nat, count: nat, x: u64)
    requires start + count <= |L| && x in Ids(L[start..start + count])
    ensures x in Ids(L)
  {
    var i :| 0 <= i < count && Ids(L[start..start + count])[i] == x;
    assert Ids(L)[start + i] == x;
  }
}
