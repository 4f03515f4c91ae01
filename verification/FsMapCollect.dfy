/** The recursion of collect_all_children: when it ends, what it visits and how often. */
module FsMapCollect {
  import opened ReadDirPlus
  import opened FsMap
  import opened FsMapSafety
  import opened FsMapTree

  function Children(entries: map<Fileid, Entry>, id: Fileid): set<Fileid>
  {
    if id in entries && entries[id].children.Some? then entries[id].children.value else {}
  }

  // ---- when it ends ----

  /** The recursion from id ends within depth n. */
  ghost predicate Ends(entries: map<Fileid, Entry>, id: Fileid, n: nat)
    decreases n
  {
    n > 0 && forall c | Edge(entries, id, c) :: Ends(entries, c, n - 1)
  }

  ghost predicate Terminates(entries: map<Fileid, Entry>, id: Fileid) { exists n :: Ends(entries, id, n) }

  /** A chain of cached children from a live id back to itself. */
  ghost predicate Cycle(entries: map<Fileid, Entry>, a: Fileid, c: seq<Fileid>)
  {
    a in entries && |c| > 1 && Chain(entries, c) && c[0] == a == c[|c| - 1]
  }

  ghost predicate CycleBelow(entries: map<Fileid, Entry>, id: Fileid)
  {
    exists a, c :: Reaches(entries, id, a) && Cycle(entries, a, c)
  }

  lemma ChainRest(entries: map<Fileid, Entry>, c: seq<Fileid>, i: nat, j: nat)
    requires Chain(entries, c) && i < j <= |c|
    ensures Chain(entries, c[i..j])
  {
    forall k | 0 <= k < j - i - 1 ensures Edge(entries, c[i..j][k], c[i..j][k + 1]) {
      assert Edge(entries, c[i + k], c[i + k + 1]);
    }
  }

  /** Following a chain uses up depth. */
  lemma {:induction false} EndsAlong(entries: map<Fileid, Entry>, c: seq<Fileid>, n: nat)
    requires Chain(entries, c) && Ends(entries, c[0], n)
    ensures n >= |c| && Ends(entries, c[|c| - 1], n - (|c| - 1))
    decreases |c|
  {
    if |c| > 1 {
      assert Edge(entries, c[0], c[1]);
      ChainRest(entries, c, 1, |c|);
      EndsAlong(entries, c[1..], n - 1);
    }
  }

  lemma {:induction false} CycleNeverEnds(entries: map<Fileid, Entry>, a: Fileid, c: seq<Fileid>, n: nat)
    requires Cycle(entries, a, c)
    ensures !Ends(entries, a, n)
    decreases n
  {
    if Ends(entries, a, n) {
      EndsAlong(entries, c, n);
      CycleNeverEnds(entries, a, c, n - (|c| - 1));
    }
  }

  /** A recursion that does not end within depth n follows a chain that long. */
  lemma {:induction false} LongChain(entries: map<Fileid, Entry>, id: Fileid, n: nat) returns (c: seq<Fileid>)
    requires !Ends(entries, id, n)
    ensures Chain(entries, c) && c[0] == id && |c| == n + 1
    decreases n
  {
    if n == 0 {
      c := [id];
    } else {
      var kid :| Edge(entries, id, kid) && !Ends(entries, kid, n - 1);
      var rest := LongChain(entries, kid, n - 1);
      c := [id] + rest;
    }
  }

  lemma {:induction false} Pigeonhole(q: seq<Fileid>, xs: set<Fileid>) returns (i: nat, j: nat)
    requires |q| > |xs| && forall k | 0 <= k < |q| :: q[k] in xs
    ensures i < j < |q| && q[i] == q[j]
    decreases |q|
  {
    if k :| 0 < k < |q| && q[k] == q[0] {
      i, j := 0, k;
    } else {
      i, j := Pigeonhole(q[1..], xs - {q[0]});
      i, j := i + 1, j + 1;
    }
  }

  /** A chain with more links than there are live ids runs through a cycle. */
  lemma LongChainCycles(entries: map<Fileid, Entry>, c: seq<Fileid>)
    requires Chain(entries, c) && |c| > |entries| + 1
    ensures CycleBelow(entries, c[0])
  {
    var links := c[..|c| - 1];
    forall k | 0 <= k < |links| ensures links[k] in entries { assert Edge(entries, c[k], c[k + 1]); }
    var i, j := Pigeonhole(links, entries.Keys);
    ChainRest(entries, c, 0, i + 1);
    ChainRest(entries, c, i, j + 1);
    assert Reaches(entries, c[0], c[i]) by { assert c[..i + 1][i] == c[i]; }
    assert Cycle(entries, c[i], c[i..j + 1]);
  }

  /**
   The recursion from id ends if and only if no cycle of cached children of live entries is reachable from id; and
   then it ends within a depth of the number of live entries and one.
   */
  lemma {:induction false} EndsIffNoCycle(entries: map<Fileid, Entry>, id: Fileid)
    ensures Terminates(entries, id) <==> !CycleBelow(entries, id)
    ensures Terminates(entries, id) <==> Ends(entries, id, |entries| + 1)
  {
    hide Reaches, Cycle, Chain;
    if !Ends(entries, id, |entries| + 1) {
      var c := LongChain(entries, id, |entries| + 1);
      LongChainCycles(entries, c);
    }
    if CycleBelow(entries, id) {
      var a, c :| Reaches(entries, id, a) && Cycle(entries, a, c);
      ReachedCycle(entries, id, a, c);
    }
  }

  lemma ReachedCycle(entries: map<Fileid, Entry>, id: Fileid, a: Fileid, c: seq<Fileid>)
    requires Reaches(entries, id, a) && Cycle(entries, a, c)
    ensures !Terminates(entries, id)
  {
    var b :| Chain(entries, b) && b[0] == id && b[|b| - 1] == a;
    forall n: nat ensures !Ends(entries, id, n) {
      if Ends(entries, id, n) {
        EndsAlong(entries, b, n);
        CycleNeverEnds(entries, a, c, n - (|b| - 1));
      }
    }
  }

  /** Fewer edges do not make it go on. */
  lemma {:induction false} EndsWithFewer(entries: map<Fileid, Entry>, fewer: map<Fileid, Entry>, id: Fileid, n: nat)
    requires Ends(entries, id, n) && forall a, b | Edge(fewer, a, b) :: Edge(entries, a, b)
    ensures Ends(fewer, id, n)
    decreases n
  {
    forall c | Edge(fewer, id, c) ensures Ends(fewer, c, n - 1) {
      EndsWithFewer(entries, fewer, c, n - 1);
    }
  }

  // ---- which operations recurse, and when they end ----

  /** The refresh finds the entry gone or of another type, and deletes it. */
  predicate Deletes(s: State, id: Fileid, stat: Stat)
  {
    id in s.entries && (stat.Gone? || (stat.Found? && stat.meta.ftype != s.entries[id].fsmeta.meta.ftype))
  }

  lemma DeletesWhenItSaysSo(s: State, id: Fileid, stat: Stat)
    ensures RefreshEntry(s, id, stat).1 == Done(Delete) <==> Deletes(s, id, stat)
  {}

  /** Only a refresh that deletes recurses. */
  ghost predicate RefreshEnds(s: State, id: Fileid, stat: Stat)
  {
    Deletes(s, id, stat) ==> Terminates(s.entries, id)
  }

  /** Lookup asks the disk when the maps lead to no live child of a live directory. */
  predicate LookupAsks(s: State, dirid: Fileid, name: Name)
  {
    var hit := FindChild(s, dirid, name);
    dirid in s.entries && !(hit.Some? && hit.value in s.entries)
  }

  /** Every refresh of the operation ends. */
  ghost predicate OpEnds(s: State, op: Op)
  {
    match op
    case DoLookup(dirid, name, exists_, stat, _) =>
      LookupAsks(s, dirid, name) && exists_ ==> RefreshEnds(s, dirid, stat)
    case DoGetAttr(id, stat) => RefreshEnds(s, id, stat)
    case DoSetAttr(_, _, _) => true
    case DoReadDir(dirid, stat, _) => RefreshEnds(s, dirid, stat)
    case DoCreate(dirid, _, made, stat, _) => dirid in s.entries && made.Done? ==> RefreshEnds(s, dirid, stat)
    case DoRemove(dirid, name, answer, stat) =>
      dirid in s.entries && answer.Removed? ==> RefreshEnds(AfterRemove(s, dirid, name), dirid, stat)
    case DoRename(fd, fn, td, tn, answer, fs, ts) =>
      fd in s.entries && td in s.entries && answer.Renamed? ==>
        var s2 := AfterMove(s, fd, fn, td, tn);
        && RefreshEnds(s2, fd, fs)
        && (td != fd ==> RefreshEnds(RefreshEntry(s2, fd, fs).0, td, ts))
  }

  /** A refresh ends if and only if it deletes nothing, or no cycle is reachable from what it deletes. */
  lemma RefreshEndsIffNoCycle(s: State, id: Fileid, stat: Stat)
    ensures RefreshEnds(s, id, stat) <==> !(Deletes(s, id, stat) && CycleBelow(s.entries, id))
  {
    hide Deletes, Terminates, CycleBelow;
    EndsIffNoCycle(s.entries, id);
  }

  // ---- what it visits ----

  /** The ids the recursion pushes, in order: id, then each child's visit in ascending order. */
  ghost function Visit(entries: map<Fileid, Entry>, id: Fileid, n: nat): seq<Fileid>
    requires Ends(entries, id, n)
    decreases n, 0
  {
    assert forall k | k in Children(entries, id) :: Edge(entries, id, k);
    [id] + VisitAll(entries, SortedSeq(Children(entries, id)), n - 1)
  }

  ghost function VisitAll(entries: map<Fileid, Entry>, kids: seq<Fileid>, n: nat): seq<Fileid>
    requires forall k | k in kids :: Ends(entries, k, n)
    decreases n, |kids| + 1
  {
    if kids == [] then [] else Visit(entries, kids[0], n) + VisitAll(entries, kids[1..], n)
  }

  lemma EdgeThenReaches(entries: map<Fileid, Entry>, a: Fileid, b: Fileid, x: Fileid)
    requires Edge(entries, a, b) && Reaches(entries, b, x)
    ensures Reaches(entries, a, x)
  {
    var c :| Chain(entries, c) && c[0] == b && c[|c| - 1] == x;
    assert Chain(entries, [a] + c);
  }

  lemma {:induction false} VisitedIsReached(entries: map<Fileid, Entry>, id: Fileid, n: nat, x: Fileid)
    requires Ends(entries, id, n) && x in Visit(entries, id, n)
    ensures Reaches(entries, id, x)
    decreases n, 0
  {
    if x == id {
      assert Chain(entries, [id]);
    } else {
      var kids := SortedSeq(Children(entries, id));
      assert forall k | k in kids :: Edge(entries, id, k);
      var k := VisitedUnderKid(entries, kids, n - 1, x);
      VisitedIsReached(entries, k, n - 1, x);
      EdgeThenReaches(entries, id, k, x);
    }
  }

  /** What a list of kids visits, one of them visits. */
  lemma {:induction false} VisitedUnderKid(entries: map<Fileid, Entry>, kids: seq<Fileid>, n: nat, x: Fileid)
    returns (k: Fileid)
    requires (forall k | k in kids :: Ends(entries, k, n)) && x in VisitAll(entries, kids, n)
    ensures k in kids && x in Visit(entries, k, n)
    decreases |kids|
  {
    if x in Visit(entries, kids[0], n) { k := kids[0]; } else { k := VisitedUnderKid(entries, kids[1..], n, x); }
  }

  lemma {:induction false} KidIsVisited(entries: map<Fileid, Entry>, kids: seq<Fileid>, n: nat, k: Fileid, x: Fileid)
    requires (forall k | k in kids :: Ends(entries, k, n)) && k in kids && x in Visit(entries, k, n)
    ensures x in VisitAll(entries, kids, n)
    decreases |kids|
  {
    if kids[0] != k { KidIsVisited(entries, kids[1..], n, k, x); }
  }

  lemma {:induction false} ReachedIsVisited(entries: map<Fileid, Entry>, c: seq<Fileid>, n: nat)
    requires Chain(entries, c) && Ends(entries, c[0], n)
    ensures c[|c| - 1] in Visit(entries, c[0], n)
    decreases |c|
  {
    if |c| > 1 {
      assert Edge(entries, c[0], c[1]);
      ChainRest(entries, c, 1, |c|);
      ReachedIsVisited(entries, c[1..], n - 1);
      var kids := SortedSeq(Children(entries, c[0]));
      assert forall k | k in kids :: Edge(entries, c[0], k);
      assert c[1] in kids;
      KidIsVisited(entries, kids, n - 1, c[1], c[|c| - 1]);
    }
  }

  /** The ids visited are exactly the ids reachable from id. */
  lemma {:induction false} VisitsExactlyReachable(entries: map<Fileid, Entry>, id: Fileid, n: nat)
    requires Ends(entries, id, n)
    ensures forall x :: x in Visit(entries, id, n) <==> Reaches(entries, id, x)
  {
    hide Visit, Ends;
    forall x ensures x in Visit(entries, id, n) <==> Reaches(entries, id, x) {
      if x in Visit(entries, id, n) { VisitedIsReached(entries, id, n, x); }
      if Reaches(entries, id, x) {
        var c :| Chain(entries, c) && c[0] == id && c[|c| - 1] == x;
        ReachedIsVisited(entries, c, n);
      }
    }
  }

  // ---- in a tree: it ends, and sees each live id once ----

  ghost function Longest(entries: map<Fileid, Entry>, xs: set<Fileid>): (m: nat)
    requires forall x | x in xs :: x in entries
    ensures forall x | x in xs :: |entries[x].name| <= m
  {
    if xs == {} then 0
    else
      var x :| x in xs;
      var m := Longest(entries, xs - {x});
      if |entries[x].name| > m then |entries[x].name| else m
  }

  lemma {:induction false} EndsInTree(s: State, id: Fileid, n: nat, m: nat)
    requires Tree(s) && (forall i | i in s.entries :: |s.entries[i].name| <= m)
    requires n > 0 && (id in s.entries ==> n == m - |s.entries[id].name| + 2)
    ensures Ends(s.entries, id, n)
    decreases n
  {
    forall c | Edge(s.entries, id, c) ensures Ends(s.entries, c, n - 1) {
      assert c in s.entries ==> Extends(s.entries[c].name, s.entries[id].name);
      EndsInTree(s, c, n - 1, m);
    }
  }

  /** Paths grow along edges and are bounded, so in a tree the recursion ends from every id. */
  lemma TreeTerminates(s: State, id: Fileid)
    requires Tree(s)
    ensures Terminates(s.entries, id)
  {
    hide Tree, Ends;
    var m := Longest(s.entries, s.entries.Keys);
    EndsInTree(s, id, if id in s.entries then m - |s.entries[id].name| + 2 else 1, m);
  }

  /** So every operation's recursions end in a tree, rename's too when it is tame. */
  lemma TreeOperationsEnd(s: State, op: Op)
    requires Tree(s) && Tame(s, op)
    ensures OpEnds(s, op)
  {
    hide Tree, Tame, Terminates, AfterMove, AfterRemove, RefreshEntry;
    match op
    case DoLookup(dirid, name, exists_, stat, _) => TreeTerminates(s, dirid);
    case DoGetAttr(id, stat) => TreeTerminates(s, id);
    case DoSetAttr(_, _, _) =>
    case DoReadDir(dirid, stat, _) => TreeTerminates(s, dirid);
    case DoCreate(dirid, _, made, stat, _) => TreeTerminates(s, dirid);
    case DoRemove(dirid, name, answer, stat) =>
      if dirid in s.entries {
        AfterRemoveTree(s, dirid, name);
        TreeTerminates(AfterRemove(s, dirid, name), dirid);
      }
    case DoRename(fd, fn, td, tn, answer, fs, ts) =>
      if fd in s.entries && td in s.entries && answer.Renamed? {
        AfterMoveTree(s, op);
        var s2 := AfterMove(s, fd, fn, td, tn);
        RefreshTree(s2, fd, fs);
        TreeTerminates(s2, fd);
        TreeTerminates(RefreshEntry(s2, fd, fs).0, td);
      }
  }

  ghost predicate LiveOnce(entries: map<Fileid, Entry>, q: seq<Fileid>)
  {
    forall i, j | 0 <= i < j < |q| && q[i] == q[j] :: q[i] !in entries
  }

  ghost predicate AllBelow(s: State, dir: Path, q: seq<Fileid>)
  {
    forall x | x in q && x in s.entries :: dir <= s.entries[x].name
  }

  /** A live id visited lies below the id the recursion started from. */
  lemma {:induction false} VisitsBelow(s: State, id: Fileid, n: nat, x: Fileid)
    requires Tree(s) && Ends(s.entries, id, n) && x in Visit(s.entries, id, n) && x in s.entries
    ensures id in s.entries && s.entries[id].name <= s.entries[x].name
    decreases n
  {
    if x != id {
      var kids := SortedSeq(Children(s.entries, id));
      assert forall k | k in kids :: Edge(s.entries, id, k);
      var k := VisitedUnderKid(s.entries, kids, n - 1, x);
      VisitsBelow(s, k, n - 1, x);
      assert Extends(s.entries[k].name, s.entries[id].name);
    }
  }

  /** No live id is visited twice. */
  lemma {:induction false} VisitsOnce(s: State, id: Fileid, n: nat)
    requires Tree(s) && Ends(s.entries, id, n)
    ensures LiveOnce(s.entries, Visit(s.entries, id, n))
    decreases n, 0
  {
    var kids := SortedSeq(Children(s.entries, id));
    assert forall k | k in kids :: Edge(s.entries, id, k);
    VisitsAllOnce(s, id, kids, n - 1);
    if id in s.entries { KidsStayBelow(s, id, kids, n - 1); }
  }

  /** No live kid of a live id visits the id again. */
  lemma {:induction false} KidsStayBelow(s: State, id: Fileid, kids: seq<Fileid>, n: nat)
    requires Tree(s) && id in s.entries && forall k | k in kids :: Edge(s.entries, id, k) && Ends(s.entries, k, n)
    ensures id !in VisitAll(s.entries, kids, n)
  {
    assert forall k | k in kids && k in s.entries :: Extends(s.entries[k].name, s.entries[id].name);
    if id in VisitAll(s.entries, kids, n) {
      var k := VisitedUnderKid(s.entries, kids, n, id);
      VisitsBelow(s, k, n, id);
    }
  }

  lemma {:induction false} VisitsAllOnce(s: State, parent: Fileid, kids: seq<Fileid>, n: nat)
    requires Tree(s) && (forall k | k in kids :: Edge(s.entries, parent, k) && Ends(s.entries, k, n)) && Ascending(kids)
    ensures LiveOnce(s.entries, VisitAll(s.entries, kids, n))
    decreases n, |kids| + 1
  {
    if kids != [] {
      VisitsOnce(s, kids[0], n);
      VisitsAllOnce(s, parent, kids[1..], n);
      var q, rest := Visit(s.entries, kids[0], n), VisitAll(s.entries, kids[1..], n);
      forall x | x in q && x in s.entries ensures x !in rest {
        if x in rest {
          var k := VisitedUnderKid(s.entries, kids[1..], n, x);
          VisitsBelow(s, kids[0], n, x);
          VisitsBelow(s, k, n, x);
          SiblingsApart(s, parent, kids[0], k, x);
        }
      }
    }
  }

  /** Two live children of one parent have no live descendant in common. */
  lemma SiblingsApart(s: State, parent: Fileid, k: Fileid, k': Fileid, x: Fileid)
    requires Tree(s) && parent in s.entries && x in s.entries
    requires Edge(s.entries, parent, k) && Edge(s.entries, parent, k') && k in s.entries && k' in s.entries
    requires s.entries[k].name <= s.entries[x].name && s.entries[k'].name <= s.entries[x].name
    ensures k == k'
  {
    assert Extends(s.entries[k].name, s.entries[parent].name) && Extends(s.entries[k'].name, s.entries[parent].name);
    assert s.entries[k].name == s.entries[k'].name;
  }

  /**
   In a tree the recursion ends; it visits every live id reachable from id exactly once; and deleting
   removes exactly those ids from both maps.
   */
  lemma {:induction false} DeletionInTree(s: State, id: Fileid)
    requires Tree(s)
    ensures exists n :: Ends(s.entries, id, n) && LiveOnce(s.entries, Visit(s.entries, id, n))
    ensures DeleteEntry(s, id).entries == map i | i in s.entries && !Reaches(s.entries, id, i) :: s.entries[i]
    ensures DeleteEntry(s, id).ids == map p | p in s.ids && !Reaches(s.entries, id, s.ids[p]) :: s.ids[p]
  {
    TreeTerminates(s, id);
    var n :| Ends(s.entries, id, n);
    VisitsOnce(s, id, n);
    hide SymbolsSound, IdsFresh, Kinship, Reaches, Ends, Visit;
    var t := DeleteEntry(s, id);
    forall p | p in s.ids ensures p in t.ids <==> !Reaches(s.entries, id, s.ids[p]) {
      assert s.entries[s.ids[p]].name == p;
      if p in NamesOf(s, Doomed(s, id)) {
        var x :| x in Doomed(s, id) && s.entries[x].name == p;
        assert x == s.ids[p];
      }
    }
  }
}
