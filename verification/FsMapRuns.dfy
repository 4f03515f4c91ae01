/** Concrete runs from a fresh cache that leave the tree, on a disk that does what it is asked. */
module FsMapRuns {
  import opened Bytes
  import opened Nfs
  import opened ReadDirPlus
  import opened FsMap
  import opened FsMapSafety
  import opened FsMapTree
  import opened FsMapCollect

  const A: Name := [97]
  const B: Name := [98]
  const C: Name := [99]
  const X: Name := [120]

  function Made(path: Path, id: Fileid, m: Metadata, kids: Option<set<Fileid>>): Entry
  {
    Entry(path, Attr(id, m), Attr(id, m), kids)
  }

  /** The root after its first refresh. */
  function Root(m: Metadata): Entry { Entry([], Attr(0, m), Attr(1, m), None) }

  function Create(dirid: Fileid, name: Name, dir: Metadata, made: Metadata): Op
  {
    DoCreate(dirid, name, Done(()), Found(dir), Some(made))
  }

  /** A rename within and between directories whose metadata stays the same. */
  function Renaming(fd: Fileid, fn: Name, td: Fileid, tn: Name, dir: Metadata): Op
  {
    DoRename(fd, fn, td, tn, Renamed, Found(dir), Found(dir))
  }

  lemma InternAt(symbols: seq<Name>, i: nat)
    requires i < |symbols| && forall j, k | 0 <= j < k < |symbols| :: symbols[j] != symbols[k]
    ensures Intern(symbols, symbols[i]) == (symbols, i)
  {}

  lemma RefreshSame(s: State, id: Fileid, m: Metadata)
    requires id in s.entries && !Differ(Attr(id, m), s.entries[id].fsmeta)
    ensures RefreshEntry(s, id, Found(m)) == (s, Done(Noop))
  {}

  /** A creation in a directory without a cached child set. */
  lemma CreateStep(s: State, dirid: Fileid, name: Name, dir: Metadata, made: Metadata)
    requires dirid in s.entries
    requires var s1 := RefreshEntry(s, dirid, Found(dir)).0;
             && dirid in s1.entries && s1.entries[dirid].children.None? && dirid < s1.next
    ensures Apply(s, Create(dirid, name, dir, made))
         == CreateNamed(RefreshEntry(s, dirid, Found(dir)).0, s.entries[dirid].name, name, made).0
  {
    hide RefreshEntry, Intern;
  }

  /** A new name, and a new path. */
  lemma NewNamed(s: State, dir: Path, name: Name, made: Metadata, path: Path)
    requires name !in s.symbols && path == dir + [|s.symbols|] && path !in s.ids
    ensures CreateNamed(s, dir, name, made)
         == (State(s.next + 1, s.symbols + [name], s.entries[s.next := Made(path, s.next, made, None)],
                   s.ids[path := s.next]),
             s.next)
  {}

  lemma {:induction false} RunLast(s: State, ops: seq<Op>)
    requires ops != []
    ensures Run(s, ops) == Apply(Run(s, ops[..|ops| - 1]), ops[|ops| - 1])
    decreases |ops|
  {
    hide Apply;
    var front := ops[..|ops| - 1];
    if |ops| > 1 {
      RunLast(Apply(s, ops[0]), ops[1..]);
      assert ops[1..][..|ops| - 2] == front[1..];
    } else {
      assert Run(Apply(s, ops[0]), ops[1..]) == Apply(s, ops[0]);
    }
  }

  lemma InternNew(symbols: seq<Name>, name: Name)
    requires name !in symbols
    ensures Intern(symbols, name) == (symbols + [name], |symbols|)
  {}

  // ---- a rename onto an existing file ----

  /** Files /a and /b are created, and /a is renamed to /b. */
  function Overwrite(dir: Metadata, file: Metadata): seq<Op>
  {
    [Create(0, A, dir, file), Create(0, B, dir, file), Renaming(0, A, 0, B, dir)]
  }

  function OneFile(dir: Metadata, file: Metadata): State
  {
    State(2, [A], map[0 := Root(dir), 1 := Made([0], 1, file, None)], map[[] := 0, [0] := 1])
  }

  function TwoFiles(dir: Metadata, file: Metadata): State
  {
    State(3, [A, B], map[0 := Root(dir), 1 := Made([0], 1, file, None), 2 := Made([1], 2, file, None)],
          map[[] := 0, [0] := 1, [1] := 2])
  }

  lemma FirstFile(dir: Metadata, file: Metadata)
    ensures Apply(Init(dir), Create(0, A, dir, file)) == OneFile(dir, file)
  {
    var s1 := Init(dir).(entries := map[0 := Root(dir)]);
    assert RefreshEntry(Init(dir), 0, Found(dir)).0 == s1;
    CreateStep(Init(dir), 0, A, dir, file);
    NewNamed(s1, [], A, file, [0]);
  }

  lemma SecondFile(dir: Metadata, file: Metadata)
    ensures Apply(OneFile(dir, file), Create(0, B, dir, file)) == TwoFiles(dir, file)
  {
    var s := OneFile(dir, file);
    RefreshSame(s, 0, dir);
    CreateStep(s, 0, B, dir, file);
    NewNamed(s, [], B, file, [1]);
  }

  lemma FileOntoFile(dir: Metadata, file: Metadata)
    ensures var s := TwoFiles(dir, file);
            var t := Apply(s, Renaming(0, A, 0, B, dir));
            && !Tame(s, Renaming(0, A, 0, B, dir))
            && 1 in t.entries && 2 in t.entries && t.entries[1].name == t.entries[2].name == [1]
  {
    var s := TwoFiles(dir, file);
    InternAt(s.symbols, 0);
    InternAt(s.symbols, 1);
    assert [] + [0] == [0] && [] + [1] == [1];
    RefreshSame(AfterMove(s, 0, A, 0, B), 0, dir);
  }

  /** After the rename two live entries have the path of /b; the rename was not tame, and the tree is gone. */
  lemma RenameOntoExistingBreaksTree(dir: Metadata, file: Metadata)
    ensures var ops := Overwrite(dir, file);
            var s, t := Run(Init(dir), ops[..2]), Run(Init(dir), ops);
            && Tree(s) && !Tame(s, ops[2]) && !Tree(t)
            && 1 in t.entries && 2 in t.entries && t.entries[1].name == t.entries[2].name
  {
    hide Apply, Tree, Tame;
    var ops := Overwrite(dir, file);
    FirstFile(dir, file);
    SecondFile(dir, file);
    FileOntoFile(dir, file);
    RunLast(Init(dir), ops);
    RunLast(Init(dir), ops[..2]);
    RunLast(Init(dir), ops[..1]);
    assert ops[..2][..1] == ops[..1] && ops[..1][..0] == [];
    TreeInit(dir);
    NoRenameIsTame(Init(dir), ops[0]);
    NoRenameIsTame(OneFile(dir, file), ops[1]);
    ApplyTree(Init(dir), ops[0]);
    ApplyTree(OneFile(dir, file), ops[1]);
    OnePathOneEntry(Run(Init(dir), ops), 1, 2);
  }

  lemma NoRenameIsTame(s: State, op: Op)
    requires !op.DoRename?
    ensures Tame(s, op)
  {}

  lemma OnePathOneEntry(s: State, i: Fileid, j: Fileid)
    requires i in s.entries && j in s.entries && i != j && s.entries[i].name == s.entries[j].name
    ensures !Tree(s)
  {}

  // ---- a directory into what was its child ----

  /**
   mkdir /a, mkdir /a/x, list /a, rename /a to /b, mkdir /a, mkdir /a/x, list /a/x, rename /b to /a/x/c. The entry
   of the first x kept its path /a/x, so the second x gets its id, and stays a cached child of the moved directory.
   */
  function IntoOldChild(m: Metadata): seq<Op>
  {
    [Create(0, A, m, m), Create(1, X, m, m), DoReadDir(1, Found(m), DirListing.Listed([(X, m)], true)),
     Renaming(0, A, 0, B, m),
     Create(0, A, m, m), Create(3, X, m, m), DoReadDir(2, Found(m), DirListing.Listed([], true)),
     Renaming(0, B, 2, C, m)]
  }

  function After2(m: Metadata): State
  {
    State(3, [A, X], map[0 := Root(m), 1 := Made([0], 1, m, None), 2 := Made([0, 1], 2, m, None)],
          map[[] := 0, [0] := 1, [0, 1] := 2])
  }

  function After3(m: Metadata): State
  {
    State(3, [A, X], map[0 := Root(m), 1 := Made([0], 1, m, Some({2})), 2 := Made([0, 1], 2, m, None)],
          map[[] := 0, [0] := 1, [0, 1] := 2])
  }

  function After4(m: Metadata): State
  {
    State(3, [A, X, B], map[0 := Root(m), 1 := Made([2], 1, m, Some({2})), 2 := Made([0, 1], 2, m, None)],
          map[[] := 0, [2] := 1, [0, 1] := 2])
  }

  /** The sixth operation changes nothing. */
  function After6(m: Metadata): State
  {
    State(4, [A, X, B],
          map[0 := Root(m), 1 := Made([2], 1, m, Some({2})), 2 := Made([0, 1], 2, m, None), 3 := Made([0], 3, m, None)],
          map[[] := 0, [2] := 1, [0, 1] := 2, [0] := 3])
  }

  function After7(m: Metadata): State
  {
    State(4, [A, X, B],
          map[0 := Root(m), 1 := Made([2], 1, m, Some({2})), 2 := Made([0, 1], 2, m, Some({})),
              3 := Made([0], 3, m, None)],
          map[[] := 0, [2] := 1, [0, 1] := 2, [0] := 3])
  }

  function After8(m: Metadata): State
  {
    State(4, [A, X, B, C],
          map[0 := Root(m), 1 := Made([0, 1, 3], 1, m, Some({2})), 2 := Made([0, 1], 2, m, Some({1})),
              3 := Made([0], 3, m, None)],
          map[[] := 0, [0, 1, 3] := 1, [0, 1] := 2, [0] := 3])
  }

  lemma Step2(m: Metadata)
    ensures Apply(OneFile(m, m), IntoOldChild(m)[1]) == After2(m)
  {
    var s := OneFile(m, m);
    RefreshSame(s, 1, m);
    CreateStep(s, 1, X, m, m);
    NewNamed(s, [0], X, m, [0, 1]);
  }

  lemma Step3(m: Metadata)
    requires m.ftype == NF3DIR
    ensures Apply(After2(m), IntoOldChild(m)[2]) == After3(m)
  {
    var s := After2(m);
    RefreshSame(s, 1, m);
    KnownNamed(s, [0], 1, m, [0, 1], 2);
    assert {} + {2} == {2};
    assert CreateAll(s, [0], [(X, m)], {}) == (s, {2});
  }

  lemma Step4(m: Metadata)
    ensures Apply(After3(m), IntoOldChild(m)[3]) == After4(m)
  {
    var s := After3(m);
    InternAt(s.symbols, 0);
    InternNew(s.symbols, B);
    assert [A, X] + [B] == [A, X, B];
    hide Intern;
    assert [] + [0] == [0] && [] + [2] == [2];
    assert AfterMove(s, 0, A, 0, B) == After4(m);
    RefreshSame(After4(m), 0, m);
    hide AfterMove;
  }

  lemma Step5(m: Metadata)
    ensures Apply(After4(m), IntoOldChild(m)[4]) == After6(m)
  {
    var s := After4(m);
    RefreshSame(s, 0, m);
    CreateStep(s, 0, A, m, m);
    InternAt(s.symbols, 0);
    assert [] + [0] == [0];
  }

  lemma Step6(m: Metadata)
    ensures Apply(After6(m), IntoOldChild(m)[5]) == After6(m)
  {
    var s := After6(m);
    RefreshSame(s, 3, m);
    CreateStep(s, 3, X, m, m);
    KnownNamed(s, [0], 1, m, [0, 1], 2);
  }

  lemma Step7(m: Metadata)
    requires m.ftype == NF3DIR
    ensures Apply(After6(m), IntoOldChild(m)[6]) == After7(m)
  {
    RefreshSame(After6(m), 2, m);
  }

  /** The last move before the child sets change. */
  function Between(m: Metadata): State
  {
    State(4, [A, X, B, C],
          map[0 := Root(m), 1 := Made([0, 1, 3], 1, m, Some({2})), 2 := Made([0, 1], 2, m, Some({})),
              3 := Made([0], 3, m, None)],
          map[[] := 0, [0, 1, 3] := 1, [0, 1] := 2, [0] := 3])
  }

  lemma MovedEntry(m: Metadata)
    ensures var s := After7(m);
            s.(symbols := [A, X, B, C], entries := s.entries[1 := s.entries[1].(name := [0, 1, 3])],
               ids := (s.ids - {[2]})[[0, 1, 3] := 1]) == Between(m)
  {}

  lemma MovedChild(m: Metadata)
    ensures AddChild(DropChild(Between(m), 0, 1), 2, 1) == After8(m)
  {
    assert {} + {1} == {1};
  }

  lemma LastMove(m: Metadata)
    ensures AfterMove(After7(m), 0, B, 2, C) == After8(m)
  {
    var s := After7(m);
    InternAt(s.symbols, 2);
    InternNew(s.symbols, C);
    assert [A, X, B] + [C] == [A, X, B, C] && [] + [2] == [2] && [0, 1] + [3] == [0, 1, 3];
    MovedEntry(m);
    MovedChild(m);
    hide Intern, AddChild, DropChild, Between, After8;
  }

  lemma Step8(m: Metadata)
    ensures Apply(After7(m), IntoOldChild(m)[7]) == After8(m)
  {
    hide AfterMove;
    LastMove(m);
    RefreshSame(After8(m), 0, m);
    RefreshSame(After8(m), 2, m);
  }

  /** A known name keeps its entry, whose metadata stays the same. */
  lemma KnownNamed(s: State, dir: Path, i: nat, m: Metadata, path: Path, id: Fileid)
    requires i < |s.symbols| && forall j, k | 0 <= j < k < |s.symbols| :: s.symbols[j] != s.symbols[k]
    requires path == dir + [i] && path in s.ids && s.ids[path] == id && id in s.entries
    requires s.entries[id].fsmeta == Attr(id, m)
    ensures CreateNamed(s, dir, s.symbols[i], m) == (s, id)
  {
    InternAt(s.symbols, i);
    assert s.entries[id := s.entries[id].(fsmeta := Attr(id, m))] == s.entries;
  }

  lemma RunOfEight(m: Metadata)
    requires m.ftype == NF3DIR
    ensures Run(Init(m), IntoOldChild(m)) == After8(m)
  {
    hide Apply, Init, After2, After3, After4, After6, After7, After8, OneFile, IntoOldChild;
    var ops := IntoOldChild(m);
    EightOps(m);
    for i := 0 to 8
      invariant Run(Init(m), ops[..i]) == Reached(m, i)
    {
      RunLast(Init(m), ops[..i + 1]);
      assert ops[..i + 1][..i] == ops[..i];
      StepReached(m, i);
    }
    assert ops[..8] == ops;
  }

  lemma EightOps(m: Metadata)
    ensures |IntoOldChild(m)| == 8 && IntoOldChild(m)[0] == Create(0, A, m, m)
  {}

  function Reached(m: Metadata, i: nat): State
  {
    match i
    case 0 => Init(m)
    case 1 => OneFile(m, m)
    case 2 => After2(m)
    case 3 => After3(m)
    case 4 => After4(m)
    case 5 => After6(m)
    case 6 => After6(m)
    case 7 => After7(m)
    case _ => After8(m)
  }

  lemma StepReached(m: Metadata, i: nat)
    requires m.ftype == NF3DIR && i < 8 == |IntoOldChild(m)|
    ensures Apply(Reached(m, i), IntoOldChild(m)[i]) == Reached(m, i + 1)
  {
    hide Apply, Init, After2, After3, After4, After6, After7, After8, OneFile, IntoOldChild;
    EightOps(m);
    FirstFile(m, m);
    Step2(m);
    Step3(m);
    Step4(m);
    Step5(m);
    Step6(m);
    Step7(m);
    Step8(m);
  }

  /**
   After that run entries 1 and 2 are cached children of each other; and if the moved directory then vanishes from
   the disk, asking for its attributes starts a recursion that does not end.
   */
  lemma RunCanCycle(m: Metadata)
    requires m.ftype == NF3DIR
    ensures var s := Run(Init(m), IntoOldChild(m));
            && Sound(s) && Edge(s.entries, 1, 2) && Edge(s.entries, 2, 1)
            && Deletes(s, 1, Gone) && CycleBelow(s.entries, 1) && !OpEnds(s, DoGetAttr(1, Gone))
  {
    RunOfEight(m);
    SoundInit(m);
    AllRunsSound(Init(m), IntoOldChild(m));
    hide Run, Sound;
    var s := After8(m);
    assert Chain(s.entries, [1]) && Chain(s.entries, [1, 2, 1]);
    assert Reaches(s.entries, 1, 1) && Cycle(s.entries, 1, [1, 2, 1]);
    RefreshEndsIffNoCycle(s, 1, Gone);
  }
}
