// The calls of psf.cpp that change the tree: create, delete, rename and move.
// Each is all or nothing, and each states what the user's tree becomes.
module BspApi {
  import opened BspTypes
  import opened BspPaths
  import opened BspForest
  import opened BspState
  import opened BspStore
  import opened BspDirectory
  import opened BspTree
  import opened BspEffects

  ghost predicate DirThere(v: Tree, p: Path) {
    p in v && v[p] == DirItem
  }

  ghost predicate FreeNodeLeft(m: Mem) {
    exists i :: 0 < i < |m.nodes| && m.nodes[i].kind == Free
  }

  /** A path naming a new object in an existing directory: one to 55 bytes, no control character, "/" or "\\" among
      them, and neither "." nor "..". */
  ghost predicate NewName(v: Tree, path: CString) {
    && CanonicalPath(path) && PathOf(path) != []
    && DirThere(v, Front(PathOf(path))) && PathOf(path) !in v
    && var n := Last(PathOf(path));
       && 1 <= |n| <= 55 && n != [46] && n != [46, 46]
       && forall c <- n :: 32 <= c && c != 47 && c != 92
  }

  lemma NewNameValid(n: Name)
    ensures ValidName(n) <==>
            1 <= |n| <= 55 && n != [46] && n != [46, 46] && forall c <- n :: 32 <= c && c != 47 && c != 92
  {
  }

  // ----- what the resolver's answers mean in the tree

  lemma LookupFacts(m: Mem, s: Shape, root: nat, p: Path)
    requires Rooted(m, s, root)
    ensures Walk(GraphOf(s.dirs), root, p) != 0 <==> p in TreeAt(m, s.dirs, root)
    ensures var y := Walk(GraphOf(s.dirs), root, p);
            y != 0 ==>
              && y in s.place && s.place[y] == Place(root, p) && 0 < y < |m.nodes|
              && m.nodes[y].kind != Free && TreeAt(m, s.dirs, root)[p] == ItemOf(m, y)
              && (y in s.dirs <==> TreeAt(m, s.dirs, root)[p] == DirItem)
              && (y in s.dirs <==> IsDir(m, y))
  {
    hide Struct, Forest, Walk;
    Basics(m, s, 0);
    TreeHasPlaces(m, s, 0, root, p);
  }

  lemma ParentFacts(m: Mem, s: Shape, root: nat, p: Path)
    requires Rooted(m, s, root) && p != []
    ensures DirThere(TreeAt(m, s.dirs, root), Front(p)) <==> Walk(GraphOf(s.dirs), root, Front(p)) in s.dirs
    ensures var d := Walk(GraphOf(s.dirs), root, Front(p));
            d in s.dirs ==>
              && d != 0 && d in s.place && s.place[d] == Place(root, Front(p)) && p == s.place[d].path + [Last(p)]
              && (p in TreeAt(m, s.dirs, root) <==> Last(p) in s.dirs[d])
              && Walk(GraphOf(s.dirs), root, p) == (if Last(p) in s.dirs[d] then s.dirs[d][Last(p)].id else 0)
              && (Last(p) in s.dirs[d] ==> s.dirs[d][Last(p)].id in s.place && s.dirs[d][Last(p)].id != 0)
    ensures p in TreeAt(m, s.dirs, root) ==> Walk(GraphOf(s.dirs), root, Front(p)) in s.dirs && ValidName(Last(p))
  {
    hide Forest, Struct, Walk, TreeAt, ValidName;
    Basics(m, s, 0);
    LookupFacts(m, s, root, Front(p));
    LookupFacts(m, s, root, p);
    assert p == Front(p) + [Last(p)];
    WalkStep(GraphOf(s.dirs), root, Front(p), Last(p));
    var d := Walk(GraphOf(s.dirs), root, Front(p));
    if d in s.dirs {
      if Last(p) in s.dirs[d] {
        ListedThere(m, s, root, d, Last(p));
        NamesValid(m, s, d, Last(p));
      } else {
        NotYetThere(m, s, root, d, Last(p));
      }
    }
  }

  lemma NamesValid(m: Mem, s: Shape, d: nat, n: Name)
    requires Sound(m, s, 0) && d in s.dirs && n in s.dirs[d]
    ensures ValidName(n) && s.dirs[d][n].id != 0
  {
    Basics(m, s, 0);
    assert DirOk(m, d, s.dirs[d]);
  }

  /** The operation is committed in memory; the write-through may fail without undoing it. */
  method Commit(s: Store, ghost shape: Shape)
    requires s.Ok() && s.pend == {} && Rooted(s.mem, shape, s.geo.root)
    modifies s.disk, s`shape, s`dirty, s`dirtyAll, s`lastFlushOk, s`transfers
    ensures s.Valid() && s.shape == shape && s.Through(old(s.transfers))
  {
    hide Rooted, Store.Through;
    s.shape := shape;
    var flushed := s.Flush();
  }

  // ----- create

  ghost predicate CanCreate(s: Store, path: CString)
    reads s`mem, s`shape, s`geo
  {
    && NewName(s.Contents(), path)
    && FreeNodeLeft(s.mem)
    && Room(s.mem, Walk(GraphOf(s.shape.dirs), s.geo.root, Front(PathOf(path))))
  }

  lemma RoomElsewhere(m: Mem, m': Mem, x: nat, d: nat)
    requires OnlyNode(m, m', x) && d != x && m'.used == m.used && |m.blocks| < NO_BLOCK
    ensures Room(m', d) <==> Room(m, d)
  {
    forall k: nat ensures PtrAt(m', d, k) == PtrAt(m, d, k) {}
    forall k: nat, j: nat ensures EntryAt(m', d, k, j) == EntryAt(m, d, k, j) {}
  }

  /** `utworz_twor` (psf.cpp:2707-2796). */
  method Create(s: Store, path: CString, kind: Kind) returns (ok: bool)
    requires kind != Free
    requires s.ready ==> s.Valid()
    modifies s.ram, s.disk, s`mem, s`shape, s`pend, s`dirty, s`dirtyAll, s`hint, s`lastFlushOk, s`transfers
    ensures s.ready ==> s.Valid()
    ensures ok <==> s.ready && old(CanCreate(s, path))
    ensures ok ==>
              s.Contents() == old(s.Contents())[PathOf(path) := if kind == Dir then DirItem else FileItem([])]
    ensures ok ==> s.Through(old(s.transfers))
    ensures !ok ==> s.mem == old(s.mem) && s.shape == old(s.shape) && s.disk[..] == old(s.disk[..])
  {
    hide Store.Ok, Store.Through, Store.Contents, Rooted, Room, FreeNodeLeft, CanCreate, Lookup, LookupParent, TreeAt;
    hide PathOf;
    if !s.ready { return false; }
    TwoArrays(s);
    CreateConditions(s, path);
    var existing, _ := Resolve(s, path, false);
    if existing != 0 { return false; }
    var d, name := Resolve(s, path, true);
    if d == 0 { return false; }
    ok := CreateIn(s, d, name, kind);
  }

  /** The second half of `utworz_twor`: a fresh node is entered under `name` in `d`. */
  method CreateIn(s: Store, d: nat, name: Name, kind: Kind) returns (ok: bool)
    requires s.Valid() && kind != Free && ValidName(name)
    requires d in s.shape.dirs && d in s.shape.place && name !in s.shape.dirs[d]
    modifies s.ram, s.disk, s`mem, s`shape, s`pend, s`dirty, s`dirtyAll, s`hint, s`lastFlushOk, s`transfers
    ensures s.Valid()
    ensures ok <==> old(FreeNodeLeft(s.mem) && Room(s.mem, d))
    ensures ok ==> s.Contents() == old(s.Contents())[old(s.shape.place[d].path) + [name] := FreshItem(kind)]
    ensures ok ==> s.Through(old(s.transfers))
    ensures !ok ==> s.mem == old(s.mem) && s.shape == old(s.shape) && s.disk[..] == old(s.disk[..])
  {
    hide Store.Ok, Store.Through, Store.Contents, Rooted, Room, SpotFits, Added, Refused, AttachShape, NewRootShape;
    hide TreeAt, ClearNode;
    TwoArrays(s);
    ghost var root, m0, s0 := s.geo.root, s.mem, s.shape;
    var x := s.AllocNode(kind);
    if x == 0 { return false; }
    CreateAlloc(m0, s0, root, d, x, kind);
    ghost var t: Spot;
    ok, t := AddEntry(s, d, x, name);
    if !ok {
      CreateRefused(m0, s0, root, d, x, kind, name);
      var freed := s.FreeNode(x);
      return false;
    }
    CreateDone(m0, s0, root, d, x, kind, t, name);
    Commit(s, AttachShape(NewRootShape(s0, x, kind), d, t, x, name));
  }

  /** When a create goes ahead, in terms of the resolver's two answers. */
  lemma CreateConditions(s: Store, path: CString)
    requires s.Valid()
    ensures var d := LookupParent(s, path);
            && (CanCreate(s, path) <==> Lookup(s, path) == 0 && d != 0 && FreeNodeLeft(s.mem) && Room(s.mem, d))
            && (d != 0 ==>
                  && PathOf(path) != [] && ValidName(Last(PathOf(path)))
                  && d in s.shape.dirs && d in s.shape.place
                  && PathOf(path) == s.shape.place[d].path + [Last(PathOf(path))]
                  && (Lookup(s, path) == 0 ==> Last(PathOf(path)) !in s.shape.dirs[d]))
  {
    hide Rooted, Room, ValidName;
    var p := PathOf(path);
    LookupFacts(s.mem, s.shape, s.geo.root, p);
    if p != [] {
      ParentFacts(s.mem, s.shape, s.geo.root, p);
      NewNameValid(Last(p));
    }
  }

  lemma CreateAlloc(m: Mem, s: Shape, root: nat, d: nat, x: nat, kind: Kind)
    requires Rooted(m, s, root) && d in s.dirs && 0 < x < |m.nodes| && m.nodes[x].kind == Free && kind != Free
    ensures var m1 := WithNode(m, x, ClearNode(kind));
            && WithNode(m1, x, FREE_NODE) == m && m1.nodes[x].kind != Free
            && (Room(m1, d) <==> Room(m, d)) && IsDir(m1, d) && PtrsValid(m1, d) && FreeNodeLeft(m)
            && d in NewRootShape(s, x, kind).dirs && d in NewRootShape(s, x, kind).place
  {
    var m1 := WithNode(m, x, ClearNode(kind));
    assert m.nodes[x] == FREE_NODE;
    assert WithNode(m1, x, FREE_NODE).nodes == m.nodes;
    NewRootSound(m, s, 0, x, kind);
    assert d in s.dirs <==> IsDir(m, d);
    RoomElsewhere(m, m1, x, d);
    OwnedPtrsValid(m1, s.own, d);
  }

  lemma CreateRefused(m: Mem, s: Shape, root: nat, d: nat, x: nat, kind: Kind, n: Name)
    requires Rooted(m, s, root) && d in s.dirs && 0 < x < |m.nodes| && m.nodes[x].kind == Free && kind != Free
    requires ValidName(n) && n !in s.dirs[d] && Refused(WithNode(m, x, ClearNode(kind)), d, x, n)
    ensures !Room(m, d)
  {
    var m1 := WithNode(m, x, ClearNode(kind));
    CreateAlloc(m, s, root, d, x, kind);
    NewRootSound(m, s, 0, x, kind);
    var s1 := NewRootShape(s, x, kind);
    assert s1.dirs[d] == s.dirs[d];
    RefusedMeans(m1, s.own, d, s.dirs[d], x, n);
  }

  lemma CreateDone(m: Mem, s: Shape, root: nat, d: nat, x: nat, kind: Kind, t: Spot, n: Name)
    requires Rooted(m, s, root) && d in s.dirs && d in s.place && n !in s.dirs[d] && ValidName(n)
    requires 0 < x < |m.nodes| && m.nodes[x].kind == Free && kind != Free
    requires SpotFits(WithNode(m, x, ClearNode(kind)), d, t)
    ensures var m1, s1 := WithNode(m, x, ClearNode(kind)), NewRootShape(s, x, kind);
            && d in s1.dirs && d in s1.place
            && var m2, s2 := Added(m1, d, t, Entry(x, n)), AttachShape(s1, d, t, x, n);
            && Rooted(m2, s2, root)
            && TreeAt(m2, s2.dirs, root) == TreeAt(m, s.dirs, root)[s.place[d].path + [n] := FreshItem(kind)]
    ensures Room(m, d) && FreeNodeLeft(m)
  {
    CreateAlloc(m, s, root, d, x, kind);
    AddedHadRoom(WithNode(m, x, ClearNode(kind)), d, t);
    hide *;
    CreateEffect(m, s, root, d, x, kind, t, n);
  }

  // ----- delete

  ghost predicate CanRemove(v: Tree, path: CString) {
    && CanonicalPath(path) && PathOf(path) != [] && PathOf(path) in v
    && (v[PathOf(path)] == DirItem ==> forall q: Path :: q != [] ==> PathOf(path) + q !in v)
  }

  /** Gives back every block of node `x`, which keeps its kind and entry for now. */
  method ReleaseAll(s: Store, x: nat, ghost s0: Shape) returns (ghost s1: Shape)
    requires s.Ok() && Sound(s.mem, s0, x) && x in s0.place && s.pend == {}
    modifies s.ram, s`mem, s`pend, s`dirty, s`dirtyAll, s`hint
    ensures s.Ok() && s.pend <= {NodeBlock(s.geo, x)}
    ensures s1 == s0.(own := s1.own) && Sound(s.mem, s1, x) && OnlyNode(old(s.mem), s.mem, x)
    ensures forall k: nat :: PtrAt(s.mem, x, k) == NO_BLOCK
  {
    hide Store.Ok, Sound;
    s1 := s0;
    Basics(s.mem, s0, x);
    var k := 0;
    while k < PTRS_PER_NODE
      invariant 0 <= k <= PTRS_PER_NODE
      invariant s.Ok() && s.pend <= {NodeBlock(s.geo, x)} && s.NodeId(x)
      invariant s1 == s0.(own := s1.own) && Sound(s.mem, s1, x) && OnlyNode(old(s.mem), s.mem, x)
      invariant forall l: nat | l < k :: PtrAt(s.mem, x, l) == NO_BLOCK
    {
      ghost var m := s.mem;
      s1 := ReleaseOne(s, x, k, s1);
      OnlyNodeTwice(old(s.mem), m, s.mem, x);
      k := k + 1;
    }
    NoMorePtrs(s.mem, x);
  }

  lemma NoMorePtrs(m: Mem, x: nat)
    requires Sized(m)
    ensures forall l: nat | l >= PTRS_PER_NODE :: PtrAt(m, x, l) == NO_BLOCK
  {
  }

  method ReleaseOne(s: Store, x: nat, k: nat, ghost s0: Shape) returns (ghost s1: Shape)
    requires s.Ok() && Sound(s.mem, s0, x) && x in s0.place && s.NodeId(x) && k < PTRS_PER_NODE
    requires s.pend <= {NodeBlock(s.geo, x)}
    modifies s.ram, s`mem, s`pend, s`dirty, s`dirtyAll, s`hint
    ensures s.Ok() && s.pend <= {NodeBlock(s.geo, x)} && s.NodeId(x)
    ensures s1 == s0.(own := s1.own) && Sound(s.mem, s1, x) && OnlyNode(old(s.mem), s.mem, x)
    ensures forall l: nat :: PtrAt(s.mem, x, l) == if l == k then NO_BLOCK else PtrAt(old(s.mem), x, l)
    ensures |s.mem.blocks| == |old(s.mem).blocks|
    ensures forall b | 0 <= b < |s.mem.blocks| && b != PtrAt(old(s.mem), x, k) ::
            s.mem.blocks[b] == old(s.mem).blocks[b]
    ensures |s.mem.nodes| == |old(s.mem).nodes| && s.mem.nodes[x].kind == old(s.mem).nodes[x].kind
  {
    s1 := s0;
    hide Store.Ok, Struct, Forest;
    ghost var m := s.mem;
    var b := s.NodeAt(x).ptrs[k];
    assert b == PtrAt(m, x, k);
    if b == NO_BLOCK { return; }
    ReleaseStep(m, s0, x, k);
    var freed := s.FreeBlock(b);
    s.PutNode(x, WithPtr(s.NodeAt(x), k, NO_BLOCK));
    assert s.mem == Shrunk(m, x, k);
    s1 := s0.(own := s0.own - {b});
  }

  /** When a delete goes ahead, in terms of what the resolver and the directory say. */
  lemma RemoveConditions(s: Store, path: CString)
    requires s.Valid()
    ensures var d := LookupParent(s, path);
            var p := PathOf(path);
            && (d != 0 ==>
                  && p != [] && ValidName(Last(p)) && IsDir(s.mem, d) && d != 0 && d < |s.mem.nodes|
                  && d in s.shape.dirs && d in s.shape.place && p == s.shape.place[d].path + [Last(p)]
                  && (Listed(s.mem, d, Last(p)) <==> Last(p) in s.shape.dirs[d]) && PtrsValid(s.mem, d))
            && (CanRemove(s.Contents(), path) ==> d != 0 && Last(p) in s.shape.dirs[d])
            && (d != 0 && Last(p) in s.shape.dirs[d] ==>
                  var x := s.shape.dirs[d][Last(p)].id;
                  && x in s.shape.place && x != s.geo.root && s.NodeId(x) && PtrsValid(s.mem, x)
                  && s.mem.nodes[x].kind != Free
                  && (x in s.shape.dirs <==> s.mem.nodes[x].kind == Dir)
                  && (CanRemove(s.Contents(), path) <==> (x in s.shape.dirs ==> s.shape.dirs[x] == map[])))
  {
    hide Store.Ok, Rooted, Room, ValidName, Listed, PtrsValid;
    var p := PathOf(path);
    LookupFacts(s.mem, s.shape, s.geo.root, p);
    if p != [] {
      ParentFacts(s.mem, s.shape, s.geo.root, p);
      var d := LookupParent(s, path);
      if d != 0 {
        DirFacts(s.mem, s.shape, s.geo.root, d, Last(p));
        if Last(p) in s.shape.dirs[d] { TargetFacts(s.mem, s.shape, s.geo.root, d, Last(p)); }
      }
    }
  }

  lemma DirFacts(m: Mem, s: Shape, root: nat, d: nat, n: Name)
    requires Rooted(m, s, root) && d in s.dirs
    ensures IsDir(m, d) && d != 0 && PtrsValid(m, d) && (Listed(m, d, n) <==> n in s.dirs[d])
    ensures forall k: nat, j: nat :: EntryAt(m, d, k, j).id != 0 && EntryAt(m, d, k, j).name == n ==>
              n in s.dirs[d] && s.dirs[d][n] == Slot(k, j, EntryAt(m, d, k, j).id)
  {
    Basics(m, s, 0);
    OwnedPtrsValid(m, s.own, d);
    FoundIffNamed(m, d, s.dirs[d], n);
  }

  lemma TargetFacts(m: Mem, s: Shape, root: nat, d: nat, n: Name)
    requires Rooted(m, s, root) && d in s.dirs && d in s.place && n in s.dirs[d]
    ensures var x, p, v := s.dirs[d][n].id, s.place[d].path + [n], TreeAt(m, s.dirs, root);
            && x in s.place && x != root && 0 < x < |m.nodes| && PtrsValid(m, x) && m.nodes[x].kind != Free
            && p in v && (v[p] == DirItem <==> x in s.dirs) && (x in s.dirs <==> m.nodes[x].kind == Dir)
            && (x in s.dirs ==> (s.dirs[x] == map[] <==> forall q: Path :: q != [] ==> p + q !in v))
  {
    hide Struct, Forest;
    ListedThere(m, s, root, d, n);
    var x := s.dirs[d][n].id;
    var p := s.place[d].path + [n];
    LookupFacts(m, s, root, p);
    NotRoot(m, s, root, d, n);
    TargetPtrs(m, s, x);
    if x in s.dirs {
      if s.dirs[x] == map[] { EmptyDirTree(m, s, root, x); } else { SomethingBelow(m, s, root, x); }
    }
  }

  lemma NotRoot(m: Mem, s: Shape, root: nat, d: nat, n: Name)
    requires Rooted(m, s, root) && d in s.dirs && n in s.dirs[d]
    ensures s.dirs[d][n].id != root
  {
    EdgePlace(GraphOf(s.dirs), s.roots, s.place, d, n);
  }

  lemma TargetPtrs(m: Mem, s: Shape, x: nat)
    requires Sound(m, s, 0)
    ensures PtrsValid(m, x)
    ensures forall k: nat {:trigger PtrAt(m, x, k)} :: PtrAt(m, x, k) != NO_BLOCK ==> m.used[PtrAt(m, x, k)]
  {
    OwnedPtrsValid(m, s.own, x);
  }

  lemma EmptyMeans(m: Mem, s: Shape, root: nat, x: nat)
    requires Rooted(m, s, root) && x in s.dirs
    ensures (forall k: nat, j: nat :: EntryAt(m, x, k, j).id == 0) <==> s.dirs[x] == map[]
  {
    assert DirOk(m, x, s.dirs[x]);
    hide Struct, Forest;
    if s.dirs[x] != map[] {
      var n :| n in s.dirs[x];
      assert EntryAt(m, x, s.dirs[x][n].k, s.dirs[x][n].j).id != 0;
    }
  }

  /** `usun_twor` (psf.cpp:3787-3981). */
  method Remove(s: Store, path: CString) returns (ok: bool)
    requires s.ready ==> s.Valid()
    modifies s.ram, s.disk, s`mem, s`shape, s`pend, s`dirty, s`dirtyAll, s`hint, s`lastFlushOk, s`transfers
    ensures s.ready ==> s.Valid()
    ensures ok <==> s.ready && old(CanRemove(s.Contents(), path))
    ensures ok ==> s.Contents() == old(s.Contents()) - {PathOf(path)}
    ensures ok ==> s.Through(old(s.transfers))
    ensures !ok ==> s.mem == old(s.mem) && s.shape == old(s.shape) && s.disk[..] == old(s.disk[..])
  {
    hide Store.Ok, Store.Through, Store.Contents, Rooted, CanRemove, LookupParent, TreeAt, PathOf, EntryAt, PtrAt;
    hide Listed, PtrsValid;
    if !s.ready { return false; }
    TwoArrays(s);
    RemoveConditions(s, path);
    var d, name := Resolve(s, path, true);
    if d == 0 { return false; }
    var found, x, block, j, k := FindEntry(s, d, name);
    if found { IsListed(s.mem, d, k, j, name); }
    DirFacts(s.mem, s.shape, s.geo.root, d, name);
    if !found || x == s.geo.root { return false; }
    if s.NodeAt(x).kind == Dir {
      EmptyMeansHere(s, x);
      var empty := DirEmpty(s, x);
      if !empty { return false; }
    }
    RemoveNode(s, d, name, x, block, j, k);
    ok := true;
  }

  lemma IsListed(m: Mem, d: nat, k: nat, j: nat, n: Name)
    requires EntryAt(m, d, k, j).id != 0 && EntryAt(m, d, k, j).name == n
    ensures Listed(m, d, n)
  {
  }

  lemma EmptyMeansHere(s: Store, x: nat)
    requires s.Valid() && IsDir(s.mem, x)
    ensures x in s.shape.dirs
    ensures (forall k: nat, j: nat :: EntryAt(s.mem, x, k, j).id == 0) <==> s.shape.dirs[x] == map[]
  {
    Basics(s.mem, s.shape, 0);
    hide Sound;
    EmptyMeans(s.mem, s.shape, s.geo.root, x);
  }

  /** The second half of `usun_twor`: blocks, entry and node go. */
  method RemoveNode(s: Store, d: nat, name: Name, x: nat, block: nat, j: nat, ghost k: nat)
    requires s.Valid() && d in s.shape.dirs && d in s.shape.place && name in s.shape.dirs[d]
    requires s.shape.dirs[d][name] == Slot(k, j, x) && PtrAt(s.mem, d, k) == block
    requires x in s.shape.place && (x in s.shape.dirs ==> s.shape.dirs[x] == map[])
    modifies s.ram, s.disk, s`mem, s`shape, s`pend, s`dirty, s`dirtyAll, s`hint, s`lastFlushOk, s`transfers
    ensures s.Valid()
    ensures s.Contents() == old(s.Contents()) - {old(s.shape.place[d].path) + [name]}
    ensures s.Through(old(s.transfers))
  {
    hide Store.Ok, Store.Through, Store.Contents, Rooted, Sound, TreeAt, CutShape, DropShape, PtrAt, OnlyNode;
    ghost var root, m0, s0 := s.geo.root, s.mem, s.shape;
    RootedBusy(m0, s0, root, x);
    ghost var s1 := ReleaseAll(s, x, s0);
    ghost var m1 := s.mem;
    RemoveEffect(m0, s0, root, d, name, m1, s1);
    SamePtr(m0, m1, x, d, k);
    var size := s.NodeAt(d).size;
    WriteEntry(s, d, block, j, EMPTY_ENTRY, if size > 0 then size - 1 else 0, k);
    assert s.mem == CutMem(m1, s1, d, name);
    var freed := s.FreeNode(x);
    Commit(s, DropShape(CutShape(s1, d, name), x));
  }

  lemma SamePtr(m: Mem, m1: Mem, x: nat, d: nat, k: nat)
    requires OnlyNode(m, m1, x) && d != x
    ensures PtrAt(m1, d, k) == PtrAt(m, d, k)
  {
  }

  lemma RootedBusy(m: Mem, s: Shape, root: nat, x: nat)
    requires Rooted(m, s, root)
    ensures Sound(m, s, x)
  {
    hide Forest, Owned, DirOk, FileOk;
  }

  // ----- rename

  ghost predicate CanRename(v: Tree, path: CString, name: CString) {
    && CanonicalPath(path) && ValidName(name) && PathOf(path) != [] && PathOf(path) in v
    && (name != Last(PathOf(path)) ==> Front(PathOf(path)) + [name] !in v)
  }

  lemma RenameConditions(s: Store, path: CString, name: CString)
    requires s.Valid() && ValidName(name)
    ensures var d := LookupParent(s, path);
            var p := PathOf(path);
            && (d != 0 ==>
                  && CanonicalPath(path) && p != [] && ValidName(Last(p)) && d < |s.mem.nodes|
                  && d in s.shape.dirs && d in s.shape.place && p == s.shape.place[d].path + [Last(p)]
                  && Front(p) == s.shape.place[d].path
                  && (name in s.shape.dirs[d] <==> Front(p) + [name] in s.Contents())
                  && (Last(p) in s.shape.dirs[d] <==> p in s.Contents()))
            && (CanRename(s.Contents(), path, name) ==> d != 0)
  {
    hide Store.Ok, Rooted, Room, ValidName, Listed, PtrsValid;
    var p := PathOf(path);
    LookupFacts(s.mem, s.shape, s.geo.root, p);
    if p != [] {
      ParentFacts(s.mem, s.shape, s.geo.root, p);
      var d := LookupParent(s, path);
      if d != 0 {
        DirFacts(s.mem, s.shape, s.geo.root, d, name);
        if name in s.shape.dirs[d] {
          ListedThere(s.mem, s.shape, s.geo.root, d, name);
        } else {
          NotYetThere(s.mem, s.shape, s.geo.root, d, name);
        }
      }
    }
  }

  /** In a sound directory the search finds exactly the listed names, at their slots. */
  method FindNamed(s: Store, d: nat, name: Name) returns (found: bool, x: nat, block: nat, j: nat, ghost k: nat)
    requires s.Valid() && d in s.shape.dirs && ValidName(name)
    ensures found <==> name in s.shape.dirs[d]
    ensures found ==> s.shape.dirs[d][name] == Slot(k, j, x) && PtrAt(s.mem, d, k) == block
  {
    hide Store.Ok, Rooted, EntryAt, PtrAt, Listed, PtrsValid, ValidName;
    found, x, block, j, k := FindEntry(s, d, name);
    DirFacts(s.mem, s.shape, s.geo.root, d, name);
    if found { IsListed(s.mem, d, k, j, name); }
  }

  /** `zmien_nazwe_tworu` (psf.cpp:4066-4172). */
  method Rename(s: Store, path: CString, name: CString) returns (ok: bool)
    requires s.ready ==> s.Valid()
    modifies s.ram, s.disk, s`mem, s`shape, s`pend, s`dirty, s`dirtyAll, s`hint, s`lastFlushOk, s`transfers
    ensures s.ready ==> s.Valid()
    ensures ok <==> s.ready && old(CanRename(s.Contents(), path, name))
    ensures ok && name == Last(PathOf(path)) ==> s.Contents() == old(s.Contents())
    ensures ok && name != Last(PathOf(path)) ==>
              s.Contents() == Relocate(old(s.Contents()), PathOf(path), Front(PathOf(path)) + [name])
    ensures ok && name != Last(PathOf(path)) ==> s.Through(old(s.transfers))
    ensures !ok ==> s.mem == old(s.mem) && s.shape == old(s.shape) && s.disk[..] == old(s.disk[..])
  {
    hide Store.Ok, Store.Through, Store.Contents, Rooted, CanonicalPath, LookupParent, TreeAt, PathOf, PtrAt, ValidName;
    if !s.ready || !ValidName(name) { return false; }
    TwoArrays(s);
    RenameConditions(s, path, name);
    var d, oldName := Resolve(s, path, true);
    if d == 0 { return false; }
    if oldName == name {
      var same, _, _, _, _ := FindNamed(s, d, oldName);
      return same;
    }
    var taken, _, _, _, _ := FindNamed(s, d, name);
    if taken { return false; }
    var found, x, block, j, k := FindNamed(s, d, oldName);
    if !found { return false; }
    RenameIn(s, d, oldName, name, x, block, j, k);
    ok := true;
  }

  method RenameIn(s: Store, d: nat, oldName: Name, name: Name, x: nat, block: nat, j: nat, ghost k: nat)
    requires s.Valid() && d in s.shape.dirs && d in s.shape.place && oldName in s.shape.dirs[d]
    requires name !in s.shape.dirs[d] && ValidName(name)
    requires s.shape.dirs[d][oldName] == Slot(k, j, x) && PtrAt(s.mem, d, k) == block
    modifies s.ram, s.disk, s`mem, s`shape, s`pend, s`dirty, s`dirtyAll, s`hint, s`lastFlushOk, s`transfers
    ensures s.Valid()
    ensures s.Contents() == Relocate(old(s.Contents()), old(s.shape.place[d].path) + [oldName],
            old(s.shape.place[d].path) + [name])
    ensures s.Through(old(s.transfers))
  {
    hide Store.Ok, Store.Through, Store.Contents, Rooted, TreeAt, CutShape, AttachShape, PtrAt, ValidName, Relocate;
    hide Written;
    ghost var root, m0, s0 := s.geo.root, s.mem, s.shape;
    RenameEffect(m0, s0, root, d, oldName, name);
    DirFacts(m0, s0, root, d, oldName);
    ghost var t := Spot(k, j, false, block);
    WriteEntry(s, d, block, j, Entry(x, name), s.NodeAt(d).size, k);
    Commit(s, AttachShape(CutShape(s0, d, oldName), d, t, x, name));
  }

  // ----- move

  /** When an object may be entered under folder `f` as `n`, and is not moved into itself. */
  ghost predicate CanMove(s: Store, path: CString, folder: CString)
    reads s`mem, s`shape, s`geo
  {
    var v, p, f := s.Contents(), PathOf(path), PathOf(folder);
    && CanonicalPath(path) && CanonicalPath(folder) && p != [] && p in v
    && DirThere(v, f) && Front(p) != f && !(p <= f) && f + [Last(p)] !in v
    && Room(s.mem, Walk(GraphOf(s.shape.dirs), s.geo.root, f))
  }

  /** What the resolver's answers for a move or copy mean. */
  lemma MoveConditions(s: Store, path: CString, folder: CString)
    requires s.Valid()
    ensures var d, d2, x := LookupParent(s, path), Lookup(s, folder), Lookup(s, path);
            var p, f := PathOf(path), PathOf(folder);
            && (d != 0 ==>
                  && p != [] && CanonicalPath(path) && ValidName(Last(p)) && Front(p) == s.shape.place[d].path
                  && d in s.shape.dirs && d in s.shape.place && p == s.shape.place[d].path + [Last(p)]
                  && (Last(p) in s.shape.dirs[d] <==> x != 0)
                  && (x != 0 ==> x == s.shape.dirs[d][Last(p)].id))
            && (x != 0 && p != [] ==> d != 0)
            && (x != 0 <==> CanonicalPath(path) && p in s.Contents())
            && (x != 0 ==> x in s.shape.place && s.shape.place[x] == Place(s.geo.root, p) && s.NodeId(x)
                           && (x in s.shape.dirs <==> s.mem.nodes[x].kind == Dir))
            && (d2 != 0 ==>
                  && CanonicalPath(folder) && d2 in s.shape.place && s.shape.place[d2] == Place(s.geo.root, f)
                  && s.NodeId(d2)
                  && d2 == Walk(GraphOf(s.shape.dirs), s.geo.root, f)
                  && (d2 in s.shape.dirs <==> DirThere(s.Contents(), f))
                  && (d2 in s.shape.dirs <==> s.mem.nodes[d2].kind == Dir))
            && (d2 == 0 ==> !CanonicalPath(folder) || !DirThere(s.Contents(), f))
  {
    hide Store.Ok, Rooted, Room, ValidName;
    var p := PathOf(path);
    LookupFacts(s.mem, s.shape, s.geo.root, p);
    LookupFacts(s.mem, s.shape, s.geo.root, PathOf(folder));
    if p != [] { ParentFacts(s.mem, s.shape, s.geo.root, p); }
  }

  lemma TakenThere(s: Store, d: nat, n: Name)
    requires s.Valid() && d in s.shape.dirs && d in s.shape.place
    ensures n in s.shape.dirs[d] <==> s.shape.place[d].path + [n] in s.Contents()
  {
    hide Store.Ok, Rooted;
    if n in s.shape.dirs[d] {
      ListedThere(s.mem, s.shape, s.geo.root, d, n);
    } else {
      NotYetThere(s.mem, s.shape, s.geo.root, d, n);
    }
  }

  /** The folder lies inside the object's own subtree exactly when its path extends the object's. */
  lemma InsideIffPrefix(s: Store, x: nat, d: nat)
    requires s.Valid() && x in s.shape.place && d in s.shape.place
    ensures InSubtree(s.shape.place, x, d) <==> s.shape.place[x].path <= s.shape.place[d].path
  {
    RootOf(s.mem, s.shape, 0, x);
    RootOf(s.mem, s.shape, 0, d);
  }

  /** A file contains no folder. */
  lemma NothingInsideFile(s: Store, x: nat, d: nat)
    requires s.Valid() && x in s.shape.place && x !in s.shape.dirs && d in s.shape.dirs && d in s.shape.place
    ensures !(s.shape.place[x].path <= s.shape.place[d].path)
  {
    hide Store.Ok, Rooted;
    RootedBasics(s.mem, s.shape, s.geo.root, x);
    RootedBasics(s.mem, s.shape, s.geo.root, d);
    var a, b := s.shape.place[x].path, s.shape.place[d].path;
    if a <= b {
      var q := b[|a|..];
      assert b == a + q;
      if q == [] {
        assert b == a;
        SameNode(s, x, d);
      } else {
        EmptyDirTree(s.mem, s.shape, s.geo.root, x);
        DirInTree(s, d);
      }
    }
  }

  lemma RootedBasics(m: Mem, s: Shape, root: nat, x: nat)
    requires Rooted(m, s, root) && x in s.place
    ensures 0 < x < |m.nodes| && m.nodes[x].kind != Free && s.place[x].root == root && (x in s.dirs <==> IsDir(m, x))
  {
    Basics(m, s, 0);
    RootOf(m, s, 0, x);
  }

  lemma SameNode(s: Store, x: nat, d: nat)
    requires s.Valid() && x in s.shape.place && d in s.shape.place && s.shape.place[x].path == s.shape.place[d].path
    ensures x == d
  {
    RootOf(s.mem, s.shape, 0, x);
    RootOf(s.mem, s.shape, 0, d);
    SamePlace(GraphOf(s.shape.dirs), s.shape.roots, s.shape.place, x, d);
  }

  lemma DirInTree(s: Store, d: nat)
    requires s.Valid() && d in s.shape.place
    ensures s.shape.place[d].path in s.Contents()
  {
    RootOf(s.mem, s.shape, 0, d);
    TreeHasPlaces(s.mem, s.shape, 0, s.geo.root, s.shape.place[d].path);
  }

  /** `przenies_twor` (psf.cpp:4215-4278). */
  method Move(s: Store, path: CString, folder: CString) returns (ok: bool)
    requires s.ready ==> s.Valid()
    modifies s.ram, s.disk, s`mem, s`shape, s`pend, s`dirty, s`dirtyAll, s`hint, s`lastFlushOk, s`transfers
    ensures s.ready ==> s.Valid()
    ensures ok <==> s.ready && old(CanMove(s, path, folder))
    ensures ok ==> s.Contents() == Relocate(old(s.Contents()), PathOf(path), PathOf(folder) + [Last(PathOf(path))])
    ensures ok ==> s.Through(old(s.transfers))
    ensures !ok ==> s.mem == old(s.mem) && s.shape == old(s.shape) && s.disk[..] == old(s.disk[..])
  {
    hide Store.Ok, Store.Through, Store.Contents, Rooted, Room, Lookup, LookupParent, TreeAt, CanonicalPath, PathOf;
    hide PtrAt, ValidName, Relocate, Walk;
    if !s.ready { return false; }
    TwoArrays(s);
    var safe := CheckPath(path);
    var safeFolder := CheckPath(folder);
    if !safe || !safeFolder { return false; }
    MoveConditions(s, path, folder);
    var d, name := Resolve(s, path, true);
    var x, _ := Resolve(s, path, false);
    var d2, _ := Resolve(s, folder, false);
    if d == 0 || x == 0 || d2 == 0 { return false; }
    InsideIffPrefix(s, x, d2);
    if d == d2 { return false; }
    if s.shape.place[d].path == s.shape.place[d2].path { SameNode(s, d, d2); }
    if s.NodeAt(d2).kind != Dir { return false; }
    if s.NodeAt(x).kind == Dir {
      BytePrefixIsPathPrefix(path, folder);
      var inside := PrefixTest(path, folder);
      if inside { return false; }
    } else {
      NothingInsideFile(s, x, d2);
    }
    TakenThere(s, d2, name);
    var taken, _, _, _, _ := FindNamed(s, d2, name);
    if taken { return false; }
    var found, y, block, j, k := FindNamed(s, d, name);
    ok := MoveIn(s, d, name, d2, x, block, j, k);
  }

  method MoveIn(s: Store, d: nat, name: Name, d2: nat, x: nat, block: nat, j: nat, ghost k: nat) returns (ok: bool)
    requires s.Valid() && d in s.shape.dirs && d in s.shape.place && name in s.shape.dirs[d] && ValidName(name)
    requires d2 in s.shape.dirs && d2 in s.shape.place && d2 != d && name !in s.shape.dirs[d2]
    requires s.shape.dirs[d][name] == Slot(k, j, x) && PtrAt(s.mem, d, k) == block
    requires x in s.shape.place && !InSubtree(s.shape.place, x, d2)
    modifies s.ram, s.disk, s`mem, s`shape, s`pend, s`dirty, s`dirtyAll, s`hint, s`lastFlushOk, s`transfers
    ensures s.Valid()
    ensures ok <==> old(Room(s.mem, d2))
    ensures ok ==>
              s.Contents()
              == Relocate(old(s.Contents()), old(s.shape.place[d].path) + [name], old(s.shape.place[d2].path) + [name])
    ensures ok ==> s.Through(old(s.transfers))
    ensures !ok ==> s.mem == old(s.mem) && s.shape == old(s.shape) && s.disk[..] == old(s.disk[..])
  {
    hide Store.Ok, Store.Through, Store.Contents, Rooted, Room, TreeAt, CutShape, CutMem, AttachShape, PtrAt;
    hide ValidName, Relocate, Written, SpotFits, Added, Refused, InSubtree;
    TwoArrays(s);
    ghost var root, m0, s0 := s.geo.root, s.mem, s.shape;
    MoveStart(m0, s0, root, d, name, d2);
    ghost var t: Spot;
    ok, t := AddEntry(s, d2, x, name);
    if !ok {
      MoveRefused(m0, s0, root, d2, x, name);
      return;
    }
    MoveDone(m0, s0, root, d, name, d2, t);
    var size := s.NodeAt(d).size;
    WriteEntry(s, d, block, j, EMPTY_ENTRY, if size > 0 then size - 1 else 0, k);
    Commit(s, AttachShape(CutShape(s0, d, name), d2, t, x, name));
  }

  lemma MoveStart(m: Mem, s: Shape, root: nat, d: nat, n: Name, d2: nat)
    requires Rooted(m, s, root) && d in s.dirs && n in s.dirs[d] && d2 in s.dirs
    ensures IsDir(m, d2) && PtrsValid(m, d2) && 0 < d < |m.nodes| && 0 < s.dirs[d][n].id < |m.nodes|
            && s.dirs[d][n].id in s.place
    ensures s.dirs[d][n].j < ENTRIES_PER_BLOCK
  {
    Basics(m, s, 0);
    CutSound(m, s, 0, d, n);
    OwnedPtrsValid(m, s.own, d2);
  }

  lemma MoveRefused(m: Mem, s: Shape, root: nat, d2: nat, x: nat, n: Name)
    requires Rooted(m, s, root) && d2 in s.dirs && n !in s.dirs[d2] && ValidName(n)
    requires 0 < x < |m.nodes| && Refused(m, d2, x, n)
    ensures !Room(m, d2)
  {
    Basics(m, s, 0);
    RefusedMeans(m, s.own, d2, s.dirs[d2], x, n);
  }

  lemma MoveDone(m: Mem, s: Shape, root: nat, d: nat, n: Name, d2: nat, t: Spot)
    requires Rooted(m, s, root) && d in s.dirs && d in s.place && n in s.dirs[d] && s.dirs[d][n].id in s.place
             && ValidName(n)
    requires d2 in s.dirs && d2 in s.place && d2 != d && n !in s.dirs[d2]
    requires !InSubtree(s.place, s.dirs[d][n].id, d2) && SpotFits(m, d2, t)
    ensures Room(m, d2)
    ensures var x, m1, slot, s1 := s.dirs[d][n].id, Added(m, d2, t, Entry(s.dirs[d][n].id, n)), s.dirs[d][n],
            CutShape(s, d, n);
            && Sized(m1) && d < |m1.nodes| && m1.nodes[d].size > 0
            && PtrAt(m1, d, slot.k) == PtrAt(m, d, slot.k) < |m1.blocks|
            && slot.j < ENTRIES_PER_BLOCK && d2 in s1.dirs && d2 in s1.place
            && var m2, s2 := Written(m1, d, slot.k, slot.j, EMPTY_ENTRY, m1.nodes[d].size - 1),
                AttachShape(s1, d2, t, x, n);
            && Rooted(m2, s2, root)
            && TreeAt(m2, s2.dirs, root)
                == Relocate(TreeAt(m, s.dirs, root), s.place[d].path + [n], s.place[d2].path + [n])
  {
    AddedHadRoom(m, d2, t);
    CutSound(m, s, 0, d, n);
    CutFacts(m, s, root, d, n, d2);
    MoveCommutes(m, s, d, n, d2, t, Entry(s.dirs[d][n].id, n));
    hide *;
    RelocateEffect(m, s, root, d, n, d2, t, n);
  }
}
