// Whole runs: any sequence of calls from any sound state, what it does to the user's tree, what stays
// true of nodes, entries and blocks, and that a written-out file system survives a restart.
module BspRuns {
  import opened BspTypes
  import opened BspPaths
  import opened BspForest
  import opened BspState
  import opened BspStore
  import opened BspDirectory
  import opened BspTree
  import opened BspEffects
  import opened BspApi
  import opened BspFiles
  import opened BspPurge
  import opened BspExtend
  import opened BspCopy
  import opened BspFormat
  import opened BspTidy
  import opened BspMount

  datatype Call =
    | DoCreate(path: CString, dir: bool)
    | DoWrite(path: CString, data: seq<Byte>)
    | DoRemove(path: CString)
    | DoRename(path: CString, name: CString)
    | DoMove(path: CString, folder: CString)
    | DoCopy(path: CString, folder: CString, level: nat)

  /** An object may be entered in a folder that is not inside it, under its own name. */
  ghost predicate MayEnter(v: Tree, path: CString, folder: CString) {
    var p, f := PathOf(path), PathOf(folder);
    && CanonicalPath(path) && CanonicalPath(folder) && p != [] && p in v
    && DirThere(v, f) && !(p <= f) && f + [Last(p)] !in v
  }

  /** A name an object may have: one to 55 bytes, no control character, "/" or "\\" among them, not "." or "..". */
  ghost predicate IsName(n: seq<Byte>) {
    1 <= |n| <= 55 && n != [46] && n != [46, 46] && forall b <- n :: 32 <= b && b != 47 && b != 92
  }

  /** What a call demands of the tree alone, leaving space aside. */
  ghost predicate Legal(v: Tree, c: Call) {
    match c
    case DoCreate(path, _) =>
      var p := PathOf(path);
      CanonicalPath(path) && p != [] && IsName(Last(p)) && p !in v && Front(p) in v && v[Front(p)] == DirItem
    case DoWrite(path, data) =>
      CanonicalPath(path) && PathOf(path) in v && v[PathOf(path)].FileItem? && |data| <= 490 * 4096
    case DoRemove(path) =>
      var p := PathOf(path);
      && CanonicalPath(path) && p != [] && p in v
      && (v[p] == DirItem ==> forall q: Path :: q != [] ==> p + q !in v)
    case DoRename(path, name) =>
      var p := PathOf(path);
      CanonicalPath(path) && p != [] && p in v && IsName(name) && (name == Last(p) || Front(p) + [name] !in v)
    case DoMove(path, folder) => MayEnter(v, path, folder) && Front(PathOf(path)) != PathOf(folder)
    case DoCopy(path, folder, level) => level <= 5 && MayEnter(v, path, folder)
  }

  /** What a successful call makes of the tree. */
  ghost function Effect(v: Tree, c: Call): Tree
    requires Legal(v, c)
  {
    match c
    case DoCreate(path, dir) => v[PathOf(path) := if dir then DirItem else FileItem([])]
    case DoWrite(path, data) => v[PathOf(path) := FileItem(data)]
    case DoRemove(path) => v - {PathOf(path)}
    case DoRename(path, name) =>
      if name == Last(PathOf(path)) then v else Relocate(v, PathOf(path), Front(PathOf(path)) + [name])
    case DoMove(path, folder) => Relocate(v, PathOf(path), PathOf(folder) + [Last(PathOf(path))])
    case DoCopy(path, folder, _) => Graft(v, PathOf(folder) + [Last(PathOf(path))], Sub(v, PathOf(path)))
  }

  /** Is there space for what the call adds? */
  ghost predicate HasSpace(s: Store, c: Call)
    reads s`mem, s`shape, s`geo
  {
    match c
    case DoCreate(path, _) => CanCreate(s, path)
    case DoWrite(path, data) => CanWrite(s, path, data)
    case DoRemove(_) => true
    case DoRename(_, _) => true
    case DoMove(path, folder) => CanMove(s, path, folder)
    case DoCopy(path, folder, _) => CanCopy(s, path, folder)
  }

  /** One call: it is carried out exactly when the tree allows it and there is space, and then does just that. */
  method Perform(s: Store, c: Call) returns (ghost done: bool)
    requires s.Valid()
    modifies s.ram, s.disk, s`mem, s`shape, s`pend, s`dirty, s`dirtyAll, s`hint, s`lastFlushOk, s`transfers
    ensures s.Valid()
    ensures done <==> Legal(old(s.Contents()), c) && old(HasSpace(s, c))
    ensures s.Contents() == if done then Effect(old(s.Contents()), c) else old(s.Contents())
    ensures !done ==> s.mem == old(s.mem) && s.shape == old(s.shape) && s.disk[..] == old(s.disk[..])
  {
    hide Store.Ok, Store.Contents, Rooted, TreeAt, Relocate, Graft, Sub, PathOf, CanonicalPath, Room, RoomForTree;
    hide FreeNodeLeft, FreeBlocks, Walk;
    match c
    case DoCreate(path, dir) =>
      var ok := Create(s, path, if dir then Dir else File);
      done := ok;
    case DoWrite(path, data) =>
      var flushed;
      flushed, done := Write(s, path, data);
    case DoRemove(path) =>
      var ok := Remove(s, path);
      done := ok;
    case DoRename(path, name) =>
      NewNameValid(name);
      var ok := Rename(s, path, name);
      done := ok;
    case DoMove(path, folder) =>
      var ok := Move(s, path, folder);
      done := ok;
    case DoCopy(path, folder, level) =>
      var ok := Copy(s, path, folder, level);
      done := ok;
  }

  /** `trees[i]` is what a user sees before call i; a refused call changes nothing. */
  ghost predicate Trace(trees: seq<Tree>, calls: seq<Call>, done: seq<bool>) {
    && |trees| == |calls| + 1 && |done| == |calls|
    && forall i | 0 <= i < |calls| :: Follows(trees, calls, done, i)
  }

  ghost predicate Follows(trees: seq<Tree>, calls: seq<Call>, done: seq<bool>, i: nat)
    requires |trees| == |calls| + 1 && |done| == |calls| && i < |calls|
  {
    if done[i] then Legal(trees[i], calls[i]) && trees[i + 1] == Effect(trees[i], calls[i])
    else trees[i + 1] == trees[i]
  }

  lemma TraceGrows(trees: seq<Tree>, calls: seq<Call>, done: seq<bool>, c: Call, ok: bool, v: Tree)
    requires Trace(trees, calls, done) && if ok then Legal(trees[|calls|], c) && v == Effect(trees[|calls|], c)
             else v == trees[|calls|]
    ensures Trace(trees + [v], calls + [c], done + [ok])
  {
    hide Legal, Effect;
    forall i | 0 <= i < |calls + [c]| ensures Follows(trees + [v], calls + [c], done + [ok], i) {
      if i < |calls| { assert Follows(trees, calls, done, i); }
    }
  }

  /** Any sequence of calls, failing ones included. */
  method Run(s: Store, calls: seq<Call>) returns (ghost done: seq<bool>, ghost trees: seq<Tree>)
    requires s.Valid()
    modifies s.ram, s.disk, s`mem, s`shape, s`pend, s`dirty, s`dirtyAll, s`hint, s`lastFlushOk, s`transfers
    ensures s.Valid() && Tidy(s.mem, s.geo.root)
    ensures Trace(trees, calls, done) && trees[0] == old(s.Contents()) && trees[|calls|] == s.Contents()
  {
    hide Store.Ok, Store.Contents, Rooted, TreeAt, Legal, Effect, HasSpace, Tidy, Trace;
    done, trees := [], [s.Contents()];
    EmptyTrace(trees);
    var i := 0;
    while i < |calls|
      invariant 0 <= i <= |calls| && s.Valid() && |trees| == i + 1
      invariant Trace(trees, calls[..i], done) && trees[0] == old(s.Contents()) && trees[i] == s.Contents()
    {
      ghost var ok := Perform(s, calls[i]);
      TraceGrows(trees, calls[..i], done, calls[i], ok, s.Contents());
      assert calls[..i + 1] == calls[..i] + [calls[i]];
      done, trees := done + [ok], trees + [s.Contents()];
      i := i + 1;
    }
    assert calls[..i] == calls;
    RootedTidy(s.mem, s.shape, s.geo.root);
  }

  lemma EmptyTrace(trees: seq<Tree>)
    requires |trees| == 1
    ensures Trace(trees, [], [])
  {
  }

  // ----- from the start of the machine on

  /** What the medium holds is a file system, if the mount would take it for one. */
  ghost predicate Orderly(image: seq<Block>) {
    Mountable(image) ==>
      var m := Decode(image, image[0].geo);
      Tidy(m, image[0].geo.root) && Clear(m)
  }

  /** Starts the machine and makes any calls, on a blank, unreadable or damaged medium from an empty file system, else
      from the tree the medium holds: each step is as the trace says, and the end is tidy. */
  method Session(ram: array<Block>, disk: array<Block>, medium: nat -> bool, calls: seq<Call>)
    returns (s: Store, outcome: Outcome, ghost done: seq<bool>, ghost trees: seq<Tree>)
    requires ram != disk && 10 <= ram.Length == disk.Length <= MAX_RAM_BLOCKS && Orderly(disk[..])
    modifies ram, disk
    ensures s.Valid() && Tidy(s.mem, s.geo.root)
    ensures Trace(trees, calls, done) && trees[|calls|] == s.Contents()
    ensures outcome != Mounted ==> trees[0] == Leaf(DirItem) && s.geo == Layout(ram.Length)
    ensures outcome == Mounted ==> Mountable(old(disk[..])) && trees[0] == TreeOn(old(disk[..]))
  {
    hide Store.Ok, Store.Contents, Rooted, TreeAt, Legal, Effect, Tidy, Clear, Trace, Mountable, TreeOn;
    s := new Store(ram, disk, medium);
    outcome := Init(s);
    if outcome == Mounted { MountedTree(s); }
    done, trees := Run(s, calls);
  }

  /** The tree an accepted image shows. */
  ghost function TreeOn(image: seq<Block>): Tree
    requires Mountable(image)
  {
    var m := Decode(image, image[0].geo);
    TreeAt(m, DirsOf(m), image[0].geo.root)
  }

  lemma MountedTree(s: Store)
    requires s.Valid() && s.disk.Length > 0 && s.disk[0] == Super(s.geo) && Mountable(s.disk[..])
    requires s.mem == Decode(s.disk[..], s.geo)
    ensures s.Contents() == TreeOn(s.disk[..])
  {
    hide Store.Ok, Rooted, TreeAt, Decode, DirsOf, Tidy, Clear;
    RootedShown(s.mem, s.shape, s.geo.root);
  }

  // ----- restart

  lemma PrefixHolds(a: seq<Block>, b: seq<Block>, geo: Geometry, m: Mem)
    requires |a| == |b| && Holds(a, geo, m) && a[..geo.blocks] == b[..geo.blocks] && Sized(m)
    ensures Holds(b, geo, m) && b[0].Super? && b[0].geo == geo
  {
    forall i | 0 <= i < geo.blocks ensures b[i] == a[i] {
      assert a[..geo.blocks][i] == b[..geo.blocks][i];
    }
    forall i: nat {:trigger BitBlock(i)} | i < |m.used| ensures b[BitBlock(i)].bits[i % BITS_PER_BLOCK] == m.used[i] {
      assert a[BitBlock(i)].bits[i % BITS_PER_BLOCK] == m.used[i];
    }
    forall i: nat {:trigger NodeBlock(geo, i)} | 0 < i < |m.nodes| ensures b[NodeBlock(geo, i)] == Inode(m.nodes[i]) {
      assert a[NodeBlock(geo, i)] == Inode(m.nodes[i]);
    }
    forall i: nat {:trigger DataBlock(geo, i)} | i < |m.blocks| ensures b[DataBlock(geo, i)] == m.blocks[i] {
      assert a[DataBlock(geo, i)] == m.blocks[i];
    }
  }

  lemma WrittenOutSaved(s: Store)
    requires s.Valid() && s.disk[..s.geo.blocks] == s.ram[..s.geo.blocks]
    ensures Saved(s.disk[..], s.mem, s.shape) && s.disk.Length > 0 && s.disk[0] == Super(s.geo)
  {
    PrefixHolds(s.ram[..], s.disk[..], s.geo, s.mem);
    hide Rooted, Holds, Sized;
  }

  /** After a flush that succeeded, a machine started on the same medium sees the same tree, provided it can read it;
      with writing on and a medium that serves every transfer both are sure. */
  method Restart(s: Store, ram: array<Block>, medium: nat -> bool) returns (t: Store, flushed: bool)
    requires s.Valid() && ram != s.disk && 10 <= ram.Length == s.disk.Length <= MAX_RAM_BLOCKS && ram != s.ram
    modifies s.disk, s`dirty, s`dirtyAll, s`lastFlushOk, s`transfers, ram
    ensures s.mem == old(s.mem) && s.shape == old(s.shape) && t.medium == medium
    ensures flushed <==> s.attached && s.writable && s.Served(old(s.transfers))
    ensures flushed && t.Served(0) ==> t.Valid() && t.mem == s.mem && t.shape == s.shape && t.Contents() == s.Contents()
    ensures s.attached && s.writable && (forall k :: s.medium(k)) && (forall k :: medium(k))
            ==> t.Valid() && t.Contents() == s.Contents()
  {
    hide Store.Ok, Rooted, TreeAt, Saved, Tidy, Clear, Mountable, Decode;
    flushed := s.Flush();
    t := new Store(ram, s.disk, medium);
    if flushed { WrittenOutTidy(s); }
    var outcome := Init(t);
    if flushed && outcome == Mounted { OneShape(s.mem, s.shape, t.shape, s.geo.root); }
  }

  lemma WrittenOutTidy(s: Store)
    requires s.Valid() && s.disk[..s.geo.blocks] == s.ram[..s.geo.blocks] && s.disk.Length <= MAX_RAM_BLOCKS
    ensures s.disk.Length > 0 && s.disk[0] == Super(s.geo)
    ensures Mountable(s.disk[..]) && Decode(s.disk[..], s.geo) == s.mem && Tidy(s.mem, s.geo.root) && Clear(s.mem)
  {
    hide Rooted, Holds, Tidy, Clear, Mountable, Decode, Saved;
    WrittenOutSaved(s);
    SavedTidy(s.disk[..], s.mem, s.shape);
  }
}
