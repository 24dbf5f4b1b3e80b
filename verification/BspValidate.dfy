// The check made at mount (psf.cpp:2084-2375): what it accepts, that it accepts every state the
// file system can reach, and what it does not see.
module BspValidate {
  import opened BspTypes
  import opened BspPaths
  import opened BspForest
  import opened BspState
  import opened BspStore
  import opened BspDirectory
  import opened BspTree
  import opened BspEffects
  import opened BspFiles
  import opened BspPurge

  /** Slot (k, j), when taken, names a live other node, validly and as no earlier slot does. */
  ghost predicate SlotFine(m: Mem, d: nat, k: nat, j: nat) {
    var e := EntryAt(m, d, k, j);
    e.id != 0 ==>
      && e.id < |m.nodes| && e.id != d && ValidName(e.name) && m.nodes[e.id].kind != Free
      && !NamedBefore(m, d, k, j, e.name)
  }

  ghost predicate NamedBefore(m: Mem, d: nat, k: nat, j: nat, n: Name) {
    exists l: nat, h: nat {:trigger EntryAt(m, d, l, h)} ::
      Before(l, h, k, j) && EntryAt(m, d, l, h).id != 0 && EntryAt(m, d, l, h).name == n
  }

  /** The number of taken slots among the first `count`. */
  ghost function Taken(m: Mem, d: nat, count: nat): nat {
    if count == 0 then 0
    else Taken(m, d, count - 1)
         + (if EntryAt(m, d, (count - 1) / ENTRIES_PER_BLOCK, (count - 1) % ENTRIES_PER_BLOCK).id != 0 then 1 else 0)
  }

  ghost predicate DirFine(m: Mem, d: nat)
    requires d < |m.nodes|
  {
    && (forall k: nat, j: nat {:trigger SlotFine(m, d, k, j)} | k < PTRS_PER_NODE && j < ENTRIES_PER_BLOCK ::
        SlotFine(m, d, k, j))
    && m.nodes[d].size == Taken(m, d, PTRS_PER_NODE * ENTRIES_PER_BLOCK)
  }

  ghost predicate FileFine(m: Mem, f: nat)
    requires f < |m.nodes|
  {
    && m.nodes[f].size <= MAX_FILE_BYTES
    && forall k: nat {:trigger PtrAt(m, f, k)} | k * BLOCK_BYTES < m.nodes[f].size :: PtrAt(m, f, k) != NO_BLOCK
  }

  ghost predicate NodeFine(m: Mem, i: nat)
    requires i < |m.nodes|
  {
    m.nodes[i].kind != Free ==>
      && PtrsSane(m, i)
      && (m.nodes[i].kind == File ==> FileFine(m, i))
      && (m.nodes[i].kind == Dir ==> DirFine(m, i))
  }

  /** What `waliduj_metadane` looks at. */
  ghost predicate MetadataOk(m: Mem, root: nat) {
    && IsDir(m, root)
    && forall i: nat {:trigger NodeFine(m, i)} | 0 < i < |m.nodes| :: NodeFine(m, i)
  }

  // ----- the check itself

  /** The inner duplicate loops of `waliduj_katalog`. */
  method FindEarlier(s: Store, d: nat, k: nat, j: nat, n: Name) returns (found: bool)
    requires s.Ok() && s.NodeId(d) && PtrsValid(s.mem, d) && k < PTRS_PER_NODE && j < ENTRIES_PER_BLOCK
    ensures found <==> NamedBefore(s.mem, d, k, j, n)
  {
    hide Store.Ok, PtrsValid;
    found := false;
    var at := 0;
    while at <= k
      invariant 0 <= at <= k + 1
      invariant at <= k ==> !NamedBefore(s.mem, d, at, 0, n)
      invariant at > k ==> !NamedBefore(s.mem, d, k, j, n)
    {
      RowOfSlots(s.mem, d, at);
      var b := s.NodeAt(d).ptrs[at];
      var limit := if at == k then j else ENTRIES_PER_BLOCK;
      if b != NO_BLOCK {
        var entries := EntriesOf(s.DataAt(b));
        var i := 0;
        while i < limit
          invariant 0 <= i <= limit
          invariant !NamedBefore(s.mem, d, at, i, n)
        {
          if entries[i].id != 0 && entries[i].name == n {
            assert Before(at, i, k, j) && EntryAt(s.mem, d, at, i) == entries[i];
            return true;
          }
          NotAtSlot(s.mem, d, at, i, n);
          i := i + 1;
        }
      } else {
        NotInGap(s.mem, d, at, limit, n);
      }
      if at < k { NextRow(s.mem, d, at, n); }
      at := at + 1;
    }
  }

  lemma RowOfSlots(m: Mem, d: nat, k: nat)
    requires Sized(m) && d < |m.nodes| && k < PTRS_PER_NODE && PtrsValid(m, d)
    ensures |m.nodes[d].ptrs| == PTRS_PER_NODE && m.nodes[d].ptrs[k] == PtrAt(m, d, k)
    ensures PtrAt(m, d, k) != NO_BLOCK ==>
              && PtrAt(m, d, k) < |m.blocks| && |EntriesOf(m.blocks[PtrAt(m, d, k)])| == ENTRIES_PER_BLOCK
              && forall j: nat | j < ENTRIES_PER_BLOCK :: EntriesOf(m.blocks[PtrAt(m, d, k)])[j] == EntryAt(m, d, k, j)
    ensures forall j: nat | j >= ENTRIES_PER_BLOCK || PtrAt(m, d, k) == NO_BLOCK :: EntryAt(m, d, k, j).id == 0
  {
  }

  lemma NotAtSlot(m: Mem, d: nat, k: nat, j: nat, n: Name)
    requires !NamedBefore(m, d, k, j, n) && !(EntryAt(m, d, k, j).id != 0 && EntryAt(m, d, k, j).name == n)
    ensures !NamedBefore(m, d, k, j + 1, n)
  {
    hide EntryAt;
    forall l: nat, h: nat | Before(l, h, k, j + 1) ensures !(EntryAt(m, d, l, h).id != 0
        && EntryAt(m, d, l, h).name == n) {
      assert Before(l, h, k, j) || (l == k && h == j);
    }
  }

  lemma NotInGap(m: Mem, d: nat, k: nat, j: nat, n: Name)
    requires !NamedBefore(m, d, k, 0, n) && forall h: nat :: EntryAt(m, d, k, h).id == 0
    ensures !NamedBefore(m, d, k, j, n)
  {
    hide EntryAt;
    forall l: nat, h: nat | Before(l, h, k, j) ensures !(EntryAt(m, d, l, h).id != 0 && EntryAt(m, d, l, h).name == n) {
      assert Before(l, h, k, 0) || l == k;
    }
  }

  lemma NextRow(m: Mem, d: nat, k: nat, n: Name)
    requires !NamedBefore(m, d, k, ENTRIES_PER_BLOCK, n)
    requires forall h: nat | h >= ENTRIES_PER_BLOCK :: EntryAt(m, d, k, h).id == 0
    ensures !NamedBefore(m, d, k + 1, 0, n)
  {
    hide EntryAt;
    forall l: nat, h: nat | Before(l, h, k + 1, 0) ensures !(EntryAt(m, d, l, h).id != 0
        && EntryAt(m, d, l, h).name == n) {
      assert Before(l, h, k, ENTRIES_PER_BLOCK) || (l == k && h >= ENTRIES_PER_BLOCK);
    }
  }

  /** One slot of the directory. */
  method CheckSlot(s: Store, d: nat, k: nat, j: nat, e: Entry) returns (ok: bool)
    requires s.Ok() && s.NodeId(d) && PtrsValid(s.mem, d) && k < PTRS_PER_NODE && j < ENTRIES_PER_BLOCK
    requires e == EntryAt(s.mem, d, k, j) && e.id != 0
    ensures ok <==> SlotFine(s.mem, d, k, j)
  {
    hide Store.Ok, PtrsValid, NamedBefore, EntryAt;
    if !s.NodeId(e.id) || e.id == d { return false; }
    if !ValidName(e.name) { return false; }
    if s.NodeAt(e.id).kind == Free { return false; }
    var earlier := FindEarlier(s, d, k, j, e.name);
    ok := !earlier;
  }

  /** The slots before (k, 0) or (k, j) are fine. */
  ghost predicate FineTo(m: Mem, d: nat, k: nat, j: nat) {
    forall l: nat, h: nat {:trigger SlotFine(m, d, l, h)} | Before(l, h, k, j) && h < ENTRIES_PER_BLOCK ::
        SlotFine(m, d, l, h)
  }

  /** `waliduj_katalog` (psf.cpp:2151-2277), its pointers already checked. */
  method ValidateDir(s: Store, d: nat) returns (ok: bool)
    requires s.Ok() && s.NodeId(d) && PtrsValid(s.mem, d)
    ensures ok <==> DirFine(s.mem, d)
  {
    hide Store.Ok, PtrsValid, SlotFine, EntryAt, FineTo, Taken;
    FineStarts(s.mem, d);
    var found := 0;
    var k := 0;
    while k < PTRS_PER_NODE
      invariant 0 <= k <= PTRS_PER_NODE
      invariant FineTo(s.mem, d, k, 0) && found == Taken(s.mem, d, k * ENTRIES_PER_BLOCK)
    {
      RowOfSlots(s.mem, d, k);
      var b := s.NodeAt(d).ptrs[k];
      if b == NO_BLOCK {
        GapFine(s.mem, d, k);
      } else {
        var entries := EntriesOf(s.DataAt(b));
        var j := 0;
        while j < ENTRIES_PER_BLOCK
          invariant 0 <= j <= ENTRIES_PER_BLOCK
          invariant FineTo(s.mem, d, k, j) && found == Taken(s.mem, d, k * ENTRIES_PER_BLOCK + j)
        {
          TakenNext(s.mem, d, k, j);
          if entries[j].id != 0 {
            var fine := CheckSlot(s, d, k, j, entries[j]);
            if !fine { return false; }
            found := found + 1;
          } else {
            EmptyFine(s.mem, d, k, j);
          }
          SlotDone(s.mem, d, k, j);
          j := j + 1;
        }
        RowFine(s.mem, d, k);
      }
      k := k + 1;
    }
    AllFine(s.mem, d);
    return s.NodeAt(d).size == found;
  }

  lemma FineStarts(m: Mem, d: nat)
    ensures FineTo(m, d, 0, 0) && Taken(m, d, 0) == 0
  {
  }

  lemma TakenNext(m: Mem, d: nat, k: nat, j: nat)
    requires j < ENTRIES_PER_BLOCK
    ensures Taken(m, d, k * ENTRIES_PER_BLOCK + j + 1) == Taken(m, d, k * ENTRIES_PER_BLOCK + j)
            + (if EntryAt(m, d, k, j).id != 0 then 1 else 0)
  {
    assert (k * ENTRIES_PER_BLOCK + j) / ENTRIES_PER_BLOCK == k && (k * ENTRIES_PER_BLOCK + j) % ENTRIES_PER_BLOCK == j;
    hide EntryAt;
  }

  lemma EmptyFine(m: Mem, d: nat, k: nat, j: nat)
    requires EntryAt(m, d, k, j).id == 0
    ensures SlotFine(m, d, k, j)
  {
  }

  lemma SlotDone(m: Mem, d: nat, k: nat, j: nat)
    requires FineTo(m, d, k, j) && SlotFine(m, d, k, j)
    ensures FineTo(m, d, k, j + 1)
  {
    hide SlotFine;
  }

  lemma RowFine(m: Mem, d: nat, k: nat)
    requires FineTo(m, d, k, ENTRIES_PER_BLOCK)
    ensures FineTo(m, d, k + 1, 0)
  {
    hide SlotFine;
  }

  lemma GapFine(m: Mem, d: nat, k: nat)
    requires FineTo(m, d, k, 0) && forall j: nat :: EntryAt(m, d, k, j).id == 0
    ensures FineTo(m, d, k + 1, 0) && Taken(m, d, (k + 1) * ENTRIES_PER_BLOCK) == Taken(m, d, k * ENTRIES_PER_BLOCK)
  {
    forall j: nat ensures SlotFine(m, d, k, j) {}
    GapTaken(m, d, k, ENTRIES_PER_BLOCK);
    hide SlotFine, Taken;
  }

  lemma {:induction false} GapTaken(m: Mem, d: nat, k: nat, j: nat)
    requires j <= ENTRIES_PER_BLOCK && forall j: nat :: EntryAt(m, d, k, j).id == 0
    ensures Taken(m, d, k * ENTRIES_PER_BLOCK + j) == Taken(m, d, k * ENTRIES_PER_BLOCK)
  {
    hide EntryAt;
    if j > 0 {
      GapTaken(m, d, k, j - 1);
      TakenNext(m, d, k, j - 1);
    }
  }

  lemma AllFine(m: Mem, d: nat)
    requires FineTo(m, d, PTRS_PER_NODE, 0)
    ensures forall k: nat, j: nat {:trigger SlotFine(m, d, k, j)} | k < PTRS_PER_NODE && j < ENTRIES_PER_BLOCK ::
            SlotFine(m, d, k, j)
  {
    hide SlotFine;
  }

  /** The file branch of `waliduj_metadane`. */
  method ValidateFile(s: Store, f: nat) returns (ok: bool)
    requires s.Ok() && s.NodeId(f)
    ensures ok <==> FileFine(s.mem, f)
  {
    hide Store.Ok;
    var w := s.NodeAt(f);
    if w.size > PTRS_PER_NODE * BLOCK_BYTES { return false; }
    var need := CeilDiv(w.size, BLOCK_BYTES);
    var k := 0;
    while k < need
      invariant 0 <= k <= need
      invariant forall l: nat {:trigger PtrAt(s.mem, f, l)} | l < k :: PtrAt(s.mem, f, l) != NO_BLOCK
    {
      PtrIs(s.mem, f, k);
      if w.ptrs[k] == NO_BLOCK { return false; }
      k := k + 1;
    }
    ok := true;
  }

  /** `waliduj_metadane` (psf.cpp:2279-2375). */
  method ValidateMetadata(s: Store) returns (ok: bool)
    requires s.Ok() && s.NodeId(s.geo.root)
    ensures ok <==> MetadataOk(s.mem, s.geo.root)
  {
    hide Store.Ok, PtrsSane, DirFine, FileFine;
    if s.NodeAt(s.geo.root).kind != Dir { return false; }
    var id := 1;
    while id <= s.NodeCount()
      invariant 1 <= id <= s.NodeCount() + 1
      invariant forall i: nat {:trigger NodeFine(s.mem, i)} | 0 < i < id :: NodeFine(s.mem, i)
    {
      var kind := s.NodeAt(id).kind;
      if kind != Free {
        var fine := CheckNodePtrs(s, id);
        if fine {
          SanePtrsValid(s.mem, id);
          if kind == File { fine := ValidateFile(s, id); } else { fine := ValidateDir(s, id); }
        }
        assert fine <==> NodeFine(s.mem, id);
        if !fine { return false; }
      }
      assert NodeFine(s.mem, id);
      id := id + 1;
    }
    ok := true;
  }

  lemma SanePtrsValid(m: Mem, d: nat)
    requires PtrsSane(m, d) && |m.used| == |m.blocks|
    ensures PtrsValid(m, d)
  {
  }

  // ----- every reachable state passes

  lemma SoundDirFine(m: Mem, s: Shape, d: nat)
    requires Sound(m, s, 0) && d in s.dirs
    ensures d < |m.nodes| && DirFine(m, d)
  {
    Basics(m, s, 0);
    assert DirOk(m, d, s.dirs[d]);
    forall k: nat, j: nat ensures SlotFine(m, d, k, j) { SoundSlotFine(m, s, d, k, j); }
    hide Sound, SlotFine;
    NamesCounted(m, d, s.dirs[d]);
  }

  lemma SoundSlotFine(m: Mem, s: Shape, d: nat, k: nat, j: nat)
    requires Sound(m, s, 0) && d in s.dirs
    ensures SlotFine(m, d, k, j)
  {
    if EntryAt(m, d, k, j).id != 0 {
      Basics(m, s, 0);
      assert DirOk(m, d, s.dirs[d]);
      var n := EntryAt(m, d, k, j).name;
      EdgePlace(GraphOf(s.dirs), s.roots, s.place, d, n);
      hide Struct, Forest;
      NamedOnce(m, d, s.dirs[d], k, j);
    }
  }

  lemma NamedOnce(m: Mem, d: nat, names: map<Name, Slot>, k: nat, j: nat)
    requires DirOk(m, d, names) && EntryAt(m, d, k, j).id != 0
    ensures !NamedBefore(m, d, k, j, EntryAt(m, d, k, j).name)
  {
    var n := EntryAt(m, d, k, j).name;
    forall l: nat, h: nat | EntryAt(m, d, l, h).id != 0 && EntryAt(m, d, l, h).name == n ensures l == k && h == j {
      assert names[n] == Slot(l, h, EntryAt(m, d, l, h).id);
    }
  }

  ghost function TakenSet(m: Mem, d: nat, count: nat): set<nat> {
    if count == 0 then {}
    else TakenSet(m, d, count - 1)
         + (if EntryAt(m, d, (count - 1) / ENTRIES_PER_BLOCK, (count - 1) % ENTRIES_PER_BLOCK).id != 0 then
             {count - 1} else {})
  }

  lemma {:induction false} TakenSize(m: Mem, d: nat, count: nat)
    ensures |TakenSet(m, d, count)| == Taken(m, d, count)
    ensures forall i: nat ::
              i in TakenSet(m, d, count)
              <==> i < count && EntryAt(m, d, i / ENTRIES_PER_BLOCK, i % ENTRIES_PER_BLOCK).id != 0
  {
    hide EntryAt;
    if count > 0 { TakenSize(m, d, count - 1); }
  }

  function SlotNumber(t: Slot): nat {
    t.k * ENTRIES_PER_BLOCK + t.j
  }

  /** `names` lists exactly the taken slots of `d`. */
  ghost predicate Indexed(m: Mem, d: nat, names: map<Name, Slot>) {
    && (forall n <- names :: names[n].id != 0 && EntryAt(m, d, names[n].k, names[n].j) == Entry(names[n].id, n))
    && (forall k: nat, j: nat {:trigger EntryAt(m, d, k, j)} :: EntryAt(m, d, k, j).id != 0 ==>
          && EntryAt(m, d, k, j).name in names
          && names[EntryAt(m, d, k, j).name] == Slot(k, j, EntryAt(m, d, k, j).id))
  }

  /** The entry count of a directory is the number of its taken slots. */
  lemma NamesCounted(m: Mem, d: nat, names: map<Name, Slot>)
    requires DirOk(m, d, names) && Sized(m)
    ensures m.nodes[d].size == Taken(m, d, PTRS_PER_NODE * ENTRIES_PER_BLOCK)
  {
    NamesNumber(m, d, names);
    hide Sized, EntryAt, Taken;
  }

  lemma NamesNumber(m: Mem, d: nat, names: map<Name, Slot>)
    requires Indexed(m, d, names) && Sized(m)
    ensures |names| == Taken(m, d, PTRS_PER_NODE * ENTRIES_PER_BLOCK)
  {
    hide Sized, Indexed, EntryAt;
    var f: map<Name, nat> := map n | n in names :: SlotNumber(names[n]);
    forall n, q | n in names && q in names && f[n] == f[q] ensures n == q {
      SlotInside(m, d, names, n);
      SlotInside(m, d, names, q);
      assert names[n].k == names[q].k && names[n].j == names[q].j;
    }
    ImageSize(names.Keys, f);
    TakenSize(m, d, PTRS_PER_NODE * ENTRIES_PER_BLOCK);
    var slots := set n | n in names.Keys :: f[n];
    forall i: nat ensures i in slots <==> i in TakenSet(m, d, PTRS_PER_NODE * ENTRIES_PER_BLOCK) {
      if i in slots {
        var n :| n in names && f[n] == i;
        SlotInside(m, d, names, n);
        assert i / ENTRIES_PER_BLOCK == names[n].k && i % ENTRIES_PER_BLOCK == names[n].j;
      }
      if i in TakenSet(m, d, PTRS_PER_NODE * ENTRIES_PER_BLOCK) {
        var n := SlotNamed(m, d, names, i / ENTRIES_PER_BLOCK, i % ENTRIES_PER_BLOCK);
        assert f[n] == i;
      }
    }
    assert slots == TakenSet(m, d, PTRS_PER_NODE * ENTRIES_PER_BLOCK);
    assert |names.Keys| == |names|;
  }

  lemma SlotInside(m: Mem, d: nat, names: map<Name, Slot>, n: Name)
    requires Indexed(m, d, names) && Sized(m) && n in names
    ensures names[n].k < PTRS_PER_NODE && names[n].j < ENTRIES_PER_BLOCK
    ensures EntryAt(m, d, names[n].k, names[n].j) == Entry(names[n].id, n) && names[n].id != 0
    ensures forall q <- names :: q != n ==> names[q].k != names[n].k || names[q].j != names[n].j
  {
    forall q <- names | q != n ensures names[q].k != names[n].k || names[q].j != names[n].j {
      assert EntryAt(m, d, names[q].k, names[q].j).name == q;
    }
  }

  lemma SlotNamed(m: Mem, d: nat, names: map<Name, Slot>, k: nat, j: nat) returns (n: Name)
    requires Indexed(m, d, names) && EntryAt(m, d, k, j).id != 0
    ensures n in names && names[n].k == k && names[n].j == j
  {
    n := EntryAt(m, d, k, j).name;
  }

  lemma SoundNodeFine(m: Mem, s: Shape, i: nat)
    requires Sound(m, s, 0) && 0 < i < |m.nodes|
    ensures NodeFine(m, i)
  {
    OwnedPtrsSane(m, s.own, i);
    if m.nodes[i].kind == Dir {
      assert IsDir(m, i) <==> i in s.dirs;
      SoundDirFine(m, s, i);
    }
    if m.nodes[i].kind == File {
      assert IsFile(m, i);
      SoundFileFine(m, i);
    }
  }

  lemma SoundFileFine(m: Mem, f: nat)
    requires FileOk(m, f)
    ensures FileFine(m, f)
  {
  }

  /** `waliduj_metadane` returns true in every state the file system can reach. */
  lemma RootedPasses(m: Mem, s: Shape, root: nat)
    requires Rooted(m, s, root)
    ensures MetadataOk(m, root) && 0 < root < |m.nodes|
  {
    hide Struct, Forest;
    Basics(m, s, 0);
    assert IsDir(m, root) <==> root in s.dirs;
    forall i: nat | 0 < i < |m.nodes| ensures NodeFine(m, i) {
      hide *;
      SoundNodeFine(m, s, i);
    }
  }

  // ----- what the check does not see

  const SHARED_ENTRIES := [Entry(2, [97]), Entry(2, [98])] + seq(ENTRIES_PER_BLOCK - 2, _ => EMPTY_ENTRY)

  /** A root directory that lists the one empty file twice, as "a" and as "b". */
  const SHARED_NODE := Mem(
    [FREE_NODE, Node(Dir, 2, [0] + seq(PTRS_PER_NODE - 1, _ => NO_BLOCK)), ClearNode(File)],
    [true],
    [Entries(SHARED_ENTRIES)])

  lemma SharedPtrs()
    ensures forall i: nat, k: nat :: PtrAt(SHARED_NODE, i, k) == if i == 1 && k == 0 then 0 else NO_BLOCK
    ensures forall k: nat, j: nat :: EntryAt(SHARED_NODE, 1, k, j) ==
              if k == 0 && j == 0 then Entry(2, [97]) else if k == 0 && j == 1 then Entry(2, [98]) else EMPTY_ENTRY
  {
  }

  lemma {:induction false} TailTaken(m: Mem, d: nat, count: nat)
    requires count >= 2 && forall k: nat, j: nat :: k > 0 || j > 1 ==> EntryAt(m, d, k, j).id == 0
    ensures Taken(m, d, count) == Taken(m, d, 2)
  {
    hide EntryAt;
    if count > 2 {
      TailTaken(m, d, count - 1);
      assert (count - 1) / ENTRIES_PER_BLOCK > 0 || (count - 1) % ENTRIES_PER_BLOCK > 1;
    }
  }

  lemma SharedDirFine()
    ensures DirFine(SHARED_NODE, 1)
  {
    var m := SHARED_NODE;
    SharedPtrs();
    hide EntryAt, PtrAt;
    TakenNext(m, 1, 0, 0);
    TakenNext(m, 1, 0, 1);
    TailTaken(m, 1, PTRS_PER_NODE * ENTRIES_PER_BLOCK);
    hide Taken;
    forall k: nat, j: nat ensures SlotFine(m, 1, k, j) {
      forall l: nat, h: nat | Before(l, h, k, j) && EntryAt(m, 1, l, h).id != 0 && EntryAt(m, 1, k, j).id != 0
        ensures EntryAt(m, 1, l, h).name != EntryAt(m, 1, k, j).name
      {
        assert [97][0] != [98][0];
      }
    }
  }

  /** The mount check accepts an image in which one node has two entries: no tree has that memory. */
  lemma AcceptsSharedNode()
    ensures MetadataOk(SHARED_NODE, 1)
    ensures forall s: Shape :: !Rooted(SHARED_NODE, s, 1)
  {
    var m := SHARED_NODE;
    SharedDirFine();
    SharedPtrs();
    forall i: nat | 0 < i < |m.nodes| ensures NodeFine(m, i) { hide DirFine, EntryAt, PtrAt; }
    forall s: Shape ensures !Rooted(m, s, 1) { hide PtrAt, EntryAt, NodeFine; NotATree(s); }
  }

  lemma NotATree(s: Shape)
    ensures !Rooted(SHARED_NODE, s, 1)
  {
    var m := SHARED_NODE;
    SharedPtrs();
    hide EntryAt, PtrAt, Forest;
    if Rooted(m, s, 1) {
      TwoNames(m, s);
      OneParent(GraphOf(s.dirs), s.roots, s.place, 1, [97], 1, [98]);
    }
  }

  lemma TwoNames(m: Mem, s: Shape)
    requires Rooted(m, s, 1) && EntryAt(m, 1, 0, 0) == Entry(2, [97]) && EntryAt(m, 1, 0, 1) == Entry(2, [98])
    ensures 1 in s.dirs && [97] in s.dirs[1] && [98] in s.dirs[1] && s.dirs[1][[97]].id == 2 && s.dirs[1][[98]].id == 2
    ensures [97] != [98]
  {
    Basics(m, s, 0);
    assert DirOk(m, 1, s.dirs[1]);
    assert [97][0] != [98][0];
  }
}
