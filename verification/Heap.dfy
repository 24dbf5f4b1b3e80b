// The kernel heap (heap.cpp): a first-fit allocator over a doubly linked list of headers that tiles
// its area, with splitting and two-sided coalescing.
module Heap {
  const HEADER: nat := 48
  const ALIGN: nat := 16
  const MIN_BLOCK: nat := 16
  const MAGIC: nat := 0x1234_5678
  const WORD_LIMIT: nat := 0x1_0000_0000_0000_0000

  /** `BlokSterty`; address 0 is the null pointer. */
  datatype Header = Header(size: nat, free: bool, next: nat, prev: nat, magic: nat)

  const NO_HEADER := Header(0, false, 0, 0, 0)

  /** A block as the list describes it. */
  datatype Block = Block(addr: nat, size: nat, free: bool)

  type Layout = seq<Block>

  function EndOf(b: Block): nat {
    b.addr + HEADER + b.size
  }

  function DataOf(b: Block): nat {
    b.addr + HEADER
  }

  // ----- the layout

  /** The blocks tile [start, end), every size a positive multiple of 16. */
  ghost predicate Tiles(b: Layout, start: nat, end: nat) {
    && |b| > 0 && b[0].addr == start && EndOf(b[|b|-1]) == end
    && start % ALIGN == 0 && end % ALIGN == 0 && 0 < start && end < WORD_LIMIT
    && (forall i | 0 <= i < |b| :: b[i].size >= MIN_BLOCK && b[i].size % ALIGN == 0)
    && (forall i | 0 < i < |b| :: b[i].addr == EndOf(b[i-1]))
  }

  /** No two neighbours are both free. */
  ghost predicate Coalesced(b: Layout) {
    forall i | 0 < i < |b| :: !(b[i-1].free && b[i].free)
  }

  ghost predicate Sane(b: Layout, start: nat, end: nat) {
    Tiles(b, start, end) && Coalesced(b)
  }

  lemma {:induction false} Ascending(b: Layout, start: nat, end: nat, i: nat, j: nat)
    requires Tiles(b, start, end) && i < j < |b|
    ensures EndOf(b[i]) <= b[j].addr
    decreases j
  {
    if i < j - 1 { Ascending(b, start, end, i, j - 1); }
  }

  lemma {:induction false} Inside(b: Layout, start: nat, end: nat, i: nat)
    requires Tiles(b, start, end) && i < |b|
    ensures start <= b[i].addr && EndOf(b[i]) <= end && b[i].addr % ALIGN == 0 && DataOf(b[i]) % ALIGN == 0
    ensures b[i].addr - start >= i * (HEADER + MIN_BLOCK)
    decreases i
  {
    if i < |b| - 1 { Ascending(b, start, end, i, |b| - 1); }
    if i > 0 {
      Inside(b, start, end, i - 1);
      assert b[i].addr == EndOf(b[i-1]) && b[i-1].size >= MIN_BLOCK;
      Sixteens(b[i-1].addr, b[i-1].size);
    }
    Sixteens(b[i].addr, 0);
  }

  lemma Sixteens(a: nat, s: nat)
    ensures a % ALIGN == 0 && s % ALIGN == 0 ==> (a + HEADER + s) % ALIGN == 0
  {
  }

  // ----- allocation and release on the layout

  /** The size a request is served with. */
  function Rounded(n: nat): nat {
    if n < MIN_BLOCK then MIN_BLOCK else (n + ALIGN - 1) / ALIGN * ALIGN
  }

  lemma RoundedUp(n: nat)
    ensures Rounded(n) >= n && Rounded(n) >= MIN_BLOCK && Rounded(n) % ALIGN == 0 && Rounded(n) < n + MIN_BLOCK + 1
  {
  }

  /** The lowest free block of at least `n` bytes, or |b|. */
  function Fit(b: Layout, n: nat): (i: nat)
    ensures i <= |b|
    ensures forall k | 0 <= k < i :: !(b[k].free && b[k].size >= n)
    ensures i < |b| ==> b[i].free && b[i].size >= n
  {
    FitFrom(b, n, 0)
  }

  function FitFrom(b: Layout, n: nat, from: nat): (i: nat)
    requires from <= |b|
    ensures from <= i <= |b|
    ensures forall k | from <= k < i :: !(b[k].free && b[k].size >= n)
    ensures i < |b| ==> b[i].free && b[i].size >= n
    decreases |b| - from
  {
    if from == |b| || (b[from].free && b[from].size >= n) then from else FitFrom(b, n, from + 1)
  }

  function Split2(b: Layout, i: nat, x: Block, y: Block): (c: Layout)
    requires i < |b|
    ensures |c| == |b| + 1 && c[i] == x && c[i+1] == y
    ensures forall k | 0 <= k < i :: c[k] == b[k]
    ensures forall k | i + 1 < k < |c| :: c[k] == b[k-1]
  {
    b[..i] + [x, y] + b[i+1..]
  }

  function Join2(b: Layout, i: nat, x: Block): (c: Layout)
    requires i + 1 < |b|
    ensures |c| == |b| - 1 && c[i] == x
    ensures forall k | 0 <= k < i :: c[k] == b[k]
    ensures forall k | i < k < |c| :: c[k] == b[k+1]
  {
    b[..i] + [x] + b[i+2..]
  }

  /** Block `i` is taken for `n` bytes; a rest that can hold a header and 16 bytes becomes a free block. */
  function Placed(b: Layout, i: nat, n: nat): Layout
    requires i < |b| && n <= b[i].size
  {
    if b[i].size - n >= HEADER + MIN_BLOCK then
      Split2(b, i, Block(b[i].addr, n, false), Block(b[i].addr + HEADER + n, b[i].size - n - HEADER, true))
    else b[i := b[i].(free := false)]
  }

  function Merge(b: Layout, i: nat): (c: Layout)
    requires i < |b|
    ensures i < |c|
  {
    if i + 1 < |b| && b[i].free && b[i+1].free then
      Join2(b, i, Block(b[i].addr, b[i].size + HEADER + b[i+1].size, true))
    else b
  }

  /** Block `i` becomes free, swallows a free right neighbour, and is swallowed by a free left one. */
  function Freed(b: Layout, i: nat): Layout
    requires i < |b|
  {
    var c := Merge(b[i := b[i].(free := true)], i);
    if i > 0 then Merge(c, i - 1) else c
  }

  lemma PlacedSane(b: Layout, start: nat, end: nat, i: nat, n: nat)
    requires Sane(b, start, end) && i < |b| && b[i].free && n <= b[i].size && n >= MIN_BLOCK && n % ALIGN == 0
    ensures Sane(Placed(b, i, n), start, end)
  {
    if b[i].size - n >= HEADER + MIN_BLOCK {
      SplitSane(b, start, end, i, Block(b[i].addr, n, false),
          Block(b[i].addr + HEADER + n, b[i].size - n - HEADER, true));
    }
  }

  lemma SplitSane(b: Layout, start: nat, end: nat, i: nat, x: Block, y: Block)
    requires Sane(b, start, end) && i < |b| && b[i].free && !x.free
    requires x.addr == b[i].addr && y.addr == EndOf(x) && EndOf(y) == EndOf(b[i])
    requires x.size >= MIN_BLOCK && y.size >= MIN_BLOCK && x.size % ALIGN == 0 && y.size % ALIGN == 0
    ensures Sane(Split2(b, i, x, y), start, end)
  {
    var c := Split2(b, i, x, y);
    hide Split2;
    forall k | 0 < k < |c| ensures c[k].addr == EndOf(c[k-1]) && !(c[k-1].free && c[k].free) {
      if k > i + 1 { assert b[k-1].addr == EndOf(b[k-2]) && !(b[k-2].free && b[k-1].free); }
    }
    forall k | 0 <= k < |c| ensures c[k].size >= MIN_BLOCK && c[k].size % ALIGN == 0 {
      if k > i + 1 { assert b[k-1].size >= MIN_BLOCK; }
    }
  }

  lemma MergeTiles(b: Layout, start: nat, end: nat, i: nat)
    requires Tiles(b, start, end) && i < |b|
    ensures Tiles(Merge(b, i), start, end)
  {
    var c := Merge(b, i);
    forall k | 0 < k < |c| ensures c[k].addr == EndOf(c[k-1]) {
      if |c| < |b| && k > i { assert b[k+1].addr == EndOf(b[k]) && b[i+1].addr == EndOf(b[i]); }
    }
    if |c| < |b| && i + 1 == |c| { assert b[i+1].addr == EndOf(b[i]); }
  }

  lemma FreedTiles(b: Layout, start: nat, end: nat, i: nat)
    requires Tiles(b, start, end) && i < |b|
    ensures Tiles(Freed(b, i), start, end)
  {
    var d := b[i := b[i].(free := true)];
    MergeTiles(d, start, end, i);
    if i > 0 { MergeTiles(Merge(d, i), start, end, i - 1); }
  }

  lemma FreedCoalesced(b: Layout, i: nat)
    requires Coalesced(b) && i < |b| && !b[i].free
    ensures Coalesced(Freed(b, i))
  {
    var d := b[i := b[i].(free := true)];
    var c := Merge(d, i);
    forall k | 0 < k < |c| && k != i ensures !(c[k-1].free && c[k].free) {
      if k > i {
        if |c| < |d| { assert !(b[k].free && b[k+1].free); } else { assert !(b[k-1].free && b[k].free); }
      } else { assert !(b[k-1].free && b[k].free); }
    }
    assert c[i].free;
    if i > 0 {
      var e := Merge(c, i - 1);
      forall k | 0 < k < |e| ensures !(e[k-1].free && e[k].free) {
        if |e| < |c| {
          if k > i - 1 { assert !(c[k].free && c[k+1].free); } else { assert !(c[k-1].free && c[k].free); }
        }
      }
    }
  }

  /** Every release keeps the tiling and the coalescing. */
  lemma FreedSane(b: Layout, start: nat, end: nat, i: nat)
    requires Sane(b, start, end) && i < |b| && !b[i].free
    ensures Sane(Freed(b, i), start, end)
  {
    FreedTiles(b, start, end, i);
    FreedCoalesced(b, i);
  }

  // ----- what the two undo and keep

  /** Releasing what was just allocated gives back the very same layout. */
  lemma FreeUndoesAlloc(b: Layout, start: nat, end: nat, i: nat, n: nat)
    requires Sane(b, start, end) && i < |b| && b[i].free && n <= b[i].size
    ensures i < |Placed(b, i, n)| && Freed(Placed(b, i, n), i) == b
  {
    if i > 0 { LeftTaken(b, i); }
    if b[i].size - n >= HEADER + MIN_BLOCK {
      RestRejoined(b, i, Block(b[i].addr, n, false), Block(b[i].addr + HEADER + n, b[i].size - n - HEADER, true));
    } else {
      if i + 1 < |b| { LeftTaken(b, i + 1); }
      assert b[i := b[i].(free := false)][i := b[i]] == b;
    }
  }

  lemma LeftTaken(b: Layout, i: nat)
    requires Coalesced(b) && 0 < i < |b|
    ensures !(b[i-1].free && b[i].free)
  {
  }

  lemma RestRejoined(b: Layout, i: nat, x: Block, y: Block)
    requires i < |b| && b[i].free && y.free && x.addr == b[i].addr && x.size + HEADER + y.size == b[i].size
    ensures var c := Split2(b, i, x, y);
            Merge(c[i := x.(free := true)], i) == b
  {
    var d := Split2(b, i, x, y)[i := x.(free := true)];
    var e := Merge(d, i);
    hide Split2, Join2;
    assert |e| == |b| && forall k | 0 <= k < |b| :: e[k] == b[k];
  }

  /** The allocated blocks, in address order. */
  ghost function Used(b: Layout): seq<Block> {
    if b == [] then [] else (if b[0].free then [] else [b[0]]) + Used(b[1..])
  }

  lemma {:induction false} UsedConcat(a: Layout, b: Layout)
    ensures Used(a + b) == Used(a) + Used(b)
  {
    if a == [] {
      assert a + b == b;
    } else {
      assert (a + b)[1..] == a[1..] + b;
      UsedConcat(a[1..], b);
    }
  }

  lemma UsedCons(x: Block, t: Layout)
    ensures Used([x] + t) == (if x.free then [] else [x]) + Used(t)
  {
    assert ([x] + t)[1..] == t;
  }

  lemma UsedAround(b: Layout, i: nat)
    requires i < |b|
    ensures Used(b) == Used(b[..i]) + (if b[i].free then [] else [b[i]]) + Used(b[i+1..])
  {
    hide Used;
    Around(b, i);
    UsedConcat(b[..i], [b[i]] + b[i+1..]);
    UsedCons(b[i], b[i+1..]);
    Grouped(Used(b[..i]), if b[i].free then [] else [b[i]], Used(b[i+1..]));
  }

  lemma Around(b: Layout, i: nat)
    requires i < |b|
    ensures b == b[..i] + ([b[i]] + b[i+1..])
  {
  }

  lemma Grouped(x: Layout, y: Layout, z: Layout)
    ensures x + (y + z) == x + y + z
  {
  }

  /** An allocation adds one live block, of `n` bytes or a little more, and touches no other. */
  lemma PlacedUsed(b: Layout, i: nat, n: nat)
    requires i < |b| && b[i].free && n <= b[i].size
    ensures exists size :: n <= size < n + HEADER + MIN_BLOCK
              && Used(Placed(b, i, n)) == Used(b[..i]) + [Block(b[i].addr, size, false)] + Used(b[i+1..])
    ensures Used(b) == Used(b[..i]) + Used(b[i+1..])
  {
    hide Used;
    UsedAround(b, i);
    assert Used(b[..i]) + [] == Used(b[..i]);
    if b[i].size - n >= HEADER + MIN_BLOCK {
      SplitUsed(b, i, Block(b[i].addr, n, false), Block(b[i].addr + HEADER + n, b[i].size - n - HEADER, true));
    } else {
      TakenUsed(b, i, false);
    }
  }

  lemma SplitUsed(b: Layout, i: nat, x: Block, y: Block)
    requires i < |b| && !x.free && y.free
    ensures Used(Split2(b, i, x, y)) == Used(b[..i]) + [x] + Used(b[i+1..])
  {
    hide Used;
    var c := Split2(b, i, x, y);
    UsedAround(c, i);
    assert c[..i] == b[..i] && c[i+1..] == [y] + b[i+1..];
    UsedCons(y, b[i+1..]);
    assert [] + Used(b[i+1..]) == Used(b[i+1..]);
  }

  lemma TakenUsed(b: Layout, i: nat, free: bool)
    requires i < |b|
    ensures Used(b[i := b[i].(free := free)]) == Used(b[..i]) + (if free then [] else [b[i].(free := free)])
            + Used(b[i+1..])
  {
    hide Used;
    var c := b[i := b[i].(free := free)];
    UsedAround(c, i);
    assert c[..i] == b[..i] && c[i+1..] == b[i+1..];
  }

  lemma MergeUsed(b: Layout, i: nat)
    requires i < |b|
    ensures Used(Merge(b, i)) == Used(b)
  {
    hide Used;
    if i + 1 < |b| && b[i].free && b[i+1].free {
      JoinUsed(b, i, Block(b[i].addr, b[i].size + HEADER + b[i+1].size, true));
    }
  }

  lemma JoinUsed(b: Layout, i: nat, x: Block)
    requires i + 1 < |b| && b[i].free && b[i+1].free && x.free
    ensures Used(Join2(b, i, x)) == Used(b)
  {
    hide Used;
    var c := Join2(b, i, x);
    UsedAround(c, i);
    UsedAround(b, i);
    assert c[..i] == b[..i] && c[i+1..] == b[i+2..] by { hide *; JoinParts(b, i, x); }
    assert b[i+1..] == [b[i+1]] + b[i+2..];
    UsedCons(b[i+1], b[i+2..]);
    assert [] + Used(b[i+2..]) == Used(b[i+2..]);
  }

  lemma JoinParts(b: Layout, i: nat, x: Block)
    requires i + 1 < |b|
    ensures Join2(b, i, x)[..i] == b[..i] && Join2(b, i, x)[i+1..] == b[i+2..]
  {
  }

  /** A release takes away that live block and no other. */
  lemma FreedUsed(b: Layout, i: nat)
    requires i < |b| && !b[i].free
    ensures Used(Freed(b, i)) == Used(b[..i]) + Used(b[i+1..])
    ensures Used(b) == Used(b[..i]) + [b[i]] + Used(b[i+1..])
  {
    hide Used, Merge;
    UsedAround(b, i);
    TakenUsed(b, i, true);
    assert Used(b[..i]) + [] == Used(b[..i]);
    var d := b[i := b[i].(free := true)];
    MergeUsed(d, i);
    if i > 0 { MergeUsed(Merge(d, i), i - 1); }
  }

  lemma {:induction false} NoneUsed(b: Layout)
    requires Used(b) == []
    ensures forall i | 0 <= i < |b| :: b[i].free
  {
    if b != [] {
      NoneUsed(b[1..]);
      forall i | 0 <= i < |b| ensures b[i].free {
        if i > 0 { assert b[1..][i-1] == b[i]; }
      }
    }
  }

  function Whole(start: nat, end: nat): Layout
    requires start + HEADER <= end
  {
    [Block(start, end - start - HEADER, true)]
  }

  /** With nothing allocated the heap is one block of its whole size again. */
  lemma AllFreeIsOne(b: Layout, start: nat, end: nat)
    requires Sane(b, start, end) && Used(b) == []
    ensures start + HEADER <= end && b == Whole(start, end)
  {
    NoneUsed(b);
    if |b| > 1 { LeftTaken(b, 1); }
  }

  // ----- runs

  datatype Call = Alloc(size: nat) | Free(p: nat)

  /** The block whose data start at `p`, or |b|. */
  function At(b: Layout, p: nat): (i: nat)
    ensures i <= |b| && (i < |b| ==> DataOf(b[i]) == p)
    ensures forall k | 0 <= k < i :: DataOf(b[k]) != p
  {
    if b == [] then 0 else if DataOf(b[0]) == p then 0 else 1 + At(b[1..], p)
  }

  function Step(b: Layout, c: Call): Layout {
    match c
    case Alloc(n) =>
      var i := Fit(b, Rounded(n));
      if n == 0 || i == |b| then b else Placed(b, i, Rounded(n))
    case Free(p) =>
      var i := At(b, p);
      if i == |b| || b[i].free then b else Freed(b, i)
  }

  function Runs(b: Layout, calls: seq<Call>): Layout
    decreases |calls|
  {
    if calls == [] then b else Runs(Step(b, calls[0]), calls[1..])
  }

  lemma StepSane(b: Layout, start: nat, end: nat, c: Call)
    requires Sane(b, start, end)
    ensures Sane(Step(b, c), start, end)
  {
    match c
    case Alloc(n) =>
      var i := Fit(b, Rounded(n));
      RoundedUp(n);
      if n != 0 && i < |b| { PlacedSane(b, start, end, i, Rounded(n)); }
    case Free(p) =>
      var i := At(b, p);
      if i < |b| && !b[i].free { FreedSane(b, start, end, i); }
  }

  /** Whatever is called, in whatever order, the blocks tile the heap and no two neighbours are free. */
  lemma {:induction false} RunsSane(b: Layout, start: nat, end: nat, calls: seq<Call>)
    requires Sane(b, start, end)
    ensures Sane(Runs(b, calls), start, end)
    decreases |calls|
  {
    if calls != [] {
      StepSane(b, start, end, calls[0]);
      RunsSane(Step(b, calls[0]), start, end, calls[1..]);
    }
  }

  /** Once everything allocated has been freed, in whatever order, the heap is one block again. */
  lemma RunsToEmpty(start: nat, end: nat, calls: seq<Call>)
    requires start + HEADER <= end && Sane(Whole(start, end), start, end)
    requires Used(Runs(Whole(start, end), calls)) == []
    ensures Runs(Whole(start, end), calls) == Whole(start, end)
  {
    RunsSane(Whole(start, end), start, end, calls);
    AllFreeIsOne(Runs(Whole(start, end), calls), start, end);
  }

  /** The data addresses of the live blocks. */
  ghost function Addresses(b: Layout): multiset<nat> {
    multiset(Data(Used(b)))
  }

  ghost function Data(u: seq<Block>): seq<nat> {
    seq(|u|, i requires 0 <= i < |u| => DataOf(u[i]))
  }

  function Frees(ps: seq<nat>): seq<Call> {
    seq(|ps|, i requires 0 <= i < |ps| => Free(ps[i]))
  }

  lemma FreedAddresses(b: Layout, i: nat)
    requires i < |b| && !b[i].free
    ensures Addresses(Freed(b, i)) == Addresses(b) - multiset{DataOf(b[i])}
    ensures DataOf(b[i]) in Addresses(b)
  {
    hide Used, Freed;
    FreedUsed(b, i);
    var l, r := Used(b[..i]), Used(b[i+1..]);
    DataConcat(l, r);
    DataConcat(l + [b[i]], r);
    DataConcat(l, [b[i]]);
    assert Data([b[i]]) == [DataOf(b[i])];
    assert Addresses(b) == multiset(Data(l + [b[i]] + r));
    assert Addresses(Freed(b, i)) == multiset(Data(l + r));
  }

  lemma DataConcat(a: seq<Block>, b: seq<Block>)
    ensures Data(a + b) == Data(a) + Data(b)
  {
  }

  lemma {:induction false} UsedFrom(b: Layout, k: nat) returns (i: nat)
    requires k < |Used(b)|
    ensures i < |b| && !b[i].free && b[i] == Used(b)[k]
  {
    if b[0].free {
      i := UsedFrom(b[1..], k);
      i := i + 1;
    } else if k == 0 {
      i := 0;
    } else {
      i := UsedFrom(b[1..], k - 1);
      i := i + 1;
    }
  }

  lemma LiveAt(b: Layout, start: nat, end: nat, p: nat)
    requires Tiles(b, start, end) && p in Addresses(b)
    ensures At(b, p) < |b| && !b[At(b, p)].free
  {
    var d := Data(Used(b));
    assert Addresses(b) == multiset(d);
    assert p in d;
    var k :| 0 <= k < |d| && d[k] == p;
    var i := UsedFrom(b, k);
    hide Used;
    var a := At(b, p);
    if a < i { Ascending(b, start, end, a, i); }
  }

  /** Freeing every live pointer, in any order, leaves one block of the initial size. */
  lemma {:induction false} FreeAll(b: Layout, start: nat, end: nat, ps: seq<nat>)
    requires Sane(b, start, end) && multiset(ps) == Addresses(b)
    ensures start + HEADER <= end && Runs(b, Frees(ps)) == Whole(start, end)
    decreases |ps|
  {
    hide Used, Freed, Sane, Addresses, At, Step;
    if ps == [] {
      NoAddresses(b);
      AllFreeIsOne(b, start, end);
    } else {
      FirstOut(ps);
      FreeOne(b, start, end, ps[0]);
      FreeAll(Step(b, Free(ps[0])), start, end, ps[1..]);
    }
  }

  lemma FirstOut(ps: seq<nat>)
    requires ps != []
    ensures multiset(ps[1..]) == multiset(ps) - multiset{ps[0]} && ps[0] in multiset(ps)
    ensures Frees(ps)[0] == Free(ps[0]) && Frees(ps)[1..] == Frees(ps[1..])
  {
    assert ps == [ps[0]] + ps[1..];
  }

  lemma FreeOne(b: Layout, start: nat, end: nat, p: nat)
    requires Sane(b, start, end) && p in Addresses(b)
    ensures Sane(Step(b, Free(p)), start, end) && Addresses(Step(b, Free(p))) == Addresses(b) - multiset{p}
  {
    hide Used, Freed, Sane, Addresses, At;
    var i := At(b, p);
    SaneTiles(b, start, end);
    LiveAt(b, start, end, p);
    AtBound(b, p);
    FreedSane(b, start, end, i);
    FreedAddresses(b, i);
  }

  lemma SaneTiles(b: Layout, start: nat, end: nat)
    requires Sane(b, start, end)
    ensures Tiles(b, start, end)
  {
  }

  lemma NoAddresses(b: Layout)
    requires Addresses(b) == multiset{}
    ensures Used(b) == []
  {
    hide Used;
    assert |multiset(Data(Used(b)))| == |Used(b)|;
  }

  /** A free of the pointer an allocation just returned gives back the very same list. */
  lemma AllocThenFree(b: Layout, start: nat, end: nat, n: nat)
    requires Sane(b, start, end) && n != 0 && Fit(b, Rounded(n)) < |b|
    ensures Step(Step(b, Alloc(n)), Free(DataOf(b[Fit(b, Rounded(n))]))) == b
  {
    hide Placed, Freed, Sane;
    var i, m := Fit(b, Rounded(n)), Rounded(n);
    var c := Placed(b, i, m);
    RoundedUp(n);
    PlacedSane(b, start, end, i, m);
    FreeUndoesAlloc(b, start, end, i, m);
    PlacedAt(b, i, m);
    SaneTiles(c, start, end);
    UniqueAt(c, start, end, i);
  }

  lemma PlacedAt(b: Layout, i: nat, n: nat)
    requires i < |b| && n <= b[i].size
    ensures i < |Placed(b, i, n)| && Placed(b, i, n)[i].addr == b[i].addr && !Placed(b, i, n)[i].free
  {
  }

  lemma UniqueAt(b: Layout, start: nat, end: nat, i: nat)
    requires Tiles(b, start, end) && i < |b|
    ensures At(b, DataOf(b[i])) == i
  {
    var a := At(b, DataOf(b[i]));
    if a < i { Ascending(b, start, end, a, i); }
  }

  /** Live regions lie in the heap, are aligned to 16 bytes and do not overlap. */
  lemma LiveApart(b: Layout, start: nat, end: nat, i: nat, j: nat)
    requires Tiles(b, start, end) && i < j < |b|
    ensures start < DataOf(b[i]) && EndOf(b[i]) < DataOf(b[j]) && EndOf(b[j]) <= end
    ensures DataOf(b[i]) % ALIGN == 0 && DataOf(b[j]) % ALIGN == 0
  {
    Inside(b, start, end, i);
    Inside(b, start, end, j);
    Ascending(b, start, end, i, j);
  }

  // ----- what one call does to the list, in plain numbers

  /** The lowest free block of at least `size` bytes is taken and its data are at `p`: cut to the least multiple of 16
      that is at least 16 and at least `size` when that leaves 48 bytes of header and 16 of data, else whole. */
  ghost predicate TakenFor(b: Layout, size: nat, p: nat, c: Layout) {
    exists i: nat, n: nat {:trigger ServedFrom(b, size, i, n, c)} ::
      i < |b| && p == b[i].addr + 48 && ServedFrom(b, size, i, n, c)
  }

  ghost predicate ServedFrom(b: Layout, size: nat, i: nat, n: nat, c: Layout) {
    && i < |b| && b[i].free && b[i].size >= size
    && (forall k | 0 <= k < i :: !(b[k].free && b[k].size >= size))
    && n % 16 == 0 && n >= 16 && n >= size && (n == 16 || n < size + 16)
    && b[i].size >= n
    && if b[i].size >= n + 64
       then c == b[..i] + [Block(b[i].addr, n, false), Block(b[i].addr + 48 + n, b[i].size - n - 48, true)] + b[i+1..]
       else c == b[..i] + [Block(b[i].addr, b[i].size, false)] + b[i+1..]
  }

  /** Nothing free is as large as `size`. */
  ghost predicate NoneFits(b: Layout, size: nat) {
    forall k | 0 <= k < |b| :: !(b[k].free && b[k].size >= size)
  }

  /** The live block with its data at `p` becomes free, one block with the free neighbours it has. */
  ghost predicate Released(b: Layout, p: nat, c: Layout) {
    exists i: nat {:trigger OneWith(b, i, c)} :: i < |b| && p == b[i].addr + 48 && OneWith(b, i, c)
  }

  ghost predicate OneWith(b: Layout, i: nat, c: Layout) {
    && i < |b| && !b[i].free
    && var left, right := i > 0 && b[i-1].free, i + 1 < |b| && b[i+1].free;
       var from := if left then b[i-1].addr else b[i].addr;
       var to := if right then b[i+1].addr + b[i+1].size else b[i].addr + b[i].size;
       && from <= to
       && c == (if left then b[..i-1] else b[..i]) + [Block(from, to - from, true)]
              + (if right then b[i+2..] else b[i+1..])
  }

  ghost predicate NoneLiveAt(b: Layout, p: nat) {
    forall k | 0 <= k < |b| :: b[k].free || b[k].addr + 48 != p
  }

  /** Sizes are multiples of 16, so a block large enough for the request is large enough for what it is served with. */
  lemma AllocMeans(b: Layout, start: nat, end: nat, size: nat)
    requires Sane(b, start, end) && size > 0
    ensures Fit(b, Rounded(size)) == |b| <==> NoneFits(b, size)
    ensures var i := Fit(b, Rounded(size));
            i < |b| ==> b[i].addr + 48 == DataOf(b[i]) && TakenFor(b, size, b[i].addr + 48, Step(b, Alloc(size)))
    ensures NoneFits(b, size) ==> Step(b, Alloc(size)) == b
  {
    RoundedUp(size);
    var n := Rounded(size);
    forall k | 0 <= k < |b| ensures b[k].size >= n <==> b[k].size >= size {
      Multiples(b[k].size, n, size);
    }
    var i := Fit(b, n);
    if i < |b| {
      PlacedMeans(b, i, n);
      assert ServedFrom(b, size, i, n, Step(b, Alloc(size)));
    }
  }

  /** What a caller gets: a live block with at least the bytes asked for, and less than 80 more. */
  lemma TakenSize(b: Layout, size: nat, p: nat, c: Layout)
    requires TakenFor(b, size, p, c) && size > 0
    ensures exists k {:trigger c[k]} | 0 <= k < |c| ::
              !c[k].free && c[k].addr + 48 == p && size <= c[k].size < size + 48 + 2 * 16
  {
    var i: nat, n: nat :| i < |b| && p == b[i].addr + 48 && ServedFrom(b, size, i, n, c);
    assert c[i].addr == b[i].addr && !c[i].free;
  }

  lemma Multiples(s: nat, n: nat, size: nat)
    requires s % 16 == 0 && s >= 16 && n % 16 == 0 && n >= size && (n == 16 || n < size + 16)
    ensures s >= n <==> s >= size
  {
  }

  lemma PlacedMeans(b: Layout, i: nat, n: nat)
    requires i < |b| && b[i].size >= n
    ensures Placed(b, i, n) ==
            if b[i].size >= n + 64
            then b[..i] + [Block(b[i].addr, n, false), Block(b[i].addr + 48 + n, b[i].size - n - 48, true)] + b[i+1..]
            else b[..i] + [Block(b[i].addr, b[i].size, false)] + b[i+1..]
  {
  }

  lemma FreeMeans(b: Layout, start: nat, end: nat, p: nat)
    requires Sane(b, start, end)
    ensures NoneLiveAt(b, p) ==> Step(b, Free(p)) == b
    ensures !NoneLiveAt(b, p) ==> Released(b, p, Step(b, Free(p)))
  {
    hide Sane, Freed;
    SaneTiles(b, start, end);
    if !NoneLiveAt(b, p) {
      var k :| 0 <= k < |b| && !b[k].free && b[k].addr + 48 == p;
      UniqueAt(b, start, end, k);
      FreedMeans(b, start, end, k);
    } else {
      AtBound(b, p);
    }
  }

  lemma FreedMeans(b: Layout, start: nat, end: nat, i: nat)
    requires Tiles(b, start, end) && i < |b| && !b[i].free
    ensures Released(b, b[i].addr + 48, Freed(b, i))
  {
    assert (i > 0 ==> b[i].addr == EndOf(b[i-1])) && (i + 1 < |b| ==> b[i+1].addr == EndOf(b[i]));
    hide Tiles, Freed, OneWith;
    FreedIs(b, i);
  }

  /** A released block with its right neighbour, if that is free. */
  ghost function RightPart(b: Layout, i: nat): Block
    requires i < |b|
  {
    if i + 1 < |b| && b[i+1].free then Block(b[i].addr, b[i].size + HEADER + b[i+1].size, true)
    else b[i].(free := true)
  }

  ghost function RightRest(b: Layout, i: nat): Layout
    requires i < |b|
  {
    if i + 1 < |b| && b[i+1].free then b[i+2..] else b[i+1..]
  }

  lemma FreedIs(b: Layout, i: nat)
    requires i < |b| && !b[i].free
    requires (i > 0 ==> b[i].addr == EndOf(b[i-1])) && (i + 1 < |b| ==> b[i+1].addr == EndOf(b[i]))
    ensures OneWith(b, i, Freed(b, i))
  {
    LeftJoined(b, i);
    hide Freed;
  }

  lemma RightJoined(b: Layout, i: nat)
    requires i < |b|
    ensures Merge(b[i := b[i].(free := true)], i) == b[..i] + [RightPart(b, i)] + RightRest(b, i)
  {
    MergeIs(b[i := b[i].(free := true)], i);
    hide Merge;
  }

  lemma LeftJoined(b: Layout, i: nat)
    requires i < |b|
    ensures Freed(b, i) ==
            if i > 0 && b[i-1].free
            then b[..i-1] + [Block(b[i-1].addr, b[i-1].size + HEADER + RightPart(b, i).size, true)] + RightRest(b, i)
            else b[..i] + [RightPart(b, i)] + RightRest(b, i)
  {
    RightJoined(b, i);
    var x, rest := RightPart(b, i), RightRest(b, i);
    assert x.free;
    hide Merge, RightPart, RightRest;
    if i > 0 {
      Before(b, i, x, rest);
      MergeIs(b[..i] + [x] + rest, i - 1);
    }
  }

  lemma Before(b: Layout, i: nat, x: Block, rest: Layout)
    requires 0 < i < |b|
    ensures var c := b[..i] + [x] + rest;
            c[i] == x && c[i-1] == b[i-1] && c[..i-1] == b[..i-1] && c[i+1..] == rest
  {
  }

  lemma MergeIs(b: Layout, i: nat)
    requires i < |b|
    ensures Merge(b, i) ==
            if i + 1 < |b| && b[i].free && b[i+1].free
            then b[..i] + [Block(b[i].addr, b[i].size + HEADER + b[i+1].size, true)] + b[i+2..] else b
  {
  }

  // ----- the list in memory

  type Memory = map<nat, Header>

  function HeaderAt(mem: Memory, a: nat): Header {
    if a in mem then mem[a] else NO_HEADER
  }

  ghost function NextOf(b: Layout, i: nat): nat
    requires i < |b|
  {
    if i + 1 < |b| then b[i+1].addr else 0
  }

  ghost function PrevOf(b: Layout, i: nat): nat
    requires i < |b|
  {
    if i > 0 then b[i-1].addr else 0
  }

  /** Block `i`'s header is in memory, linked to its neighbours. */
  ghost predicate LinkedAt(mem: Memory, b: Layout, i: nat) {
    i < |b| ==> HeaderAt(mem, b[i].addr) == Header(b[i].size, b[i].free, NextOf(b, i), PrevOf(b, i), MAGIC)
  }

  ghost predicate Linked(mem: Memory, b: Layout) {
    forall i: nat {:trigger LinkedAt(mem, b, i)} :: LinkedAt(mem, b, i)
  }

  /** The headers in memory tile the area as `b` says. */
  ghost predicate Holds(mem: Memory, b: Layout, start: nat, end: nat) {
    Tiles(b, start, end) && Linked(mem, b)
  }

  /** `sterta_ma_poprawny_zakres`. */
  predicate RangeOk(first: nat, start: nat, end: nat) {
    first != 0 && start != 0 && end > start && start % ALIGN == 0 && end % ALIGN == 0 && first == start
  }

  /** `adres_naglowka_w_stercie`, in a heap whose range is in order. */
  predicate HeaderInside(start: nat, end: nat, a: nat) {
    a != 0 && a % ALIGN == 0 && start <= a < end && a + HEADER < WORD_LIMIT && a + HEADER <= end
  }

  /** `pobierz_koniec_bloku`: where the block at `a` ends, or 0. */
  function BlockEnd(mem: Memory, start: nat, end: nat, a: nat): nat {
    var h := HeaderAt(mem, a);
    if !HeaderInside(start, end, a) || h.magic != MAGIC || h.size < MIN_BLOCK || h.size % ALIGN != 0 then 0
    else if a + HEADER + h.size >= WORD_LIMIT || a + HEADER + h.size > end then 0
    else a + HEADER + h.size
  }

  /** The tests of one turn of `lista_sterty_poprawna`. */
  predicate StepOk(mem: Memory, start: nat, end: nat, at: nat, prev: nat) {
    var h := HeaderAt(mem, at);
    var e := BlockEnd(mem, start, end, at);
    && HeaderInside(start, end, at) && h.magic == MAGIC && h.prev == prev && e != 0
    && if h.next != 0 then h.next == e && HeaderInside(start, end, h.next) && HeaderAt(mem, h.next).prev == at
        else e == end
  }

  /** Passed block `i`'s header: the last one leads on to `at`. */
  ghost predicate DoneAt(mem: Memory, done: Layout, at: nat, i: nat) {
    i < |done| ==>
      HeaderAt(mem, done[i].addr) ==
      Header(done[i].size, done[i].free, if i + 1 < |done| then done[i+1].addr else at, PrevOf(done, i), MAGIC)
  }

  /** The blocks passed follow each other from `start` on, inside the area. */
  ghost predicate Consecutive(done: Layout, start: nat, end: nat) {
    && (done != [] ==> done[0].addr == start)
    && (forall i | 0 <= i < |done| :: done[i].size >= MIN_BLOCK && done[i].size % ALIGN == 0 && EndOf(done[i]) <= end)
    && (forall i | 0 < i < |done| :: done[i].addr == EndOf(done[i-1]))
  }

  /** The walk has passed the blocks `done` and stands at `at`. */
  ghost predicate Walked(mem: Memory, start: nat, end: nat, done: Layout, at: nat) {
    && Consecutive(done, start, end)
    && (if done == [] then at == start
        else if at == 0 then EndOf(done[|done|-1]) == end else at == EndOf(done[|done|-1]) < end)
    && (forall i: nat {:trigger DoneAt(mem, done, at, i)} :: DoneAt(mem, done, at, i))
  }

  /** Any tiling the headers describe begins with the blocks passed. */
  ghost predicate Begins(mem: Memory, start: nat, end: nat, done: Layout, at: nat) {
    forall b: Layout {:trigger Holds(mem, b, start, end)} :: Holds(mem, b, start, end) ==>
      |done| <= |b| && done == b[..|done|] && (if at == 0 then |done| == |b| else |done| < |b| && b[|done|].addr == at)
  }

  lemma FewBlocks(mem: Memory, start: nat, end: nat, done: Layout, at: nat)
    requires Walked(mem, start, end, done, at) && start < end
    ensures |done| <= (end - start) / (HEADER + MIN_BLOCK)
  {
    ManyBytes(start, end, done, |done|);
    assert (HEADER + MIN_BLOCK) * |done| <= end - start;
  }

  lemma {:induction false} ManyBytes(start: nat, end: nat, done: Layout, k: nat)
    requires k <= |done| && Consecutive(done, start, end)
    ensures k > 0 ==> EndOf(done[k-1]) >= start + (HEADER + MIN_BLOCK) * k
  {
    if k > 0 { ManyBytes(start, end, done, k - 1); }
  }

  lemma HeldStep(mem: Memory, start: nat, end: nat, b: Layout, k: nat, at: nat, prev: nat)
    requires Holds(mem, b, start, end) && k < |b| && b[k].addr == at && prev == PrevOf(b, k)
    ensures StepOk(mem, start, end, at, prev)
    ensures HeaderAt(mem, at) == Header(b[k].size, b[k].free, NextOf(b, k), prev, MAGIC)
    ensures k + 1 < |b| ==> b[k+1].addr != 0
  {
    assert LinkedAt(mem, b, k);
    Inside(b, start, end, k);
    if k + 1 < |b| {
      assert LinkedAt(mem, b, k + 1);
      Inside(b, start, end, k + 1);
    }
  }

  /** A failed test means the headers describe no tiling. */
  lemma NoList(mem: Memory, start: nat, end: nat, done: Layout, at: nat, prev: nat)
    requires Begins(mem, start, end, done, at) && at != 0 && !StepOk(mem, start, end, at, prev)
    requires prev == PrevAfter(done)
    ensures !exists b: Layout :: Holds(mem, b, start, end)
  {
    forall b: Layout ensures !Holds(mem, b, start, end) {
      if Holds(mem, b, start, end) {
        HeldPrev(b, done);
        HeldStep(mem, start, end, b, |done|, at, prev);
      }
    }
  }

  ghost function PrevAfter(done: Layout): nat {
    if done == [] then 0 else done[|done|-1].addr
  }

  lemma HeldPrev(b: Layout, done: Layout)
    requires |done| < |b| && done == b[..|done|]
    ensures PrevOf(b, |done|) == PrevAfter(done)
  {
  }

  lemma Onward(mem: Memory, start: nat, end: nat, done: Layout, at: nat, prev: nat)
    requires Walked(mem, start, end, done, at) && Begins(mem, start, end, done, at) && prev == PrevAfter(done)
    requires at != 0 && StepOk(mem, start, end, at, prev)
    ensures var h := HeaderAt(mem, at);
            var more := done + [Block(at, h.size, h.free)];
            Walked(mem, start, end, more, h.next) && Begins(mem, start, end, more, h.next)
  {
    hide StepOk, Walked, Holds, Begins, HeaderAt;
    WalkedOn(mem, start, end, done, at, prev);
    BeginsOn(mem, start, end, done, at, prev);
  }

  lemma BeginsOn(mem: Memory, start: nat, end: nat, done: Layout, at: nat, prev: nat)
    requires Begins(mem, start, end, done, at) && at != 0 && prev == PrevAfter(done)
    ensures var h := HeaderAt(mem, at);
            Begins(mem, start, end, done + [Block(at, h.size, h.free)], h.next)
  {
    hide StepOk, Holds, HeaderAt;
    var h := HeaderAt(mem, at);
    var more := done + [Block(at, h.size, h.free)];
    forall b: Layout | Holds(mem, b, start, end)
      ensures |more| <= |b| && more == b[..|more|]
              && (if h.next == 0 then |more| == |b| else |more| < |b| && b[|more|].addr == h.next)
    {
      HeldPrev(b, done);
      HeldStep(mem, start, end, b, |done|, at, prev);
      assert b[..|more|] == b[..|done|] + [b[|done|]];
    }
  }

  lemma WalkedOn(mem: Memory, start: nat, end: nat, done: Layout, at: nat, prev: nat)
    requires Walked(mem, start, end, done, at) && at != 0 && prev == PrevAfter(done)
             && StepOk(mem, start, end, at, prev)
    ensures var h := HeaderAt(mem, at);
            Walked(mem, start, end, done + [Block(at, h.size, h.free)], h.next)
  {
    hide HeaderAt;
    var h := HeaderAt(mem, at);
    var more := done + [Block(at, h.size, h.free)];
    forall i: nat ensures DoneAt(mem, more, h.next, i) {
      if i < |done| { assert DoneAt(mem, done, at, i); }
    }
  }

  lemma WalkedAll(mem: Memory, start: nat, end: nat, done: Layout)
    requires Walked(mem, start, end, done, 0) && done != [] && start % ALIGN == 0 && end % ALIGN == 0 && 0 < start
             && end < WORD_LIMIT
    ensures Holds(mem, done, start, end)
  {
    hide HeaderAt;
    forall i: nat ensures LinkedAt(mem, done, i) { assert DoneAt(mem, done, 0, i); }
  }

  /** `lista_sterty_poprawna` (heap.cpp:245-332) is true exactly when the headers tile the area. */
  method CheckList(mem: Memory, first: nat, start: nat, end: nat) returns (ok: bool)
    requires end < WORD_LIMIT
    ensures ok <==> RangeOk(first, start, end) && exists b: Layout :: Holds(mem, b, start, end)
  {
    hide Walked, Begins, StepOk, Holds, HeaderAt;
    if !RangeOk(first, start, end) { return false; }
    var limit := (end - start) / (HEADER + MIN_BLOCK) + 1;
    var prev: nat := 0;
    var at := first;
    var count := 0;
    ghost var done: Layout := [];
    WalkStarts(mem, start, end);
    while at != 0
      invariant Walked(mem, start, end, done, at) && Begins(mem, start, end, done, at) && |done| == count
      invariant prev == PrevAfter(done) && (count == 0 ==> at != 0)
      decreases limit - count
    {
      count := count + 1;
      FewBlocks(mem, start, end, done, at);
      if count > limit { return false; }
      if !StepOk(mem, start, end, at, prev) {
        NoList(mem, start, end, done, at, prev);
        return false;
      }
      Onward(mem, start, end, done, at, prev);
      done := done + [Block(at, HeaderAt(mem, at).size, HeaderAt(mem, at).free)];
      prev := at;
      at := HeaderAt(mem, at).next;
    }
    WalkedAll(mem, start, end, done);
    ok := count != 0;
  }

  lemma WalkStarts(mem: Memory, start: nat, end: nat)
    requires start != 0
    ensures Walked(mem, start, end, [], start) && Begins(mem, start, end, [], start)
  {
  }

  // ----- rewriting headers

  lemma AddressesDiffer(b: Layout, start: nat, end: nat)
    requires Tiles(b, start, end)
    ensures forall i, j {:trigger b[i], b[j]} | 0 <= i < j < |b| :: b[i].addr + HEADER + MIN_BLOCK <= b[j].addr
    ensures forall i | 0 <= i < |b| :: start <= b[i].addr && 0 < b[i].addr < end
  {
    forall i, j | 0 <= i < j < |b| ensures b[i].addr + HEADER + MIN_BLOCK <= b[j].addr {
      Ascending(b, start, end, i, j);
    }
    forall i | 0 <= i < |b| ensures start <= b[i].addr && 0 < b[i].addr < end { Inside(b, start, end, i); }
  }

  /** The flag of one block changes. */
  lemma FlagLinked(mem: Memory, b: Layout, start: nat, end: nat, i: nat, free: bool)
    requires Holds(mem, b, start, end) && i < |b|
    ensures Holds(mem[b[i].addr := HeaderAt(mem, b[i].addr).(free := free)], b[i := b[i].(free := free)], start, end)
  {
    var mem' := mem[b[i].addr := HeaderAt(mem, b[i].addr).(free := free)];
    var c := b[i := b[i].(free := free)];
    AddressesDiffer(b, start, end);
    forall k: nat ensures LinkedAt(mem', c, k) { assert LinkedAt(mem, b, k); }
  }

  function SplitMem(mem: Memory, at: nat, n: nat): Memory
    requires HeaderAt(mem, at).size >= n + HEADER
  {
    var h := HeaderAt(mem, at);
    var tail := at + HEADER + n;
    var m1 := mem[tail := Header(h.size - n - HEADER, true, h.next, at, MAGIC)];
    var m2 := if h.next != 0 then m1[h.next := HeaderAt(m1, h.next).(prev := tail)] else m1;
    m2[at := h.(size := n, next := tail, free := false)]
  }

  lemma SplitMemAt(mem: Memory, at: nat, n: nat, a: nat)
    requires HeaderAt(mem, at).size >= n + HEADER && HeaderAt(mem, at).next != at
             && HeaderAt(mem, at).next != at + HEADER + n
    ensures var h := HeaderAt(mem, at);
            HeaderAt(SplitMem(mem, at, n), a) ==
            if a == at then h.(size := n, next := at + HEADER + n, free := false)
            else if a == at + HEADER + n then Header(h.size - n - HEADER, true, h.next, at, MAGIC)
            else if a == h.next != 0 then HeaderAt(mem, a).(prev := at + HEADER + n)
            else HeaderAt(mem, a)
  {
  }

  lemma SplitLinked(mem: Memory, b: Layout, start: nat, end: nat, i: nat, n: nat, x: Block, y: Block)
    requires Holds(mem, b, start, end) && i < |b| && b[i].size >= n + HEADER + MIN_BLOCK
    requires x == Block(b[i].addr, n, false) && y == Block(b[i].addr + HEADER + n, b[i].size - n - HEADER, true)
    ensures HeaderAt(mem, b[i].addr).size == b[i].size
    ensures Linked(SplitMem(mem, b[i].addr, n), Split2(b, i, x, y))
  {
    hide HeaderAt, Split2, Tiles, SplitMem, Linked;
    ListAt(mem, b, start, end, i);
    var c := Split2(b, i, x, y);
    forall k: nat ensures LinkedAt(SplitMem(mem, b[i].addr, n), c, k) {
      if k < |c| { SplitLinkedAt(mem, b, start, end, i, n, c, k); }
    }
    IsLinked(SplitMem(mem, b[i].addr, n), c);
  }

  lemma IsLinked(mem: Memory, b: Layout)
    requires forall k: nat :: LinkedAt(mem, b, k)
    ensures Linked(mem, b)
  {
  }

  lemma SplitLinkedAt(mem: Memory, b: Layout, start: nat, end: nat, i: nat, n: nat, c: Layout, k: nat)
    requires Holds(mem, b, start, end) && i < |b| && b[i].size >= n + HEADER + MIN_BLOCK
    requires |c| == |b| + 1 && k < |c| && (forall l | 0 <= l < i :: c[l] == b[l])
             && (forall l | i + 1 < l < |c| :: c[l] == b[l-1])
    requires c[i] == Block(b[i].addr, n, false) && c[i+1] == Block(b[i].addr + HEADER + n, b[i].size - n - HEADER, true)
    requires HeaderAt(mem, b[i].addr).size == b[i].size
    ensures LinkedAt(SplitMem(mem, b[i].addr, n), c, k)
  {
    hide HeaderAt, Tiles, SplitMem, Linked;
    var at := b[i].addr;
    ListAt(mem, b, start, end, i);
    FreshApart(b, start, end, i, n);
    AddressesDiffer(b, start, end);
    SplitMemAt(mem, at, n, c[k].addr);
    if k < i {
      ListAt(mem, b, start, end, k);
      assert b[k].addr != at && (i + 1 < |b| ==> b[k].addr != b[i+1].addr);
    } else if k > i + 1 {
      ListAt(mem, b, start, end, k - 1);
      assert b[i].addr < b[k-1].addr;
      if k > i + 2 { assert b[i+1].addr < b[k-1].addr; }
    }
  }

  lemma FreshApart(b: Layout, start: nat, end: nat, i: nat, n: nat)
    requires Tiles(b, start, end) && i < |b| && b[i].size >= n + HEADER + MIN_BLOCK
    ensures forall k | 0 <= k < |b| :: b[k].addr != b[i].addr + HEADER + n
  {
    forall k | 0 <= k < |b| ensures b[k].addr != b[i].addr + HEADER + n {
      if k < i { Ascending(b, start, end, k, i); }
      if i < k { Ascending(b, start, end, i, k); }
    }
  }

  function MergeMem(mem: Memory, at: nat): Memory {
    var h := HeaderAt(mem, at);
    var n := HeaderAt(mem, h.next);
    var m1 := mem[at := h.(size := h.size + HEADER + n.size, next := n.next)];
    var m2 := if n.next != 0 then m1[n.next := HeaderAt(m1, n.next).(prev := at)] else m1;
    m2[h.next := NO_HEADER]
  }

  lemma MergeMemAt(mem: Memory, at: nat, a: nat)
    requires var h := HeaderAt(mem, at);
             h.next != at && HeaderAt(mem, h.next).next != at && HeaderAt(mem, h.next).next != h.next
    ensures var h := HeaderAt(mem, at);
            var n := HeaderAt(mem, h.next);
            HeaderAt(MergeMem(mem, at), a) ==
            if a == at then h.(size := h.size + HEADER + n.size, next := n.next)
            else if a == h.next then NO_HEADER
            else if a == n.next != 0 then HeaderAt(mem, a).(prev := at)
            else HeaderAt(mem, a)
  {
  }

  lemma MergeLinked(mem: Memory, b: Layout, start: nat, end: nat, i: nat, x: Block)
    requires Holds(mem, b, start, end) && i + 1 < |b| && b[i].free
    requires x == Block(b[i].addr, b[i].size + HEADER + b[i+1].size, true)
    ensures Linked(MergeMem(mem, b[i].addr), Join2(b, i, x))
  {
    hide HeaderAt, Join2, Tiles, MergeMem, Linked;
    var c := Join2(b, i, x);
    forall k: nat ensures LinkedAt(MergeMem(mem, b[i].addr), c, k) {
      if k < |c| { MergeLinkedAt(mem, b, start, end, i, c, k); }
    }
    IsLinked(MergeMem(mem, b[i].addr), c);
  }

  lemma MergeLinkedAt(mem: Memory, b: Layout, start: nat, end: nat, i: nat, c: Layout, k: nat)
    requires Holds(mem, b, start, end) && i + 1 < |b| && b[i].free
    requires |c| == |b| - 1 && k < |c| && (forall l | 0 <= l < i :: c[l] == b[l])
             && (forall l | i < l < |c| :: c[l] == b[l+1])
    requires c[i] == Block(b[i].addr, b[i].size + HEADER + b[i+1].size, true)
    ensures LinkedAt(MergeMem(mem, b[i].addr), c, k)
  {
    hide HeaderAt, Tiles, MergeMem, Linked;
    var at := b[i].addr;
    ListAt(mem, b, start, end, i);
    ListAt(mem, b, start, end, i + 1);
    AddressesDiffer(b, start, end);
    if i + 2 < |b| { assert b[i].addr < b[i+1].addr < b[i+2].addr; }
    assert b[i].addr < b[i+1].addr;
    MergeMemAt(mem, at, c[k].addr);
    if k < i {
      ListAt(mem, b, start, end, k);
      assert b[k].addr < b[i].addr;
    } else if k > i {
      ListAt(mem, b, start, end, k + 1);
      assert b[i+1].addr < b[k+1].addr;
      if k > i + 1 { assert b[i+2].addr < b[k+1].addr; }
    }
  }

  // ----- the allocator

  function AlignUp(a: nat): nat {
    (a + ALIGN - 1) / ALIGN * ALIGN
  }

  function AlignDown(a: nat): nat {
    a / ALIGN * ALIGN
  }

  class Heap {
    var mem: Memory      // headers by address; whatever else lies in the area is user data
    var first: nat       // pierwszy_blok; 0 while there is no heap
    var start: nat       // poczatek_sterty
    var end: nat         // koniec_sterty
    ghost var blocks: Layout

    constructor ()
      ensures first == 0 && Valid()
    {
      mem, first, start, end, blocks := map[], 0, 0, 0, [];
    }

    ghost predicate Listed()
      reads this
    {
      first == start != 0 && Holds(mem, blocks, start, end)
    }

    /** Between calls: no heap, or a list that tiles it with no two free neighbours. */
    ghost predicate Valid()
      reads this
    {
      first != 0 ==> Listed() && Coalesced(blocks)
    }

    /** `lista_sterty_poprawna`, which a valid heap always passes. */
    method Check() returns (ok: bool)
      requires Listed()
      ensures ok
    {
      hide Linked;
      AddressesDiffer(blocks, start, end);
      assert Holds(mem, blocks, start, end);
      ok := CheckList(mem, first, start, end);
    }

    /** `inicjalizuj_sterte_jadra` (heap.cpp:484-586). */
    method Init(base: nat, size: nat)
      requires base < WORD_LIMIT && size < WORD_LIMIT
      modifies this
      ensures Valid()
      ensures first != 0 <==>
              && base != 0 && size != 0 && base + size < WORD_LIMIT && base + 15 < WORD_LIMIT
              && (base + 15) / 16 * 16 + 64 <= (base + size) / 16 * 16
      ensures first != 0 ==>
                && start == (base + 15) / 16 * 16 && end == (base + size) / 16 * 16 && start + 48 <= end
                && blocks == Whole(start, end) == [Block(start, end - start - 48, true)]
    {
      hide Holds;
      AlignedBounds(base, size);
      first, start, end, blocks := 0, 0, 0, [];
      if base == 0 || size == 0 { return; }
      if size > WORD_LIMIT - 1 - base || base > WORD_LIMIT - 1 - (ALIGN - 1) { return; }
      var lo, hi := AlignUp(base), AlignDown(base + size);
      if hi <= lo || hi - lo < HEADER + MIN_BLOCK { return; }
      start, end, first := lo, hi, lo;
      mem := mem[lo := Header(hi - lo - HEADER, true, 0, 0, MAGIC)];
      blocks := Whole(lo, hi);
      var ok := CheckList(mem, first, start, end);
      if !ok { first, start, end := 0, 0, 0; }
      WholeHeld(mem, lo, hi);
    }

    /** `kmalloc` (heap.cpp:592-734): the lowest fitting block, or 0. */
    method Kmalloc(size: nat) returns (p: nat)
      requires Valid() && size < WORD_LIMIT
      modifies this`mem, this`blocks
      ensures Valid()
      ensures first != 0 ==> blocks == Step(old(blocks), Alloc(size))
      ensures p == 0 <==> first == 0 || size == 0 || NoneFits(old(blocks), size)
      ensures if p == 0 then blocks == old(blocks) else TakenFor(old(blocks), size, p, blocks)
    {
      hide Linked, Tiles, HeaderAt, FitFrom, Coalesced, TakenFor, NoneFits, Placed, Step;
      p := 0;
      StepNothing(blocks);
      if size == 0 || first == 0 { return; }
      var ok := Check();
      if !ok { return; }
      RoundedUp(size);
      AllocMeans(blocks, start, end, size);
      if size > WORD_LIMIT - 1 - (ALIGN - 1) {
        NoneSoLarge(blocks, start, end, Rounded(size));
        return 0;
      }
      var n := if AlignUp(size) < MIN_BLOCK then MIN_BLOCK else AlignUp(size);
      var at: nat;
      ghost var i: nat;
      at, i := FirstFit(n);
      if at != 0 {
        PlacedSane(blocks, start, end, i, n);
        StepTakes(blocks, size, i);
        Take(at, n, i);
        p := at + HEADER;
      }
    }

    /** The search of `kmalloc` (heap.cpp:626-633). */
    method FirstFit(n: nat) returns (at: nat, ghost i: nat)
      requires Listed()
      ensures i == Fit(blocks, n) && (at != 0 <==> i < |blocks|) && (at != 0 ==> at == blocks[i].addr)
    {
      hide Linked, Tiles, HeaderAt, FitFrom;
      at, i := first, 0;
      ListHead(mem, blocks, start, end);
      while at != 0
        invariant i <= |blocks| && at == (if i < |blocks| then blocks[i].addr else 0)
        invariant FitFrom(blocks, n, 0) == FitFrom(blocks, n, i)
        decreases |blocks| - i
      {
        ListAt(mem, blocks, start, end, i);
        FitStep(blocks, n, i);
        if HeaderAt(mem, at).free && HeaderAt(mem, at).size >= n { return; }
        at := HeaderAt(mem, at).next;
        i := i + 1;
      }
      if i < |blocks| { ListAt(mem, blocks, start, end, i); }
      FitStep(blocks, n, i);
    }

    /** The block at `at` is split if the rest is large enough, and taken (heap.cpp:636-729). */
    method Take(at: nat, n: nat, ghost i: nat)
      requires Listed() && i < |blocks| && blocks[i].addr == at && blocks[i].size >= n
      requires Tiles(Placed(blocks, i, n), start, end)
      modifies this`mem, this`blocks
      ensures Listed() && blocks == Placed(old(blocks), i, n)
    {
      hide Linked, Tiles;
      ListAt(mem, blocks, start, end, i);
      var h := HeaderAt(mem, at);
      if h.size - n >= HEADER + MIN_BLOCK {
        ghost var x, y := Block(at, n, false), Block(at + HEADER + n, h.size - n - HEADER, true);
        SplitLinked(mem, blocks, start, end, i, n, x, y);
        ghost var m0 := mem;
        var tail := at + HEADER + n;
        mem := mem[tail := Header(h.size - n - HEADER, true, h.next, at, MAGIC)];
        if h.next != 0 {
          mem := mem[h.next := HeaderAt(mem, h.next).(prev := tail)];
        }
        mem := mem[at := h.(size := n, next := tail, free := false)];
        assert mem == SplitMem(m0, at, n);
        blocks := Split2(blocks, i, x, y);
      } else {
        FlagLinked(mem, blocks, start, end, i, false);
        mem := mem[at := h.(free := false)];
        blocks := blocks[i := blocks[i].(free := false)];
      }
    }

    /** `polacz_z_nastepnym` (heap.cpp:338-438). */
    method Join(at: nat, ghost i: nat)
      requires Listed() && i < |blocks| && blocks[i].addr == at
      modifies this`mem, this`blocks
      ensures Listed() && blocks == Merge(old(blocks), i)
    {
      hide Linked, Tiles, HeaderAt, Join2;
      ListAt(mem, blocks, start, end, i);
      var h := HeaderAt(mem, at);
      if !h.free || h.next == 0 { return; }
      ListAt(mem, blocks, start, end, i + 1);
      var n := HeaderAt(mem, h.next);
      if !n.free { return; }
      ghost var x := Block(at, h.size + HEADER + n.size, true);
      MergeLinked(mem, blocks, start, end, i, x);
      MergeTiles(blocks, start, end, i);
      ghost var m0 := mem;
      mem := mem[at := h.(size := h.size + HEADER + n.size, next := n.next)];
      if n.next != 0 {
        mem := mem[n.next := HeaderAt(mem, n.next).(prev := at)];
      }
      mem := mem[h.next := NO_HEADER];
      assert mem == MergeMem(m0, at);
      blocks := Join2(blocks, i, x);
    }

    /** `znajdz_blok_po_wskazniku` (heap.cpp:440-476). */
    method Find(p: nat) returns (at: nat, ghost i: nat)
      requires Listed() && p != 0
      ensures i == At(blocks, p) && at == (if i < |blocks| then blocks[i].addr else 0)
    {
      hide Linked, Tiles, HeaderAt, At;
      i := 0;
      at := first;
      ListHead(mem, blocks, start, end);
      while at != 0
        invariant i <= |blocks| && at == (if i < |blocks| then blocks[i].addr else 0)
        invariant At(blocks, p) >= i
        decreases |blocks| - i
      {
        ListAt(mem, blocks, start, end, i);
        if at + HEADER == p {
          AtHere(blocks, p, i);
          return;
        }
        if at + HEADER > p {
          AtNowhere(blocks, start, end, p, i);
          return 0, |blocks|;
        }
        AtLater(blocks, p, i);
        at := HeaderAt(mem, at).next;
        i := i + 1;
      }
      if i < |blocks| { ListAt(mem, blocks, start, end, i); }
      AtBound(blocks, p);
    }

    /** `kfree` (heap.cpp:740-823): anything but the start of a live block's data is ignored. */
    method Kfree(p: nat)
      requires Valid() && p < WORD_LIMIT
      modifies this`mem, this`blocks
      ensures Valid()
      ensures first != 0 ==> blocks == Step(old(blocks), Free(p))
      ensures if first == 0 || NoneLiveAt(old(blocks), p) then blocks == old(blocks)
              else Released(old(blocks), p, blocks)
    {
      hide Linked, Tiles, HeaderAt, Coalesced, At, NoneLiveAt, Released;
      if first == 0 { return; }
      FreeMeans(blocks, start, end, p);
      NotBlocksStart(blocks, start, end, p);
      if p == 0 { return; }
      var ok := Check();
      if !ok { return; }
      if p < start + HEADER || p >= end || p % ALIGN != 0 { return; }
      var at: nat;
      ghost var i: nat;
      at, i := Find(p);
      AtBound(blocks, p);
      if at == 0 {
        if i < |blocks| { ListAt(mem, blocks, start, end, i); }
        return;
      }
      ListAt(mem, blocks, start, end, i);
      if HeaderAt(mem, at).free { return; }
      ghost var b := blocks;
      FreedCoalesced(b, i);
      FlagLinked(mem, blocks, start, end, i, true);
      mem := mem[at := HeaderAt(mem, at).(free := true)];
      blocks := blocks[i := blocks[i].(free := true)];
      Join(at, i);
      ListAt(mem, blocks, start, end, i);
      var prev := HeaderAt(mem, at).prev;
      if prev != 0 {
        ListAt(mem, blocks, start, end, i - 1);
        if HeaderAt(mem, prev).free { Join(prev, i - 1); }
      }
      ok := Check();
    }
  }

  lemma AlignedBounds(base: nat, size: nat)
    ensures AlignUp(base) % ALIGN == 0 && AlignDown(base + size) % ALIGN == 0
    ensures base <= AlignUp(base) && AlignDown(base + size) <= base + size
  {
  }

  lemma WholeHeld(mem: Memory, lo: nat, hi: nat)
    requires 0 < lo && lo + HEADER + MIN_BLOCK <= hi < WORD_LIMIT && lo % ALIGN == 0 && hi % ALIGN == 0
    requires HeaderAt(mem, lo) == Header(hi - lo - HEADER, true, 0, 0, MAGIC)
    ensures Holds(mem, Whole(lo, hi), lo, hi)
  {
    forall i: nat ensures LinkedAt(mem, Whole(lo, hi), i) {}
  }

  lemma ListHead(mem: Memory, b: Layout, start: nat, end: nat)
    requires Holds(mem, b, start, end)
    ensures |b| > 0 && b[0].addr == start
  {
  }

  lemma ListAt(mem: Memory, b: Layout, start: nat, end: nat, i: nat)
    requires Holds(mem, b, start, end) && i < |b|
    ensures HeaderAt(mem, b[i].addr) == Header(b[i].size, b[i].free, NextOf(b, i), PrevOf(b, i), MAGIC)
    ensures b[i].addr != 0 && b[i].addr + HEADER < end && (i + 1 < |b| ==> b[i+1].addr != 0)
            && (i > 0 ==> b[i-1].addr != 0)
  {
    assert LinkedAt(mem, b, i);
    Inside(b, start, end, i);
    if i + 1 < |b| { Inside(b, start, end, i + 1); }
    if i > 0 { Inside(b, start, end, i - 1); }
  }

  lemma StepNothing(b: Layout)
    ensures Step(b, Alloc(0)) == b
  {
  }

  lemma StepTakes(b: Layout, size: nat, i: nat)
    requires size > 0 && i == Fit(b, Rounded(size)) < |b|
    ensures Step(b, Alloc(size)) == Placed(b, i, Rounded(size))
  {
  }

  lemma FitStep(b: Layout, n: nat, i: nat)
    requires i <= |b|
    ensures FitFrom(b, n, i) == if i == |b| || (b[i].free && b[i].size >= n) then i else FitFrom(b, n, i + 1)
  {
  }

  lemma NoneSoLarge(b: Layout, start: nat, end: nat, n: nat)
    requires Tiles(b, start, end) && n >= WORD_LIMIT - ALIGN
    ensures Fit(b, n) == |b|
  {
    var i := Fit(b, n);
    if i < |b| { Inside(b, start, end, i); }
  }

  lemma AtBound(b: Layout, p: nat)
    ensures At(b, p) <= |b|
    ensures At(b, p) < |b| ==> DataOf(b[At(b, p)]) == p
  {
  }

  lemma AtHere(b: Layout, p: nat, i: nat)
    requires i < |b| && DataOf(b[i]) == p && At(b, p) >= i
    ensures At(b, p) == i
  {
    var a := At(b, p);
  }

  lemma AtLater(b: Layout, p: nat, i: nat)
    requires i < |b| && DataOf(b[i]) != p && At(b, p) >= i
    ensures At(b, p) >= i + 1
  {
    var a := At(b, p);
  }

  /** Blocks ascend, so the search may stop early. */
  lemma AtNowhere(b: Layout, start: nat, end: nat, p: nat, i: nat)
    requires Tiles(b, start, end) && i < |b| && DataOf(b[i]) > p && At(b, p) >= i
    ensures At(b, p) == |b|
  {
    var a := At(b, p);
    if i < a < |b| { Ascending(b, start, end, i, a); }
  }

  /** The range and alignment tests turn away no data address. */
  lemma NotBlocksStart(b: Layout, start: nat, end: nat, p: nat)
    requires Tiles(b, start, end)
    ensures p < start + HEADER || p >= end || p % ALIGN != 0 ==> At(b, p) == |b|
  {
    var a := At(b, p);
    if a < |b| { Inside(b, start, end, a); }
  }
}
