// How pmm.cpp sets up its maps from the Multiboot2 information (pmm.cpp:464-1197): which frames end
// up free, and that malformed information leaves none.
module PmmBoot {
  import opened PmmBits
  import opened Pmm
  import opened LittleEndian

  const LOW_MEMORY: nat := LOW_FRAMES * FRAME
  const LAPIC: nat := 0xFEE0_0000
  const IOAPIC: nat := 0xFEC0_0000
  const WORD_LIMIT: nat := 0x1_0000_0000_0000_0000

  const TAG_END: nat := 0
  const TAG_MODULE: nat := 3
  const TAG_MAP: nat := 6
  const TAG_FRAMEBUFFER: nat := 8
  const AVAILABLE: nat := 1

  // ----- ranges of addresses and whole frames

  /** The whole frame lies in the `len` bytes from `base`. */
  ghost predicate Covered(f: nat, base: nat, len: nat) {
    f < MAX_FRAMES && base <= f * FRAME && (f + 1) * FRAME <= base + len
  }

  /** Some byte of the frame lies there. */
  ghost predicate Touched(f: nat, base: nat, len: nat) {
    f < MAX_FRAMES && base < (f + 1) * FRAME && f * FRAME < base + len && len > 0
  }

  function RoundUp(a: nat): nat {
    (a + FRAME - 1) / FRAME
  }

  lemma CoveredFrames(base: nat, len: nat, f: nat)
    requires base < MAX_ADDRESS
    ensures Covered(f, base, len)
            <==> RoundUp(base) <= f < (if len > MAX_ADDRESS - base then MAX_ADDRESS else base + len) / FRAME
  {
    var end := if len > MAX_ADDRESS - base then MAX_ADDRESS else base + len;
    assert base <= f * FRAME <==> RoundUp(base) <= f;
    assert (f + 1) * FRAME <= end <==> f + 1 <= end / FRAME;
  }

  lemma TouchedFrames(base: nat, len: nat, f: nat)
    requires base < MAX_ADDRESS && len > 0
    ensures Touched(f, base, len)
            <==> base / FRAME <= f < RoundUp(if len > MAX_ADDRESS - base then MAX_ADDRESS else base + len)
  {
    var end := if len > MAX_ADDRESS - base then MAX_ADDRESS else base + len;
    assert base < (f + 1) * FRAME <==> base / FRAME <= f;
    assert f * FRAME < end <==> f < RoundUp(end);
  }

  lemma NothingBeyond(base: nat, len: nat, f: nat)
    requires base >= MAX_ADDRESS || len == 0
    ensures !Covered(f, base, len) && !Touched(f, base, len)
  {
  }

  /** While the maps are being set up both hold the same frames, all below `highest`. */
  ghost predicate Building(p: Pmm)
    reads p, p.free, p.avail
  {
    && p.Shaped() && p.Free() == p.Avail() && p.highest <= MAX_FRAMES
    && forall f <- p.Avail() :: f < p.highest
  }

  /** `dodaj_dostepny_zakres` (pmm.cpp:476-528). */
  method AddRange(p: Pmm, base: nat, len: nat)
    requires Building(p)
    modifies p`highest, p.free, p.avail
    ensures Building(p) && p.highest >= old(p.highest)
    ensures p.highest > old(p.highest) ==> p.highest - 1 in p.Avail()
    ensures forall f: nat :: f in p.Avail() <==> f in old(p.Avail()) || Covered(f, base, len)
  {
    hide Frames;
    forall f: nat ensures base >= MAX_ADDRESS || len == 0 ==> !Covered(f, base, len) {
      if base >= MAX_ADDRESS || len == 0 { NothingBeyond(base, len, f); }
    }
    if len == 0 || base >= MAX_ADDRESS { return; }
    var end := if len > MAX_ADDRESS - base then MAX_ADDRESS else base + len;
    forall f: nat ensures Covered(f, base, len) <==> RoundUp(base) <= f < end / FRAME { CoveredFrames(base, len, f); }
    var first, stop := RoundUp(base), end / FRAME;
    if first >= stop { return; }
    hide Covered;
    var f := first;
    while f < stop
      invariant first <= f <= stop <= MAX_FRAMES && p.Shaped() && p.Free() == p.Avail() && p.highest == old(p.highest)
      invariant forall g: nat :: g in p.Avail() <==> g in old(p.Avail()) || first <= g < f
    {
      SetBit(p.avail, f);
      SetBit(p.free, f);
      f := f + 1;
    }
    if stop > p.highest { p.highest := stop; }
  }

  /** `zarezerwuj_zakres_na_stale` (pmm.cpp:534-590). */
  method Reserve(p: Pmm, base: nat, len: nat)
    requires Building(p)
    modifies p.free, p.avail
    ensures Building(p)
    ensures forall f: nat :: f in p.Avail() <==> f in old(p.Avail()) && !Touched(f, base, len)
  {
    hide Frames;
    forall f: nat ensures base >= MAX_ADDRESS || len == 0 ==> !Touched(f, base, len) {
      if base >= MAX_ADDRESS || len == 0 { NothingBeyond(base, len, f); }
    }
    if len == 0 || base >= MAX_ADDRESS { return; }
    var end := if len > MAX_ADDRESS - base then MAX_ADDRESS else base + len;
    var first, stop := base / FRAME, RoundUp(end);
    forall f: nat ensures Touched(f, base, len) <==> first <= f < stop { TouchedFrames(base, len, f); }
    if first >= stop { return; }
    hide Touched;
    var f := first;
    while f < stop
      invariant first <= f <= stop && p.Shaped() && p.Free() == p.Avail()
      invariant forall g: nat :: g in p.Avail() <==> g in old(p.Avail()) && !(first <= g < f)
    {
      ClearBit(p.avail, f);
      ClearBit(p.free, f);
      f := f + 1;
    }
  }

  // ----- reading the information structure

  function RoundUp8(a: nat): nat {
    (a + 7) / 8 * 8
  }

  /** The tags found, and whether the walk ended properly at an end tag. */
  datatype Tags = Tags(ok: bool, at: seq<nat>)

  /** `przejdz_po_tagach_multiboot` (pmm.cpp:650-721), from offset `at` on. */
  function Walk(mem: seq<Byte>, total: nat, at: nat): (t: Tags)
    requires total <= |mem|
    ensures forall i | 0 <= i < |t.at| :: TagInside(mem, total, t.at[i])
    decreases total - at
  {
    if at + 8 > total then Tags(false, [])
    else
      var size := U32(mem, at + 4);
      if size < 8 || at + size > total then Tags(false, [])
      else if U32(mem, at) == TAG_END then Tags(size == 8, [])
      else if at + RoundUp8(size) > total then Tags(false, [at])
      else
        var rest := Walk(mem, total, at + RoundUp8(size));
        Tags(rest.ok, [at] + rest.at)
  }

  /** From `at` on stand tags at these offsets, each of at least 8 bytes and the next one where it ends, rounded up
      to 8, and then an end tag of 8 bytes, all inside the first `total` bytes. */
  ghost predicate Chain(mem: seq<Byte>, total: nat, at: nat, tags: seq<nat>)
    requires total <= |mem|
    decreases |tags|
  {
    && at + 8 <= total
    && if tags == [] then U32(mem, at) == 0 && U32(mem, at + 4) == 8
       else
         && tags[0] == at && U32(mem, at) != 0 && U32(mem, at + 4) >= 8
         && at + (U32(mem, at + 4) + 7) / 8 * 8 <= total
         && Chain(mem, total, at + (U32(mem, at + 4) + 7) / 8 * 8, tags[1..])
  }

  /** The walk ends well exactly when there is such a chain, and has then found it. */
  lemma WalkMeans(mem: seq<Byte>, total: nat, at: nat, tags: seq<nat>)
    requires total <= |mem|
    ensures Chain(mem, total, at, tags) <==> Walk(mem, total, at) == Tags(true, tags)
  {
    hide Chain, Walk;
    if Chain(mem, total, at, tags) { ChainWalked(mem, total, at, tags); }
    if Walk(mem, total, at).ok { WalkIsChain(mem, total, at); }
  }

  lemma {:induction false} WalkIsChain(mem: seq<Byte>, total: nat, at: nat)
    requires total <= |mem| && Walk(mem, total, at).ok
    ensures Chain(mem, total, at, Walk(mem, total, at).at)
    decreases total - at
  {
    hide U32;
    var size := U32(mem, at + 4);
    if U32(mem, at) != TAG_END { WalkIsChain(mem, total, at + RoundUp8(size)); }
  }

  lemma {:induction false} ChainWalked(mem: seq<Byte>, total: nat, at: nat, tags: seq<nat>)
    requires total <= |mem| && Chain(mem, total, at, tags)
    ensures Walk(mem, total, at) == Tags(true, tags)
    decreases |tags|
  {
    hide U32;
    if tags != [] {
      ChainWalked(mem, total, at + RoundUp8(U32(mem, at + 4)), tags[1..]);
      assert [tags[0]] + tags[1..] == tags;
    }
  }

  ghost predicate TagInside(mem: seq<Byte>, total: nat, at: nat) {
    at + 8 <= total <= |mem| && 8 <= U32(mem, at + 4) && at + U32(mem, at + 4) <= total
  }

  function TagType(mem: seq<Byte>, at: nat): nat
    requires at + 8 <= |mem|
  {
    U32(mem, at)
  }

  function TagSize(mem: seq<Byte>, at: nat): nat
    requires at + 8 <= |mem|
  {
    U32(mem, at + 4)
  }

  /** What a memory map tag must look like. */
  predicate MapOk(mem: seq<Byte>, at: nat)
    requires at + 8 <= |mem| && at + TagSize(mem, at) <= |mem|
  {
    && TagSize(mem, at) > 16
    && U32(mem, at + 8) >= 24
    && (TagSize(mem, at) - 16) % U32(mem, at + 8) == 0
  }

  /** The tag holds `n` entries of the size it gives, at least 24 bytes each, and nothing else. */
  ghost predicate HasEntries(mem: seq<Byte>, at: nat, n: nat)
    requires at + 12 <= |mem|
  {
    U32(mem, at + 8) >= 24 && U32(mem, at + 4) == 16 + n * U32(mem, at + 8)
  }

  lemma MapOkMeans(mem: seq<Byte>, at: nat)
    requires at + 8 <= |mem| && at + TagSize(mem, at) <= |mem|
    ensures MapOk(mem, at) <==> at + 12 <= |mem| && exists n: nat :: n > 0 && HasEntries(mem, at, n)
  {
    hide U32;
    if MapOk(mem, at) {
      var n := (TagSize(mem, at) - 16) / U32(mem, at + 8);
      Divided(TagSize(mem, at) - 16, U32(mem, at + 8));
      Positive(n, U32(mem, at + 8));
      assert HasEntries(mem, at, n);
    }
    if at + 12 <= |mem| && exists n: nat :: n > 0 && HasEntries(mem, at, n) {
      var n: nat :| n > 0 && HasEntries(mem, at, n);
      Wholes(n, U32(mem, at + 8));
    }
  }

  function MapCount(mem: seq<Byte>, at: nat): nat
    requires at + 8 <= |mem| && at + TagSize(mem, at) <= |mem| && MapOk(mem, at)
  {
    (TagSize(mem, at) - 16) / U32(mem, at + 8)
  }

  function EntryOffset(at: nat, i: nat, size: nat): nat {
    at + 16 + i * size
  }

  lemma EntryInside(mem: seq<Byte>, at: nat, i: nat)
    requires at + 8 <= |mem| && at + TagSize(mem, at) <= |mem| && MapOk(mem, at) && i < MapCount(mem, at)
    ensures EntryOffset(at, i, U32(mem, at + 8)) + 24 <= |mem|
  {
    var e, payload := U32(mem, at + 8), TagSize(mem, at) - 16;
    hide U32;
    Multiples(payload, e, i);
  }

  lemma AtLeastOnce(k: int, b: nat)
    requires k >= 1
    ensures k * b >= b
  {
    assert (k - 1) * b >= 0;
  }

  lemma OneQuotient(b: nat, q: int, r: int, q': int, r': int)
    requires b > 0 && q * b + r == q' * b + r' && 0 <= r < b && 0 <= r' < b
    ensures q == q' && r == r'
  {
    Distributed(q', q, b);
    Distributed(q, q', b);
    if q < q' { AtLeastOnce(q' - q, b); }
    if q' < q { AtLeastOnce(q - q', b); }
  }

  lemma Distributed(x: int, y: int, b: int)
    ensures (x - y) * b == x * b - y * b
  {
  }

  lemma Divided(a: nat, size: nat)
    requires size > 0
    ensures a / size * size + a % size == a
  {
  }

  lemma Wholes(n: nat, size: nat)
    requires size > 0
    ensures n * size % size == 0 && n * size / size == n && (n > 0 <==> n * size > 0)
  {
    Divided(n * size, size);
    OneQuotient(size, n * size / size, n * size % size, n, 0);
    Positive(n, size);
  }

  lemma Positive(a: nat, b: nat)
    ensures a > 0 && b > 0 ==> a * b > 0
    ensures a == 0 || b == 0 ==> a * b == 0
  {
  }

  lemma Multiples(payload: nat, e: nat, i: nat)
    requires e >= 24 && payload % e == 0 && i < payload / e
    ensures i * e + 24 <= payload
  {
    assert payload == payload / e * e;
    assert (i + 1) * e <= payload / e * e;
    assert (i + 1) * e == i * e + e;
  }

  /** An entry of available memory that wholly holds frame `f`. */
  ghost predicate Grants(mem: seq<Byte>, e: nat, f: nat) {
    e + 24 <= |mem| && U32(mem, e + 16) == AVAILABLE && Covered(f, U64(mem, e), U64(mem, e + 8))
  }

  /** Entry `i` of the map at `at` grants frame `f`. */
  ghost predicate EntryGrants(mem: seq<Byte>, at: nat, i: nat, f: nat) {
    && at + 8 <= |mem| && at + TagSize(mem, at) <= |mem| && MapOk(mem, at) && i < MapCount(mem, at)
    && Grants(mem, EntryOffset(at, i, U32(mem, at + 8)), f)
  }

  ghost predicate GrantedBy(mem: seq<Byte>, at: nat, count: nat, f: nat) {
    exists i: nat :: i < count && EntryGrants(mem, at, i, f)
  }

  /** One entry of the map. */
  method AddEntry(p: Pmm, mem: seq<Byte>, e: nat)
    requires Building(p) && e + 24 <= |mem|
    modifies p`highest, p.free, p.avail
    ensures Building(p) && p.highest >= old(p.highest) && (p.highest > old(p.highest) ==> p.highest - 1 in p.Avail())
    ensures forall f: nat :: f in p.Avail() <==> f in old(p.Avail()) || Grants(mem, e, f)
  {
    hide Frames, Covered, U32, U64;
    if U32(mem, e + 16) == AVAILABLE { AddRange(p, U64(mem, e), U64(mem, e + 8)); }
  }

  lemma OneMoreGranted(mem: seq<Byte>, at: nat, i: nat, f: nat)
    ensures GrantedBy(mem, at, i + 1, f) <==> GrantedBy(mem, at, i, f) || EntryGrants(mem, at, i, f)
  {
    hide EntryGrants;
    if GrantedBy(mem, at, i + 1, f) && !EntryGrants(mem, at, i, f) {
      var k: nat :| k < i + 1 && EntryGrants(mem, at, k, f);
      assert k < i;
    }
  }

  /** `przetworz_mape_pamieci` (pmm.cpp:727-808). */
  method AddMap(p: Pmm, mem: seq<Byte>, at: nat) returns (ok: bool)
    requires Building(p) && at + 8 <= |mem| && at + TagSize(mem, at) <= |mem|
    modifies p`highest, p.free, p.avail
    ensures Building(p) && p.highest >= old(p.highest) && (p.highest > old(p.highest) ==> p.highest - 1 in p.Avail())
    ensures ok <==> MapOk(mem, at)
    ensures ok <==> at + 12 <= |mem| && exists n: nat :: n > 0 && HasEntries(mem, at, n)
    ensures ok ==> forall f: nat :: f in p.Avail() <==> f in old(p.Avail()) || GrantedBy(mem, at, MapCount(mem, at), f)
  {
    hide Frames, Covered, U32, U64, Grants, EntryOffset, GrantedBy, Building, HasEntries;
    MapOkMeans(mem, at);
    if TagSize(mem, at) < 16 { return false; }
    if U32(mem, at + 8) < 24 { return false; }
    var payload := TagSize(mem, at) - 16;
    if payload == 0 || payload % U32(mem, at + 8) != 0 { return false; }
    var count := payload / U32(mem, at + 8);
    NoneGranted(mem, at);
    var i := 0;
    while i < count
      invariant 0 <= i <= count && Building(p) && p.highest >= old(p.highest)
                && (p.highest > old(p.highest) ==> p.highest - 1 in p.Avail())
      invariant forall f: nat :: f in p.Avail() <==> f in old(p.Avail()) || GrantedBy(mem, at, i, f)
    {
      EntryInside(mem, at, i);
      forall f: nat ensures GrantedBy(mem, at, i + 1, f) <==> GrantedBy(mem, at, i, f) || EntryGrants(mem, at, i, f) {
        OneMoreGranted(mem, at, i, f);
      }
      AddEntry(p, mem, EntryOffset(at, i, U32(mem, at + 8)));
      i := i + 1;
    }
    ok := true;
  }

  lemma NoneGranted(mem: seq<Byte>, at: nat)
    ensures forall f: nat :: !GrantedBy(mem, at, 0, f)
  {
  }

  // ----- the two passes over the tags

  /** The memory map tags among `at`. */
  ghost function Maps(mem: seq<Byte>, at: seq<nat>): seq<nat> {
    if at == [] then []
    else
      var front, last := at[..|at|-1], at[|at|-1];
      Maps(mem, front) + (if last + 8 <= |mem| && TagType(mem, last) == TAG_MAP then [last] else [])
  }

  lemma {:induction false} MapsGrow(mem: seq<Byte>, a: seq<nat>, b: seq<nat>)
    ensures Maps(mem, a) <= Maps(mem, a + b)
  {
    if b == [] {
      assert a + b == a;
    } else {
      assert (a + b)[..|a + b|-1] == a + b[..|b|-1];
      MapsGrow(mem, a, b[..|b|-1]);
    }
  }

  lemma MapsNext(mem: seq<Byte>, seen: seq<nat>, at: nat)
    ensures Maps(mem, seen + [at]) == Maps(mem, seen)
            + (if at + 8 <= |mem| && TagType(mem, at) == TAG_MAP then [at] else [])
  {
    assert (seen + [at])[..|seen|] == seen;
  }

  /** A proper tag list with exactly one memory map, itself in order. */
  ghost predicate GoodTags(mem: seq<Byte>, total: nat)
    requires total <= |mem|
  {
    var t := Walk(mem, total, 8);
    && t.ok
    && var maps := Maps(mem, t.at);
    && |maps| == 1 && maps[0] + 8 <= |mem| && maps[0] + TagSize(mem, maps[0]) <= |mem| && MapOk(mem, maps[0])
  }

  /** The information grants frame `f`: an available entry of its memory map wholly holds it. */
  ghost predicate Granted(mem: seq<Byte>, total: nat, f: nat) {
    && total <= |mem| && GoodTags(mem, total)
    && var at := Maps(mem, Walk(mem, total, 8).at)[0];
    GrantedBy(mem, at, MapCount(mem, at), f)
  }

  /** The tags seen so far, and those still to come, are the whole list. */
  ghost predicate Seen(mem: seq<Byte>, total: nat, seen: seq<nat>, at: nat)
    requires total <= |mem|
  {
    Walk(mem, total, 8) == Tags(Walk(mem, total, at).ok, seen + Walk(mem, total, at).at)
  }

  lemma SeenMaps(mem: seq<Byte>, total: nat, seen: seq<nat>, at: nat)
    requires total <= |mem| && Seen(mem, total, seen, at)
    ensures Maps(mem, seen) <= Maps(mem, Walk(mem, total, 8).at)
  {
    MapsGrow(mem, seen, Walk(mem, total, at).at);
  }

  lemma SeenNext(mem: seq<Byte>, total: nat, seen: seq<nat>, at: nat)
    requires total <= |mem| && Seen(mem, total, seen, at) && at + 8 <= total && 8 <= TagSize(mem, at)
             && at + TagSize(mem, at) <= total
    requires TagType(mem, at) != TAG_END
    ensures Maps(mem, seen + [at]) <= Maps(mem, Walk(mem, total, 8).at)
    ensures if at + RoundUp8(TagSize(mem, at)) > total then !Walk(mem, total, 8).ok
            else Seen(mem, total, seen + [at], at + RoundUp8(TagSize(mem, at)))
  {
    hide U32;
    var rest := Walk(mem, total, at).at;
    assert rest[0] == at;
    assert seen + rest == (seen + [at]) + rest[1..];
    MapsGrow(mem, seen + [at], rest[1..]);
    if at + RoundUp8(TagSize(mem, at)) <= total {
      assert rest[1..] == Walk(mem, total, at + RoundUp8(TagSize(mem, at))).at;
    }
  }

  /** What has been granted once the tags `seen` are processed. */
  ghost predicate GrantedSoFar(mem: seq<Byte>, seen: seq<nat>, f: nat) {
    var maps := Maps(mem, seen);
    maps != [] && maps[0] + 8 <= |mem| && maps[0] + TagSize(mem, maps[0]) <= |mem| && MapOk(mem, maps[0])
    && GrantedBy(mem, maps[0], MapCount(mem, maps[0]), f)
  }

  /** The first pass of `InicjalizujPMM` (pmm.cpp:1052-1093). */
  method AddTags(p: Pmm, mem: seq<Byte>, total: nat) returns (ok: bool)
    requires Building(p) && p.highest == 0 && p.Avail() == iset{} && 16 <= total <= |mem|
    modifies p`highest, p.free, p.avail
    ensures Building(p)
    ensures ok <==> GoodTags(mem, total)
    ensures ok ==>
              (forall f: nat :: f in p.Avail() <==> Granted(mem, total, f)) && (p.highest == 0 <==> p.Avail() == iset{})
  {
    hide Frames, U32, Building, MapOk, GrantedBy, Walk, Maps, MapCount;
    var at := 8;
    var found := false;
    ghost var seen: seq<nat> := [];
    AllAhead(mem, total);
    while at < total
      invariant Building(p) && Seen(mem, total, seen, at) && (p.highest != 0 ==> p.highest - 1 in p.Avail())
      invariant |Maps(mem, seen)| == if found then 1 else 0
      invariant found ==> var m := Maps(mem, seen)[0]; m + 8 <= |mem| && m + TagSize(mem, m) <= |mem| && MapOk(mem, m)
      invariant forall f: nat :: f in p.Avail() <==> GrantedSoFar(mem, seen, f)
      decreases total - at
    {
      WalkEnds(mem, total, seen, at);
      if total - at < 8 { return false; }
      var size := TagSize(mem, at);
      if size < 8 || at + size > total { return false; }
      if TagType(mem, at) == TAG_END {
        SeenMaps(mem, total, seen, at);
        NoneIfZero(p);
        return found && size == 8;
      }
      SeenNext(mem, total, seen, at);
      MapsNext(mem, seen, at);
      if TagType(mem, at) == TAG_MAP {
        if found { return false; }
        found := true;
        var fine := AddMap(p, mem, at);
        if !fine { return false; }
      }
      if at + RoundUp8(size) > total { return false; }
      at := at + RoundUp8(size);
      seen := seen + [at - RoundUp8(size)];
    }
    WalkEnds(mem, total, seen, at);
    ok := false;
  }

  lemma NoneIfZero(p: Pmm)
    requires Building(p)
    ensures p.highest == 0 ==> p.Avail() == iset{}
  {
    hide Frames;
  }

  lemma AllAhead(mem: seq<Byte>, total: nat)
    requires total <= |mem|
    ensures Seen(mem, total, [], 8) && Maps(mem, []) == []
  {
    assert [] + Walk(mem, total, 8).at == Walk(mem, total, 8).at;
    hide Walk;
  }

  lemma WalkEnds(mem: seq<Byte>, total: nat, seen: seq<nat>, at: nat)
    requires total <= |mem| && Seen(mem, total, seen, at)
    ensures at + 8 > total || TagSize(mem, at) < 8 || at + TagSize(mem, at) > total ==> !Walk(mem, total, 8).ok
    ensures at + 8 <= total && TagType(mem, at) == TAG_END && 8 <= TagSize(mem, at)
            && at + TagSize(mem, at) <= total ==>
              Walk(mem, total, 8) == Tags(TagSize(mem, at) == 8, seen)
  {
    hide U32;
    assert seen + [] == seen;
  }

  /** A module or framebuffer tag covers part of frame `f`. */
  ghost predicate TagReserves(mem: seq<Byte>, at: nat, f: nat) {
    && at + 8 <= |mem| && at + TagSize(mem, at) <= |mem|
    && (|| (TagType(mem, at) == TAG_MODULE && TagSize(mem, at) >= 16 && ModuleTouches(mem, at, f))
        || (TagType(mem, at) == TAG_FRAMEBUFFER && TagSize(mem, at) >= 32 && FramebufferTouches(mem, at, f)))
  }

  ghost predicate ModuleTouches(mem: seq<Byte>, at: nat, f: nat)
    requires at + 16 <= |mem|
  {
    var start, end := U32(mem, at + 8), U32(mem, at + 12);
    start < end && Touched(f, start, end - start)
  }

  ghost predicate FramebufferTouches(mem: seq<Byte>, at: nat, f: nat)
    requires at + 32 <= |mem|
  {
    var base, pitch, height := U64(mem, at + 8), U32(mem, at + 16), U32(mem, at + 24);
    base != 0 && pitch != 0 && height != 0 && Touched(f, base, pitch * height)
  }

  /** `zarezerwuj_modul` and `zarezerwuj_framebuffer` (pmm.cpp:814-896). */
  method ReserveTag(p: Pmm, mem: seq<Byte>, at: nat)
    requires Building(p) && at + 8 <= |mem| && at + TagSize(mem, at) <= |mem|
    modifies p.free, p.avail
    ensures Building(p)
    ensures forall f: nat :: f in p.Avail() <==> f in old(p.Avail()) && !TagReserves(mem, at, f)
  {
    hide Frames, U32, U64, Touched;
    if TagType(mem, at) == TAG_MODULE {
      if TagSize(mem, at) < 16 { return; }
      var start, end := U32(mem, at + 8), U32(mem, at + 12);
      if end <= start { return; }
      Reserve(p, start, end - start);
    } else if TagType(mem, at) == TAG_FRAMEBUFFER {
      if TagSize(mem, at) < 32 { return; }
      var base, pitch, height := U64(mem, at + 8), U32(mem, at + 16), U32(mem, at + 24);
      if base == 0 || pitch == 0 || height == 0 { return; }
      Widths(mem, at);
      if height > (WORD_LIMIT - 1) / pitch { return; }
      Reserve(p, base, pitch * height);
    }
  }

  /** A product of two 32-bit numbers fits 64 bits, so the overflow test never turns anything away. */
  lemma Widths(mem: seq<Byte>, at: nat)
    requires at + 32 <= |mem| && U32(mem, at + 16) != 0
    ensures U32(mem, at + 24) <= (WORD_LIMIT - 1) / U32(mem, at + 16)
  {
    var a, b := U32(mem, at + 16), U32(mem, at + 24);
    assert a < 0x1_0000_0000 && b < 0x1_0000_0000;
    hide U32;
    Products(a, b);
  }

  lemma Smaller(b: nat, q: nat, a: nat)
    requires b * a < q * a
    ensures b < q
  {
  }

  lemma Products(a: nat, b: nat)
    requires 0 < a < 0x1_0000_0000 && b < 0x1_0000_0000
    ensures b <= (WORD_LIMIT - 1) / a
  {
    assert b * a <= 0xFFFF_FFFF * 0xFFFF_FFFF;
    var q := (WORD_LIMIT - 1) / a + 1;
    assert WORD_LIMIT - 1 < q * a;
    Smaller(b, q, a);
  }

  ghost predicate SomeReserves(mem: seq<Byte>, at: seq<nat>, f: nat) {
    exists i | 0 <= i < |at| :: TagReserves(mem, at[i], f)
  }

  lemma OneMoreReserves(mem: seq<Byte>, at: seq<nat>, last: nat, f: nat)
    ensures SomeReserves(mem, at + [last], f) <==> SomeReserves(mem, at, f) || TagReserves(mem, last, f)
  {
    hide TagReserves;
    var more := at + [last];
    if SomeReserves(mem, at, f) {
      var i :| 0 <= i < |at| && TagReserves(mem, at[i], f);
      assert more[i] == at[i];
    }
    if TagReserves(mem, last, f) { assert more[|at|] == last; }
    if SomeReserves(mem, more, f) {
      var i :| 0 <= i < |more| && TagReserves(mem, more[i], f);
      if i < |at| { assert at[i] == more[i]; }
    }
  }

  /** The second pass (pmm.cpp:1145-1165); it ends as the first did. */
  method ReserveTags(p: Pmm, mem: seq<Byte>, total: nat) returns (ok: bool)
    requires Building(p) && 16 <= total <= |mem|
    modifies p.free, p.avail
    ensures Building(p)
    ensures ok <==> Walk(mem, total, 8).ok
    ensures ok ==> forall f: nat ::
              f in p.Avail() <==> f in old(p.Avail()) && !SomeReserves(mem, Walk(mem, total, 8).at, f)
  {
    hide Frames, U32, Building, Walk, Maps, TagReserves, SomeReserves;
    var at := 8;
    ghost var seen: seq<nat> := [];
    AllAhead(mem, total);
    NoneReserves(mem);
    while at < total
      invariant Building(p) && Seen(mem, total, seen, at)
      invariant forall f: nat :: f in p.Avail() <==> f in old(p.Avail()) && !SomeReserves(mem, seen, f)
      decreases total - at
    {
      WalkEnds(mem, total, seen, at);
      if total - at < 8 { return false; }
      var size := TagSize(mem, at);
      if size < 8 || at + size > total { return false; }
      if TagType(mem, at) == TAG_END { return size == 8; }
      SeenNext(mem, total, seen, at);
      forall f: nat ensures SomeReserves(mem, seen + [at], f)
          <==> SomeReserves(mem, seen, f) || TagReserves(mem, at, f) {
        OneMoreReserves(mem, seen, at, f);
      }
      ReserveTag(p, mem, at);
      if at + RoundUp8(size) > total { return false; }
      at := at + RoundUp8(size);
      seen := seen + [at - RoundUp8(size)];
    }
    WalkEnds(mem, total, seen, at);
    ok := false;
  }

  lemma NoneReserves(mem: seq<Byte>)
    ensures forall f: nat :: !SomeReserves(mem, [], f)
  {
  }

  // ----- the whole initialisation

  /** `pobierz_zakres_multiboot` (pmm.cpp:601-647): a non-null address on 8 bytes, and a structure that fits. */
  ghost predicate HasInfo(info: nat, mem: seq<Byte>) {
    info != 0 && info % 8 == 0 && |mem| >= 4 && 16 <= U32(mem, 0) && info + U32(mem, 0) < WORD_LIMIT
  }

  /** Frames that must never be handed out. */
  ghost predicate Reserved(info: nat, mem: seq<Byte>, total: nat, kernel: nat, kernelEnd: nat, f: nat)
    requires total <= |mem| && kernel <= kernelEnd
  {
    || Touched(f, 0, LOW_MEMORY)
    || Touched(f, kernel, kernelEnd - kernel)
    || Touched(f, info, total)
    || SomeReserves(mem, Walk(mem, total, 8).at, f)
    || Touched(f, LAPIC, FRAME)
    || Touched(f, IOAPIC, FRAME)
  }

  /** When initialisation succeeds. */
  ghost predicate Bootable(info: nat, mem: seq<Byte>, kernel: nat, kernelEnd: nat) {
    && HasInfo(info, mem) && U32(mem, 0) <= |mem|
    && GoodTags(mem, U32(mem, 0)) && (exists f: nat :: Granted(mem, U32(mem, 0), f))
    && kernel < kernelEnd
  }

  /** `wyzeruj_stan_pmm`. */
  method Reset(p: Pmm)
    requires p.Shaped()
    modifies p, p.free, p.avail
    ensures Building(p) && p.Avail() == iset{} && p.highest == 0 && p.cursor == 0 && !p.ready && p.out == iset{}
            && p.Valid()
  {
    hide Frames;
    ClearAll(p.free);
    ClearAll(p.avail);
    p.highest, p.cursor, p.ready, p.out := 0, 0, false, iset{};
  }

  /** `InicjalizujPMM` (pmm.cpp:1032-1197). `mem` is the memory from `info` on. */
  method Init(p: Pmm, info: nat, mem: seq<Byte>, kernel: nat, kernelEnd: nat)
    requires p.Shaped()
    requires HasInfo(info, mem) ==> U32(mem, 0) <= |mem|
    requires info != 0 && info % 8 == 0 ==> |mem| >= 4
    modifies p, p.free, p.avail
    ensures p.Valid()
    ensures p.ready <==> Bootable(info, mem, kernel, kernelEnd)
    ensures !p.ready ==> p.Free() == p.Avail() == iset{}
    ensures p.ready ==> p.cursor == LOW_FRAMES && p.out == iset{}
    ensures p.ready ==> forall f: nat ::
              && (f in p.Free() <==> f in p.Avail())
              && (f in p.Free() <==>
                Granted(mem, U32(mem, 0), f) && !Reserved(info, mem, U32(mem, 0), kernel, kernelEnd, f))
  {
    hide Frames, U32, GoodTags, Granted, Touched, SomeReserves, Walk;
    Reset(p);
    if info == 0 || info % 8 != 0 { return; }
    var total := U32(mem, 0);
    if total < 16 || info > WORD_LIMIT - 1 - total { return; }
    var tagsOk := AddTags(p, mem, total);
    if !tagsOk || p.highest == 0 {
      Reset(p);
      return;
    }
    assert p.highest != 0 ==> exists f: nat :: f in p.Avail();
    Reserve(p, 0, LOW_MEMORY);
    if kernelEnd <= kernel {
      Reset(p);
      return;
    }
    ReserveFixed(p, info, total, kernel, kernelEnd);
    var reserved := ReserveTags(p, mem, total);
    if !reserved {
      Reset(p);
      GoodTagsWalk(mem, total);
      return;
    }
    Reserve(p, LAPIC, FRAME);
    Reserve(p, IOAPIC, FRAME);
    LowTouched();
    p.cursor := LOW_FRAMES;
    p.ready := true;
  }

  method ReserveFixed(p: Pmm, info: nat, total: nat, kernel: nat, kernelEnd: nat)
    requires Building(p) && kernel <= kernelEnd
    modifies p.free, p.avail
    ensures Building(p)
    ensures forall f: nat :: f in p.Avail() <==>
              f in old(p.Avail()) && !Touched(f, kernel, kernelEnd - kernel) && !Touched(f, info, total)
  {
    hide Frames, Touched, Building;
    Reserve(p, kernel, kernelEnd - kernel);
    Reserve(p, info, total);
  }

  lemma GoodTagsWalk(mem: seq<Byte>, total: nat)
    requires total <= |mem| && GoodTags(mem, total)
    ensures Walk(mem, total, 8).ok
  {
  }

  lemma LowTouched()
    ensures forall f: nat | f < LOW_FRAMES :: Touched(f, 0, LOW_MEMORY)
  {
  }
}
