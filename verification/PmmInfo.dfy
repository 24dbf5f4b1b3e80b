// The Multiboot2 information as a boot loader lays it out (Multiboot2 Specification, section 3.6; pamiec.h:100-230),
// and which frames pmm.cpp:1032-1197 frees when it is started with it.
module PmmInfo {
  import opened PmmBits
  import opened Pmm
  import opened PmmBoot
  import opened LittleEndian

  datatype Region = Region(base: nat, length: nat, kind: nat)

  /** The tags the allocator looks at, and any other; `extra` is by how much a map entry is longer than it need be. */
  datatype Tag =
    | Map(extra: nat, regions: seq<Region>)
    | Module(start: nat, end: nat, text: seq<Byte>)
    | Framebuffer(base: nat, pitch: nat, width: nat, height: nat, format: seq<Byte>)
    | Other(kind: nat, body: seq<Byte>)

  // ----- laying it out

  function Zeros(n: nat): (w: seq<Byte>)
    ensures |w| == n
  {
    seq(n, _ => 0)
  }

  function RegionBytes(extra: nat, r: Region): (w: seq<Byte>)
    ensures |w| == 24 + extra
  {
    Long(r.base) + (Long(r.length) + (Word(r.kind) + (Word(0) + Zeros(extra))))
  }

  function RegionList(extra: nat, regions: seq<Region>): seq<Byte> {
    if regions == [] then [] else RegionBytes(extra, regions[0]) + RegionList(extra, regions[1..])
  }

  function KindOf(t: Tag): nat {
    match t
    case Map(_, _) => 6
    case Module(_, _, _) => 3
    case Framebuffer(_, _, _, _, _) => 8
    case Other(kind, _) => kind
  }

  function BodyOf(t: Tag): seq<Byte> {
    match t
    case Map(extra, regions) => Word(24 + extra) + (Word(0) + RegionList(extra, regions))
    case Module(start, end, text) => Word(start) + (Word(end) + text)
    case Framebuffer(base, pitch, width, height, format) =>
      Long(base) + (Word(pitch) + (Word(width) + (Word(height) + format)))
    case Other(_, body) => body
  }

  /** Type, size and body, then zeros up to a multiple of 8. */
  function TagBytes(t: Tag): seq<Byte> {
    Word(KindOf(t)) + (Word(8 + |BodyOf(t)|) + (BodyOf(t) + Zeros((8 - |BodyOf(t)| % 8) % 8)))
  }

  function TagList(tags: seq<Tag>): seq<Byte> {
    if tags == [] then Word(0) + Word(8) else TagBytes(tags[0]) + TagList(tags[1..])
  }

  function Info(tags: seq<Tag>): seq<Byte> {
    Word(8 + |TagList(tags)|) + (Word(0) + TagList(tags))
  }

  /** The numbers fit their fields. */
  ghost predicate Fits(t: Tag) {
    match t
    case Map(extra, regions) =>
      24 + extra < 0x1_0000_0000 && forall r <- regions ::
        r.base < 0x1_0000_0000_0000_0000 && r.length < 0x1_0000_0000_0000_0000 && r.kind < 0x1_0000_0000
    case Module(start, end, _) => start < 0x1_0000_0000 && end < 0x1_0000_0000
    case Framebuffer(base, pitch, width, height, format) =>
      && base < 0x1_0000_0000_0000_0000 && pitch < 0x1_0000_0000 && width < 0x1_0000_0000 && height < 0x1_0000_0000
      && |format| >= 4
    case Other(kind, _) => kind < 0x1_0000_0000 && kind !in {0, 3, 6, 8}
  }

  // ----- what it says of the frames

  ghost predicate OneMap(tags: seq<Tag>) {
    exists i :: OnlyMap(tags, i)
  }

  ghost predicate OnlyMap(tags: seq<Tag>, i: int) {
    0 <= i < |tags| && tags[i].Map? && forall j | 0 <= j < |tags| && tags[j].Map? :: j == i
  }

  ghost predicate NoMap(tags: seq<Tag>) {
    forall t <- tags :: !t.Map?
  }

  /** The frame lies below 4 GiB and wholly inside one region of type 1. */
  ghost predicate Offered(tags: seq<Tag>, f: nat) {
    f < 0x10_0000 && exists t <- tags :: t.Map? && exists r <- t.regions ::
        r.kind == 1 && r.base <= f * 4096 && f * 4096 + 4096 <= r.base + r.length
  }

  /** Some byte of the frame lies between the two addresses. */
  ghost predicate Overlaps(f: nat, from: nat, to: int) {
    from < to && from < f * 4096 + 4096 && f * 4096 < to
  }

  ghost predicate TagKeeps(t: Tag, f: nat) {
    match t
    case Module(start, end, _) => Overlaps(f, start, end)
    case Framebuffer(base, pitch, _, height, _) => base != 0 && Overlaps(f, base, base + pitch * height)
    case _ => false
  }

  /** The first MiB, the kernel, the information itself, modules, framebuffers and the two APIC pages are kept back. */
  ghost predicate Kept(info: nat, tags: seq<Tag>, kernel: nat, kernelEnd: nat, f: nat) {
    || f < 256
    || Overlaps(f, kernel, kernelEnd)
    || Overlaps(f, info, info + |Info(tags)|)
    || (exists t <- tags :: TagKeeps(t, f))
    || f == 0xFEE00
    || f == 0xFEC00
  }

  // ----- reading back what was laid out

  lemma TagRead(mem: seq<Byte>, at: nat, t: Tag)
    requires Stands(mem, at, TagBytes(t)) && Fits(t) && |mem| < 0x1_0000_0000
    ensures at + 8 <= |mem| && TagType(mem, at) == KindOf(t) && TagSize(mem, at) == 8 + |BodyOf(t)|
    ensures at + 8 + |BodyOf(t)| <= at + |TagBytes(t)| <= |mem| && Stands(mem, at + 8, BodyOf(t))
    ensures |TagBytes(t)| == RoundUp8(8 + |BodyOf(t)|)
  {
    hide U32, Word, Stands, Zeros, BodyOf, KindOf;
    var body := BodyOf(t);
    var pad := Zeros((8 - |body| % 8) % 8);
    StandsInside(mem, at, TagBytes(t));
    StandsBoth(mem, at, Word(KindOf(t)), Word(8 + |body|) + (body + pad));
    StandsBoth(mem, at + 4, Word(8 + |body|), body + pad);
    StandsBoth(mem, at + 8, body, pad);
    KindFits(t);
    WordRead(mem, at, KindOf(t));
    WordRead(mem, at + 4, 8 + |body|);
  }

  lemma KindFits(t: Tag)
    requires Fits(t)
    ensures 0 < KindOf(t) < 0x1_0000_0000
    ensures (KindOf(t) == 6 <==> t.Map?) && (KindOf(t) == 3 <==> t.Module?) && (KindOf(t) == 8 <==> t.Framebuffer?)
  {
  }

  /** The walk over the tags finds each of them, and the end. */
  lemma {:induction false} WalkFinds(mem: seq<Byte>, tags: seq<Tag>, at: nat)
    requires Stands(mem, at, TagList(tags)) && at + |TagList(tags)| == |mem| < 0x1_0000_0000
    requires forall t <- tags :: Fits(t)
    ensures var w := Walk(mem, |mem|, at);
            && w.ok && |w.at| == |tags|
            && forall i | 0 <= i < |tags| :: Stands(mem, w.at[i], TagBytes(tags[i]))
    decreases |tags|
  {
    hide U32, Word, Stands, TagBytes, Fits;
    if tags == [] {
      StandsBoth(mem, at, Word(0), Word(8));
      WordRead(mem, at, 0);
      WordRead(mem, at + 4, 8);
    } else {
      var t, rest := tags[0], tags[1..];
      StandsBoth(mem, at, TagBytes(t), TagList(rest));
      TagRead(mem, at, t);
      KindFits(t);
      WalkFinds(mem, rest, at + |TagBytes(t)|);
    }
  }

  lemma {:induction false} MapsFound(mem: seq<Byte>, tags: seq<Tag>, at: seq<nat>)
    requires |at| == |tags|
    requires forall i | 0 <= i < |at| :: at[i] + 8 <= |mem| && (TagType(mem, at[i]) == TAG_MAP <==> tags[i].Map?)
    ensures Maps(mem, at) == [] <==> NoMap(tags)
    ensures |Maps(mem, at)| == 1 <==> OneMap(tags)
    ensures forall i | 0 <= i < |tags| && OnlyMap(tags, i) :: |Maps(mem, at)| == 1 && Maps(mem, at)[0] == at[i]
    decreases |at|
  {
    hide U32, OneMap, OnlyMap, NoMap;
    if at == [] {
      NothingListed(tags);
    } else {
      var front, last := tags[..|tags|-1], tags[|tags|-1];
      MapsFound(mem, front, at[..|at|-1]);
      assert front + [last] == tags;
      OneMore(front, last);
    }
  }

  lemma NothingListed(tags: seq<Tag>)
    requires tags == []
    ensures NoMap(tags) && !OneMap(tags)
  {
  }

  lemma OneMore(tags: seq<Tag>, t: Tag)
    ensures NoMap(tags + [t]) <==> NoMap(tags) && !t.Map?
    ensures OneMap(tags + [t]) <==> if t.Map? then NoMap(tags) else OneMap(tags)
    ensures forall i | 0 <= i < |tags| && OnlyMap(tags + [t], i) :: OnlyMap(tags, i) && !t.Map?
    ensures OnlyMap(tags + [t], |tags|) ==> t.Map? && NoMap(tags)
  {
    var more := tags + [t];
    assert forall j | 0 <= j < |tags| :: more[j] == tags[j];
    assert more[|tags|] == t;
    if t.Map? && NoMap(tags) { assert OnlyMap(more, |tags|); }
    if OneMap(tags) && !t.Map? {
      var i :| OnlyMap(tags, i);
      assert OnlyMap(more, i);
    }
    if OneMap(more) {
      var i :| OnlyMap(more, i);
      if i < |tags| { assert OnlyMap(tags, i); }
    }
  }

  // ----- the memory map

  lemma RegionRead(mem: seq<Byte>, at: nat, extra: nat, r: Region, f: nat)
    requires Stands(mem, at, RegionBytes(extra, r))
    requires r.base < 0x1_0000_0000_0000_0000 && r.length < 0x1_0000_0000_0000_0000 && r.kind < 0x1_0000_0000
    ensures Grants(mem, at, f) <==>
            f < 0x10_0000 && r.kind == 1 && r.base <= f * 4096 && f * 4096 + 4096 <= r.base + r.length
  {
    hide U32, U64, Word, Long, Stands, Zeros;
    var tail := Word(0) + Zeros(extra);
    StandsInside(mem, at, RegionBytes(extra, r));
    StandsBoth(mem, at, Long(r.base), Long(r.length) + (Word(r.kind) + tail));
    StandsBoth(mem, at + 8, Long(r.length), Word(r.kind) + tail);
    StandsBoth(mem, at + 16, Word(r.kind), tail);
    LongRead(mem, at, r.base);
    LongRead(mem, at + 8, r.length);
    WordRead(mem, at + 16, r.kind);
  }

  lemma {:induction false} RegionListSize(extra: nat, regions: seq<Region>)
    ensures |RegionList(extra, regions)| == |regions| * (24 + extra)
  {
    if regions != [] {
      RegionListSize(extra, regions[1..]);
      OneTimeMore(|regions| - 1, 24 + extra);
    }
  }

  lemma OneTimeMore(n: nat, size: nat)
    ensures (n + 1) * size == size + n * size
  {
  }

  lemma {:induction false} RegionFound(mem: seq<Byte>, at: nat, extra: nat, regions: seq<Region>, i: nat)
    requires Stands(mem, at, RegionList(extra, regions)) && i < |regions|
    ensures Stands(mem, at + i * (24 + extra), RegionBytes(extra, regions[i]))
    decreases i
  {
    hide Stands, RegionBytes;
    StandsBoth(mem, at, RegionBytes(extra, regions[0]), RegionList(extra, regions[1..]));
    if i > 0 {
      RegionFound(mem, at + (24 + extra), extra, regions[1..], i - 1);
      OneTimeMore(i - 1, 24 + extra);
    }
  }

  ghost predicate Within(r: Region, f: nat) {
    f < 0x10_0000 && r.kind == 1 && r.base <= f * 4096 && f * 4096 + 4096 <= r.base + r.length
  }

  lemma MapRead(mem: seq<Byte>, at: nat, t: Tag)
    requires t.Map? && Stands(mem, at, TagBytes(t)) && Fits(t) && |mem| < 0x1_0000_0000
    ensures at + 8 <= |mem| && at + TagSize(mem, at) <= |mem|
    ensures MapOk(mem, at) <==> t.regions != []
    ensures t.regions != [] ==>
              forall f: nat :: GrantedBy(mem, at, MapCount(mem, at), f) <==> exists r <- t.regions :: Within(r, f)
  {
    MapParts(mem, at, t);
    RegionListSize(t.extra, t.regions);
    hide U32, Stands, TagBytes, RegionList, GrantedBy, Within, MapOk, MapCount, TagSize, Fits;
    MapShape(mem, at, |t.regions|, 24 + t.extra);
    if t.regions != [] {
      forall f: nat ensures GrantedBy(mem, at, |t.regions|, f) <==> exists r <- t.regions :: Within(r, f) {
        EntriesRead(mem, at, t, f);
      }
    }
  }

  lemma MapParts(mem: seq<Byte>, at: nat, t: Tag)
    requires t.Map? && Stands(mem, at, TagBytes(t)) && Fits(t) && |mem| < 0x1_0000_0000
    ensures at + 16 <= at + TagSize(mem, at) <= |mem|
    ensures TagSize(mem, at) == 16 + |RegionList(t.extra, t.regions)| && U32(mem, at + 8) == 24 + t.extra
    ensures Stands(mem, at + 16, RegionList(t.extra, t.regions))
  {
    MapBody(t);
    var list := RegionList(t.extra, t.regions);
    hide U32, Word, Stands, TagBytes, RegionList, TagSize, TagType, BodyOf;
    TagRead(mem, at, t);
    StandsBoth(mem, at + 8, Word(24 + t.extra), Word(0) + list);
    StandsBoth(mem, at + 12, Word(0), list);
    WordRead(mem, at + 8, 24 + t.extra);
  }

  lemma MapBody(t: Tag)
    requires t.Map?
    ensures BodyOf(t) == Word(24 + t.extra) + (Word(0) + RegionList(t.extra, t.regions))
    ensures |BodyOf(t)| == 8 + |RegionList(t.extra, t.regions)|
  {
    hide Word, RegionList;
  }

  lemma MapShape(mem: seq<Byte>, at: nat, n: nat, size: nat)
    requires at + 8 <= |mem| && at + TagSize(mem, at) <= |mem| && TagSize(mem, at) == 16 + n * size
    requires at + 12 <= |mem| && U32(mem, at + 8) == size >= 24
    ensures MapOk(mem, at) <==> n > 0
    ensures n > 0 ==> MapCount(mem, at) == n
  {
    hide U32;
    Wholes(n, size);
  }

  lemma EntriesRead(mem: seq<Byte>, at: nat, t: Tag, f: nat)
    requires t.Map? && Fits(t) && at + 8 <= |mem| && at + TagSize(mem, at) <= |mem| && MapOk(mem, at)
    requires MapCount(mem, at) == |t.regions| && U32(mem, at + 8) == 24 + t.extra
    requires Stands(mem, at + 16, RegionList(t.extra, t.regions))
    ensures GrantedBy(mem, at, |t.regions|, f) <==> exists r <- t.regions :: Within(r, f)
  {
    hide U32, Stands, RegionList, RegionBytes, Grants, MapOk, MapCount;
    forall i: nat | i < |t.regions| ensures EntryGrants(mem, at, i, f) <==> Within(t.regions[i], f) {
      RegionFound(mem, at + 16, t.extra, t.regions, i);
      RegionRead(mem, at + 16 + i * (24 + t.extra), t.extra, t.regions[i], f);
    }
    hide EntryGrants, Within;
    if exists r <- t.regions :: Within(r, f) {
      var r :| r in t.regions && Within(r, f);
      var i: nat :| i < |t.regions| && t.regions[i] == r;
      assert EntryGrants(mem, at, i, f);
    }
  }

  // ----- modules and framebuffers

  lemma KeepsRead(mem: seq<Byte>, at: nat, t: Tag, f: nat)
    requires Stands(mem, at, TagBytes(t)) && Fits(t) && |mem| < 0x1_0000_0000 && f < 0x10_0000
    ensures TagReserves(mem, at, f) <==> TagKeeps(t, f)
  {
    TagRead(mem, at, t);
    KindFits(t);
    BodySizes(t);
    hide TagBytes, U32, U64, Stands, Overlaps, Touched, ModuleTouches, FramebufferTouches, BodyOf;
    if t.Module? { ModuleRead(mem, at, t, f); }
    if t.Framebuffer? { FramebufferRead(mem, at, t, f); }
  }

  lemma BodySizes(t: Tag)
    requires Fits(t)
    ensures (t.Module? ==> |BodyOf(t)| >= 8) && (t.Framebuffer? ==> |BodyOf(t)| >= 24)
  {
    hide Word, Long;
  }

  lemma ModuleRead(mem: seq<Byte>, at: nat, t: Tag, f: nat)
    requires at + 16 <= |mem| && t.Module? && Stands(mem, at + 8, BodyOf(t)) && Fits(t) && f < 0x10_0000
    ensures ModuleTouches(mem, at, f) <==> Overlaps(f, t.start, t.end)
  {
    hide U32, Word, Stands;
    StandsBoth(mem, at + 8, Word(t.start), Word(t.end) + t.text);
    StandsBoth(mem, at + 12, Word(t.end), t.text);
    WordRead(mem, at + 8, t.start);
    WordRead(mem, at + 12, t.end);
  }

  lemma FramebufferRead(mem: seq<Byte>, at: nat, t: Tag, f: nat)
    requires at + 32 <= |mem| && t.Framebuffer? && Stands(mem, at + 8, BodyOf(t)) && Fits(t) && f < 0x10_0000
    ensures FramebufferTouches(mem, at, f) <==> t.base != 0 && Overlaps(f, t.base, t.base + t.pitch * t.height)
  {
    hide U32, U64, Word, Long, Stands;
    StandsBoth(mem, at + 8, Long(t.base), Word(t.pitch) + (Word(t.width) + (Word(t.height) + t.format)));
    StandsBoth(mem, at + 16, Word(t.pitch), Word(t.width) + (Word(t.height) + t.format));
    StandsBoth(mem, at + 20, Word(t.width), Word(t.height) + t.format);
    StandsBoth(mem, at + 24, Word(t.height), t.format);
    LongRead(mem, at + 8, t.base);
    WordRead(mem, at + 16, t.pitch);
    WordRead(mem, at + 24, t.height);
    Positive(t.pitch, t.height);
  }

  // ----- the whole information

  lemma InfoStands(tags: seq<Tag>)
    requires |Info(tags)| < 0x1_0000_0000
    ensures var mem := Info(tags);
            |mem| == 8 + |TagList(tags)| && U32(mem, 0) == |mem| && Stands(mem, 8, TagList(tags)) && |mem| >= 16
  {
    hide U32, Word, TagBytes;
    var mem := Info(tags);
    assert mem[0..|mem|] == mem;
    assert Stands(mem, 0, Info(tags));
    StandsBoth(mem, 0, Word(|mem|), Word(0) + TagList(tags));
    StandsBoth(mem, 4, Word(0), TagList(tags));
    WordRead(mem, 0, |mem|);
    EndThere(tags);
  }

  lemma {:induction false} EndThere(tags: seq<Tag>)
    ensures |TagList(tags)| >= 8
  {
    if tags != [] { EndThere(tags[1..]); }
  }

  /** The tags are in order exactly when one of them, not empty, is a map, and then it grants what it offers. */
  lemma TagsMean(tags: seq<Tag>)
    requires |Info(tags)| < 0x1_0000_0000 && forall t <- tags :: Fits(t)
    ensures var mem := Info(tags);
            && Walk(mem, |mem|, 8).ok
            && (GoodTags(mem, |mem|) ==> OneMap(tags))
            && forall f: nat ::
                 && (Granted(mem, |mem|, f) <==> OneMap(tags) && Offered(tags, f))
                 && (f < 0x10_0000 ==>
                      (SomeReserves(mem, Walk(mem, |mem|, 8).at, f) <==> exists t <- tags :: TagKeeps(t, f)))
  {
    hide U32, Word, TagBytes, Info, TagList, Fits, Stands, Walk, MapOk, GrantedBy, TagReserves, TagKeeps, OneMap;
    hide OnlyMap, Within, Offered, TagType, MapCount;
    InfoStands(tags);
    var mem := Info(tags);
    WalkFinds(mem, tags, 8);
    var at := Walk(mem, |mem|, 8).at;
    forall i | 0 <= i < |tags|
      ensures at[i] + 8 <= |mem| && (TagType(mem, at[i]) == TAG_MAP <==> tags[i].Map?)
    {
      TagRead(mem, at[i], tags[i]);
      KindFits(tags[i]);
    }
    MapsFound(mem, tags, at);
    forall f: nat
      ensures Granted(mem, |mem|, f) <==> OneMap(tags) && Offered(tags, f)
      ensures f < 0x10_0000 ==> (SomeReserves(mem, at, f) <==> exists t <- tags :: TagKeeps(t, f))
    {
      if OneMap(tags) { MapMeans(mem, tags, at, f); }
      if f < 0x10_0000 { KeepsMean(mem, tags, at, f); }
    }
  }

  lemma MapMeans(mem: seq<Byte>, tags: seq<Tag>, at: seq<nat>, f: nat)
    requires |mem| < 0x1_0000_0000 && (forall t <- tags :: Fits(t)) && OneMap(tags)
    requires Walk(mem, |mem|, 8) == Tags(true, at) && |at| == |tags|
    requires forall i | 0 <= i < |tags| :: Stands(mem, at[i], TagBytes(tags[i]))
    requires forall i | 0 <= i < |tags| && OnlyMap(tags, i) :: |Maps(mem, at)| == 1 && Maps(mem, at)[0] == at[i]
    ensures Granted(mem, |mem|, f) <==> Offered(tags, f)
  {
    hide U32, TagBytes, Fits, Stands, Walk, MapOk, GrantedBy, TagType, MapCount, Within;
    var i :| OnlyMap(tags, i);
    MapRead(mem, at[i], tags[i]);
    OfferedBy(tags, i, f);
  }

  lemma OfferedBy(tags: seq<Tag>, i: int, f: nat)
    requires OnlyMap(tags, i)
    ensures Offered(tags, f) <==> exists r <- tags[i].regions :: Within(r, f)
  {
    if exists r <- tags[i].regions :: Within(r, f) {
      var r :| r in tags[i].regions && Within(r, f);
      assert tags[i] in tags;
    }
    if Offered(tags, f) {
      var t :| t in tags && t.Map? && exists r <- t.regions ::
          r.kind == 1 && r.base <= f * 4096 && f * 4096 + 4096 <= r.base + r.length;
      var r :| r in t.regions && r.kind == 1 && r.base <= f * 4096 && f * 4096 + 4096 <= r.base + r.length;
      assert Within(r, f);
    }
  }

  lemma KeepsMean(mem: seq<Byte>, tags: seq<Tag>, at: seq<nat>, f: nat)
    requires |mem| < 0x1_0000_0000 && (forall t <- tags :: Fits(t)) && |at| == |tags| && f < 0x10_0000
    requires forall i | 0 <= i < |tags| :: Stands(mem, at[i], TagBytes(tags[i]))
    ensures SomeReserves(mem, at, f) <==> exists t <- tags :: TagKeeps(t, f)
  {
    hide TagBytes, Fits, Stands, TagReserves, TagKeeps;
    forall i | 0 <= i < |tags| ensures TagReserves(mem, at[i], f) <==> TagKeeps(tags[i], f) {
      KeepsRead(mem, at[i], tags[i], f);
    }
    if exists t <- tags :: TagKeeps(t, f) {
      var t :| t in tags && TagKeeps(t, f);
      var i :| 0 <= i < |tags| && tags[i] == t;
      assert TagReserves(mem, at[i], f);
    }
    if SomeReserves(mem, at, f) {
      var i :| 0 <= i < |at| && TagReserves(mem, at[i], f);
      assert tags[i] in tags;
    }
  }

  /** Started with any such information, the allocator is ready exactly when it holds one map that offers a frame, and
      then exactly the frames offered and not kept back are free. */
  method Start(p: Pmm, info: nat, tags: seq<Tag>, kernel: nat, kernelEnd: nat)
    requires p.Shaped() && (forall t <- tags :: Fits(t)) && |Info(tags)| < 0x1_0000_0000
    requires info != 0 && info % 8 == 0 && info + |Info(tags)| < 0x1_0000_0000_0000_0000
    modifies p, p.free, p.avail
    ensures p.Valid()
    ensures p.ready <==> OneMap(tags) && (exists f: nat :: Offered(tags, f)) && kernel < kernelEnd
    ensures p.ready ==>
              forall f: nat :: f in p.Free() <==> Offered(tags, f) && !Kept(info, tags, kernel, kernelEnd, f)
    ensures !p.ready ==> p.Free() == iset{}
  {
    hide U32, Info, Walk, Fits, OneMap, Offered, GoodTags, Granted, Reserved, Kept, Frames;
    InfoStands(tags);
    TagsMean(tags);
    forall f: nat | Offered(tags, f) && kernel < kernelEnd
      ensures Reserved(info, Info(tags), |Info(tags)|, kernel, kernelEnd, f) <==> Kept(info, tags, kernel, kernelEnd, f)
    {
      KeptIs(info, tags, kernel, kernelEnd, f);
    }
    GoodIfGranted(Info(tags));
    Init(p, info, Info(tags), kernel, kernelEnd);
  }

  lemma GoodIfGranted(mem: seq<Byte>)
    ensures forall f: nat :: Granted(mem, |mem|, f) ==> GoodTags(mem, |mem|)
  {
    hide GoodTags, GrantedBy;
  }

  lemma KeptIs(info: nat, tags: seq<Tag>, kernel: nat, kernelEnd: nat, f: nat)
    requires Offered(tags, f) && kernel < kernelEnd
    requires var at := Walk(Info(tags), |Info(tags)|, 8).at;
             f < 0x10_0000 ==> (SomeReserves(Info(tags), at, f) <==> exists t <- tags :: TagKeeps(t, f))
    requires |Info(tags)| > 0
    ensures Reserved(info, Info(tags), |Info(tags)|, kernel, kernelEnd, f) <==> Kept(info, tags, kernel, kernelEnd, f)
  {
    hide SomeReserves, Walk, Info, TagKeeps;
  }
}
