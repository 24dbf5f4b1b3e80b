// The physical frame allocator of pmm.cpp, once its maps are set up: next-fit single frames,
// first-fit runs of frames, and release.
module Pmm {
  import opened PmmBits

  const MAX_ADDRESS: nat := MAX_FRAMES * FRAME
  const ALLOC_FRAMES: nat := 0x4_0000   // frames below 1 GiB: the only ones handed out
  const LOW_FRAMES: nat := 256          // the first MiB

  /** The frames first .. first+n-1. */
  ghost function Run(first: nat, n: nat): iset<nat> {
    iset f: nat | InRun(f, first, n)
  }

  ghost predicate InRun(f: nat, first: nat, n: nat) {
    first <= f < first + n
  }

  class Pmm {
    const free: array<bv8>    // mapa_bitowa
    const avail: array<bv8>   // mapa_dostepnosci
    var highest: nat          // najwyzsza_znaleziona_ramka
    var cursor: nat           // ostatnia_alokacja
    var ready: bool           // pmm_zainicjalizowany
    ghost var out: iset<nat>  // frames handed out and not released since

    constructor (free: array<bv8>, avail: array<bv8>)
      requires free != avail && free.Length == avail.Length == MAP_BYTES
      requires Frames(free[..]) == iset{} && Frames(avail[..]) == iset{}
      ensures this.free == free && this.avail == avail && Valid() && !ready
    {
      this.free, this.avail := free, avail;
      highest, cursor, ready, out := 0, 0, false, iset{};
    }

    ghost predicate Shaped()
      reads this
    {
      free != avail && free.Length == avail.Length == MAP_BYTES
    }

    ghost function Free(): iset<nat>
      reads this, free
    {
      Frames(free[..])
    }

    ghost function Avail(): iset<nat>
      reads this, avail
    {
      Frames(avail[..])
    }

    /** Free frames are available ones, none of them handed out; the first MiB never is available. */
    ghost predicate Valid()
      reads this, free, avail
    {
      && Shaped()
      && Free() <= Avail() && (forall f <- Avail() :: LOW_FRAMES <= f < highest) && highest <= MAX_FRAMES
      && (forall f <- out :: f !in Free())
      && (!ready ==> Free() == iset{})
    }

    function Limit(): nat
      reads this`highest
    {
      if highest > ALLOC_FRAMES then ALLOC_FRAMES else highest
    }

    /** Where the next search begins once frame `f` has been taken. */
    function After(f: nat, limit: nat): nat {
      if f + 1 >= limit then 0 else f + 1
    }

    // ----- one frame

    /** One pass of `ZaalokujRamke`. Frame 0 is never handed out: it is taken out of use if it turns up. */
    method TakeFirst(from: nat, stop: nat, limit: nat) returns (p: nat)
      requires Shaped()
      modifies this`cursor, this`out, free, avail
      ensures Shaped()
      ensures 0 !in old(Avail()) && old(Free()) <= old(Avail()) ==>
                && Avail() == old(Avail())
                && (p == 0 ==> Free() == old(Free()) && out == old(out) && cursor == old(cursor)
                               && forall f | from <= f < stop :: f !in Free())
                && (p != 0 ==> Taken(p / FRAME, from, stop, old(Free()), Free(), old(out), out) && p % FRAME == 0
                               && cursor == After(p / FRAME, limit))
    {
      p := 0;
      var f := from;
      while f < stop
        invariant Shaped() && p == 0
        invariant 0 !in old(Avail()) && old(Free()) <= old(Avail()) ==>
                    && Avail() == old(Avail()) && Free() == old(Free()) && out == old(out) && cursor == old(cursor)
                    && forall g | from <= g < f :: g !in Free()
        decreases stop - f
      {
        var here := TestBit(avail, f);
        var unused := TestBit(free, f);
        if here && unused {
          ClearBit(free, f);
          cursor := After(f, limit);
          if f == 0 {
            ClearBit(avail, f);
            ClearBit(free, f);
          } else {
            out := out + iset{f};
            return f * FRAME;
          }
        }
        f := f + 1;
      }
    }

    /** `ZaalokujRamke` (pmm.cpp:1203-1315): next fit; 0 only when no frame below 1 GiB is free. */
    method AllocFrame() returns (p: nat)
      requires Valid()
      modifies this`cursor, this`out, free, avail
      ensures Valid() && Avail() == old(Avail())
      ensures p == 0 ==> Free() == old(Free()) && out == old(out)
      ensures p == 0 <==> !ready || forall f: nat | f < 0x4_0000 :: f !in old(Free())
      ensures p != 0 ==>
                var f := p / 4096;
                && p == f * 4096 && 256 <= f < 0x4_0000 && f in old(Free()) && f !in old(out)
                && Free() == old(Free()) - iset{f} && out == old(out) + iset{f}
                && cursor == (if f + 1 == 0x4_0000 || f + 1 == highest then 0 else f + 1)
      ensures p != 0 && old(cursor) < highest && old(cursor) < 0x4_0000 ==>
                var f := p / 4096;
                if old(cursor) <= f then forall g: nat | old(cursor) <= g < f :: g !in old(Free())
                else forall g: nat | g < f || old(cursor) <= g < 0x4_0000 :: g !in old(Free())
    {
      hide Frames;
      p := 0;
      if !ready { return; }
      var limit := Limit();
      if limit == 0 { return; }
      if cursor >= limit { cursor := 0; }
      var start := cursor;
      p := TakeFirst(start, limit, limit);
      if p != 0 { return; }
      p := TakeFirst(0, if cursor < limit then cursor else limit, limit);
    }

    /** `ZwolnijRamke` (pmm.cpp:1354-1422): only an available, busy frame's exact address does anything. */
    method FreeFrame(p: nat)
      requires Valid()
      modifies this`cursor, this`out, free
      ensures Valid()
      ensures var f := p / 4096;
              if p != 0 && p % 4096 == 0 && ready && f in old(Avail()) && f !in old(Free())
              then Free() == old(Free()) + iset{f} && out == old(out) - iset{f}
                  && cursor == (if f < old(cursor) then f else old(cursor))
              else Free() == old(Free()) && out == old(out) && cursor == old(cursor)
    {
      hide Frames;
      InRange(avail[..], p / FRAME);
      if p == 0 || p % FRAME != 0 || !ready { return; }
      if p >= MAX_ADDRESS { return; }
      var f := p / FRAME;
      var here := TestBit(avail, f);
      if !here { return; }
      var unused := TestBit(free, f);
      if unused { return; }
      SetBit(free, f);
      out := out - iset{f};
      if f < cursor { cursor := f; }
    }

    /** `OdblokujRamke` (pmm.cpp:952-982): makes an available frame free whoever holds it. */
    method Unlock(p: nat)
      requires Valid()
      modifies this`cursor, this`out, free
      ensures Valid()
      ensures var f := p / 4096;
              if ready && f in old(Avail()) then Free() == old(Free()) + iset{f} && out == old(out) - iset{f}
              else Free() == old(Free()) && out == old(out)
    {
      hide Frames;
      InRange(avail[..], p / FRAME);
      if !ready || p >= MAX_ADDRESS { return; }
      var f := p / FRAME;
      var here := TestBit(avail, f);
      if here {
        SetBit(free, f);
        out := out - iset{f};
      }
      if f < cursor { cursor := f; }
    }

    /** `ZabezpieczRamke` (pmm.cpp:984-1004). */
    method Secure(p: nat)
      requires Valid()
      modifies free
      ensures Valid()
      ensures Free() == if ready then old(Free()) - iset{p / 4096} else old(Free())
    {
      hide Frames;
      if !ready || p >= MAX_ADDRESS { return; }
      ClearBit(free, p / FRAME);
    }

    /** `CzyRamkaWolna` (pmm.cpp:1006-1026). */
    method IsFree(p: nat) returns (yes: bool)
      requires Valid()
      ensures yes <==> p / 4096 in Free()
    {
      hide Frames;
      InRange(free[..], p / FRAME);
      if !ready || p >= MAX_ADDRESS { return false; }
      var here := TestBit(avail, p / FRAME);
      var unused := TestBit(free, p / FRAME);
      yes := here && unused;
    }

    // ----- runs of frames

    /** The first busy frame of first .. first+n-1, as an offset, or n. */
    method FirstBusy(first: nat, n: nat) returns (i: nat)
      requires Valid()
      ensures i <= n && Run(first, i) <= Free() && (i < n ==> first + i !in Free())
    {
      hide Frames;
      i := 0;
      while i < n
        invariant i <= n && forall f: nat | first <= f < first + i :: f in Free()
      {
        var here := TestBit(avail, first + i);
        var unused := TestBit(free, first + i);
        if !here || !unused { return; }
        i := i + 1;
      }
    }

    /** `ZaalokujCiagleRamki` (pmm.cpp:1317-1348): the lowest run of `n` free frames from frame 256 on. */
    method AllocRun(n: nat) returns (p: nat)
      requires Valid()
      modifies this`cursor, this`out, free
      ensures Valid() && Avail() == old(Avail())
      ensures p == 0 ==> Free() == old(Free()) && out == old(out)
      ensures p == 0 <==> !ready || n == 0 || forall s: nat | 256 <= s && s + n <= 0x4_0000 ::
              !(Run(s, n) <= old(Free()))
      ensures p != 0 ==>
                var s := p / 4096;
                && p == s * 4096 && 256 <= s && s + n <= 0x4_0000 && Run(s, n) <= old(Free())
                && (forall t: nat | 256 <= t < s :: !(Run(t, n) <= old(Free())))
                && (forall f <- Run(s, n) :: f !in old(out))
                && Free() == old(Free()) - Run(s, n) && out == old(out) + Run(s, n)
                && cursor == (if s + n == 0x4_0000 || s + n == highest then 0 else s + n)
    {
      hide Frames;
      p := 0;
      if n == 0 || n > ALLOC_FRAMES { return; }
      if !ready { return; }
      var limit := Limit();
      NoRunBeyond(Free(), limit, n);
      if n > limit { return; }
      var start := LOW_FRAMES;
      while start <= limit - n
        invariant LOW_FRAMES <= start
        invariant Valid() && Free() == old(Free()) && out == old(out) && Avail() == old(Avail())
        invariant forall t: nat | LOW_FRAMES <= t < start :: !(Run(t, n) <= Free())
        decreases limit - start
      {
        var busy := FirstBusy(start, n);
        if busy == n {
          RunTaken(start, n);
          cursor := After(start + n - 1, limit);
          return start * FRAME;
        }
        BusyBlocks(Free(), start, n, start + busy);
        start := start + busy + 1;
      }
    }

    /** Takes first .. first+n-1. */
    method RunTaken(first: nat, n: nat)
      requires Valid() && Run(first, n) <= Free()
      modifies this`out, free
      ensures Valid() && Free() == old(Free()) - Run(first, n) && out == old(out) + Run(first, n)
    {
      hide Frames;
      var i := 0;
      while i < n
        invariant 0 <= i <= n && Shaped() && out == old(out)
        invariant Free() == old(Free()) - Run(first, i)
      {
        ClearBit(free, first + i);
        RunGrows(first, i);
        i := i + 1;
      }
      out := out + Run(first, n);
    }

    /** Is every frame of the run available and busy? */
    method AllHeld(first: nat, n: nat) returns (yes: bool)
      requires Shaped()
      ensures yes <==> Run(first, n) <= Avail() - Free()
    {
      hide Frames;
      var i := 0;
      while i < n
        invariant 0 <= i <= n && forall f: nat | first <= f < first + i :: f in Avail() && f !in Free()
      {
        var here := TestBit(avail, first + i);
        var unused := TestBit(free, first + i);
        if !here || unused {
          assert first + i in Run(first, n);
          return false;
        }
        i := i + 1;
      }
      yes := true;
    }

    /** `ZwolnijCiagleRamki` (pmm.cpp:1424-1441): all of the run, or nothing. */
    method FreeRun(p: nat, n: nat)
      requires Valid()
      modifies this`cursor, this`out, free
      ensures Valid()
      ensures var s := p / 4096;
              if p != 0 && n != 0 && p % 4096 == 0 && ready && s + n <= 0x4_0000
                  && Run(s, n) <= old(Avail()) - old(Free())
              then Free() == old(Free()) + Run(s, n) && out == old(out) - Run(s, n)
                  && cursor == (if s < old(cursor) then s else old(cursor))
              else Free() == old(Free()) && out == old(out) && cursor == old(cursor)
    {
      hide Frames;
      if p == 0 || n == 0 || p % FRAME != 0 || n > ALLOC_FRAMES || !ready { return; }
      var start := p / FRAME;
      if start >= ALLOC_FRAMES || n > ALLOC_FRAMES - start { return; }
      var held := AllHeld(start, n);
      if !held { return; }
      var i := 0;
      while i < n
        invariant 0 <= i <= n && Shaped() && out == old(out) && cursor == old(cursor)
        invariant Free() == old(Free()) + Run(start, i)
      {
        SetBit(free, start + i);
        RunGrows(start, i);
        i := i + 1;
      }
      out := out - Run(start, n);
      if start < cursor { cursor := start; }
    }
  }

  lemma InRange(m: seq<bv8>, f: nat)
    ensures f in Frames(m) ==> f < MAX_FRAMES
  {
  }

  lemma RunGrows(first: nat, n: nat)
    ensures Run(first, n + 1) == Run(first, n) + iset{first + n}
  {
  }

  /** A busy frame lies in every run that starts at or before it and reaches it. */
  lemma BusyBlocks(free: iset<nat>, start: nat, n: nat, busy: nat)
    requires start <= busy < start + n && busy !in free
    ensures forall t: nat | start <= t <= busy :: !(Run(t, n) <= free)
  {
    forall t: nat | start <= t <= busy ensures !(Run(t, n) <= free) { assert busy in Run(t, n); }
  }

  /** No run of free frames ends past the highest frame there is. */
  lemma NoRunBeyond(free: iset<nat>, limit: nat, n: nat)
    requires n > 0
    ensures forall t: nat | t + n > limit && t + n <= ALLOC_FRAMES && Run(t, n) <= free :: exists f <- free ::
            f >= limit && f < ALLOC_FRAMES
  {
    forall t: nat | t + n > limit && t + n <= ALLOC_FRAMES && Run(t, n) <= free ensures exists f <- free ::
        f >= limit && f < ALLOC_FRAMES {
      assert t + n - 1 in Run(t, n);
    }
  }

  /** Frame `f` was the first free one from `from` on, and has been handed out. */
  ghost predicate Taken(f: nat, from: nat, stop: nat, free: iset<nat>, free': iset<nat>, out: iset<nat>,
      out': iset<nat>) {
    && from <= f < stop && f in free && (forall g: nat | from <= g < f :: g !in free)
    && free' == free - iset{f} && out' == out + iset{f}
  }
}
