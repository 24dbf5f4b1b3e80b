// The receive ring of e1000.cpp (1662-1730, 1823-1864, 2542-2677) against a network card that may
// complete the descriptors it owns at any moment (Intel 8254x Software Developer's Manual, section 3.2.6).
module ReceiveRing {
  const SLOTS: nat := 32
  const MIN_FRAME: nat := 14
  const MAX_FRAME: nat := 1518
  const BUFFER: nat := 2048

  /** What the card leaves in a completed descriptor and its buffer. */
  datatype Packet = Packet(length: nat, errors: nat, endOfPacket: bool, bytes: seq<nat>)

  /** A descriptor: its descriptor-done bit, and what its fields and buffer hold. */
  datatype Desc = Desc(done: bool, packet: Packet)

  /** Where `e1000_obsluz_odbior` stands, with its locals. */
  datatype Driver =
    | Idle
    | Look(handled: nat)                              // at the head of the loop
    | Found(handled: nat, slot: nat)                  // the done bit was seen
    | Got(handled: nat, slot: nat, packet: Packet)    // fields and buffer read
    | Cleared(handled: nat, slot: nat)                // status zeroed
    | Given(handled: nat, slot: nat)                  // RDT written

  /** Memory, the two registers, the driver, and what has happened. */
  datatype State = State(ring: seq<Desc>, head: nat, tail: nat, current: nat, driver: Driver,
                         completed: seq<Packet>, read: seq<Packet>, passed: seq<Packet>, given: nat)

  function Next(i: nat): nat {
    (i + 1) % SLOTS
  }

  /** The driver hands a packet on only when it is whole, flawless and of a sane length. */
  predicate Good(p: Packet) {
    p.endOfPacket && p.errors == 0 && MIN_FRAME <= p.length <= MAX_FRAME && p.length <= BUFFER
  }

  /** The packets with the end of packet set, no error, and 14 to 1518 bytes. */
  function GoodOnes(ps: seq<Packet>): seq<Packet> {
    if ps == [] then []
    else
      var last := ps[|ps|-1];
      GoodOnes(ps[..|ps|-1])
      + (if last.endOfPacket && last.errors == 0 && 14 <= last.length <= 1518 then [last] else [])
  }

  /** `zaalokuj_rx` and `skonfiguruj_rx`: cleared descriptors, RDH 0, RDT 31. */
  ghost predicate Starts(s: State) {
    && |s.ring| == SLOTS && (forall i | 0 <= i < SLOTS :: !s.ring[i].done)
    && s.head == 0 && s.tail == SLOTS - 1 && s.current == 0 && s.driver == Idle
    && s.completed == [] && s.read == [] && s.passed == [] && s.given == 0
  }

  datatype Step =
    | Complete(packet: Packet)            // the card finishes the descriptor at RDH
    | Scribble(slot: nat, packet: Packet) // the card writes into any descriptor it owns, not yet done
    | Enter                               // the driver is called
    | Drive                               // the driver takes its next step

  /** The card owns the descriptors from RDH up to, but not including, RDT. */
  predicate Owns(s: State, slot: nat) {
    slot < SLOTS && (slot + SLOTS - s.head) % SLOTS < (s.tail + SLOTS - s.head) % SLOTS
  }

  predicate Enabled(s: State, e: Step) {
    match e
    case Complete(_) => s.head != s.tail
    case Scribble(slot, _) => s.head <= SLOTS && Owns(s, slot)
    case Enter => s.driver == Idle
    case Drive => s.driver != Idle
  }

  function DriverStep(s: State): State
    requires |s.ring| == SLOTS
  {
    match s.driver
    case Idle => s
    case Look(n) =>
      if n < SLOTS && s.current < SLOTS && s.ring[s.current].done then s.(driver := Found(n, s.current))
      else s.(driver := Idle)
    case Found(n, slot) =>
      if slot < SLOTS then
        s.(driver := Got(n, slot, s.ring[slot].packet), read := s.read + [s.ring[slot].packet])
      else s
    case Got(n, slot, p) =>
      var passed := if Good(p) then s.passed + [p] else s.passed;
      s.(driver := Cleared(n, slot), passed := passed,
         ring := if slot < SLOTS then s.ring[slot := Desc(false, Packet(0, 0, false, p.bytes))] else s.ring)
    case Cleared(n, slot) => s.(driver := Given(n, slot), tail := slot, given := s.given + 1)
    case Given(n, slot) => s.(driver := Look(n + 1), current := Next(slot))
  }

  function After(s: State, e: Step): State
    requires |s.ring| == SLOTS
  {
    match e
    case Complete(p) =>
      s.(ring := if s.head < SLOTS then s.ring[s.head := Desc(true, p)] else s.ring,
         head := Next(s.head), completed := s.completed + [p])
    case Scribble(slot, p) =>
      s.(ring := if slot < SLOTS then s.ring[slot := Desc(s.ring[slot].done, p)] else s.ring)
    case Enter => s.(driver := Look(0))
    case Drive => DriverStep(s)
  }

  // ----- the invariant

  /** Packets read but whose slot has not been given back: 1 from the read to the write of RDT. */
  function Held(s: State): nat {
    if s.driver.Got? || s.driver.Cleared? then 1 else 0
  }

  /** Packets whose slot has been cleared. */
  function Reusable(s: State): nat {
    s.given + (if s.driver.Cleared? then 1 else 0)
  }

  ghost predicate Counts(s: State) {
    && |s.ring| == SLOTS
    && s.given + Held(s) == |s.read| <= |s.completed| <= s.given + SLOTS - 1
    && s.read == s.completed[..|s.read|]
    && s.head == |s.completed| % SLOTS && s.tail == (s.given + SLOTS - 1) % SLOTS
  }

  /** For the 32 packets from `low` on: the slot of one completed holds it, any other slot is not done. */
  ghost predicate SlotOk(ring: seq<Desc>, completed: seq<Packet>, low: nat, i: nat) {
    |ring| == SLOTS && low <= i < low + SLOTS ==>
      if i < |completed| then ring[i % SLOTS] == Desc(true, completed[i]) else !ring[i % SLOTS].done
  }

  ghost predicate Slots(s: State) {
    forall i: nat {:trigger SlotOk(s.ring, s.completed, Reusable(s), i)} :: SlotOk(s.ring, s.completed, Reusable(s), i)
  }

  ghost predicate DriverOk(s: State) {
    match s.driver
    case Idle => s.current == s.given % SLOTS
    case Look(_) => s.current == s.given % SLOTS
    case Found(_, slot) => slot == s.current == s.given % SLOTS && s.given < |s.completed|
    case Got(_, slot, p) => slot == s.current == s.given % SLOTS && s.given < |s.completed| && p == s.completed[s.given]
    case Cleared(_, slot) => slot == s.current == s.given % SLOTS && s.given < |s.completed|
    case Given(_, slot) => s.given > 0 && slot == s.current == (s.given - 1) % SLOTS
  }

  /** Packets passed on are the good ones among those dealt with. */
  ghost predicate PassedOk(s: State) {
    s.passed == GoodOnes(if s.driver.Got? && |s.read| > 0 then s.read[..|s.read|-1] else s.read)
  }

  ghost predicate Inv(s: State) {
    Counts(s) && Slots(s) && DriverOk(s) && PassedOk(s)
  }

  lemma ModStep(a: nat)
    ensures Next(a % SLOTS) == (a + 1) % SLOTS
  {
  }

  lemma Distinct(a: nat, b: nat)
    requires a < b < a + SLOTS
    ensures a % SLOTS != b % SLOTS
  {
  }

  lemma StartInv(s: State)
    requires Starts(s)
    ensures Inv(s)
  {
    FirstSlots(s);
    hide Slots;
  }

  /** Two packets of one turn of the ring lie in different slots. */
  lemma Apart(low: nat, i: nat, j: nat)
    requires low <= i < low + SLOTS && low <= j < low + SLOTS && i != j
    ensures i % SLOTS != j % SLOTS
  {
    if i < j { Distinct(i, j); } else { Distinct(j, i); }
  }

  lemma FirstSlots(s: State)
    requires Starts(s)
    ensures Slots(s)
  {
    forall i: nat ensures SlotOk(s.ring, s.completed, 0, i) {}
  }

  lemma CompleteInv(s: State, p: Packet)
    requires Inv(s) && s.head != s.tail
    ensures Inv(After(s, Complete(p)))
  {
    hide GoodOnes;
    var n := |s.completed|;
    var s' := After(s, Complete(p));
    ModStep(n);
    RoomLeft(s);
    forall i: nat ensures SlotOk(s'.ring, s'.completed, Reusable(s'), i) {
      assert SlotOk(s.ring, s.completed, Reusable(s), i);
      if Reusable(s) <= i < Reusable(s) + SLOTS && i != n { Apart(Reusable(s), i, n); }
    }
  }

  /** RDH differs from RDT exactly while the card owns a descriptor. */
  lemma RoomLeft(s: State)
    requires Counts(s)
    ensures s.head != s.tail <==> |s.completed| < s.given + SLOTS - 1
  {
    if |s.completed| < s.given + SLOTS - 1 { Apart(s.given, |s.completed|, s.given + SLOTS - 1); }
  }

  /** What the card owns is exactly what is neither completed nor the one spare descriptor. */
  lemma OwnedSlots(s: State, slot: nat)
    requires Counts(s) && Owns(s, slot)
    ensures exists i: nat :: |s.completed| <= i < s.given + SLOTS - 1 && i % SLOTS == slot
  {
    var n := |s.completed|;
    var k := (slot + SLOTS - s.head) % SLOTS;
    var left := s.given + SLOTS - 1 - n;
    ModDifference(n, left, s.given + SLOTS - 1);
    ModSum(n, slot);
    assert (n + k) % SLOTS == slot;
  }

  lemma ModDifference(a: nat, d: nat, b: nat)
    requires b == a + d && d < SLOTS
    ensures (b % SLOTS + SLOTS - a % SLOTS) % SLOTS == d
  {
  }

  lemma ModSum(a: nat, slot: nat)
    requires slot < SLOTS
    ensures (a + (slot + SLOTS - a % SLOTS) % SLOTS) % SLOTS == slot
  {
  }

  lemma ScribbleInv(s: State, slot: nat, p: Packet)
    requires Inv(s) && Owns(s, slot)
    ensures Inv(After(s, Scribble(slot, p)))
  {
    hide GoodOnes, Owns;
    var s' := After(s, Scribble(slot, p));
    OwnedSlots(s, slot);
    var j: nat :| |s.completed| <= j < s.given + SLOTS - 1 && j % SLOTS == slot;
    assert SlotOk(s.ring, s.completed, Reusable(s), j);
    forall i: nat ensures SlotOk(s'.ring, s'.completed, Reusable(s'), i) {
      assert SlotOk(s.ring, s.completed, Reusable(s), i);
      if Reusable(s) <= i < Reusable(s) + SLOTS && i != j { Apart(Reusable(s), i, j); }
    }
  }

  lemma GoodNext(ps: seq<Packet>, p: Packet)
    ensures GoodOnes(ps + [p]) == GoodOnes(ps) + (if Good(p) then [p] else [])
  {
    assert (ps + [p])[..|ps|] == ps;
  }

  lemma DriveInv(s: State)
    requires Inv(s) && s.driver != Idle
    ensures Inv(After(s, Drive))
  {
    hide GoodOnes, Good;
    var s' := After(s, Drive);
    assert SlotOk(s.ring, s.completed, Reusable(s), s.given);
    match s.driver
    case Look(n) => SameSlots(s, s');
    case Found(n, slot) =>
      SameSlots(s, s');
      assert s'.read[..|s'.read|-1] == s.read;
      assert s.completed[..|s.read|+1] == s.read + [s.completed[|s.read|]];
    case Got(n, slot, p) =>
      assert s.read == s.read[..|s.read|-1] + [p];
      GoodNext(s.read[..|s.read|-1], p);
      ClearedSlots(s, s');
    case Cleared(n, slot) =>
      GivenTail(s.given);
      SameSlots(s, s');
    case Given(n, slot) =>
      ModStep(s.given - 1);
      SameSlots(s, s');
  }

  lemma GivenTail(g: nat)
    ensures g % SLOTS == (g + 1 + SLOTS - 1) % SLOTS
  {
  }

  lemma SameSlots(s: State, s': State)
    requires Slots(s) && s'.ring == s.ring && s'.completed == s.completed && Reusable(s') == Reusable(s)
    ensures Slots(s')
  {
    forall i: nat ensures SlotOk(s'.ring, s'.completed, Reusable(s'), i) {
      assert SlotOk(s.ring, s.completed, Reusable(s), i);
    }
  }

  lemma ClearedSlots(s: State, s': State)
    requires Inv(s) && s.driver.Got? && s' == DriverStep(s)
    ensures Slots(s')
  {
    hide GoodOnes, Good, SlotOk, PassedOk;
    var low := s.given + 1;
    forall i: nat ensures SlotOk(s'.ring, s'.completed, low, i) {
      assert SlotOk(s.ring, s.completed, s.given, i) by { assert SlotOk(s.ring, s.completed, Reusable(s), i); }
      SlotCleared(s.ring, s.completed, s.given, i, s'.ring[s.given % SLOTS]);
    }
  }

  /** The slot of packet `low` is cleared and waits for packet low+32. */
  lemma SlotCleared(ring: seq<Desc>, completed: seq<Packet>, low: nat, i: nat, blank: Desc)
    requires |ring| == SLOTS && SlotOk(ring, completed, low, i) && !blank.done && |completed| < low + SLOTS
    ensures SlotOk(ring[low % SLOTS := blank], completed, low + 1, i)
  {
    if low < i < low + SLOTS { Apart(low, i, low); }
  }

  lemma StepInv(s: State, e: Step)
    requires Inv(s) && Enabled(s, e)
    ensures Inv(After(s, e))
  {
    hide Counts, Slots, DriverOk, PassedOk;
    match e
    case Complete(p) => CompleteInv(s, p);
    case Scribble(slot, p) => ScribbleInv(s, slot, p);
    case Enter => EnterInv(s);
    case Drive => DriveInv(s);
  }

  lemma EnterInv(s: State)
    requires Inv(s) && s.driver == Idle
    ensures Inv(After(s, Enter))
  {
    SameSlots(s, After(s, Enter));
    hide Slots;
  }

  // ----- every run

  ghost predicate IsRun(states: seq<State>, steps: seq<Step>) {
    && |states| == |steps| + 1 && Starts(states[0])
    && forall i | 0 <= i < |steps| ::
        |states[i].ring| == SLOTS && Enabled(states[i], steps[i]) && states[i+1] == After(states[i], steps[i])
  }

  lemma {:induction false} RunInv(states: seq<State>, steps: seq<Step>, i: nat)
    requires IsRun(states, steps) && i < |states|
    ensures Inv(states[i])
    decreases i
  {
    hide Inv, Starts, After, Enabled;
    if i == 0 {
      StartInv(states[0]);
    } else {
      RunInv(states, steps, i - 1);
      StepInv(states[i-1], steps[i-1]);
    }
  }

  /** Packets are read once each, in the order the card completed them; what is passed on are the good ones. */
  lemma ReadInOrder(states: seq<State>, steps: seq<Step>, i: nat)
    requires IsRun(states, steps) && i < |states|
    ensures var s := states[i];
            && s.read <= s.completed && |s.completed| - |s.read| <= 31
            && (!s.driver.Got? ==> s.passed == GoodOnes(s.read))
  {
    RunInv(states, steps, i);
    hide Slots, GoodOnes;
  }

  /** Packets read since step `j`, where the call going on in state `i` began. */
  ghost predicate BeganAt(states: seq<State>, steps: seq<Step>, j: nat, i: nat)
    requires |states| == |steps| + 1
  {
    j < i < |states| && steps[j] == Enter && forall k | j < k <= i :: states[k].driver != Idle
  }

  lemma {:induction false} CallCounts(states: seq<State>, steps: seq<Step>, i: nat) returns (j: nat)
    requires IsRun(states, steps) && i < |states| && states[i].driver != Idle
    ensures BeganAt(states, steps, j, i)
    ensures var d := states[i].driver;
            |states[i].read| == |states[j].read| + d.handled + (if d.Look? || d.Found? then 0 else 1)
    decreases i
  {
    assert i > 0;
    assert states[i] == After(states[i-1], steps[i-1]);
    if states[i-1].driver == Idle {
      j := i - 1;
    } else {
      RunInv(states, steps, i - 1);
      j := CallCounts(states, steps, i - 1);
    }
  }

  /** A call ends only when nothing completed is left to read, or when it has read 32 packets, a full turn of the
      ring. */
  lemma StopsWhenEmpty(states: seq<State>, steps: seq<Step>, i: nat) returns (j: nat)
    requires IsRun(states, steps) && i < |steps| && states[i].driver != Idle && states[i+1].driver == Idle
    ensures BeganAt(states, steps, j, i)
    ensures |states[i].completed| == |states[i].read| || |states[i].read| == |states[j].read| + 32
    ensures |states[i].read| <= |states[j].read| + 32
  {
    hide GoodOnes, PassedOk;
    assert states[i+1] == After(states[i], steps[i]);
    j := CallCounts(states, steps, i);
    RunInv(states, steps, i);
    var s := states[i];
    assert SlotOk(s.ring, s.completed, Reusable(s), s.given);
    AtMost(states, steps, i);
  }

  lemma {:induction false} AtMost(states: seq<State>, steps: seq<Step>, i: nat)
    requires IsRun(states, steps) && i < |states|
    ensures states[i].driver.Look? ==> states[i].driver.handled <= SLOTS
    ensures states[i].driver != Idle && !states[i].driver.Look? ==> states[i].driver.handled < SLOTS
    decreases i
  {
    if i > 0 {
      assert states[i] == After(states[i-1], steps[i-1]);
      AtMost(states, steps, i - 1);
    }
  }

  /** Between two turns of the loop the next slot to look at is the one after RDT. */
  lemma AfterTail(states: seq<State>, steps: seq<Step>, i: nat)
    requires IsRun(states, steps) && i < |states| && (states[i].driver.Idle? || states[i].driver.Look?)
    ensures states[i].current == Next(states[i].tail)
  {
    hide Inv;
    RunInv(states, steps, i);
    NextSlot(states[i]);
  }

  lemma NextSlot(s: State)
    requires Inv(s) && (s.driver.Idle? || s.driver.Look?)
    ensures s.current == Next(s.tail)
  {
    hide Slots, GoodOnes, PassedOk;
    ModStep(s.given + SLOTS - 1);
    GivenTail(s.given);
  }

  /** The descriptors with the done bit set. */
  ghost function Done(s: State): set<nat> {
    set i | 0 <= i < |s.ring| && s.ring[i].done
  }

  ghost function Owned(s: State): set<nat> {
    set i | 0 <= i < SLOTS && Owns(s, i)
  }

  function Upto(n: nat): (r: set<nat>)
    ensures |r| == n && forall i: nat :: i in r <==> i < n
  {
    if n == 0 then {} else Upto(n - 1) + {n - 1}
  }

  /** The packet of this turn that belongs to a slot. */
  function PacketOf(low: nat, slot: nat): (i: nat)
    requires slot < SLOTS
    ensures low <= i < low + SLOTS && i % SLOTS == slot
  {
    ModSum(low, slot);
    low + (slot + SLOTS - low % SLOTS) % SLOTS
  }

  lemma OwnsMeans(s: State, slot: nat)
    requires Counts(s) && slot < SLOTS
    ensures Owns(s, slot) <==> |s.completed| <= PacketOf(s.given, slot) < s.given + SLOTS - 1
  {
    var i := PacketOf(s.given, slot);
    if Owns(s, slot) {
      OwnedSlots(s, slot);
      var j: nat :| |s.completed| <= j < s.given + SLOTS - 1 && j % SLOTS == slot;
      if i != j { Apart(s.given, i, j); }
    }
    if |s.completed| <= i < s.given + SLOTS - 1 {
      ModDifference(|s.completed|, i - |s.completed|, i);
      ModDifference(|s.completed|, s.given + SLOTS - 1 - |s.completed|, s.given + SLOTS - 1);
    }
  }

  /** Between two turns of the loop every slot is done, or the card's, or the spare one at RDT. */
  lemma Partition(s: State, slot: nat)
    requires Inv(s) && Held(s) == 0 && slot < SLOTS
    ensures (slot in Done(s)) != (slot in Owned(s) || slot == s.tail)
    ensures !(slot in Owned(s) && slot == s.tail)
  {
    hide GoodOnes, Owns, PassedOk;
    var i := PacketOf(s.given, slot);
    assert SlotOk(s.ring, s.completed, Reusable(s), i);
    OwnsMeans(s, slot);
    if i != s.given + SLOTS - 1 { Apart(s.given, i, s.given + SLOTS - 1); }
  }

  /** ... so the completed and the card's descriptors together always number 31. */
  lemma ThirtyOne(s: State)
    requires Inv(s) && Held(s) == 0
    ensures |Done(s)| + |Owned(s)| == SLOTS - 1
  {
    hide Inv, GoodOnes, Owns, Done, Owned;
    TailInside(s);
    forall slot: nat | slot < SLOTS
      ensures (slot in Done(s)) != (slot in Owned(s) || slot == s.tail) && !(slot in Owned(s) && slot == s.tail)
    {
      Partition(s, slot);
    }
    ThreeParts(Done(s), Owned(s), s.tail);
  }

  lemma ThreeParts(a: set<nat>, b: set<nat>, t: nat)
    requires t < SLOTS && forall x <- a + b :: x < SLOTS
    requires forall x: nat | x < SLOTS :: (x in a) != (x in b || x == t) && !(x in b && x == t)
    ensures |a| + |b| == SLOTS - 1
  {
    hide Upto;
    var both := a + b;
    Disjoint(a, b);
    assert Upto(SLOTS) == both + {t};
    Disjoint(both, {t});
  }

  lemma Disjoint(a: set<nat>, b: set<nat>)
    requires forall x <- a :: x !in b
    ensures |a + b| == |a| + |b|
  {
    assert a * b == {};
  }

  lemma TailInside(s: State)
    requires Inv(s)
    ensures s.tail < SLOTS && forall x <- Done(s) + Owned(s) :: x < SLOTS
  {
    hide Slots, PassedOk, GoodOnes, Owns;
  }

  /** In every run, whenever the driver is not in the middle of a packet. */
  lemma AlwaysThirtyOne(states: seq<State>, steps: seq<Step>, i: nat)
    requires IsRun(states, steps) && i < |states| && Held(states[i]) == 0
    ensures |Done(states[i])| + |Owned(states[i])| == 31
  {
    hide Inv;
    RunInv(states, steps, i);
    ThirtyOne(states[i]);
  }

  lemma WorkSlot(s: State)
    requires Inv(s) && (s.driver.Found? || s.driver.Got?)
    ensures |s.ring| == SLOTS && s.driver.slot < SLOTS && s.ring[s.driver.slot].done && s.driver.slot == Next(s.tail)
    ensures !Owns(s, s.driver.slot)
  {
    hide GoodOnes, PassedOk, Owns;
    assert SlotOk(s.ring, s.completed, Reusable(s), s.given);
    ModStep(s.given + SLOTS - 1);
    GivenTail(s.given);
    OwnsMeans(s, s.driver.slot);
    var j := PacketOf(s.given, s.driver.slot);
    if j != s.given { Apart(s.given, s.given, j); }
  }

  /** The descriptor the driver is working on is done, is not the card's, and is the one after RDT. */
  lemma HandsOff(states: seq<State>, steps: seq<Step>, i: nat)
    requires IsRun(states, steps) && i < |states| && (states[i].driver.Found? || states[i].driver.Got?)
    ensures var s := states[i];
            && |s.ring| == SLOTS && s.driver.slot < SLOTS && s.ring[s.driver.slot].done
            && !Owns(s, s.driver.slot) && s.driver.slot == Next(s.tail)
  {
    hide Inv, Owns;
    RunInv(states, steps, i);
    WorkSlot(states[i]);
  }
}
