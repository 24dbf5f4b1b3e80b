// The lock-free keyboard ring (klawiatura.cpp:61-81, 177-216, 575-604), load by load and store by
// store, for every interleaving of one producer with one consumer.
module KeyboardRing {
  const SIZE: nat := 256

  type Byte = b: int | 0 <= b < 256

  function Next(i: nat): nat {
    (i + 1) % SIZE
  }

  /** Where the producer stands in `dodaj_bajt_do_bufora`, with its locals. */
  datatype Producer =
    | PIdle
    | PHead(byte: Byte, head: nat)              // bufor_glowa loaded
    | PTail(byte: Byte, head: nat, tail: nat)   // bufor_ogon loaded
    | PWritten(byte: Byte, head: nat)           // the byte stored, its index not yet published

  /** Where the consumer stands in `pobierz_znak_klawiatury`. */
  datatype Consumer =
    | CIdle
    | CTail(tail: nat)
    | CHead(tail: nat, head: nat)
    | CRead(tail: nat, byte: Byte)              // the byte loaded, its place not yet given back

  /** Shared memory, both threads, and what has happened: each byte offered with its answer, and the bytes delivered. */
  datatype State = State(buf: seq<Byte>, head: nat, tail: nat, overflows: nat,
                         producer: Producer, consumer: Consumer,
                         offers: seq<Offer>, delivered: seq<Byte>)

  datatype Offer = Offer(byte: Byte, accepted: bool)

  function Start(): State { State(seq(SIZE, _ => 0), 0, 0, 0, PIdle, CIdle, [], []) }

  datatype Step = Call(byte: Byte) | Produce | Receive | Consume

  /** May this step be taken? `Call` and `Receive` begin a call, the others go on with it. */
  predicate Enabled(s: State, e: Step) {
    match e
    case Call(_) => s.producer.PIdle?
    case Produce => !s.producer.PIdle?
    case Receive => s.consumer.CIdle?
    case Consume => !s.consumer.CIdle?
  }

  /** One load or store of the producer. */
  function ProducerStep(s: State): State
    requires |s.buf| == SIZE
  {
    match s.producer
    case PIdle => s
    case PHead(b, h) => s.(producer := PTail(b, h, s.tail))
    case PTail(b, h, t) =>
      if Next(h) == t then
        s.(producer := PIdle, overflows := s.overflows + 1, offers := s.offers + [Offer(b, false)])
      else
        s.(producer := PWritten(b, h), buf := if h < SIZE then s.buf[h := b] else s.buf)
    case PWritten(b, h) => s.(producer := PIdle, head := Next(h), offers := s.offers + [Offer(b, true)])
  }

  /** One load or store of the consumer. */
  function ConsumerStep(s: State): State
    requires |s.buf| == SIZE
  {
    match s.consumer
    case CIdle => s
    case CTail(t) => s.(consumer := CHead(t, s.head))
    case CHead(t, h) => if t == h then s.(consumer := CIdle)
        else s.(consumer := CRead(t, if t < SIZE then s.buf[t] else 0))
    case CRead(t, b) => s.(consumer := CIdle, tail := Next(t), delivered := s.delivered + [b])
  }

  function After(s: State, e: Step): State
    requires |s.buf| == SIZE
  {
    match e
    case Call(b) => s.(producer := PHead(b, s.head))
    case Produce => ProducerStep(s)
    case Receive => s.(consumer := CTail(s.tail))
    case Consume => ConsumerStep(s)
  }

  /** The bytes accepted, in order. */
  ghost function Accepted(offers: seq<Offer>): seq<Byte> {
    if offers == [] then []
    else
      var last := offers[|offers|-1];
      Accepted(offers[..|offers|-1]) + (if last.accepted then [last.byte] else [])
  }

  ghost function Rejected(offers: seq<Offer>): nat {
    if offers == [] then 0
    else Rejected(offers[..|offers|-1]) + (if offers[|offers|-1].accepted then 0 else 1)
  }

  lemma OneMoreOffer(offers: seq<Offer>, o: Offer)
    ensures Accepted(offers + [o]) == Accepted(offers) + (if o.accepted then [o.byte] else [])
    ensures Rejected(offers + [o]) == Rejected(offers) + (if o.accepted then 0 else 1)
  {
    assert (offers + [o])[..|offers|] == offers;
  }

  // ----- the invariant

  /** With `a` bytes accepted and `d` delivered: indices, contents, and never more than 255 waiting. */
  ghost predicate Ring(s: State, acc: seq<Byte>) {
    && |s.buf| == SIZE
    && |s.delivered| <= |acc| <= |s.delivered| + SIZE - 1
    && s.delivered == acc[..|s.delivered|]
    && s.head == |acc| % SIZE && s.tail == |s.delivered| % SIZE
    && (forall i | |s.delivered| <= i < |acc| :: s.buf[i % SIZE] == acc[i])
  }

  /** The producer's copy of the tail is one the consumer has had since the last 255 bytes. */
  ghost predicate ProducerOk(s: State, acc: seq<Byte>) {
    var p := s.producer;
    && (!p.PIdle? ==> p.head == s.head < |s.buf|)
    && (p.PTail? ==> HadTail(|s.delivered|, |acc|, p.tail))
    && (p.PWritten? ==> s.buf[s.head] == p.byte && |acc| - |s.delivered| < SIZE - 1)
  }

  /** `t` is the tail of a moment when `d` bytes were delivered, not more than 255 bytes ago. */
  ghost predicate OldTail(done: nat, all: nat, d: nat, t: nat) {
    d <= done && t == d % SIZE && all - d <= SIZE - 1
  }

  ghost predicate HadTail(done: nat, all: nat, t: nat) {
    exists d: nat :: OldTail(done, all, d, t)
  }

  ghost predicate ConsumerOk(s: State, acc: seq<Byte>) {
    var c := s.consumer;
    && (!c.CIdle? ==> c.tail == s.tail)
    && (c.CHead? ==> HadHead(|s.delivered|, |acc|, c.head))
    && (c.CRead? ==> |s.delivered| < |acc| && c.byte == acc[|s.delivered|])
  }

  /** `h` is the head of a moment when `a` bytes were accepted, not before the last delivery. */
  ghost predicate OldHead(done: nat, all: nat, a: nat, h: nat) {
    done <= a <= all && h == a % SIZE
  }

  ghost predicate HadHead(done: nat, all: nat, h: nat) {
    exists a: nat :: OldHead(done, all, a, h)
  }

  ghost predicate Inv(s: State) {
    var acc := Accepted(s.offers);
    Ring(s, acc) && ProducerOk(s, acc) && ConsumerOk(s, acc) && s.overflows == Rejected(s.offers)
  }

  lemma ModStep(a: nat)
    ensures Next(a % SIZE) == (a + 1) % SIZE
  {
  }

  lemma Distinct(a: nat, b: nat)
    requires a < b < a + SIZE
    ensures a % SIZE != b % SIZE
  {
  }

  lemma StartInv()
    ensures Inv(Start())
  {
  }

  lemma CallInv(s: State, b: Byte)
    requires Inv(s) && s.producer.PIdle?
    ensures Inv(After(s, Call(b)))
  {
  }

  lemma ReceiveInv(s: State)
    requires Inv(s) && s.consumer.CIdle?
    ensures Inv(After(s, Receive))
  {
  }

  lemma LatestTail(done: nat, all: nat)
    requires done <= all <= done + SIZE - 1
    ensures HadTail(done, all, done % SIZE) && HadHead(done, all, all % SIZE)
  {
    assert OldTail(done, all, done, done % SIZE);
    assert OldHead(done, all, all, all % SIZE);
  }

  lemma StaleHead(done: nat, all: nat, h: nat)
    requires HadHead(done, all, h)
    ensures HadHead(done, all + 1, h)
  {
    var a: nat :| OldHead(done, all, a, h);
    assert OldHead(done, all + 1, a, h);
  }

  lemma StaleTail(done: nat, all: nat, t: nat)
    requires HadTail(done, all, t)
    ensures HadTail(done + 1, all, t)
  {
    var d: nat :| OldTail(done, all, d, t);
    assert OldTail(done + 1, all, d, t);
  }

  lemma ProduceInv(s: State)
    requires Inv(s) && !s.producer.PIdle?
    ensures Inv(After(s, Produce))
  {
    hide Accepted, Rejected, HadTail, HadHead;
    var acc := Accepted(s.offers);
    match s.producer
    case PHead(b, h) =>
      LatestTail(|s.delivered|, |acc|);
    case PTail(b, h, t) =>
      OneMoreOffer(s.offers, Offer(b, false));
      if Next(h) != t { WriteSafe(s, acc); }
    case PWritten(b, h) =>
      OneMoreOffer(s.offers, Offer(b, true));
      ModStep(|acc|);
      if s.consumer.CHead? { StaleHead(|s.delivered|, |acc|, s.consumer.head); }
  }

  /** Storing the byte harms no byte still waiting, and leaves room to publish it. */
  lemma WriteSafe(s: State, acc: seq<Byte>)
    requires Ring(s, acc) && ProducerOk(s, acc) && s.producer.PTail? && Next(s.head) != s.producer.tail
    ensures |acc| - |s.delivered| < SIZE - 1
    ensures Ring(ProducerStep(s), acc)
  {
    ModStep(|acc|);
    var d: nat :| OldTail(|s.delivered|, |acc|, d, s.producer.tail);
    assert (d + SIZE) % SIZE == d % SIZE;
    forall i | |s.delivered| <= i < |acc| ensures i % SIZE != s.head { Distinct(i, |acc|); }
  }

  lemma ConsumeInv(s: State)
    requires Inv(s) && !s.consumer.CIdle?
    ensures Inv(After(s, Consume))
  {
    hide Accepted, Rejected, HadTail, HadHead;
    var acc := Accepted(s.offers);
    match s.consumer
    case CTail(t) =>
      LatestTail(|s.delivered|, |acc|);
    case CHead(t, h) =>
      if t != h { SomethingWaits(|s.delivered|, |acc|, h); }
    case CRead(t, b) =>
      ModStep(|s.delivered|);
      if s.producer.PTail? { StaleTail(|s.delivered|, |acc|, s.producer.tail); }
  }

  lemma SomethingWaits(done: nat, all: nat, h: nat)
    requires HadHead(done, all, h) && h != done % SIZE
    ensures done < all
  {
  }

  lemma StepInv(s: State, e: Step)
    requires Inv(s) && Enabled(s, e)
    ensures Inv(After(s, e))
  {
    match e
    case Call(b) => CallInv(s, b);
    case Produce => ProduceInv(s);
    case Receive => ReceiveInv(s);
    case Consume => ConsumeInv(s);
  }

  // ----- every interleaving

  /** The states of a run: each follows from the one before by an enabled step of either thread. */
  ghost predicate IsRun(states: seq<State>, steps: seq<Step>) {
    && |states| == |steps| + 1 && states[0] == Start()
    && forall i | 0 <= i < |steps| ::
        |states[i].buf| == SIZE && Enabled(states[i], steps[i]) && states[i+1] == After(states[i], steps[i])
  }

  lemma {:induction false} RunInv(states: seq<State>, steps: seq<Step>, i: nat)
    requires IsRun(states, steps) && i < |states|
    ensures Inv(states[i])
    decreases i
  {
    if i == 0 {
      StartInv();
    } else {
      RunInv(states, steps, i - 1);
      StepInv(states[i-1], steps[i-1]);
    }
  }

  /** In every reachable state: the bytes delivered are the first of those accepted, once each and in
      order; at most 255 wait; the counter is the number of bytes refused. */
  lemma FirstInFirstOut(states: seq<State>, steps: seq<Step>, i: nat)
    requires IsRun(states, steps) && i < |states|
    ensures var s := states[i];
            var acc := Accepted(s.offers);
            && s.delivered <= acc && |acc| - |s.delivered| <= 255
            && s.overflows == Rejected(s.offers)
  {
    RunInv(states, steps, i);
  }

  /** The two threads never work on the same cell: the consumer's is full, the producer's empty. */
  lemma NoRace(states: seq<State>, steps: seq<Step>, i: nat)
    requires IsRun(states, steps) && i < |states|
    requires states[i].producer.PTail? && Next(states[i].producer.head) != states[i].producer.tail
    requires states[i].consumer.CHead? && states[i].consumer.tail != states[i].consumer.head
    ensures states[i].producer.head != states[i].consumer.tail
  {
    RunInv(states, steps, i);
    var s := states[i];
    var acc := Accepted(s.offers);
    hide Accepted, Rejected;
    SomethingWaits(|s.delivered|, |acc|, s.consumer.head);
    Distinct(|s.delivered|, |acc|);
  }

  /** Bytes accepted and not yet delivered. */
  ghost function Waiting(s: State): int {
    |Accepted(s.offers)| - |s.delivered|
  }

  /** Step `j` is where the call going on in state `i` loaded the tail. */
  ghost predicate LoadsTail(states: seq<State>, steps: seq<Step>, j: nat, i: nat)
    requires |states| == |steps| + 1
  {
    && j < i < |states| && steps[j] == Produce && states[j].producer.PHead?
    && forall k | j < k <= i :: !states[k].producer.PIdle?
  }

  /** Step `j` is where the call going on in state `i` loaded the head. */
  ghost predicate LoadsHead(states: seq<State>, steps: seq<Step>, j: nat, i: nat)
    requires |states| == |steps| + 1
  {
    && j < i < |states| && steps[j] == Consume && states[j].consumer.CTail?
    && forall k | j < k <= i :: !states[k].consumer.CIdle?
  }

  lemma {:induction false} TailLoaded(states: seq<State>, steps: seq<Step>, i: nat) returns (j: nat)
    requires IsRun(states, steps) && i < |states| && (states[i].producer.PTail? || states[i].producer.PWritten?)
    ensures LoadsTail(states, steps, j, i) && states[j].offers == states[i].offers
    ensures var p, q := states[i].producer, states[j].producer;
            && q.byte == p.byte && q.head == p.head
            && (p.PTail? ==> p.tail == states[j].tail)
            && (p.PWritten? ==> Next(q.head) != states[j].tail)
    decreases i
  {
    assert i > 0;
    var before := states[i-1];
    assert states[i] == After(before, steps[i-1]);
    if before.producer.PHead? {
      j := i - 1;
    } else {
      j := TailLoaded(states, steps, i - 1);
    }
  }

  lemma FullIff(s: State)
    requires Inv(s)
    ensures Next(s.head) == s.tail <==> Waiting(s) == 255
  {
    hide Accepted, Rejected;
    var all := |Accepted(s.offers)|;
    ModStep(all);
    if Waiting(s) < 255 { Distinct(|s.delivered|, all + 1); }
  }

  /** Every call that ends has its answer: the byte is accepted exactly when fewer than 255 were waiting as the call
      loaded the tail, and refused when 255 were. */
  lemma RefusedWhenFull(states: seq<State>, steps: seq<Step>, i: nat) returns (j: nat)
    requires IsRun(states, steps) && i < |steps| && !states[i].producer.PIdle? && states[i+1].producer.PIdle?
    ensures LoadsTail(states, steps, j, i)
    ensures states[i+1].offers == states[i].offers + [Offer(states[j].producer.byte, Waiting(states[j]) < 255)]
    ensures Waiting(states[j]) <= 255
  {
    hide Accepted, Rejected;
    assert states[i+1] == After(states[i], steps[i]);
    j := TailLoaded(states, steps, i);
    RunInv(states, steps, j);
    FullIff(states[j]);
  }

  /** No byte gets an answer in any other step. */
  lemma AnswersOnly(states: seq<State>, steps: seq<Step>, i: nat)
    requires IsRun(states, steps) && i < |steps|
    ensures states[i+1].offers == states[i].offers
            || (!states[i].producer.PIdle? && states[i+1].producer.PIdle?)
    ensures states[i+1].delivered == states[i].delivered
            || (!states[i].consumer.CIdle? && states[i+1].consumer.CIdle?)
  {
    assert states[i+1] == After(states[i], steps[i]);
  }

  lemma {:induction false} HeadLoaded(states: seq<State>, steps: seq<Step>, i: nat) returns (j: nat)
    requires IsRun(states, steps) && i < |states| && (states[i].consumer.CHead? || states[i].consumer.CRead?)
    ensures LoadsHead(states, steps, j, i) && states[j].delivered == states[i].delivered
    ensures var p, q := states[i].consumer, states[j].consumer;
            && q.tail == p.tail
            && (p.CHead? ==> p.head == states[j].head)
            && (p.CRead? ==> q.tail != states[j].head)
    decreases i
  {
    assert i > 0;
    var before := states[i-1];
    assert states[i] == After(before, steps[i-1]);
    if before.consumer.CTail? {
      j := i - 1;
    } else {
      j := HeadLoaded(states, steps, i - 1);
    }
  }

  lemma EmptyIff(s: State)
    requires Inv(s)
    ensures s.head == s.tail <==> Waiting(s) == 0
  {
    hide Accepted, Rejected;
    if Waiting(s) > 0 { Distinct(|s.delivered|, |Accepted(s.offers)|); }
  }

  /** Every call for a byte that ends has delivered the oldest waiting one, unless nothing was waiting as it loaded the
      head: then it delivers nothing. */
  lemma TakesOldest(states: seq<State>, steps: seq<Step>, i: nat) returns (j: nat)
    requires IsRun(states, steps) && i < |steps| && !states[i].consumer.CIdle? && states[i+1].consumer.CIdle?
    ensures LoadsHead(states, steps, j, i)
    ensures var was, acc := states[i].delivered, Accepted(states[i].offers);
            && (Waiting(states[j]) > 0 ==> |was| < |acc| && states[i+1].delivered == was + [acc[|was|]])
            && (Waiting(states[j]) == 0 ==> states[i+1].delivered == was)
    ensures Waiting(states[j]) >= 0
  {
    hide Accepted, Rejected;
    assert states[i+1] == After(states[i], steps[i]);
    j := HeadLoaded(states, steps, i);
    RunInv(states, steps, i);
    RunInv(states, steps, j);
    EmptyIff(states[j]);
  }
}
