/** What the two threads of the packet queue get done: which packets are enqueued, and that the consumer reads them all. */
module QueueProgress {
  import opened Ascii
  import opened QueueSteps
  import opened QueueProof
  import opened QueueSafety

  lemma {:induction false} OneMore(turns: seq<Turn>, t: Turn)
    ensures Run(turns + [t]) == Step(Run(turns), t)
  {
    assert (turns + [t])[..|turns|] == turns;
  }

  // ----- What becomes of the packets that arrive

  /** The packet that the producer has received and neither enqueued nor let go. */
  function UnderWay(s: State): Option<Text> {
    match s.prod
    case Terminating(p) => Some(p)
    case SizeLock(p) => AsText(p)
    case SizeRead(p) => AsText(p)
    case SizeUnlock(p, _) => AsText(p)
    case Admitting(p, _) => Some(p)
    case Allocating(p) => Some(p)
    case _ =>
      var x := Holding(s.prod);
      if x.Some? && x.value in s.mem.heap then Some(s.mem.heap[x.value].data) else None
  }

  function AsText(p: Option<Packet>): Option<Text> {
    if p.Some? then Some(p.value) else None
  }

  function AsSeq(p: Option<Text>): seq<Text> {
    if p.Some? then [p.value] else []
  }

  predicate Arrives(s: State, t: Turn) {
    t.Produce? && s.prod == Receiving && t.w.packet.Some?
  }

  /** The producer lets the packet go: more than 1000 packets were seen, its length is out of bounds, or malloc finds no block. */
  predicate Refuses(s: State, t: Turn) {
    && t.Produce?
    && match s.prod
       case Admitting(p, seen) => seen > 1000 || |p| < 20 || |p| > 1024
       case Allocating(_) => t.w.block == None || t.w.block.value in s.mem.heap
       case _ => false
  }

  /** The packets that arrived, without those that were refused. */
  function Kept(turns: seq<Turn>): seq<Text> {
    if turns == [] then []
    else
      var s, t, kept := Run(turns[..|turns| - 1]), turns[|turns| - 1], Kept(turns[..|turns| - 1]);
      if Arrives(s, t) then kept + [t.w.packet.value]
      else if Refuses(s, t) && kept != [] then kept[..|kept| - 1]
      else kept
  }

  /**
   * However the threads interleave: the packets enqueued, and behind them the one that the producer is at work on, are those that
   * arrived without those refused, in the order of their arrival.
   */
  lemma {:induction false} ArrivalsAreAccepted(turns: seq<Turn>)
    ensures Kept(turns) == Run(turns).accepted + AsSeq(UnderWay(Run(turns)))
  {
    if turns != [] {
      var s, t := Run(turns[..|turns| - 1]), turns[|turns| - 1];
      ArrivalsAreAccepted(turns[..|turns| - 1]);
      RunsKeepInv(turns[..|turns| - 1]);
      hide Kept, Run, Inv, ProducerStep, ConsumerStep, UnderWay, Refuses;
      match t
      case Produce(w) => ProducerDecides(s, w);
      case Consume => ConsumerDecidesNothing(s);
      KeptStep(turns);
    }
  }

  lemma {:induction false} KeptStep(turns: seq<Turn>)
    requires turns != []
    ensures var s, t, kept := Run(turns[..|turns| - 1]), turns[|turns| - 1], Kept(turns[..|turns| - 1]);
            Kept(turns) == if Arrives(s, t) then kept + [t.w.packet.value]
                           else if Refuses(s, t) && kept != [] then kept[..|kept| - 1]
                           else kept
  {
  }

  /** A step of the producer takes a packet in, lets it go, enqueues it, or does none of this. */
  lemma {:induction false} ProducerDecides(s: State, w: World)
    requires Inv(s)
    ensures var t := ProducerStep(s, w);
            if Arrives(s, Produce(w)) then UnderWay(s) == None && UnderWay(t) == Some(w.packet.value) && t.accepted == s.accepted
            else if Refuses(s, Produce(w)) then UnderWay(s).Some? && UnderWay(t) == None && t.accepted == s.accepted
            else t.accepted + AsSeq(UnderWay(t)) == s.accepted + AsSeq(UnderWay(s))
  {
    var x := Holding(s.prod);
    if x.Some? {
      HoldersKeep(s, w, x.value);
    } else {
      hide Inv;
    }
  }

  lemma {:induction false} HoldersKeep(s: State, w: World, x: nat)
    requires Inv(s) && Holding(s.prod) == Some(x)
    ensures var t := ProducerStep(s, w);
            t.accepted + AsSeq(UnderWay(t)) == s.accepted + AsSeq(UnderWay(s))
  {
    NotInChain(s, Holding(s.prod));
    assert x in s.mem.heap;
    DataIsKept(s, w, x);
    ProducerKeepsData(s, w, x);
    EnqueuedOrHeld(s, w, x);
    hide Inv, ProducerStep;
  }

  /** A block is let go of when it is enqueued. */
  lemma {:induction false} EnqueuedOrHeld(s: State, w: World, x: nat)
    requires Holding(s.prod) == Some(x) && x in s.mem.heap
    ensures var t := ProducerStep(s, w);
            t.accepted == s.accepted <==> Holding(t.prod) == Some(x)
  {
  }

  lemma {:induction false} ConsumerDecidesNothing(s: State)
    requires Inv(s)
    ensures var t := ConsumerStep(s); t.accepted == s.accepted && UnderWay(t) == UnderWay(s)
  {
    ConsumerKeepsHistory(s);
    var x := Holding(s.prod);
    if x.Some? {
      NotInChain(s, x);
      ConsumerKeepsInv(s);
      NotInChain(ConsumerStep(s), x);
      hide Inv;
      ConsumerKeepsData(s, x.value);
      hide ConsumerStep;
    } else {
      hide Inv, ConsumerStep;
    }
  }

  /** The size that a packet is admitted by is the number of packets in the queue at that moment. */
  lemma {:induction false} SeenIsSize(turns: seq<Turn>, w: World)
    ensures var s := Run(turns);
            s.prod.SizeRead? ==> ProducerStep(s, w).prod == SizeUnlock(s.prod.packet, |s.chain|)
  {
    RunsKeepInv(turns);
  }

  // ----- A packet that is admitted

  /** Both threads are waiting for something to do. */
  predicate Quiet(s: State) {
    s.lock == 0 && s.prod == Receiving && s.cons == EmptyLock
  }

  /**
   * Any packet of 20 to 1024 bytes that arrives at a queue of at most 1000 packets is enqueued behind the others, in the block
   * `b` that malloc finds.
   */
  lemma {:induction false} Enqueues(turns: seq<Turn>, p: Packet, b: nat) returns (more: seq<Turn>)
    requires Quiet(Run(turns)) && |Run(turns).chain| <= 1000 && b !in Run(turns).mem.heap && 20 <= |p| <= 1024
    ensures var s, t := Run(turns), Run(more);
            && Quiet(t) && t.chain == s.chain + [Entry(b, p)] && t.accepted == s.accepted + [p]
            && t.delivered == s.delivered && t.log == AfterTerminator(s.log, p)
  {
    var w := Produce(World(Some(p), Some(b), None, None));
    var s := Run(turns);
    hide Run;
    more := Asks(turns, w, p);
    assert Run(more).prod == Allocating(p);
    OneMore(more, w);
    more := more + [w];
    more := Pushes(more, w, b);
    more := Reports(more, w);
  }

  /** From the arrival of a packet to its admission. */
  lemma {:induction false} Asks(turns: seq<Turn>, w: Turn, p: Packet) returns (more: seq<Turn>)
    requires Quiet(Run(turns)) && |Run(turns).chain| <= 1000 && w.Produce? && w.w.packet == Some(p) && 20 <= |p| <= 1024
    ensures Run(more) == Run(turns).(prod := Allocating(p), log := AfterTerminator(Run(turns).log, p))
  {
    RunsKeepInv(turns);
    var s := Run(turns);
    assert s.mem.size == |s.chain|;
    hide Run, Inv;
    OneMore(turns, w);
    OneMore(turns + [w], w);
    OneMore(turns + [w] + [w], w);
    OneMore(turns + [w] + [w] + [w], w);
    OneMore(turns + [w] + [w] + [w] + [w], w);
    OneMore(turns + [w] + [w] + [w] + [w] + [w], w);
    more := turns + [w] + [w] + [w] + [w] + [w] + [w];
  }

  /** The state once LIST_RPUSH is done and the lock is given back. */
  predicate Pushed(s: State, t: State, b: nat) {
    && b in s.mem.heap
    && t.lock == 0 && t.prod == SizeLock(None) && t.cons == s.cons && t.delivered == s.delivered && t.log == s.log
    && t.chain == s.chain + [Entry(b, s.mem.heap[b].data)] && t.accepted == s.accepted + [s.mem.heap[b].data]
  }

  lemma {:induction false} PushesOn(turns: seq<Turn>, w: Turn, b: nat) returns (more: seq<Turn>)
    requires w.Produce? && ProducerInside(Run(turns).prod) && Holding(Run(turns).prod) == Some(b)
    ensures Pushed(Run(turns), Run(more), b)
    decreases ProducerLeft(Run(turns).prod)
  {
    var s := Run(turns);
    RunsKeepInv(turns);
    NotInChain(s, Holding(s.prod));
    assert b in s.mem.heap;
    hide Run, Ids, Chained, Popping, Packets, Total;
    OneMore(turns, w);
    more := turns + [w];
    if !s.prod.PushUnlock? {
      PushStep(s, w.w, b);
      ProducerKeepsData(s, w.w, b);
      RunsKeepInv(more);
      LockIsGivenBack(turns, w.w);
      more := PushesOn(more, w, b);
    }
  }

  lemma {:induction false} Pushes(turns: seq<Turn>, w: Turn, b: nat) returns (more: seq<Turn>)
    requires w.Produce? && Run(turns).lock == 0 && Run(turns).prod == PushLock(b)
    ensures Pushed(Run(turns), Run(more), b)
  {
    hide Run;
    OneMore(turns, w);
    more := PushesOn(turns + [w], w, b);
  }

  /** The second look at the size, for the log. */
  lemma {:induction false} Reports(turns: seq<Turn>, w: Turn) returns (more: seq<Turn>)
    requires w.Produce? && Run(turns).lock == 0 && Run(turns).prod == SizeLock(None)
    ensures Run(more) == Run(turns).(prod := Receiving)
  {
    hide Run;
    OneMore(turns, w);
    OneMore(turns + [w], w);
    OneMore(turns + [w] + [w], w);
    more := turns + [w] + [w] + [w];
  }

  function Sample(): (p: Packet)
    ensures |p| == MIN_PACKET
  {
    seq(MIN_PACKET, _ => SPACE)
  }

  /** The bound cannot be made smaller: without the consumer the queue fills up to one packet above the limit. */
  lemma {:induction false} BoundIsReached(n: nat) returns (turns: seq<Turn>)
    requires n <= MAX_PCK + 1
    ensures Quiet(Run(turns)) && |Run(turns).chain| == n && forall b <- Ids(Run(turns).chain) :: b < n
  {
    if n == 0 {
      turns := [];
    } else {
      turns := BoundIsReached(n - 1);
      NoBlockIsLost(turns);
      var c := Run(turns).chain;
      hide Run, Ids, Sample;
      turns := Enqueues(turns, Sample(), n - 1);
      PushedIds(c, Entry(n - 1, Sample()));
    }
  }

  // ----- The consumer, left to run

  function Consumes(n: nat): (turns: seq<Turn>)
    ensures |turns| == n
  {
    seq(n, _ => Consume)
  }

  /** The steps of the consumer until it has read a packet that is there, to the end of its block if need be. */
  function StepsToRead(q: Consumer): nat {
    match q
    case EmptyUnlock(n) => if n == 0 then MAX_PACKET + 18 else MAX_PACKET + 13
    case EmptyTest(n) => if n == 0 then MAX_PACKET + 17 else MAX_PACKET + 12
    case Freeing(_) => MAX_PACKET + 16
    case EmptyLock => MAX_PACKET + 15
    case EmptyRead => MAX_PACKET + 14
    case PopLock => MAX_PACKET + 11
    case Reading(_, i) => if i <= MAX_PACKET then MAX_PACKET - i else 0
    case _ => MAX_PACKET + 1 + ConsumerLeft(q)
  }

  /** With a packet in the queue and none in hand, a step brings the consumer closer to reading it. */
  lemma {:induction false} ComesCloser(s: State)
    requires Inv(s) && !ProducerInside(s.prod) && !s.cons.Reading? && s.chain != []
    ensures var t := ConsumerStep(s);
            t.delivered == s.delivered && StepsToRead(t.cons) < StepsToRead(s.cons)
  {
    if ConsumerInside(s.cons) {
      WorksOn(s);
    } else {
      ConsumerKeepsInv(s);
      hide Owned, Shaped, InOrder;
    }
  }

  lemma {:induction false} WorksOn(s: State)
    requires Inv(s) && ConsumerInside(s.cons) && s.chain != []
    ensures var t := ConsumerStep(s);
            t.delivered == s.delivered && StepsToRead(t.cons) < StepsToRead(s.cons)
  {
    InsiderKnows(s);
    hide Inv;
  }

  lemma {:induction false} InsiderKnows(s: State)
    requires Inv(s) && ConsumerInside(s.cons) && s.chain != []
    ensures s.lock == 1 && !s.fault && !ConsumerStep(s).fault
    ensures (s.cons.EmptyRead? ==> s.mem.size != 0) && (s.cons.PopUnlock? ==> s.cons.popped.Some?)
  {
    ConsumerKeepsInv(s);
    hide ConsumerStep, Owned, Seen, InOrder, Chained, Total;
  }

  lemma {:induction false} ReadsOn(s: State)
    requires Inv(s) && s.cons.Reading?
    ensures var t := ConsumerStep(s);
            |t.delivered| == |s.delivered| + 1 || (t.delivered == s.delivered && StepsToRead(t.cons) < StepsToRead(s.cons))
  {
    NotInChain(s, Taken(s.cons));
    hide Owned, Seen, Shaped, Exclusive;
  }

  lemma {:induction false} SomethingIsThere(s: State)
    requires Inv(s) && s.delivered != s.accepted
    ensures s.cons.Reading? || s.chain != []
    ensures |s.delivered| < |s.accepted|
  {
    hide Owned, Seen, Shaped, Exclusive;
  }

  /**
   * From any reachable state in which the producer is in no critical section, the consumer alone, left to run, reads all packets
   * that were enqueued.
   */
  lemma {:induction false} ConsumerDrains(turns: seq<Turn>) returns (n: nat)
    requires !ProducerInside(Run(turns).prod)
    ensures var s, t := Run(turns), Run(turns + Consumes(n));
            t.delivered == s.accepted && t.accepted == s.accepted && t.log.received == s.log.received
    decreases |Run(turns).accepted| - |Run(turns).delivered|, StepsToRead(Run(turns).cons)
  {
    var s := Run(turns);
    RunsKeepInv(turns);
    FirstInFirstOut(turns);
    hide Run, Inv, ConsumerStep, InHand, StepsToRead;
    if s.delivered == s.accepted {
      n := 0;
      assert turns + Consumes(0) == turns;
    } else {
      var next := turns + [Consume];
      OneMore(turns, Consume);
      SomethingIsThere(s);
      ConsumerKeepsHistory(s);
      if s.cons.Reading? {
        ReadsOn(s);
      } else {
        ComesCloser(s);
      }
      var m := ConsumerDrains(next);
      n := m + 1;
      assert next + Consumes(m) == turns + Consumes(n);
    }
  }

  // ----- A read that leaves its block

  /** A packet of blanks is read past the end of its block. */
  lemma {:induction false} BlanksAreOverread() returns (turns: seq<Turn>)
    ensures Run(turns).log.overread && Run(turns).log.received == [Sample()]
  {
    hide Run, Sample, AnyUnterminated, NulFree, ReadSoFar;
    StartsQuiet();
    turns := Enqueues([], Sample(), 0);
    var n := ConsumerDrains(turns);
    turns := turns + Consumes(n);
    BoundsAreKept(turns);
    assert Run(turns).delivered == [Sample()];
    SampleIsUnterminated();
  }

  lemma {:induction false} StartsQuiet()
    ensures Run([]) == Initial() && Quiet(Initial()) && Initial().chain == [] && Initial().accepted == []
  {
  }

  lemma {:induction false} SampleIsUnterminated()
    ensures AnyUnterminated([Sample()])
  {
    assert NulFree([Sample()][0]);
  }
}
