/** The guarantees of the packet queue, over all runs of its two threads. */
module QueueSafety {
  import opened Ascii
  import opened QueueSteps
  import opened QueueProof

  /** The critical sections exclude each other, and the lock word says whether a thread is in one. */
  lemma {:induction false} MutualExclusion(turns: seq<Turn>)
    ensures var s := Run(turns);
            && !(ProducerInside(s.prod) && ConsumerInside(s.cons))
            && s.lock == if ProducerInside(s.prod) || ConsumerInside(s.cons) then 1 else 0
  {
    RunsKeepInv(turns);
  }

  /** Whenever the lock is free, the links, the ends and both counts of the queue are those of the packets in it. */
  lemma {:induction false} FreeQueueIsList(turns: seq<Turn>)
    ensures var s := Run(turns);
            s.lock == 0 ==>
              && s.mem.size == |s.chain| && s.mem.len == Total(s.chain)
              && s.mem.head == FirstId(s.chain) && s.mem.tail == LastId(s.chain)
              && (forall i :: 0 <= i < |s.chain| ==> Linked(s.mem.heap, s.chain, i))
              && (forall i, j :: 0 <= i < j < |s.chain| ==> s.chain[i].id != s.chain[j].id)
  {
    RunsKeepInv(turns);
  }

  /** Packets come out in the order in which they went in; none is lost and none comes twice. */
  lemma {:induction false} FirstInFirstOut(turns: seq<Turn>)
    ensures var s := Run(turns);
            s.accepted == s.delivered + InHand(s) + Packets(s.chain) && s.delivered <= s.accepted
  {
    RunsKeepInv(turns);
    hide Run, Shaped, Owned, Seen, InHand;
    var s := Run(turns);
    assert InOrder(s);
    assert s.delivered + InHand(s) + Packets(s.chain) == s.delivered + (InHand(s) + Packets(s.chain));
  }

  /** No statement ever follows a null pointer or one to a block that is free. */
  lemma {:induction false} NoFault(turns: seq<Turn>)
    ensures !Run(turns).fault
  {
    RunsKeepInv(turns);
  }

  predicate AnyUnterminated(packets: seq<Text>) {
    exists i :: 0 <= i < |packets| && NulFree(packets[i])
  }

  predicate AnyOfFullSize(packets: seq<Text>) {
    exists i :: 0 <= i < |packets| && |packets[i]| == MAX_PACKET
  }

  /** The read of the packet in hand has come to no NUL yet, and is not beyond the block. */
  predicate ReadSoFar(s: State) {
    s.cons.Reading? && s.cons.y in s.mem.heap ==>
      var data := s.mem.heap[s.cons.y].data;
      s.cons.i <= |data| && forall k :: 0 <= k < s.cons.i ==> data[k] != NUL
  }

  /**
   * The consumer reads a byte behind a block exactly when a packet without a NUL is read, and the producer writes a byte behind
   * its buffer exactly when a packet of 1024 bytes arrives.
   */
  lemma {:induction false} BoundsAreKept(turns: seq<Turn>)
    ensures var s := Run(turns);
            && ReadSoFar(s)
            && (s.log.overread <==> AnyUnterminated(s.delivered))
            && (s.log.overwrote <==> AnyOfFullSize(s.log.received))
  {
    hide ProducerStep, ConsumerStep, AnyUnterminated, AnyOfFullSize, ReadSoFar, Inv;
    if turns == [] {
      NoPackets();
    } else {
      var s := Run(turns[..|turns| - 1]);
      BoundsAreKept(turns[..|turns| - 1]);
      RunsKeepInv(turns[..|turns| - 1]);
      match turns[|turns| - 1]
      case Produce(w) =>
        ProducerLogs(s, w);
        ProducerKeepsRead(s, w);
      case Consume => ConsumerLogs(s);
    }
  }

  lemma {:induction false} NoPackets()
    ensures !AnyUnterminated([]) && !AnyOfFullSize([]) && ReadSoFar(Initial())
  {
  }

  lemma {:induction false} ProducerLogs(s: State, w: World)
    requires s.log.overwrote <==> AnyOfFullSize(s.log.received)
    ensures var t := ProducerStep(s, w);
            && t.delivered == s.delivered && t.log.overread == s.log.overread
            && (t.log.overwrote <==> AnyOfFullSize(t.log.received))
  {
    hide AnyOfFullSize;
    if s.prod.Terminating? {
      OneMorePacket(s.log.received, s.prod.arrived);
    }
  }

  /** The producer leaves the packet alone that the consumer reads. */
  lemma {:induction false} ProducerKeepsRead(s: State, w: World)
    requires Inv(s) && ReadSoFar(s)
    ensures ReadSoFar(ProducerStep(s, w))
  {
    if s.cons.Reading? {
      NotInChain(s, Taken(s.cons));
      hide Inv;
      ProducerKeepsData(s, w, s.cons.y);
      hide ProducerStep;
    }
  }

  lemma {:induction false} ProducerKeepsData(s: State, w: World, y: nat)
    requires y in s.mem.heap
    ensures var t := ProducerStep(s, w);
            y in t.mem.heap && t.mem.heap[y].data == s.mem.heap[y].data && t.cons == s.cons
  {
  }

  lemma {:induction false} ConsumerLogs(s: State)
    requires ReadSoFar(s) && (s.log.overread <==> AnyUnterminated(s.delivered))
    ensures var t := ConsumerStep(s);
            && t.log.received == s.log.received && t.log.overwrote == s.log.overwrote
            && ReadSoFar(t) && (t.log.overread <==> AnyUnterminated(t.delivered))
  {
    if s.cons.Reading? && s.cons.y in s.mem.heap {
      ReadStep(s);
      hide ConsumerStep, ReadSoFar, AnyUnterminated;
    } else {
      StartsToRead(s);
      hide AnyUnterminated;
    }
  }

  /** One byte of the packet: the read goes on, ends at a NUL, or leaves the block, since there was none. */
  lemma {:induction false} ReadStep(s: State)
    requires s.cons.Reading? && s.cons.y in s.mem.heap
    requires ReadSoFar(s) && (s.log.overread <==> AnyUnterminated(s.delivered))
    ensures var t := ConsumerStep(s);
            && t.log.received == s.log.received && t.log.overwrote == s.log.overwrote
            && ReadSoFar(t) && (t.log.overread <==> AnyUnterminated(t.delivered))
  {
    hide AnyUnterminated;
    OneMorePacket(s.delivered, s.mem.heap[s.cons.y].data);
  }

  lemma {:induction false} StartsToRead(s: State)
    requires !s.cons.Reading? || s.cons.y !in s.mem.heap
    ensures var t := ConsumerStep(s);
            && t.log == s.log && t.delivered == s.delivered
            && (t.cons.Reading? ==> t.cons.i == 0 || (t.cons == s.cons && t.mem == s.mem))
  {
  }

  lemma {:induction false} OneMorePacket(packets: seq<Text>, p: Text)
    ensures AnyUnterminated(packets + [p]) <==> AnyUnterminated(packets) || NulFree(p)
    ensures AnyOfFullSize(packets + [p]) <==> AnyOfFullSize(packets) || |p| == MAX_PACKET
  {
    var more := packets + [p];
    assert more[|packets|] == p;
    if i :| 0 <= i < |packets| && NulFree(packets[i]) {
      assert more[i] == packets[i];
    }
    if i :| 0 <= i < |packets| && |packets[i]| == MAX_PACKET {
      assert more[i] == packets[i];
    }
  }

  /** What the producer has in hand was received. */
  predicate FromOutside(s: State) {
    var x := Holding(s.prod);
    match s.prod
    case SizeLock(Some(p)) => p in s.log.received
    case SizeRead(Some(p)) => p in s.log.received
    case SizeUnlock(Some(p), _) => p in s.log.received
    case Admitting(p, _) => p in s.log.received
    case Allocating(p) => p in s.log.received
    case _ => x.Some? && x.value in s.mem.heap ==> s.mem.heap[x.value].data in s.log.received
  }

  /** Nothing is enqueued that was not received. */
  lemma {:induction false} OnlyReceivedIsAccepted(turns: seq<Turn>)
    ensures var s := Run(turns);
            FromOutside(s) && forall p <- s.accepted :: p in s.log.received
  {
    hide ProducerStep, ConsumerStep, FromOutside;
    if turns == [] {
      StartsEmpty();
    } else {
      var s := Run(turns[..|turns| - 1]);
      OnlyReceivedIsAccepted(turns[..|turns| - 1]);
      match turns[|turns| - 1]
      case Produce(w) => ProducerTakesIn(s, w);
      case Consume => ConsumerTakesNothingIn(s);
    }
  }

  lemma {:induction false} StartsEmpty()
    ensures FromOutside(Initial())
  {
  }

  lemma {:induction false} ProducerTakesIn(s: State, w: World)
    requires FromOutside(s) && forall p <- s.accepted :: p in s.log.received
    ensures var t := ProducerStep(s, w);
            FromOutside(t) && forall p <- t.accepted :: p in t.log.received
  {
    if Holding(s.prod).Some? {
      hide FromOutside;
      var x := Holding(s.prod).value;
      DataIsKept(s, w, x);
      if x in s.mem.heap {
        ProducerKeepsData(s, w, x);
      }
      HeldFromOutside(s);
      HeldFromOutside(ProducerStep(s, w));
      hide ProducerStep;
    }
  }

  lemma {:induction false} HeldFromOutside(s: State)
    requires Holding(s.prod).Some? || s.prod == SizeLock(None)
    ensures FromOutside(s) <==>
            var x := Holding(s.prod);
            x.Some? && x.value in s.mem.heap ==> s.mem.heap[x.value].data in s.log.received
  {
  }

  /** Until the block is enqueued. */
  lemma {:induction false} DataIsKept(s: State, w: World, x: nat)
    requires Holding(s.prod) == Some(x)
    ensures var t := ProducerStep(s, w);
            && t.log == s.log && (Holding(t.prod) == Some(x) || t.prod == SizeLock(None))
            && t.mem.heap.Keys == s.mem.heap.Keys
            && (t.accepted == s.accepted || (x in s.mem.heap && t.accepted == s.accepted + [s.mem.heap[x].data]))
  {
  }

  lemma {:induction false} ConsumerTakesNothingIn(s: State)
    requires FromOutside(s)
    ensures var t := ConsumerStep(s);
            FromOutside(t) && t.accepted == s.accepted && t.log.received == s.log.received
  {
    hide FromOutside;
    var x := Holding(s.prod);
    ConsumerKeepsHistory(s);
    ConsumerKeepsData(s, if x.Some? then x.value else 0);
    hide ConsumerStep;
    SameOutside(s, ConsumerStep(s));
  }

  lemma {:induction false} ConsumerKeepsData(s: State, x: nat)
    ensures var t := ConsumerStep(s);
            x in t.mem.heap ==> x in s.mem.heap && t.mem.heap[x].data == s.mem.heap[x].data
  {
  }

  lemma {:induction false} ConsumerKeepsHistory(s: State)
    ensures var t := ConsumerStep(s);
            t.prod == s.prod && t.accepted == s.accepted && t.log.received == s.log.received
  {
    hide WithNext, WithPrev;
  }

  lemma {:induction false} SameOutside(s: State, t: State)
    requires FromOutside(s) && t.prod == s.prod && t.log.received == s.log.received
    requires var x := Holding(s.prod);
             x.Some? && x.value in t.mem.heap ==> x.value in s.mem.heap && t.mem.heap[x.value].data == s.mem.heap[x.value].data
    ensures FromOutside(t)
  {
  }

  /** The consumer stays inside its blocks as long as every packet that arrives holds a NUL. */
  lemma {:induction false} TerminatedPacketsAreSafe(turns: seq<Turn>)
    requires forall p <- Run(turns).log.received :: !NulFree(p)
    ensures !Run(turns).log.overread
  {
    BoundsAreKept(turns);
    OnlyReceivedIsAccepted(turns);
    FirstInFirstOut(turns);
    hide Run, NulFree;
    var s := Run(turns);
    forall i | 0 <= i < |s.delivered| ensures s.delivered[i] in s.log.received {
      assert s.delivered[i] == s.accepted[i];
    }
  }

  /** Every allocated block is either in the queue or with exactly one of the threads. */
  lemma {:induction false} NoBlockIsLost(turns: seq<Turn>)
    ensures var s := Run(turns);
            && s.mem.heap.Keys == Ids(s.chain) + AsSet(Holding(s.prod)) + AsSet(Taken(s.cons))
            && Ids(s.chain) !! AsSet(Holding(s.prod)) && Ids(s.chain) !! AsSet(Taken(s.cons))
            && AsSet(Holding(s.prod)) !! AsSet(Taken(s.cons))
  {
    RunsKeepInv(turns);
  }

  /** Once the queue was seen not to be empty, taking a packet out does not fail. */
  lemma {:induction false} PopNeverFails(turns: seq<Turn>)
    ensures Run(turns).cons != PopUnlock(None)
  {
    RunsKeepInv(turns);
  }

  /** However the threads interleave, the queue holds at most one packet more than the limit of the admission check. */
  lemma {:induction false} QueueIsBounded(turns: seq<Turn>)
    ensures var s := Run(turns);
            |s.chain| <= MAX_PCK + 1 && 0 <= s.mem.size <= MAX_PCK + 1 && 0 <= s.mem.len <= MAX_PACKET * (MAX_PCK + 1)
  {
    RunsKeepInv(turns);
    var s := Run(turns);
    ShapeIsBounded(s);
  }

  /** Both counts are those of some chain that is within the bound, give or take the packet on its way. */
  predicate Bounded(m: Memory) {
    0 <= m.size <= MAX_PCK + 1 && 0 <= m.len <= MAX_PACKET * (MAX_PCK + 1)
  }

  lemma {:induction false} ShapeIsBounded(s: State)
    requires Inv(s)
    ensures Bounded(s.mem)
  {
    if ProducerInside(s.prod) {
      PushIsBounded(s.mem, s.prod, s.chain);
    } else if ConsumerInside(s.cons) {
      PopIsBounded(s.mem, s.cons, s.chain);
    } else {
      TotalBound(s.chain);
    }
  }

  lemma {:induction false} PushIsBounded(m: Memory, p: Producer, c: seq<Entry>)
    requires ProducerInside(p) && Pushing(m, p, c) && |c| <= if Holding(p).Some? then MAX_PCK else MAX_PCK + 1
    ensures Bounded(m)
  {
    hide Chained, Total, Ends, Holds;
    TotalBound(c);
    if p.PushUnlock? {
      TotalBound(c + [Wrapped(m.heap, p.x)]);
    }
  }

  lemma {:induction false} PopIsBounded(m: Memory, q: Consumer, c: seq<Entry>)
    requires ConsumerInside(q) && Popping(m, q, c) && |c| <= MAX_PCK + 1
    ensures Bounded(m)
  {
    hide Chained, Total, Ends, Holds, Distinct;
    TotalBound(c);
    if c != [] {
      TotalBound(c[1..]);
    }
  }

  // ----- The lock is given back

  /** At most so many steps of the thread itself until it has let go of the lock. */
  function ProducerLeft(p: Producer): nat {
    match p
    case SizeRead(_) => 2
    case SizeUnlock(_, _) => 1
    case TestHead(_) => 8
    case SetPrev(_) => 7
    case SetNext(_) => 6
    case LinkTail(_) => 5
    case MoveTail(_) => 4
    case FirstTail(_) => 7
    case FirstHead(_) => 6
    case ClearNext(_) => 5
    case ClearPrev(_) => 4
    case CountUp(_) => 3
    case AddLen(_) => 2
    case PushUnlock(_) => 1
    case _ => 0
  }

  function ConsumerLeft(q: Consumer): nat {
    match q
    case EmptyRead => 2
    case EmptyUnlock(_) => 1
    case TestSize => 9
    case TakeHead => 8
    case CountDown(_) => 7
    case MoveHead(_) => 6
    case DetachHead(_) => 5
    case DropTail(_) => 6
    case DropHead(_) => 5
    case DropPrev(_) => 4
    case DropNext(_) => 3
    case SubLen(_) => 2
    case PopUnlock(_) => 1
    case _ => 0
  }

  /** A thread with the lock needs nothing but its own steps, and at most nine of them, to give it back. */
  lemma {:induction false} LockIsGivenBack(turns: seq<Turn>, w: World)
    ensures var s := Run(turns);
            && ProducerLeft(s.prod) <= 9 && ConsumerLeft(s.cons) <= 9
            && (ProducerInside(s.prod) ==> var t := ProducerStep(s, w); t.lock == 0 || ProducerLeft(t.prod) < ProducerLeft(s.prod))
            && (ConsumerInside(s.cons) ==> var t := ConsumerStep(s); t.lock == 0 || ConsumerLeft(t.cons) < ConsumerLeft(s.cons))
  {
    RunsKeepInv(turns);
    var s := Run(turns);
    ProducerKeepsInv(s, w);
    ConsumerKeepsInv(s);
    ReleasesLock(s, w);
  }

  lemma {:induction false} ReleasesLock(s: State, w: World)
    requires Inv(s) && Inv(ProducerStep(s, w)) && Inv(ConsumerStep(s))
    ensures ProducerInside(s.prod) ==> var t := ProducerStep(s, w); t.lock == 0 || ProducerLeft(t.prod) < ProducerLeft(s.prod)
    ensures ConsumerInside(s.cons) ==> var t := ConsumerStep(s); t.lock == 0 || ConsumerLeft(t.cons) < ConsumerLeft(s.cons)
  {
    hide Shaped, Owned, Seen, InOrder;
  }

  // ----- Destroying the queue

  /**
   * LIST_DESTROY of a queue that no thread is at work on: the blocks of its packets and of the queue itself are freed, and no
   * others. The counter of the loop ends one below zero.
   */
  method Destroy(m: Memory, queue: nat, ghost c: seq<Entry>) returns (blocks: set<nat>, size: int, len: int)
    requires Listed(m, c) && queue !in m.heap
    ensures blocks == m.heap.Keys - Ids(c) && size == -1 && len == 0
  {
    blocks := m.heap.Keys + {queue};
    var curr;
    curr, size := m.head, m.size;
    ghost var i := 0;
    while size != 0
      invariant 0 <= i <= |c| && size == |c| - i
      invariant curr == if i < |c| then Some(c[i].id) else None
      invariant blocks == m.heap.Keys + {queue} - Ids(c[..i])
      decreases size
    {
      size := size - 1;
      assert Linked(m.heap, c, i);
      NotYetFreed(c, i);
      var next := m.heap[curr.value].next;
      blocks := blocks - {curr.value};
      curr, i := next, i + 1;
    }
    size := size - 1;
    assert c[..i] == c;
    len := 0;
    blocks := blocks - {queue};
  }

  lemma {:induction false} NotYetFreed(c: seq<Entry>, i: nat)
    requires Distinct(c) && i < |c|
    ensures c[i].id !in Ids(c[..i])
    ensures Ids(c[..i + 1]) == Ids(c[..i]) + {c[i].id}
  {
    assert c[..i + 1] == c[..i] + [c[i]];
    PushedIds(c[..i], c[i]);
    forall e | e in c[..i] ensures e.id != c[i].id {
      var j :| 0 <= j < i && c[..i][j] == e;
    }
  }
}
