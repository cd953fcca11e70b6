/** The packet queue: its memory, and the programs of the two threads that share it, one statement a step. */
module QueueSteps {
  import opened Ascii

  const MAX_PCK: int := 1000
  const MIN_PACKET: int := 20
  const MAX_PACKET: int := 1024

  /** The size of the receive buffer. */
  const MAX_LEN: int := 1024

  /** What recvfrom can put into its buffer. */
  type Packet = t: Text | |t| <= MAX_PACKET

  datatype Node = Node(prev: Option<nat>, next: Option<nat>, len: int, data: Packet)

  /** The blocks that are allocated, and the queue itself. */
  datatype Memory = Memory(heap: map<nat, Node>, head: Option<nat>, tail: Option<nat>, size: int, len: int)

  /**
   * Where udp_server_loop is. GetQueueSize is called twice: for a packet that waits to be admitted, and once more after it
   * was enqueued, for the log.
   */
  datatype Producer =
    | Receiving
    | Terminating(arrived: Packet)
    | SizeLock(packet: Option<Packet>)
    | SizeRead(packet: Option<Packet>)
    | SizeUnlock(packet: Option<Packet>, seen: int)
    | Admitting(arrived: Packet, seen: int)
    | Allocating(arrived: Packet)
    | PushLock(x: nat)
    | TestHead(x: nat)
    | SetPrev(x: nat)
    | SetNext(x: nat)
    | LinkTail(x: nat)
    | MoveTail(x: nat)
    | FirstTail(x: nat)
    | FirstHead(x: nat)
    | ClearNext(x: nat)
    | ClearPrev(x: nat)
    | CountUp(x: nat)
    | AddLen(x: nat)
    | PushUnlock(x: nat)
    | Stopped

  /** Where main_loop is, with IsEmptyQueue and LIST_LPOP. */
  datatype Consumer =
    | EmptyLock
    | EmptyRead
    | EmptyUnlock(size: int)
    | EmptyTest(size: int)
    | PopLock
    | TestSize
    | TakeHead
    | CountDown(y: nat)
    | MoveHead(y: nat)
    | DetachHead(y: nat)
    | DropTail(y: nat)
    | DropHead(y: nat)
    | DropPrev(y: nat)
    | DropNext(y: nat)
    | SubLen(y: nat)
    | PopUnlock(popped: Option<nat>)
    | Reading(y: nat, i: nat)
    | Freeing(y: nat)

  /** A packet in the queue and the block it is in. */
  datatype Entry = Entry(id: nat, data: Packet)

  /**
   * The packets received and terminated, and what went beyond bounds: `overwrote` is set when a byte is written at an index that
   * the receive buffer does not have, and `overread` when one is read at an index that the block of a packet does not have.
   */
  datatype Log = Log(received: seq<Text>, overwrote: bool, overread: bool)

  /**
   * `fault` is set by a statement that follows a null pointer or a pointer to a block that is not allocated. The rest is
   * history: the packets between the locks of which both threads have let go, the packets enqueued and the packets read.
   */
  datatype State = State(lock: int, mem: Memory, prod: Producer, cons: Consumer, fault: bool,
                         chain: seq<Entry>, accepted: seq<Text>, delivered: seq<Text>, log: Log)

  /**
   * What the outside world decides: the packet that arrives, or that the socket fails; the block malloc finds, or none, and
   * what happens to stand in it.
   */
  datatype World = World(packet: Option<Packet>, block: Option<nat>, prev: Option<nat>, next: Option<nat>)

  function Initial(): State {
    State(0, Memory(map[], None, None, 0, 0), Receiving, EmptyLock, false, [], [], [], Log([], false, false))
  }

  // ----- Statements

  function Faulty(s: State): State {
    s.(fault := true)
  }

  /** `p` points at an allocated block. */
  predicate Allocated(m: Memory, p: Option<nat>) {
    p.Some? && p.value in m.heap
  }

  function WithNext(m: Memory, p: nat, next: Option<nat>): Memory
    requires p in m.heap
  {
    m.(heap := m.heap[p := m.heap[p].(next := next)])
  }

  function WithPrev(m: Memory, p: nat, prev: Option<nat>): Memory
    requires p in m.heap
  {
    m.(heap := m.heap[p := m.heap[p].(prev := prev)])
  }

  /** An attempt to take the lock: without success the thread tries again. */
  function ProducerLocks(s: State, then_: Producer): State {
    if s.lock == 0 then s.(lock := 1, prod := then_) else s
  }

  function ProducerUnlocks(s: State, then_: Producer): State {
    if s.lock == 1 then s.(lock := 0, prod := then_) else s
  }

  function ConsumerLocks(s: State, then_: Consumer): State {
    if s.lock == 0 then s.(lock := 1, cons := then_) else s
  }

  function ConsumerUnlocks(s: State, then_: Consumer): State {
    if s.lock == 1 then s.(lock := 0, cons := then_) else s
  }

  /** buffer[n] = '\0', n being the length of the packet in the buffer. */
  function AfterTerminator(l: Log, p: Packet): Log {
    l.(received := l.received + [p], overwrote := l.overwrote || !InBuffer(|p|))
  }

  predicate InBuffer(index: nat) {
    index < MAX_LEN
  }

  /** One statement of udp_server_loop, GetQueueSize or BufferInQueue. */
  function ProducerStep(s: State, w: World): State {
    var m := s.mem;
    match s.prod
    case Receiving =>
      if w.packet.None? then s.(prod := Stopped) else s.(prod := Terminating(w.packet.value))
    case Terminating(p) => s.(prod := SizeLock(Some(p)), log := AfterTerminator(s.log, p))
    case SizeLock(p) => ProducerLocks(s, SizeRead(p))
    case SizeRead(p) => s.(prod := SizeUnlock(p, m.size))
    case SizeUnlock(p, n) => ProducerUnlocks(s, if p.Some? then Admitting(p.value, n) else Receiving)
    case Admitting(p, n) =>
      if n > MAX_PCK then s.(prod := Receiving)
      else if |p| > MAX_PACKET || |p| < MIN_PACKET then s.(prod := Receiving)
      else s.(prod := Allocating(p))
    case Allocating(p) =>
      if w.block.None? || w.block.value in m.heap then s.(prod := Receiving)
      else s.(mem := m.(heap := m.heap[w.block.value := Node(w.prev, w.next, |p|, p)]), prod := PushLock(w.block.value))
    case PushLock(x) => ProducerLocks(s, TestHead(x))
    case TestHead(x) => s.(prod := if m.head.Some? then SetPrev(x) else FirstTail(x))
    case SetPrev(x) => if x !in m.heap then Faulty(s) else s.(mem := WithPrev(m, x, m.tail), prod := SetNext(x))
    case SetNext(x) => if x !in m.heap then Faulty(s) else s.(mem := WithNext(m, x, None), prod := LinkTail(x))
    case LinkTail(x) =>
      if !Allocated(m, m.tail) then Faulty(s) else s.(mem := WithNext(m, m.tail.value, Some(x)), prod := MoveTail(x))
    case MoveTail(x) => s.(mem := m.(tail := Some(x)), prod := CountUp(x))
    case FirstTail(x) => s.(mem := m.(tail := Some(x)), prod := FirstHead(x))
    case FirstHead(x) => s.(mem := m.(head := Some(x)), prod := ClearNext(x))
    case ClearNext(x) => if x !in m.heap then Faulty(s) else s.(mem := WithNext(m, x, None), prod := ClearPrev(x))
    case ClearPrev(x) => if x !in m.heap then Faulty(s) else s.(mem := WithPrev(m, x, None), prod := CountUp(x))
    case CountUp(x) => s.(mem := m.(size := m.size + 1), prod := AddLen(x))
    case AddLen(x) => if x !in m.heap then Faulty(s) else s.(mem := m.(len := m.len + m.heap[x].len), prod := PushUnlock(x))
    case PushUnlock(x) =>
      if x !in m.heap then Faulty(s)
      else
        var t := ProducerUnlocks(s, SizeLock(None));
        if t.lock == s.lock then t
        else t.(chain := s.chain + [Entry(x, m.heap[x].data)], accepted := s.accepted + [m.heap[x].data])
    case Stopped => s
  }

  function DoneReading(s: State, y: nat): State
    requires y in s.mem.heap
  {
    s.(delivered := s.delivered + [s.mem.heap[y].data], cons := Freeing(y))
  }

  /** One statement of main_loop, IsEmptyQueue or BufferOutQueue. */
  function ConsumerStep(s: State): State {
    var m := s.mem;
    match s.cons
    case EmptyLock => ConsumerLocks(s, EmptyRead)
    case EmptyRead => s.(cons := EmptyUnlock(m.size))
    case EmptyUnlock(n) => ConsumerUnlocks(s, EmptyTest(n))
    case EmptyTest(n) => s.(cons := if n == 0 then EmptyLock else PopLock)
    case PopLock => ConsumerLocks(s, TestSize)
    case TestSize => s.(cons := if m.size != 0 then TakeHead else PopUnlock(None))
    case TakeHead => if m.head.None? then Faulty(s) else s.(cons := CountDown(m.head.value))
    case CountDown(y) =>
      s.(mem := m.(size := m.size - 1), cons := if m.size - 1 != 0 then MoveHead(y) else DropTail(y))
    case MoveHead(y) => if y !in m.heap then Faulty(s) else s.(mem := m.(head := m.heap[y].next), cons := DetachHead(y))
    case DetachHead(y) =>
      if !Allocated(m, m.head) then Faulty(s) else s.(mem := WithPrev(m, m.head.value, None), cons := DropPrev(y))
    case DropTail(y) => s.(mem := m.(tail := None), cons := DropHead(y))
    case DropHead(y) => s.(mem := m.(head := None), cons := DropPrev(y))
    case DropPrev(y) => if y !in m.heap then Faulty(s) else s.(mem := WithPrev(m, y, None), cons := DropNext(y))
    case DropNext(y) => if y !in m.heap then Faulty(s) else s.(mem := WithNext(m, y, None), cons := SubLen(y))
    case SubLen(y) =>
      if y !in m.heap then Faulty(s) else s.(mem := m.(len := m.len - m.heap[y].len), cons := PopUnlock(Some(y)))
    case PopUnlock(r) =>
      var t := ConsumerUnlocks(s, if r.Some? then Reading(r.value, 0) else EmptyLock);
      if t.lock == s.lock || r.None? || s.chain == [] then t else t.(chain := s.chain[1..])
    case Reading(y, i) =>
      if y !in m.heap then Faulty(s)
      else if i >= |m.heap[y].data| then DoneReading(s.(log := s.log.(overread := true)), y)
      else if m.heap[y].data[i] == NUL then DoneReading(s, y)
      else s.(cons := Reading(y, i + 1))
    case Freeing(y) => if y !in m.heap then Faulty(s) else s.(mem := m.(heap := m.heap - {y}), cons := EmptyLock)
  }

  // ----- Runs

  /** Who makes the next step. */
  datatype Turn = Produce(w: World) | Consume

  function Step(s: State, t: Turn): State {
    match t
    case Produce(w) => ProducerStep(s, w)
    case Consume => ConsumerStep(s)
  }

  /** The state after any interleaving of the two threads. */
  function Run(turns: seq<Turn>): State {
    if turns == [] then Initial() else Step(Run(turns[..|turns| - 1]), turns[|turns| - 1])
  }
}
