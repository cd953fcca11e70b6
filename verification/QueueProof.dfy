/** What holds of the packet queue in every state that any interleaving of its two threads can reach. */
module QueueProof {
  import opened Ascii
  import opened QueueSteps

  // ----- The list that the links stand for

  function Successor(c: seq<Entry>, i: nat): Option<nat>
    requires i < |c|
  {
    if i + 1 < |c| then Some(c[i + 1].id) else None
  }

  function Predecessor(c: seq<Entry>, i: nat): Option<nat>
    requires i < |c|
  {
    if i == 0 then None else Some(c[i - 1].id)
  }

  /** The block of a packet holds it. */
  predicate Holds(h: map<nat, Node>, e: Entry) {
    e.id in h && h[e.id].data == e.data && h[e.id].len == |e.data| && MIN_PACKET <= |e.data|
  }

  predicate Linked(h: map<nat, Node>, c: seq<Entry>, i: nat)
    requires i < |c|
  {
    Holds(h, c[i]) && h[c[i].id].prev == Predecessor(c, i) && h[c[i].id].next == Successor(c, i)
  }

  predicate Distinct(c: seq<Entry>) {
    forall i, j :: 0 <= i < j < |c| ==> c[i].id != c[j].id
  }

  /** Every packet of the chain is linked to its neighbours in both directions. */
  predicate Chained(h: map<nat, Node>, c: seq<Entry>) {
    Distinct(c) && forall i :: 0 <= i < |c| ==> Linked(h, c, i)
  }

  function FirstId(c: seq<Entry>): Option<nat> {
    if c == [] then None else Some(c[0].id)
  }

  function LastId(c: seq<Entry>): Option<nat> {
    if c == [] then None else Some(c[|c| - 1].id)
  }

  function Total(c: seq<Entry>): nat {
    if c == [] then 0 else Total(c[..|c| - 1]) + |c[|c| - 1].data|
  }

  predicate Ends(m: Memory, c: seq<Entry>) {
    m.head == FirstId(c) && m.tail == LastId(c)
  }

  /** The whole queue stands for the chain. */
  predicate Listed(m: Memory, c: seq<Entry>) {
    Chained(m.heap, c) && Ends(m, c) && m.size == |c| && m.len == Total(c)
  }

  function Ids(c: seq<Entry>): set<nat> {
    set e <- c :: e.id
  }

  // ----- Halfway through an operation

  predicate ProducerInside(p: Producer) {
    match p
    case Receiving => false
    case Terminating(_) => false
    case SizeLock(_) => false
    case Admitting(_, _) => false
    case Allocating(_) => false
    case PushLock(_) => false
    case Stopped => false
    case _ => true
  }

  predicate ConsumerInside(q: Consumer) {
    match q
    case EmptyLock => false
    case EmptyTest(_) => false
    case PopLock => false
    case Reading(_, _) => false
    case Freeing(_) => false
    case _ => true
  }

  /** The block the producer has allocated and not yet let go of. */
  function Holding(p: Producer): Option<nat> {
    match p
    case PushLock(x) => Some(x)
    case TestHead(x) => Some(x)
    case SetPrev(x) => Some(x)
    case SetNext(x) => Some(x)
    case LinkTail(x) => Some(x)
    case MoveTail(x) => Some(x)
    case FirstTail(x) => Some(x)
    case FirstHead(x) => Some(x)
    case ClearNext(x) => Some(x)
    case ClearPrev(x) => Some(x)
    case CountUp(x) => Some(x)
    case AddLen(x) => Some(x)
    case PushUnlock(x) => Some(x)
    case _ => None
  }

  /** The block the consumer has taken out and not yet freed. */
  function Taken(q: Consumer): Option<nat> {
    match q
    case Reading(y, _) => Some(y)
    case Freeing(y) => Some(y)
    case _ => None
  }

  function AsSet(b: Option<nat>): set<nat> {
    if b.Some? then {b.value} else {}
  }

  /** The entry that a block will be. */
  function Wrapped(h: map<nat, Node>, x: nat): Entry
    requires x in h
  {
    Entry(x, h[x].data)
  }

  predicate Pending(m: Memory, x: nat) {
    x in m.heap && Holds(m.heap, Wrapped(m.heap, x))
  }

  /** The queue while the producer has the lock, statement by statement; `c` is the chain without the new block. */
  predicate Pushing(m: Memory, p: Producer, c: seq<Entry>) {
    match p
    case SizeRead(_) => Listed(m, c)
    case SizeUnlock(_, _) => Listed(m, c)
    case TestHead(x) => Listed(m, c)
    case SetPrev(x) => Listed(m, c) && c != []
    case SetNext(x) => Listed(m, c) && c != [] && x in m.heap && m.heap[x].prev == m.tail
    case LinkTail(x) => Listed(m, c) && c != [] && x in m.heap && m.heap[x].prev == m.tail && m.heap[x].next == None
    case MoveTail(x) =>
      && x in m.heap && Chained(m.heap, c + [Wrapped(m.heap, x)]) && c != []
      && m.head == FirstId(c) && m.size == |c| && m.len == Total(c)
    case FirstTail(x) => Listed(m, c) && c == []
    case FirstHead(x) => c == [] && m.tail == Some(x) && m.size == 0 && m.len == 0
    case ClearNext(x) => c == [] && m.head == Some(x) && m.tail == Some(x) && m.size == 0 && m.len == 0
    case ClearPrev(x) =>
      c == [] && m.head == Some(x) && m.tail == Some(x) && m.size == 0 && m.len == 0 && x in m.heap && m.heap[x].next == None
    case CountUp(x) => x in m.heap && Grown(m, c, Wrapped(m.heap, x)) && m.size == |c| && m.len == Total(c)
    case AddLen(x) => x in m.heap && Grown(m, c, Wrapped(m.heap, x)) && m.size == |c| + 1 && m.len == Total(c)
    case PushUnlock(x) => x in m.heap && Listed(m, c + [Wrapped(m.heap, x)])
    case _ => true
  }

  /** The links stand for the longer chain. */
  predicate Grown(m: Memory, c: seq<Entry>, e: Entry) {
    Chained(m.heap, c + [e]) && Ends(m, c + [e])
  }

  /** The queue while the consumer has the lock; `c` is the chain with the block it takes out. */
  predicate Popping(m: Memory, q: Consumer, c: seq<Entry>) {
    match q
    case EmptyRead => Listed(m, c)
    case EmptyUnlock(_) => Listed(m, c)
    case TestSize => Listed(m, c) && c != []
    case TakeHead => Listed(m, c) && c != []
    case CountDown(y) => Listed(m, c) && c != [] && y == c[0].id
    case MoveHead(y) =>
      1 < |c| && y == c[0].id && Chained(m.heap, c) && Ends(m, c) && m.size == |c| - 1 && m.len == Total(c)
    case DetachHead(y) =>
      && 1 < |c| && y == c[0].id && Chained(m.heap, c) && m.head == Some(c[1].id) && m.tail == LastId(c)
      && m.size == |c| - 1 && m.len == Total(c)
    case DropTail(y) => |c| == 1 && y == c[0].id && Chained(m.heap, c) && m.size == 0 && m.len == Total(c)
    case DropHead(y) => |c| == 1 && y == c[0].id && Chained(m.heap, c) && m.tail == None && m.size == 0 && m.len == Total(c)
    case DropPrev(y) => Shrunk(m, c, y) && m.len == Total(c)
    case DropNext(y) => Shrunk(m, c, y) && m.len == Total(c)
    case SubLen(y) => Shrunk(m, c, y) && m.len == Total(c)
    case PopUnlock(r) => c != [] && r == Some(c[0].id) && Distinct(c) && Holds(m.heap, c[0]) && Listed(m, c[1..])
    case _ => true
  }

  /** The links stand for the chain without its first block, which still holds its packet. */
  predicate Shrunk(m: Memory, c: seq<Entry>, y: nat) {
    && c != [] && y == c[0].id && Holds(m.heap, c[0]) && Distinct(c)
    && Chained(m.heap, c[1..]) && Ends(m, c[1..]) && m.size == |c| - 1
  }

  // ----- The invariant

  /** Exactly the thread inside a critical section has the lock, and they are never both inside. */
  predicate Exclusive(s: State) {
    && (s.lock == 0 || s.lock == 1)
    && !(ProducerInside(s.prod) && ConsumerInside(s.cons))
    && (s.lock == 1 <==> ProducerInside(s.prod) || ConsumerInside(s.cons))
  }

  predicate Shaped(s: State) {
    && Pushing(s.mem, s.prod, s.chain)
    && Popping(s.mem, s.cons, s.chain)
    && (s.lock == 0 ==> Listed(s.mem, s.chain))
  }

  /** Every allocated block is in the queue, or with one of the threads, and only there. */
  predicate Owned(s: State) {
    && s.mem.heap.Keys == Ids(s.chain) + AsSet(Holding(s.prod)) + AsSet(Taken(s.cons))
    && Ids(s.chain) !! AsSet(Holding(s.prod)) && Ids(s.chain) !! AsSet(Taken(s.cons))
    && AsSet(Holding(s.prod)) !! AsSet(Taken(s.cons))
    && (Holding(s.prod).Some? ==> Pending(s.mem, Holding(s.prod).value))
  }

  /** What the producer has seen of the size bounds it until it has pushed; what the consumer has seen stays in the queue. */
  predicate Seen(s: State) {
    && |s.chain| <= MAX_PCK + 1
    && (s.prod.SizeUnlock? ==> |s.chain| <= s.prod.seen)
    && (s.prod.Admitting? ==> |s.chain| <= s.prod.seen)
    && (s.prod.Allocating? ==> |s.chain| <= MAX_PCK && MIN_PACKET <= |s.prod.arrived|)
    && (Holding(s.prod).Some? ==> |s.chain| <= MAX_PCK)
    && (s.cons.EmptyUnlock? && s.cons.size != 0 ==> s.chain != [])
    && (s.cons.EmptyTest? && s.cons.size != 0 ==> s.chain != [])
    && (s.cons.PopLock? ==> s.chain != [])
  }

  function Packets(c: seq<Entry>): seq<Text> {
    seq(|c|, i requires 0 <= i < |c| => c[i].data)
  }

  /** The packet that the consumer has taken out but not read yet. */
  function InHand(s: State): seq<Text> {
    if s.cons.Reading? && s.cons.y in s.mem.heap then [s.mem.heap[s.cons.y].data] else []
  }

  /** No packet is lost, doubled or moved out of turn. */
  predicate InOrder(s: State) {
    s.accepted == s.delivered + InHand(s) + Packets(s.chain)
  }

  predicate Inv(s: State) {
    !s.fault && Exclusive(s) && Shaped(s) && Owned(s) && Seen(s) && InOrder(s)
  }

  lemma {:induction false} InitialInv()
    ensures Inv(Initial())
  {
  }

  // ----- Chains

  lemma {:induction false} SameLinks(h: map<nat, Node>, k: map<nat, Node>, c: seq<Entry>)
    requires Chained(h, c) && forall i :: 0 <= i < |c| ==> c[i].id in h && c[i].id in k && k[c[i].id] == h[c[i].id]
    ensures Chained(k, c)
  {
    forall i | 0 <= i < |c| ensures Linked(k, c, i) {
      assert Linked(h, c, i);
    }
  }

  lemma {:induction false} InIds(c: seq<Entry>, i: nat)
    requires i < |c|
    ensures c[i].id in Ids(c)
  {
  }

  /** The new block is linked behind the last one. */
  lemma {:induction false} LinkedBehind(h: map<nat, Node>, c: seq<Entry>, e: Entry)
    requires Chained(h, c) && c != [] && e.id !in Ids(c)
    requires Holds(h, e) && h[e.id].prev == LastId(c) && h[e.id].next == None
    ensures c[|c| - 1].id in h
    ensures var last := c[|c| - 1].id; Chained(h[last := h[last].(next := Some(e.id))], c + [e])
  {
    assert Linked(h, c, |c| - 1);
    var last := c[|c| - 1].id;
    var k := h[last := h[last].(next := Some(e.id))];
    var d := c + [e];
    forall i | 0 <= i < |c| ensures c[i].id != e.id {
      InIds(c, i);
    }
    forall i | 0 <= i < |d| ensures Linked(k, d, i) {
      if i < |c| {
        assert Linked(h, c, i);
      }
    }
  }

  /** The first block is taken out in front of the others. */
  lemma {:induction false} DetachedFirst(h: map<nat, Node>, c: seq<Entry>)
    requires Chained(h, c) && 1 < |c|
    ensures c[0].id in h && c[1].id in h && h[c[0].id].next == Some(c[1].id) && Holds(h, c[0])
    ensures var k := h[c[1].id := h[c[1].id].(prev := None)]; Chained(k, c[1..]) && Holds(k, c[0])
  {
    assert Linked(h, c, 0) && Linked(h, c, 1);
    var k := h[c[1].id := h[c[1].id].(prev := None)];
    var d := c[1..];
    forall i | 0 <= i < |d| ensures Linked(k, d, i) {
      assert Linked(h, c, i + 1);
    }
  }

  lemma {:induction false} TotalFront(c: seq<Entry>)
    requires c != []
    ensures Total(c) == |c[0].data| + Total(c[1..])
  {
    if |c| > 1 {
      TotalFront(c[..|c| - 1]);
      assert c[..|c| - 1][1..] == c[1..][..|c| - 2];
    }
  }

  lemma {:induction false} TotalBack(c: seq<Entry>, e: Entry)
    ensures Total(c + [e]) == Total(c) + |e.data|
  {
    assert (c + [e])[..|c|] == c;
  }

  lemma {:induction false} TotalBound(c: seq<Entry>)
    ensures Total(c) <= MAX_PACKET * |c|
  {
    if c != [] {
      TotalBound(c[..|c| - 1]);
    }
  }

  // ----- A step of the producer inside its critical section

  lemma {:induction false} OthersKept(m: Memory, n: Memory, c: seq<Entry>, x: nat)
    requires Listed(m, c) && x !in Ids(c)
    requires n == m.(heap := n.heap) && n.heap.Keys == m.heap.Keys && forall y :: y in m.heap && y != x ==> n.heap[y] == m.heap[y]
    ensures Listed(n, c)
  {
    forall i | 0 <= i < |c| ensures c[i].id in n.heap && n.heap[c[i].id] == m.heap[c[i].id] {
      assert Linked(m.heap, c, i);
      InIds(c, i);
    }
    SameLinks(m.heap, n.heap, c);
  }

  lemma {:induction false} AfterSetPrev(m: Memory, c: seq<Entry>, x: nat)
    requires Listed(m, c) && x !in Ids(c) && Pending(m, x)
    ensures var n := WithPrev(m, x, m.tail); Listed(n, c) && Pending(n, x)
  {
    OthersKept(m, WithPrev(m, x, m.tail), c, x);
  }

  lemma {:induction false} AfterSetNext(m: Memory, c: seq<Entry>, x: nat)
    requires Listed(m, c) && x !in Ids(c) && Pending(m, x)
    ensures var n := WithNext(m, x, None); Listed(n, c) && Pending(n, x)
  {
    OthersKept(m, WithNext(m, x, None), c, x);
  }

  lemma {:induction false} AfterLinkTail(m: Memory, c: seq<Entry>, x: nat)
    requires Pushing(m, LinkTail(x), c) && x !in Ids(c) && Pending(m, x)
    ensures Allocated(m, m.tail)
    ensures var n := WithNext(m, m.tail.value, Some(x)); Pushing(n, MoveTail(x), c) && Pending(n, x)
  {
    LinkedBehind(m.heap, c, Wrapped(m.heap, x));
    InIds(c, |c| - 1);
  }

  lemma {:induction false} AfterMoveTail(m: Memory, c: seq<Entry>, x: nat)
    requires Pushing(m, MoveTail(x), c)
    ensures Pushing(m.(tail := Some(x)), CountUp(x), c)
  {
    hide Chained, Total;
  }

  lemma {:induction false} AfterClearPrev(m: Memory, c: seq<Entry>, x: nat)
    requires Pushing(m, ClearPrev(x), c) && Pending(m, x)
    ensures var n := WithPrev(m, x, None); Pushing(n, CountUp(x), c) && Pending(n, x)
  {
    var n := WithPrev(m, x, None);
    var e := Wrapped(n.heap, x);
    assert Linked(n.heap, [e], 0);
    assert [] + [e] == [e];
  }

  lemma {:induction false} AfterAddLen(m: Memory, c: seq<Entry>, x: nat)
    requires Pushing(m, AddLen(x), c) && Pending(m, x)
    ensures Pushing(m.(len := m.len + m.heap[x].len), PushUnlock(x), c)
  {
    hide Chained;
    TotalBack(c, Wrapped(m.heap, x));
  }

  lemma {:induction false} EmptyTotal()
    ensures Total([]) == 0
  {
  }

  /** LIST_RPUSH, one statement. */
  lemma {:induction false} PushStep(s: State, w: World, x: nat)
    requires Pushing(s.mem, s.prod, s.chain) && ProducerInside(s.prod) && !s.prod.PushUnlock?
    requires Holding(s.prod) == Some(x) && x !in Ids(s.chain) && Pending(s.mem, x) && !s.fault
    ensures var t := ProducerStep(s, w);
            && t == s.(mem := t.mem, prod := t.prod) && Pushing(t.mem, t.prod, s.chain) && ProducerInside(t.prod)
            && Holding(t.prod) == Some(x) && t.mem.heap.Keys == s.mem.heap.Keys && Pending(t.mem, x)
  {
    hide Chained, Ids, Total, Linked, Distinct;
    var m, c := s.mem, s.chain;
    match s.prod
    case FirstTail(_) => assert Total([]) == 0 by { EmptyTotal(); }
    case SetPrev(_) => AfterSetPrev(m, c, x);
    case SetNext(_) => AfterSetNext(m, c, x);
    case LinkTail(_) => AfterLinkTail(m, c, x);
    case MoveTail(_) => AfterMoveTail(m, c, x);
    case ClearPrev(_) => AfterClearPrev(m, c, x);
    case AddLen(_) => AfterAddLen(m, c, x);
    case _ =>
  }

  // ----- A step of the consumer inside its critical section

  /** Writing to the block that was taken out leaves the others alone. */
  lemma {:induction false} ShrunkKept(m: Memory, n: Memory, c: seq<Entry>, y: nat)
    requires Shrunk(m, c, y) && y in n.heap && n == m.(heap := m.heap[y := n.heap[y]])
    requires n.heap[y].data == m.heap[y].data && n.heap[y].len == m.heap[y].len
    ensures Shrunk(n, c, y)
  {
    var d := c[1..];
    forall i | 0 <= i < |d| ensures d[i].id in m.heap && d[i].id in n.heap && n.heap[d[i].id] == m.heap[d[i].id] {
      assert d[i] == c[i + 1];
      assert Linked(m.heap, d, i);
    }
    SameLinks(m.heap, n.heap, d);
  }

  lemma {:induction false} DistinctTail(c: seq<Entry>)
    requires Distinct(c) && c != []
    ensures Distinct(c[1..])
  {
  }

  lemma {:induction false} AfterMoveHead(m: Memory, c: seq<Entry>, y: nat)
    requires Popping(m, MoveHead(y), c)
    ensures y in m.heap && Popping(m.(head := m.heap[y].next), DetachHead(y), c)
  {
    assert Linked(m.heap, c, 0);
  }

  lemma {:induction false} AfterDetachHead(m: Memory, c: seq<Entry>, y: nat)
    requires Popping(m, DetachHead(y), c)
    ensures Allocated(m, m.head) && Popping(WithPrev(m, m.head.value, None), DropPrev(y), c)
  {
    DetachedFirst(m.heap, c);
    DistinctTail(c);
  }

  lemma {:induction false} AfterDropHead(m: Memory, c: seq<Entry>, y: nat)
    requires Popping(m, DropHead(y), c)
    ensures y in m.heap && Popping(m.(head := None), DropPrev(y), c)
  {
    assert Linked(m.heap, c, 0);
    assert c[1..] == [];
  }

  lemma {:induction false} AfterDropPrev(m: Memory, c: seq<Entry>, y: nat)
    requires Popping(m, DropPrev(y), c)
    ensures y in m.heap && Popping(WithPrev(m, y, None), DropNext(y), c)
  {
    ShrunkKept(m, WithPrev(m, y, None), c, y);
  }

  lemma {:induction false} AfterDropNext(m: Memory, c: seq<Entry>, y: nat)
    requires Popping(m, DropNext(y), c)
    ensures y in m.heap && Popping(WithNext(m, y, None), SubLen(y), c)
  {
    ShrunkKept(m, WithNext(m, y, None), c, y);
  }

  lemma {:induction false} AfterSubLen(m: Memory, c: seq<Entry>, y: nat)
    requires Popping(m, SubLen(y), c)
    ensures y in m.heap && Popping(m.(len := m.len - m.heap[y].len), PopUnlock(Some(y)), c)
  {
    hide Chained;
    TotalFront(c);
  }

  /** LIST_LPOP, one statement. */
  lemma {:induction false} PopStep(s: State)
    requires Popping(s.mem, s.cons, s.chain) && ConsumerInside(s.cons) && !s.fault
    requires !s.cons.PopUnlock? && !s.cons.EmptyRead? && !s.cons.EmptyUnlock?
    ensures var t := ConsumerStep(s);
            && t == s.(mem := t.mem, cons := t.cons) && Popping(t.mem, t.cons, s.chain) && ConsumerInside(t.cons)
            && Taken(t.cons) == None && !t.cons.EmptyUnlock? && t.mem.heap.Keys == s.mem.heap.Keys
  {
    hide Chained, Ids, Total, Linked, Distinct, Shrunk;
    var m, c := s.mem, s.chain;
    match s.cons
    case MoveHead(y) => AfterMoveHead(m, c, y);
    case DetachHead(y) => AfterDetachHead(m, c, y);
    case DropHead(y) => AfterDropHead(m, c, y);
    case DropPrev(y) => AfterDropPrev(m, c, y);
    case DropNext(y) => AfterDropNext(m, c, y);
    case SubLen(y) => AfterSubLen(m, c, y);
    case _ =>
  }

  // ----- What one thread does to its own block does not matter to the other

  /** The blocks of the chain are the same in both memories, and so is everything but the blocks. */
  predicate Agree(m: Memory, n: Memory, c: seq<Entry>) {
    && n == m.(heap := n.heap)
    && forall i :: 0 <= i < |c| ==> c[i].id in m.heap ==> c[i].id in n.heap && n.heap[c[i].id] == m.heap[c[i].id]
  }

  lemma {:induction false} ChainedAgree(m: Memory, n: Memory, c: seq<Entry>)
    requires Agree(m, n, c) && Chained(m.heap, c)
    ensures Chained(n.heap, c)
  {
    forall i | 0 <= i < |c| ensures c[i].id in m.heap && c[i].id in n.heap && n.heap[c[i].id] == m.heap[c[i].id] {
      assert Linked(m.heap, c, i);
    }
    SameLinks(m.heap, n.heap, c);
  }

  lemma {:induction false} ListedAgree(m: Memory, n: Memory, c: seq<Entry>)
    requires Agree(m, n, c) && Listed(m, c)
    ensures Listed(n, c)
  {
    ChainedAgree(m, n, c);
  }

  lemma {:induction false} AgreeTail(m: Memory, n: Memory, c: seq<Entry>)
    requires Agree(m, n, c) && c != []
    ensures Agree(m, n, c[1..])
  {
    forall i | 0 <= i < |c[1..]| && c[1..][i].id in m.heap
      ensures c[1..][i].id in n.heap && n.heap[c[1..][i].id] == m.heap[c[1..][i].id]
    {
      assert c[1..][i] == c[i + 1];
    }
  }

  lemma {:induction false} PoppingAgree(m: Memory, n: Memory, q: Consumer, c: seq<Entry>)
    requires Agree(m, n, c) && Popping(m, q, c)
    ensures Popping(n, q, c)
  {
    if c != [] {
      AgreeTail(m, n, c);
      assert c[0].id in m.heap ==> c[0].id in n.heap && n.heap[c[0].id] == m.heap[c[0].id];
    }
    if Chained(m.heap, c) {
      ChainedAgree(m, n, c);
    }
    if c != [] && Chained(m.heap, c[1..]) {
      ChainedAgree(m, n, c[1..]);
    }
    hide Chained, Agree, Total, Distinct;
  }

  lemma {:induction false} PushingAgree(m: Memory, n: Memory, p: Producer, c: seq<Entry>)
    requires Agree(m, n, c) && Pushing(m, p, c)
    requires Holding(p).Some? ==> var x := Holding(p).value; x in m.heap && x in n.heap && n.heap[x] == m.heap[x]
    ensures Pushing(n, p, c)
  {
    if Chained(m.heap, c) {
      ChainedAgree(m, n, c);
    }
    if Holding(p).Some? {
      var x := Holding(p).value;
      var d := c + [Wrapped(m.heap, x)];
      if Chained(m.heap, d) {
        assert Agree(m, n, d);
        ChainedAgree(m, n, d);
      }
    }
    hide Chained, Agree, Total, Distinct;
  }

  lemma {:induction false} PushKeepsOther(s: State, w: World, x: nat, z: nat)
    requires Pushing(s.mem, s.prod, s.chain) && ProducerInside(s.prod) && Holding(s.prod) == Some(x)
    requires z in s.mem.heap && z != x && z !in Ids(s.chain)
    ensures var t := ProducerStep(s, w); z in t.mem.heap && t.mem.heap[z] == s.mem.heap[z]
  {
    hide Chained, Total, Distinct;
    if s.chain != [] {
      InIds(s.chain, |s.chain| - 1);
    }
  }

  lemma {:induction false} PopKeepsOther(s: State, z: nat)
    requires Popping(s.mem, s.cons, s.chain) && ConsumerInside(s.cons)
    requires z in s.mem.heap && z !in Ids(s.chain)
    ensures var t := ConsumerStep(s); z in t.mem.heap && t.mem.heap[z] == s.mem.heap[z]
  {
    hide Chained, Total, Distinct;
    if s.chain != [] {
      InIds(s.chain, 0);
    }
    if 1 < |s.chain| {
      InIds(s.chain, 1);
    }
  }

  // ----- Every step keeps the invariant

  lemma {:induction false} NotInChain(s: State, b: Option<nat>)
    requires Owned(s) && b.Some? && (b == Holding(s.prod) || b == Taken(s.cons))
    ensures b.value !in Ids(s.chain) && b.value in s.mem.heap
  {
    assert b.value in AsSet(b);
  }

  lemma {:induction false} PushingKeepsInv(s: State, w: World)
    requires Inv(s) && ProducerInside(s.prod) && Holding(s.prod).Some? && !s.prod.PushUnlock?
    ensures Inv(ProducerStep(s, w))
  {
    hide Ids, Listed, Chained, Pending, Pushing, Popping, Packets, ProducerStep;
    var x := Holding(s.prod).value;
    var t := ProducerStep(s, w);
    NotInChain(s, Holding(s.prod));
    PushStep(s, w, x);
    PushersSeeNothing(s.prod);
    PushersSeeNothing(t.prod);
    PoppingOutside(s.cons, s.mem, t.mem, s.chain);
    if Taken(s.cons).Some? {
      var y := Taken(s.cons).value;
      NotInChain(s, Taken(s.cons));
      assert y != x by {
        assert x in AsSet(Holding(s.prod)) && y in AsSet(Taken(s.cons));
      }
      PushKeepsOther(s, w, x, y);
    }
  }

  lemma {:induction false} PushersSeeNothing(p: Producer)
    requires Holding(p).Some?
    ensures !p.SizeUnlock? && !p.Admitting? && !p.Allocating?
  {
  }

  lemma {:induction false} PoppingOutside(q: Consumer, m: Memory, n: Memory, c: seq<Entry>)
    requires !ConsumerInside(q)
    ensures Popping(n, q, c)
  {
  }

  lemma {:induction false} PushingOutside(p: Producer, n: Memory, c: seq<Entry>)
    requires !ProducerInside(p)
    ensures Pushing(n, p, c)
  {
  }

  lemma {:induction false} PushEnds(s: State, w: World)
    requires Inv(s) && s.prod.PushUnlock?
    ensures Inv(ProducerStep(s, w))
  {
    hide Listed, Chained, Popping, ConsumerInside;
    var x := s.prod.x;
    var e := Wrapped(s.mem.heap, x);
    var t := ProducerStep(s, w);
    NotInChain(s, Holding(s.prod));
    PushedIds(s.chain, e);
    PushedPackets(s.accepted, s.delivered + InHand(s), s.chain, e);
    PoppingOutside(s.cons, s.mem, t.mem, t.chain);
    hide Ids, Packets;
  }

  lemma {:induction false} PushedIds(c: seq<Entry>, e: Entry)
    ensures Ids(c + [e]) == Ids(c) + {e.id}
  {
    forall b ensures b in Ids(c + [e]) <==> b in Ids(c) + {e.id} {
      if b in Ids(c) {
        var i :| 0 <= i < |c| && c[i].id == b;
        assert (c + [e])[i].id == b;
      }
      assert (c + [e])[|c|] == e;
    }
  }

  lemma {:induction false} PushedPackets(accepted: seq<Text>, before: seq<Text>, c: seq<Entry>, e: Entry)
    requires accepted == before + Packets(c)
    ensures accepted + [e.data] == before + Packets(c + [e])
  {
    assert Packets(c + [e]) == Packets(c) + [e.data];
  }

  lemma {:induction false} AllocatingKeepsInv(s: State, w: World)
    requires Inv(s) && s.prod.Allocating?
    ensures Inv(ProducerStep(s, w))
  {
    var t := ProducerStep(s, w);
    if w.block.Some? && w.block.value !in s.mem.heap {
      var x := w.block.value;
      assert x !in Ids(s.chain) + AsSet(Holding(s.prod)) + AsSet(Taken(s.cons));
      forall i | 0 <= i < |s.chain| ensures s.chain[i].id != x {
        InIds(s.chain, i);
      }
      assert Agree(s.mem, t.mem, s.chain);
      PoppingAgree(s.mem, t.mem, s.cons, s.chain);
      if s.lock == 0 {
        ListedAgree(s.mem, t.mem, s.chain);
      }
      assert t.mem.heap.Keys == s.mem.heap.Keys + {x};
      assert Pending(t.mem, x);
      hide Ids, Listed, Chained, Popping, Packets, Agree, Pending;
    }
  }

  /** Waiting, taking the lock, looking at the size, letting go of the lock after a look. */
  lemma {:induction false} LookingKeepsInv(s: State, w: World)
    requires Inv(s) && !s.prod.Allocating? && !s.prod.PushUnlock? && !(ProducerInside(s.prod) && Holding(s.prod).Some?)
    ensures Inv(ProducerStep(s, w))
  {
    var t := ProducerStep(s, w);
    assert t.mem == s.mem && t.chain == s.chain && t.cons == s.cons && Holding(t.prod) == Holding(s.prod);
    if s.lock == 0 {
      assert Pushing(t.mem, t.prod, s.chain) by {
        hide Chained, Ids;
      }
    }
    assert s.prod.SizeRead? ==> s.mem.size == |s.chain| by {
      hide Chained, Ids, Popping, Packets;
    }
    hide Ids, Chained, Popping, Packets, Pending;
  }

  lemma {:induction false} ProducerKeepsInv(s: State, w: World)
    requires Inv(s)
    ensures Inv(ProducerStep(s, w))
  {
    hide Inv, ProducerStep;
    if s.prod.Allocating? {
      AllocatingKeepsInv(s, w);
    } else if s.prod.PushUnlock? {
      PushEnds(s, w);
    } else if ProducerInside(s.prod) && Holding(s.prod).Some? {
      PushingKeepsInv(s, w);
    } else {
      LookingKeepsInv(s, w);
    }
  }

  lemma {:induction false} PoppingKeepsInv(s: State)
    requires Inv(s) && ConsumerInside(s.cons) && !s.cons.PopUnlock? && !s.cons.EmptyRead? && !s.cons.EmptyUnlock?
    ensures Inv(ConsumerStep(s))
  {
    hide Ids, Listed, Chained, Pending, Pushing, Popping, Packets, ConsumerStep;
    var t := ConsumerStep(s);
    PopStep(s);
    PushingOutside(s.prod, t.mem, s.chain);
    PoppersSeeNothing(s.cons);
    PoppersSeeNothing(t.cons);
    if Holding(s.prod).Some? {
      var x := Holding(s.prod).value;
      NotInChain(s, Holding(s.prod));
      PopKeepsOther(s, x);
      SamePending(s.mem, t.mem, x);
    }
  }

  lemma {:induction false} PoppersSeeNothing(q: Consumer)
    requires ConsumerInside(q)
    ensures !q.EmptyTest? && !q.PopLock? && Taken(q) == None && !q.Reading?
  {
  }

  lemma {:induction false} SamePending(m: Memory, n: Memory, x: nat)
    requires Pending(m, x) && x in n.heap && n.heap[x] == m.heap[x]
    ensures Pending(n, x)
  {
  }

  lemma {:induction false} PopEnds(s: State)
    requires Inv(s) && s.cons.PopUnlock?
    ensures Inv(ConsumerStep(s))
  {
    hide Listed, Chained, Pushing, Pending;
    var t := ConsumerStep(s);
    var c := s.chain;
    PushingOutside(s.prod, t.mem, t.chain);
    PoppedIds(c);
    assert Packets(c) == [c[0].data] + Packets(c[1..]);
    InOrderAfterPop(s.accepted, s.delivered, c[0].data, Packets(c[1..]));
    hide Ids, Packets;
  }

  lemma {:induction false} InOrderAfterPop(accepted: seq<Text>, delivered: seq<Text>, data: Text, rest: seq<Text>)
    requires accepted == delivered + [] + ([data] + rest)
    ensures accepted == delivered + [data] + rest
  {
  }

  lemma {:induction false} PoppedIds(c: seq<Entry>)
    requires c != [] && Distinct(c)
    ensures Ids(c) == Ids(c[1..]) + {c[0].id} && c[0].id !in Ids(c[1..])
  {
    forall e | e in c[1..] ensures e.id != c[0].id {
      var i :| 0 <= i < |c[1..]| && c[1..][i] == e;
      assert e == c[i + 1];
    }
    forall b ensures b in Ids(c) <==> b in Ids(c[1..]) + {c[0].id} {
      if b in Ids(c) {
        var i :| 0 <= i < |c| && c[i].id == b;
        assert i > 0 ==> c[1..][i - 1].id == b;
      }
      if b in Ids(c[1..]) {
        var i :| 0 <= i < |c[1..]| && c[1..][i].id == b;
        assert c[i + 1].id == b;
      }
      assert c[0] in c;
    }
  }

  lemma {:induction false} ReadingKeepsInv(s: State)
    requires Inv(s) && s.cons.Reading?
    ensures Inv(ConsumerStep(s))
  {
    var y := s.cons.y;
    var t := ConsumerStep(s);
    NotInChain(s, Taken(s.cons));
    hide Ids, Listed, Chained, Pushing, Packets, Pending;
    if t.cons.Reading? {
      hide ConsumerStep;
    } else {
      InOrderAfterReading(s.accepted, s.delivered, s.mem.heap[y].data, Packets(s.chain));
    }
  }

  lemma {:induction false} InOrderAfterReading(accepted: seq<Text>, delivered: seq<Text>, data: Text, rest: seq<Text>)
    requires accepted == delivered + [data] + rest
    ensures accepted == (delivered + [data]) + [] + rest
  {
  }

  lemma {:induction false} FreeingKeepsInv(s: State)
    requires Inv(s) && s.cons.Freeing?
    ensures Inv(ConsumerStep(s))
  {
    var y := s.cons.y;
    var t := ConsumerStep(s);
    NotInChain(s, Taken(s.cons));
    forall i | 0 <= i < |s.chain| ensures s.chain[i].id != y {
      InIds(s.chain, i);
    }
    assert Agree(s.mem, t.mem, s.chain);
    if Holding(s.prod).Some? {
      assert Holding(s.prod).value in AsSet(Holding(s.prod)) && y in AsSet(Taken(s.cons));
      NotInChain(s, Holding(s.prod));
      SamePending(s.mem, t.mem, Holding(s.prod).value);
    }
    PushingAgree(s.mem, t.mem, s.prod, s.chain);
    if s.lock == 0 {
      ListedAgree(s.mem, t.mem, s.chain);
    }
    hide Ids, Listed, Chained, Pushing, Popping, Packets, Pending, Agree;
  }

  /** Waiting, taking the lock, looking at the size, letting go of the lock after a look. */
  lemma {:induction false} PeekingKeepsInv(s: State)
    requires Inv(s) && (s.cons.EmptyLock? || s.cons.EmptyRead? || s.cons.EmptyUnlock? || s.cons.EmptyTest? || s.cons.PopLock?)
    ensures Inv(ConsumerStep(s))
  {
    var t := ConsumerStep(s);
    assert t.mem == s.mem && t.chain == s.chain && t.prod == s.prod && Taken(t.cons) == Taken(s.cons) == None;
    hide Ids, Chained, Pushing, Packets, Pending;
  }

  lemma {:induction false} ConsumerKeepsInv(s: State)
    requires Inv(s)
    ensures Inv(ConsumerStep(s))
  {
    hide Inv, ConsumerStep;
    match s.cons
    case Reading(_, _) => ReadingKeepsInv(s);
    case Freeing(_) => FreeingKeepsInv(s);
    case PopUnlock(_) => PopEnds(s);
    case EmptyLock => PeekingKeepsInv(s);
    case EmptyRead => PeekingKeepsInv(s);
    case EmptyUnlock(_) => PeekingKeepsInv(s);
    case EmptyTest(_) => PeekingKeepsInv(s);
    case PopLock => PeekingKeepsInv(s);
    case _ => PoppingKeepsInv(s);
  }

  /** The invariant holds after every interleaving. */
  lemma {:induction false} RunsKeepInv(turns: seq<Turn>)
    ensures Inv(Run(turns))
  {
    hide Inv, ProducerStep, ConsumerStep;
    if turns == [] {
      InitialInv();
    } else {
      RunsKeepInv(turns[..|turns| - 1]);
      match turns[|turns| - 1]
      case Produce(w) => ProducerKeepsInv(Run(turns[..|turns| - 1]), w);
      case Consume => ConsumerKeepsInv(Run(turns[..|turns| - 1]));
    }
  }
}
