/**
 * How the parser and cJSON_Duplicate link the items that they make: trees of lists that stand for the values; and how lists
 * that the parser gives up are deleted.
 */
module Links {
  import opened Values
  import opened ChildList

  /** A node and the trees of its children. */
  datatype Tree = Tree(node: Node, kids: seq<Tree>)

  ghost function Roots(ts: seq<Tree>): seq<Node> {
    seq(|ts|, i requires 0 <= i < |ts| => ts[i].node)
  }

  ghost function RootSet(ts: seq<Tree>): set<Node> {
    if ts == [] then {} else RootSet(ts[..|ts| - 1]) + {ts[|ts| - 1].node}
  }

  lemma {:induction false} RootsAreThese(ts: seq<Tree>)
    ensures forall n :: n in Roots(ts) <==> n in RootSet(ts)
  {
    if ts != [] {
      var most := ts[..|ts| - 1];
      RootsAreThese(most);
      assert Roots(ts) == Roots(most) + [ts[|ts| - 1].node];
    }
  }

  /** The nodes below a node, and below some nodes. */
  ghost function Below(t: Tree): set<Node> {
    Deep(t.kids) + RootSet(t.kids)
  }

  ghost function Deep(ts: seq<Tree>): set<Node> {
    if ts == [] then {} else Deep(ts[..|ts| - 1]) + Below(ts[|ts| - 1])
  }

  /** The links are those of the tree. */
  ghost predicate Shows(t: Tree)
    reads t.node`child, Below(t)
    decreases t
  {
    RootsAreThese(t.kids);
    Children(t.node, Roots(t.kids)) && ShowsAll(t.kids)
  }

  ghost predicate ShowsAll(ts: seq<Tree>)
    reads RootSet(ts)`child, Deep(ts)
    decreases ts
  {
    ts == [] || (ShowsAll(ts[..|ts| - 1]) && Shows(ts[|ts| - 1]))
  }

  /** The values of the items below the item of `v`. */
  function Kids(v: Value): seq<Value> {
    match v
    case Arr(items) => items
    case Obj(members) => seq(|members|, i requires 0 <= i < |members| => members[i].value)
    case _ => []
  }

  /** The tree has a node for every value inside `v`. */
  ghost predicate Mirrors(t: Tree, v: Value) {
    |t.kids| == |Kids(v)| && forall i :: 0 <= i < |t.kids| ==> Mirrors(t.kids[i], Kids(v)[i])
  }

  ghost predicate SameShape(t: Tree, u: Tree) {
    |t.kids| == |u.kids| && forall i :: 0 <= i < |t.kids| ==> SameShape(t.kids[i], u.kids[i])
  }

  /** The number of values inside the first `n` items below the item of `v`, these included. */
  function Inside(v: Value, n: nat): nat
    requires n <= |Kids(v)|
    decreases v, n
  {
    if n == 0 then 0 else
      KidIsInside(v, n - 1);
      var kid := Kids(v)[n - 1];
      Inside(v, n - 1) + Inside(kid, |Kids(kid)|) + 1
  }

  /** No node stands twice in the trees. */
  ghost predicate Single(ts: seq<Tree>) {
    ts == [] ||
    (var most, t := ts[..|ts| - 1], ts[|ts| - 1];
     Single(most) && Single(t.kids) && t.node !in Below(t) &&
     Below(t) + {t.node} !! RootSet(most) + Deep(most))
  }

  // ----- A list under construction

  /** The nodes are linked in a row; the first one does not point at the last one yet. */
  ghost predicate Row(s: seq<Node>)
    reads s`next, s`prev
  {
    forall i :: 0 <= i < |s| ==> s[i].next == Successor(s, i) && (0 < i ==> s[i].prev == s[i - 1])
  }

  ghost predicate Distinct(s: seq<Node>) {
    forall i, j :: 0 <= i < j < |s| ==> s[i] != s[j]
  }

  /** Where the loop is: at the last node of the row that starts at `head`. */
  ghost predicate Cursor(head: Node?, current: Node?, s: seq<Node>) {
    if s == [] then head == null && current == null else head == s[0] && current == s[|s| - 1]
  }

  /** What links the roots is not read by what is below them. */
  ghost predicate Apart(ts: seq<Tree>) {
    RootSet(ts) !! Deep(ts) && Distinct(Roots(ts))
  }

  /** Trees whose roots are linked in a row so far. */
  ghost predicate Hang(head: Node?, current: Node?, ts: seq<Tree>)
    reads RootSet(ts), Deep(ts)
  {
    RootsAreThese(ts);
    Row(Roots(ts)) && Cursor(head, current, Roots(ts)) && Apart(ts) && ShowsAll(ts)
  }

  lemma {:induction false} NothingHangs()
    ensures Hang(null, null, []) && Single([]) && RootSet([]) == {} && Deep([]) == {}
  {
  }

  lemma {:induction false} OneMore(ts: seq<Tree>, t: Tree)
    ensures Roots(ts + [t]) == Roots(ts) + [t.node] && RootSet(ts + [t]) == RootSet(ts) + {t.node}
    ensures Deep(ts + [t]) == Deep(ts) + Below(t)
    ensures Apart(ts) && t.node !in RootSet(ts) + Deep(ts) + Below(t) && Below(t) !! RootSet(ts) ==> Apart(ts + [t])
    ensures ShowsAll(ts) && Shows(t) ==> ShowsAll(ts + [t])
    ensures Single(ts) && Single(t.kids) && t.node !in RootSet(ts) + Deep(ts) + Below(t) && Below(t) !! RootSet(ts) + Deep(ts) ==>
              Single(ts + [t])
  {
    assert (ts + [t])[..|ts|] == ts;
    RootsAreThese(ts);
  }

  /** attach next item to list */
  method Attach(head: Node?, current: Node?, item: Node, ghost ts: seq<Tree>) returns (first: Node)
    requires Hang(head, current, ts) && item !in RootSet(ts) + Deep(ts) && item.next == null
    modifies Self(current)`next, item`prev
    ensures var s := Roots(ts) + [item];
            Row(s) && Cursor(first, item, s)
    ensures ShowsAll(ts) && first == (if head == null then item else head)
  {
    RootsAreThese(ts);
    assert current != null ==> current in Roots(ts);
    if head == null {
      first := item;
    } else {
      current.next := item;
      item.prev := current;
      first := head;
    }
  }

  /** The end of the loop: the first item points back at the last. */
  method Close(head: Node?, current: Node?, ghost ts: seq<Tree>)
    requires Hang(head, current, ts)
    modifies Self(head)`prev
    ensures Chain(Roots(ts)) && ShowsAll(ts)
    ensures head == (if ts == [] then null else ts[0].node) && (head != null ==> head in RootSet(ts))
  {
    RootsAreThese(ts);
    assert head != null ==> head in Roots(ts);
    if head != null {
      head.prev := current;
    }
  }

  // ----- Parsing

  /** What parse_array and parse_object do to the links of the item that they fill; other values have no items below. */
  method LinkValue(item: Node, v: Value) returns (ghost t: Tree)
    requires item.child == null
    modifies item`child
    ensures t.node == item && Shows(t) && Mirrors(t, v) && Single(t.kids) && fresh(Below(t))
    decreases v, 2
  {
    hide Single, Hang, Shows, ShowsAll, RootSet, Deep, Roots, Chain, Mirrors;
    var head, current;
    ghost var ts;
    head, current, ts := LinkAll(v);
    Close(head, current, ts);
    RootsAreThese(ts);
    assert item !in Roots(ts);
    item.child := head;
    t := Tree(item, ts);
    ShowsThese(t);
    MirrorsThese(t, v);
  }

  lemma {:induction false} MirrorsThese(t: Tree, v: Value)
    requires |t.kids| == |Kids(v)| && forall k :: 0 <= k < |t.kids| ==> Mirrors(t.kids[k], Kids(v)[k])
    ensures Mirrors(t, v)
  {
  }

  /** The loop over the elements or members. */
  method LinkAll(v: Value) returns (head: Node?, current: Node?, ghost ts: seq<Tree>)
    ensures Hang(head, current, ts) && fresh(RootSet(ts)) && fresh(Deep(ts)) && fresh(Self(head)) && fresh(Self(current))
    ensures |ts| == |Kids(v)| && Single(ts) && forall k :: 0 <= k < |ts| ==> Mirrors(ts[k], Kids(v)[k])
    decreases v, 1
  {
    hide Hang, Shows, ShowsAll, RootSet, Deep, Below, Roots, Chain, Mirrors, Kids, Single;
    head, current := null, null;
    ts := [];
    var i := 0;
    NothingHangs();
    while i < |Kids(v)|
      invariant i == |ts| <= |Kids(v)|
      invariant Hang(head, current, ts) && Single(ts)
      invariant forall k :: 0 <= k < i ==> Mirrors(ts[k], Kids(v)[k])
      invariant fresh(RootSet(ts)) && fresh(Deep(ts)) && fresh(Self(head)) && fresh(Self(current))
    {
      KidIsInside(v, i);
      ghost var t;
      assert allocated(RootSet(ts)) && allocated(Deep(ts));
      head, current, t := LinkNext(head, current, Kids(v)[i], ts);
      OneMore(ts, t);
      ts := ts + [t];
      i := i + 1;
    }
  }

  lemma {:induction false} KidIsInside(v: Value, i: nat)
    requires i < |Kids(v)|
    ensures match v
            case Arr(items) => i < |items| && Kids(v)[i] == items[i]
            case Obj(members) => i < |members| && Kids(v)[i] == members[i].value
            case _ => false
  {
  }

  lemma {:induction false} ShowsThese(t: Tree)
    requires t.node.child == (if t.kids == [] then null else t.kids[0].node) && Chain(Roots(t.kids)) && ShowsAll(t.kids)
    ensures Shows(t)
  {
  }

  /** One turn of the loop. */
  method LinkNext(head: Node?, current: Node?, v: Value, ghost ts: seq<Tree>) returns (first: Node, item: Node, ghost t: Tree)
    requires Hang(head, current, ts)
    modifies Self(current)`next
    ensures Hang(first, item, ts + [t]) && Mirrors(t, v) && Single(t.kids)
    ensures t.node == item && fresh(item) && item !in Below(t) && fresh(Below(t)) && first == (if head == null then item else head)
    decreases v, 3
  {
    hide Shows, ShowsAll, RootSet, Deep, Below, Roots, Mirrors, Row, Cursor, Apart, Hang, Single;
    assert allocated(RootSet(ts)) && allocated(Deep(ts)) && allocated(Roots(ts));
    HangsApart(head, current, ts);
    item := new Node();
    first := Attach(head, current, item, ts);
    t := LinkValue(item, v);
    HangsOn(first, item, ts, t);
  }

  lemma {:induction false} HangsApart(head: Node?, current: Node?, ts: seq<Tree>)
    requires Hang(head, current, ts)
    ensures Apart(ts) && (head == null <==> current == null)
  {
  }

  /** With one more tree in the row. */
  lemma {:induction false} HangsOn(first: Node, item: Node, ts: seq<Tree>, t: Tree)
    requires Apart(ts) && ShowsAll(ts) && Shows(t) && t.node == item
    requires Row(Roots(ts) + [item]) && Cursor(first, item, Roots(ts) + [item])
    requires item !in RootSet(ts) + Deep(ts) + Below(t) && Below(t) !! RootSet(ts)
    ensures Hang(first, item, ts + [t])
  {
    hide Shows, ShowsAll, RootSet, Deep, Below, Roots, Row, Cursor, Apart;
    OneMore(ts, t);
  }

  // ----- Deleting, and lists that are given up

  /** The nodes of some trees in the order in which they are released. */
  ghost function Order(ts: seq<Tree>): seq<Node> {
    if ts == [] then [] else Order(ts[..|ts| - 1]) + Order(ts[|ts| - 1].kids) + [ts[|ts| - 1].node]
  }

  lemma {:induction false} OrderHolds(ts: seq<Tree>)
    ensures forall i :: 0 <= i < |Order(ts)| ==> Order(ts)[i] in RootSet(ts) || Order(ts)[i] in Deep(ts)
    ensures Single(ts) ==> Distinct(Order(ts))
  {
    if ts != [] {
      var most, t := ts[..|ts| - 1], ts[|ts| - 1];
      OrderHolds(most);
      OrderHolds(t.kids);
      if Single(ts) {
        forall n | n in Order(most) ensures n !in Order(t.kids) + [t.node] {
          assert n in RootSet(most) || n in Deep(most);
          assert n !in Below(t) + {t.node};
        }
        BothDistinct(Order(t.kids), [t.node]);
        BothDistinct(Order(most), Order(t.kids) + [t.node]);
        assert Order(ts) == Order(most) + (Order(t.kids) + [t.node]);
      }
    }
  }

  lemma {:induction false} OrderHoldsAll(ts: seq<Tree>, n: Node)
    requires n in RootSet(ts) || n in Deep(ts)
    ensures n in Order(ts)
  {
    var most, t := ts[..|ts| - 1], ts[|ts| - 1];
    if n in RootSet(most) || n in Deep(most) {
      OrderHoldsAll(most, n);
    } else if n in Below(t) {
      OrderHoldsAll(t.kids, n);
    }
  }

  lemma {:induction false} OrderNext(ts: seq<Tree>, k: nat)
    requires k < |ts|
    ensures Order(ts[..k + 1]) == Order(ts[..k]) + Order(ts[k].kids) + [ts[k].node]
    ensures ts[k].kids == [] ==> Order(ts[k].kids) == []
  {
    assert ts[..k + 1][..k] == ts[..k];
  }

  lemma {:induction false} OrderLength(ts: seq<Tree>, v: Value)
    requires |ts| <= |Kids(v)| && forall k :: 0 <= k < |ts| ==> Mirrors(ts[k], Kids(v)[k])
    ensures |Order(ts)| == Inside(v, |ts|)
    decreases v, |ts|
  {
    if ts != [] {
      var last := |ts| - 1;
      KidIsInside(v, last);
      OrderLength(ts[..last], v);
      assert Mirrors(ts[last], Kids(v)[last]);
      OrderLength(ts[last].kids, Kids(v)[last]);
    }
  }

  /** From `head` the next links lead along the roots. */
  ghost predicate Goes(head: Node?, ts: seq<Tree>)
    reads RootSet(ts), Deep(ts)
  {
    RootsAreThese(ts);
    head == (if ts == [] then null else ts[0].node) && ShowsAll(ts) &&
    forall i :: 0 <= i < |ts| ==> Roots(ts)[i].next == Successor(Roots(ts), i)
  }

  lemma {:induction false} HeadFirst(head: Node?, ts: seq<Tree>)
    requires Goes(head, ts)
    ensures head == (if ts == [] then null else ts[0].node) && (head == null <==> ts == [])
  {
  }

  /** The walk is at the root of index `k`: its next one, and what hangs below it. */
  lemma {:induction false} OneStep(head: Node?, ts: seq<Tree>, k: nat)
    requires Goes(head, ts) && k < |ts|
    ensures ts[k].node.next == (if k + 1 < |ts| then ts[k + 1].node else null)
    ensures Goes(ts[k].node.child, ts[k].kids) && (ts[k].node.child == null <==> ts[k].kids == [])
  {
    assert Roots(ts)[k].next == Successor(Roots(ts), k);
    KidsGo(ts, k);
    HeadFirst(ts[k].node.child, ts[k].kids);
  }

  lemma {:induction false} HangingGoes(head: Node?, current: Node?, ts: seq<Tree>)
    requires Hang(head, current, ts)
    ensures Goes(head, ts)
  {
    RootsAreThese(ts);
    assert forall i :: 0 <= i < |ts| ==> Roots(ts)[i] == ts[i].node;
  }

  lemma {:induction false} KidsGo(ts: seq<Tree>, i: nat)
    requires ShowsAll(ts) && i < |ts|
    ensures Goes(ts[i].node.child, ts[i].kids)
  {
    AllShown(ts, i);
    assert Shows(ts[i]);
    RootsAreThese(ts[i].kids);
    forall k | 0 <= k < |ts[i].kids| ensures Roots(ts[i].kids)[k].next == Successor(Roots(ts[i].kids), k) {
      assert Linked(Roots(ts[i].kids), k);
    }
  }

  /** cJSON_Delete, of which only the links and the order of release are kept. */
  method Release(head: Node?, ghost ts: seq<Tree>) returns (freed: seq<Node>)
    requires Goes(head, ts)
    ensures freed == Order(ts)
    decreases ts
  {
    hide Goes, ShowsAll, RootSet, Deep, Roots;
    assert allocated(RootSet(ts)) && allocated(Deep(ts));
    assert head == (if ts == [] then null else ts[0].node) by { HeadFirst(head, ts); }
    var item := head;
    ghost var k := 0;
    freed := [];
    while item != null
      invariant k <= |ts| && item == (if k < |ts| then ts[k].node else null)
      invariant Goes(head, ts) && freed == Order(ts[..k])
      decreases |ts| - k
    {
      var next := item.next;
      OneStep(head, ts, k);
      var below := [];
      if item.child != null {
        below := Release(item.child, ts[k].kids);
      }
      OrderNext(ts, k);
      freed := freed + below + [item];
      item := next;
      k := k + 1;
    }
    assert ts[..k] == ts;
  }

  /**
   * How a loop gives up: behind some items whose values were read, or within the value of one more item that is
   * linked already.
   */
  datatype Break = Behind(items: seq<Value>) | Within(items: seq<Value>, inner: Break)

  /** The nodes that were made until then. */
  function Made(b: Break): nat {
    Inside(Arr(b.items), |b.items|) + if b.Within? then 1 + Made(b.inner) else 0
  }

  /** An item is attached, of whose value nothing will come. */
  method LinkEmpty(head: Node?, current: Node?, ghost ts: seq<Tree>) returns (first: Node, ghost t: Tree)
    requires Hang(head, current, ts) && Single(ts)
    modifies Self(current)`next
    ensures t.kids == [] && Below(t) == {} && fresh(t.node) && Goes(first, ts + [t]) && Single(ts + [t])
  {
    hide Shows, ShowsAll, RootSet, Deep, Below, Roots, Row, Cursor, Goes, Single, Apart, Hang;
    assert allocated(RootSet(ts)) && allocated(Deep(ts)) && allocated(Roots(ts));
    HangsApart(head, current, ts);
    var item := new Node();
    first := Attach(head, current, item, ts);
    t := Tree(item, []);
    NothingBelow(t);
    HangsOn(first, item, ts, t);
    OneMore(ts, t);
    HangingGoes(first, item, ts + [t]);
  }

  lemma {:induction false} NothingBelow(t: Tree)
    requires t.kids == []
    ensures Below(t) == {} && Single(t.kids) && (t.node.child == null ==> Shows(t))
  {
  }

  lemma {:induction false} LongerOrder(ts: seq<Tree>, t: Tree)
    requires t.kids == []
    ensures |Order(ts + [t])| == |Order(ts)| + 1
  {
    assert (ts + [t])[..|ts|] == ts;
  }

  lemma {:induction false} BothDistinct(s: seq<Node>, t: seq<Node>)
    requires Distinct(s) && Distinct(t) && forall j :: 0 <= j < |t| ==> t[j] !in s
    ensures Distinct(s + t)
  {
    forall i, j | 0 <= i < j < |s + t| ensures (s + t)[i] != (s + t)[j] {
      assert i < |s| <= j ==> s[i] in s && t[j - |s|] !in s;
    }
  }

  ghost function NodesOf(s: seq<Node>): set<Node> {
    set n | n in s
  }

  /** Nodes released before, and then those of some trees that have none of them. */
  lemma {:induction false} Together(s: seq<Node>, ts: seq<Tree>)
    requires Distinct(s) && Single(ts) && NodesOf(s) !! RootSet(ts) + Deep(ts)
    ensures Distinct(s + Order(ts)) && NodesOf(s + Order(ts)) == NodesOf(s) + RootSet(ts) + Deep(ts)
  {
    OrderHolds(ts);
    var t := Order(ts);
    forall i | 0 <= i < |t| ensures t[i] !in s {
      assert t[i] in RootSet(ts) + Deep(ts);
      assert t[i] !in NodesOf(s);
    }
    hide Single, RootSet, Deep, Order;
    BothDistinct(s, t);
    forall n | n in RootSet(ts) + Deep(ts) ensures n in t {
      OrderHoldsAll(ts, n);
    }
  }

  /** The same loops, if they give up: every node that was made is found over the links and released once. */
  method GiveUp(b: Break) returns (freed: seq<Node>)
    ensures |freed| == Made(b) && Distinct(freed) && fresh(NodesOf(freed))
    decreases b
  {
    hide Hang, Shows, ShowsAll, RootSet, Deep, Below, Roots, Order, Goes, Inside, Single, Distinct, NodesOf, Mirrors, Row, Chain, Cursor, Apart;
    var head, current;
    ghost var ts;
    head, current, ts := LinkAll(Arr(b.items));
    OrderLength(ts, Arr(b.items));
    HangingGoes(head, current, ts);
    freed := [];
    NoneDistinct();
    if b.Within? {
      ghost var t;
      head, t := LinkEmpty(head, current, ts);
      LongerOrder(ts, t);
      OneMore(ts, t);
      ts := ts + [t];
      assert fresh(RootSet(ts)) && fresh(Deep(ts)) && allocated(RootSet(ts)) && allocated(Deep(ts));
      freed := GiveUp(b.inner);
    }
    var rest := Release(head, ts);
    Together(freed, ts);
    freed := freed + rest;
  }

  lemma {:induction false} NoneDistinct()
    ensures Distinct([]) && NodesOf([]) == {}
  {
  }

  // ----- Copying

  /** cJSON_Duplicate with all levels, when no request for memory is refused: the copy is a tree of its own. */
  method DuplicateLinks(item: Node, ghost t: Tree) returns (copy: Node, ghost u: Tree)
    requires t.node == item && Shows(t)
    ensures u.node == copy && Shows(u) && SameShape(t, u)
    ensures fresh(copy) && fresh(Below(u)) && copy !in Below(u) && copy.next == null
    decreases t, 0
  {
    hide Hang, Shows, ShowsAll, RootSet, Deep, Roots, Chain;
    assert allocated(Below(t));
    copy := new Node();
    var child, next: Node?, newchild: Node? := item.child, null, null;
    ghost var us := [];
    NothingHangs();
    FirstKid(t);
    while child != null
      invariant |us| <= |t.kids| && child == (if |us| < |t.kids| then t.kids[|us|].node else null)
      invariant Shows(t) && Hang(copy.child, next, us) && newchild == next
      invariant forall k :: 0 <= k < |us| ==> SameShape(t.kids[k], us[k])
      invariant fresh(RootSet(us)) && fresh(Deep(us)) && copy !in RootSet(us) + Deep(us)
      invariant fresh(Self(copy.child)) && fresh(Self(next)) && copy != next && copy.next == null
      decreases |t.kids| - |us|
    {
      ghost var u;
      NextKid(t, |us|);
      newchild, u := DuplicateNext(child, copy, next, t.kids[|us|], us);
      next := newchild;
      OneMore(us, u);
      us := us + [u];
      child := child.next;
    }
    Close(copy.child, newchild, us);
    u := Tree(copy, us);
    ShowsThese(u);
  }

  lemma {:induction false} FirstKid(t: Tree)
    requires Shows(t)
    ensures t.node.child == if t.kids == [] then null else t.kids[0].node
  {
  }

  lemma {:induction false} NextKid(t: Tree, i: nat)
    requires Shows(t) && i < |t.kids|
    ensures t.kids[i].node.next == (if i + 1 < |t.kids| then t.kids[i + 1].node else null)
    ensures Shows(t.kids[i])
  {
    assert Linked(Roots(t.kids), i);
    AllShown(t.kids, i);
  }

  lemma {:induction false} AllShown(ts: seq<Tree>, i: nat)
    requires ShowsAll(ts) && i < |ts|
    ensures Shows(ts[i])
    decreases |ts|
  {
    if i < |ts| - 1 {
      AllShown(ts[..|ts| - 1], i);
    }
  }

  /** One turn of the loop: a child is copied, and its copy goes to the end of the new list. */
  method DuplicateNext(child: Node, copy: Node, next: Node?, ghost t: Tree, ghost us: seq<Tree>) returns (newchild: Node, ghost u: Tree)
    requires t.node == child && Shows(t)
    requires Hang(copy.child, next, us) && copy !in RootSet(us) + Deep(us)
    modifies copy`child, Self(next)`next
    ensures Hang(copy.child, newchild, us + [u]) && SameShape(t, u)
    ensures u.node == newchild && fresh(newchild) && fresh(Below(u)) && (copy.child == old(copy.child) || fresh(copy.child))
    decreases t, 1
  {
    hide Shows, ShowsAll, RootSet, Deep, Below, Roots, Mirrors, Row, Cursor, Apart, Hang, SameShape;
    assert allocated(RootSet(us)) && allocated(Deep(us)) && allocated(Roots(us));
    HangsApart(copy.child, next, us);
    newchild, u := DuplicateLinks(child, t);
    assert allocated(Below(u));
    var first := Attach(copy.child, next, newchild, us);
    if next == null {
      copy.child := first;
    }
    HangsOn(first, newchild, us, u);
  }
}
