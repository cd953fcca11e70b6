/** The doubly linked list of children: links that stand for a sequence, and operations that edit the sequence. */
module ChildList {
  class Node {
    var next: Node?
    var prev: Node?
    var child: Node?

    constructor ()
      ensures next == null && prev == null && child == null
    {
      next, prev, child := null, null, null;
    }
  }

  /** The last node points at none. */
  ghost function Successor(s: seq<Node>, i: nat): (n: Node?)
    requires i < |s|
    ensures n == null <==> i + 1 == |s|
  {
    if i + 1 < |s| then s[i + 1] else null
  }

  /** The first node points back at the last. */
  ghost function Predecessor(s: seq<Node>, i: nat): Node
    requires i < |s|
  {
    if i == 0 then s[|s| - 1] else s[i - 1]
  }

  ghost predicate Linked(s: seq<Node>, i: nat)
    requires i < |s|
    reads s[i]
  {
    s[i].next == Successor(s, i) && s[i].prev == Predecessor(s, i)
  }

  ghost predicate Chain(s: seq<Node>)
    reads s
  {
    forall i :: 0 <= i < |s| ==> Linked(s, i)
  }

  /** The children of `p` are `s`, in that order. */
  ghost predicate Children(p: Node, s: seq<Node>)
    reads p`child, s
  {
    p.child == (if s == [] then null else s[0]) && Chain(s)
  }

  /** A chain does not run into itself. */
  lemma {:induction false} ChainIsDistinct(s: seq<Node>, i: nat, j: nat)
    requires Chain(s) && i < j < |s|
    ensures s[i] != s[j]
    decreases |s| - j
  {
    assert Linked(s, i) && Linked(s, j);
    if j < |s| - 1 {
      ChainIsDistinct(s, i + 1, j + 1);
    }
  }

  lemma {:induction false} AllDiffer(s: seq<Node>)
    requires Chain(s)
    ensures forall i, j :: 0 <= i < j < |s| ==> s[i] != s[j]
  {
    forall i, j | 0 <= i < j < |s| ensures s[i] != s[j] {
      ChainIsDistinct(s, i, j);
    }
  }

  lemma {:induction false} OthersDiffer(s: seq<Node>, k: nat)
    requires Chain(s) && k < |s|
    ensures forall i :: 0 <= i < |s| && i != k ==> s[i] != s[k]
  {
    forall i | 0 <= i < |s| && i != k ensures s[i] != s[k] {
      if i < k {
        ChainIsDistinct(s, i, k);
      } else {
        ChainIsDistinct(s, k, i);
      }
    }
  }

  /** The links leave no choice: a node has the children of one sequence only. */
  lemma {:induction false} ChildrenAreUnique(p: Node, s: seq<Node>, t: seq<Node>)
    requires Children(p, s) && Children(p, t)
    ensures s == t
  {
    if s != [] && t != [] {
      SameFrom(s, t, 0);
    }
  }

  lemma {:induction false} SameFrom(s: seq<Node>, t: seq<Node>, i: nat)
    requires Chain(s) && Chain(t) && i < |s| && i < |t| && s[i] == t[i]
    ensures s[i..] == t[i..]
    decreases |s| - i
  {
    assert Linked(s, i) && Linked(t, i);
    if i < |s| - 1 && i < |t| - 1 {
      SameFrom(s, t, i + 1);
      assert s[i..] == [s[i]] + s[i + 1..];
      assert t[i..] == [t[i]] + t[i + 1..];
    }
  }

  ghost function Self(p: Node?): set<Node> {
    if p == null then {} else {p}
  }

  /** Where the links follow those of `s`, a chain that meets `s` goes along with it. */
  lemma {:induction false} GoesAlong(s: seq<Node>, t: seq<Node>, at: nat, first: nat, last: nat)
    requires Chain(t) && first <= last < |s| && at < |t| && t[at] == s[first]
    requires forall i :: first <= i < last ==> s[i].next == s[i + 1]
    ensures at + (last - first) < |t| && t[at + (last - first)] == s[last]
    decreases last - first
  {
    if first < last {
      assert Linked(t, at) && s[first].next == s[first + 1];
      GoesAlong(s, t, at + 1, first + 1, last);
    }
  }

  /** A child that was put in front of another, or of itself, leaves a circle, or does not point back at its predecessor. */
  lemma {:induction false} TwicePlaced(p: Node, s: seq<Node>, t: seq<Node>, j: nat, k: nat)
    requires j < |s| && k < |s| && forall a, b :: 0 <= a < b < |s| ==> s[a] != s[b]
    requires forall i :: 0 <= i < |s| - 1 && i != j && i + 1 != k ==> s[i].next == s[i + 1]
    requires s[j].next == (if j == k || j + 1 == k then s[j] else s[k])
    requires if k == 0 then p.child == s[j] else p.child == s[0] && (j + 1 != k ==> s[k - 1].next == s[j])
    requires 0 < k && j + 1 < k ==> s[j].prev == s[k - 1]
    ensures !Children(p, t)
  {
    if Children(p, t) {
      if k == 0 {
        assert Linked(t, 0);
        if j > 0 {
          GoesAlong(s, t, 1, 0, j);
        }
        ChainIsDistinct(t, 0, 1 + j);
      } else if j + 1 < k {
        assert Linked(t, |t| - 1);
        GoesAlong(s, t, 0, 0, j);
        assert Linked(t, j);
        if j > 0 {
          GoesAlong(s, t, 0, 0, j - 1);
        }
      } else if j <= k {
        GoesAlong(s, t, 0, 0, k - 1);
        assert Linked(t, k - 1);
        if j == k {
          assert Linked(t, k);
          ChainIsDistinct(t, k, k + 1);
        } else {
          ChainIsDistinct(t, k - 1, k);
        }
      } else {
        GoesAlong(s, t, 0, 0, k - 1);
        assert Linked(t, k - 1) && Linked(t, k);
        GoesAlong(s, t, k + 1, k, j);
        ChainIsDistinct(t, k, k + 1 + (j - k));
      }
    }
  }

  /** A child that was put in the place of another has left a circle, or does not point back at its predecessor. */
  lemma {:induction false} ReplacedByChild(p: Node, s: seq<Node>, t: seq<Node>, j: nat, k: nat)
    requires j < |s| && k < |s| && j != k && forall a, b :: 0 <= a < b < |s| ==> s[a] != s[b]
    requires forall i :: 0 <= i < |s| - 1 && i != j && i != k && i + 1 != k ==> s[i].next == s[i + 1]
    requires s[j].next == (if 0 < k == j + 1 then s[j] else if k + 1 < |s| then s[k + 1] else null)
    requires if k == 0 then p.child == s[j] else p.child == s[0] && s[k - 1].next == (if j == k + 1 then s[k] else s[j])
    requires 0 < k && j + 1 < k && (0 < j || k + 1 < |s|) ==> s[j].prev == s[k - 1]
    requires s[k].prev == null && !(j == 0 && j + 1 < k == |s| - 1)
    ensures !Children(p, t)
  {
    if Children(p, t) {
      if k == 0 {
        assert Linked(t, 0);
        if j > 1 {
          GoesAlong(s, t, 1, 1, j);
        }
        ChainIsDistinct(t, 0, j);
      } else if j + 1 == k {
        GoesAlong(s, t, 0, 0, j);
        assert Linked(t, j);
        ChainIsDistinct(t, j, j + 1);
      } else if j < k {
        assert Linked(t, |t| - 1);
        GoesAlong(s, t, 0, 0, j);
        assert Linked(t, j);
        if j > 0 {
          GoesAlong(s, t, 0, 0, j - 1);
        }
      } else {
        GoesAlong(s, t, 0, 0, k - 1);
        assert Linked(t, k - 1) && Linked(t, k);
        if j > k + 1 {
          GoesAlong(s, t, k + 1, k + 1, j);
          ChainIsDistinct(t, k, j);
        }
      }
    }
  }

  /** get_array_item */
  method GetArrayItem(parent: Node?, index: nat, ghost s: seq<Node>) returns (r: Node?)
    requires parent != null ==> Children(parent, s)
    ensures r == if parent != null && index < |s| then s[index] else null
  {
    if parent == null {
      return null;
    }
    r := parent.child;
    var left: nat := index;
    while r != null && left > 0
      invariant left <= index
      invariant r == null ==> index - left == |s|
      invariant r != null ==> index - left < |s| && r == s[index - left]
      decreases left
    {
      assert Linked(s, index - left);
      left := left - 1;
      r := r.next;
    }
  }

  /** suffix_object */
  method SuffixObject(prev: Node, item: Node)
    modifies prev`next, item`prev
    ensures prev.next == item && item.prev == prev
  {
    prev.next := item;
    item.prev := prev;
  }

  /** What an item must be like to come to stand at the end of the children: an only child is never a problem. */
  ghost predicate Appendable(item: Node, s: seq<Node>)
    reads item`next
  {
    s == [] || (item !in s && item.next == null)
  }

  /**
   * add_item_to_array: the item goes to the end. One that is a child already, or that points at a node, leaves links that
   * stand for no sequence at all.
   */
  method AddItemToArray(parent: Node?, item: Node?, ghost s: seq<Node>) returns (ok: bool)
    requires parent != null ==> Children(parent, s)
    modifies Self(parent)`child, Self(item)`next, Self(item)`prev, s`next, s`prev
    ensures ok <==> parent != null && item != null && parent != item
    ensures ok ==> if old(Appendable(item, s)) then Children(parent, s + [item]) else forall t :: !Children(parent, t)
    ensures !ok && item != null ==> unchanged(item)
    ensures !ok && parent != null ==> Children(parent, s)
  {
    if item == null || parent == null || parent == item {
      return false;
    }
    var child := parent.child;
    if child == null {
      parent.child := item;
      item.prev := item;
      item.next := null;
    } else {
      assert Linked(s, 0) && Linked(s, |s| - 1);
      assert item in s && item.next == null ==> item == s[|s| - 1] by { OnlyTheLastEnds(s); }
      if child.prev != null {
        OthersDiffer(s, 0);
        OthersDiffer(s, |s| - 1);
        SuffixObject(child.prev, item);
        parent.child.prev := item;
      }
      forall t | Children(parent, t) ensures item.next == null {
        EndsAtHeadsPrev(parent, t);
      }
    }
    if old(Appendable(item, s)) {
      ghost var t := s + [item];
      forall i | 0 <= i < |t| ensures Linked(t, i) {
        assert i < |s| ==> old(Linked(s, i));
      }
    }
    return true;
  }

  lemma {:induction false} OnlyTheLastEnds(s: seq<Node>)
    requires Chain(s)
    ensures forall n :: n in s && n.next == null ==> n == s[|s| - 1]
  {
    forall n | n in s && n.next == null ensures n == s[|s| - 1] {
      var i :| 0 <= i < |s| && s[i] == n;
      assert Linked(s, i);
    }
  }

  lemma {:induction false} EndsAtHeadsPrev(p: Node, s: seq<Node>)
    requires Children(p, s) && s != []
    ensures p.child == s[0] && p.child.prev == s[|s| - 1] && s[|s| - 1].next == null
  {
    assert Linked(s, 0) && Linked(s, |s| - 1);
  }

  function Without<T>(s: seq<T>, k: nat): (r: seq<T>)
    requires k < |s|
    ensures |r| == |s| - 1
    ensures forall i :: 0 <= i < |r| ==> r[i] == s[if i < k then i else i + 1]
  {
    s[..k] + s[k + 1..]
  }

  function With<T>(s: seq<T>, k: nat, x: T): (r: seq<T>)
    requires k <= |s|
    ensures |r| == |s| + 1
    ensures forall i :: 0 <= i < |r| ==> r[i] == if i < k then s[i] else if i == k then x else s[i - 1]
  {
    s[..k] + [x] + s[k..]
  }

  /** cJSON_DetachItemViaPointer: the item leaves the list, and nothing in it points into the list any more. */
  method DetachItemViaPointer(parent: Node?, item: Node?, ghost s: seq<Node>, ghost k: nat) returns (r: Node?)
    requires parent != null ==> Children(parent, s)
    requires parent != null && item != null ==> k < |s| && s[k] == item
    modifies Self(parent)`child, s`next, s`prev
    ensures parent == null || item == null ==> r == null && (parent != null ==> Children(parent, s))
    ensures parent != null && item != null ==> r == item && item.next == null && item.prev == null && Children(parent, Without(s, k))
  {
    if parent == null || item == null {
      return null;
    }
    ghost var t := Without(s, k);
    assert Linked(s, k) && Linked(s, 0);
    OthersDiffer(s, k);
    OthersDiffer(s, if k == 0 then |s| - 1 else k - 1);
    OthersDiffer(s, if k + 1 < |s| then k + 1 else 0);
    if item != parent.child {
      item.prev.next := item.next;
    }
    if item.next != null {
      item.next.prev := item.prev;
    }
    if item == parent.child {
      parent.child := item.next;
    } else if item.next == null {
      parent.child.prev := item.prev;
    }
    item.prev := null;
    item.next := null;
    forall i | 0 <= i < |t| ensures Linked(t, i) {
      assert old(Linked(s, if i < k then i else i + 1));
    }
    return item;
  }

  /** cJSON_DetachItemFromArray */
  method DetachItemFromArray(parent: Node?, which: int, ghost s: seq<Node>) returns (r: Node?)
    requires parent != null ==> Children(parent, s)
    modifies Self(parent)`child, s`next, s`prev
    ensures r == if parent != null && 0 <= which < |s| then s[which] else null
    ensures r != null ==> r.next == null && r.prev == null
    ensures parent != null ==> Children(parent, if r == null then s else Without(s, which))
  {
    if which < 0 {
      return null;
    }
    var item := GetArrayItem(parent, which, s);
    r := DetachItemViaPointer(parent, item, s, which);
  }

  /**
   * cJSON_InsertItemInArray: in front of the item at the position, or at the end when there is none. An item that is a child
   * already leaves links that stand for no sequence.
   */
  method InsertItemInArray(parent: Node?, which: int, item: Node?, ghost s: seq<Node>) returns (ok: bool)
    requires parent != null ==> Children(parent, s)
    modifies Self(parent)`child, Self(item)`next, Self(item)`prev, s`next, s`prev
    ensures ok <==> parent != null && item != null && 0 <= which && (which < |s| || parent != item)
    ensures ok ==> if old(if which < |s| then item !in s else Appendable(item, s))
                   then Children(parent, With(s, if which < |s| then which else |s|, item))
                   else forall t :: !Children(parent, t)
    ensures !ok && parent != null ==> Children(parent, s)
    ensures !ok && item != null ==> unchanged(item)
  {
    if which < 0 || item == null {
      return false;
    }
    var after := GetArrayItem(parent, which, s);
    if after == null {
      InsertedAtEnd(s, item);
      ok := AddItemToArray(parent, item, s);
      return;
    }
    assert Linked(s, which);
    if after != parent.child && after.prev == null {
      return false;
    }
    LinkBefore(parent, after, item, s, which);
    return true;
  }

  method LinkBefore(parent: Node, after: Node, item: Node, ghost s: seq<Node>, ghost k: nat)
    requires Children(parent, s) && k < |s| && s[k] == after
    modifies parent`child, item`next, item`prev, s`next, s`prev
    ensures if item in s then forall t :: !Children(parent, t) else Children(parent, With(s, k, item))
  {
    assert Linked(s, k) && Linked(s, 0);
    AllDiffer(s);
    item.next := after;
    item.prev := after.prev;
    after.prev := item;
    if after == parent.child {
      parent.child := item;
    } else {
      item.prev.next := item;
    }
    if item !in s {
      ghost var t := With(s, k, item);
      forall i | 0 <= i < |t| ensures Linked(t, i) {
        assert i != k ==> old(Linked(s, if i < k then i else i - 1));
      }
    } else {
      ghost var j: nat :| j < |s| && s[j] == item;
      assert old(Linked(s, j));
      assert 0 < k ==> old(Linked(s, k - 1));
      forall i | 0 <= i < |s| - 1 && i != j && i + 1 != k ensures s[i].next == s[i + 1] {
        assert old(Linked(s, i));
      }
      forall t ensures !Children(parent, t) {
        TwicePlaced(parent, s, t, j, k);
      }
    }
  }

  /** The first child, in place of the last one of three or more, is left alone. */
  ghost predicate OnlyHeadStays(s: seq<Node>, k: nat, replacement: Node)
    requires k < |s|
  {
    2 <= k == |s| - 1 && replacement == s[0]
  }

  /**
   * cJSON_ReplaceItemViaPointer: the replacement takes the item's place; the item is left without links, to be deleted. Another
   * child as the replacement leaves no sequence, or loses all children between.
   */
  method ReplaceItemViaPointer(parent: Node?, item: Node?, replacement: Node?, ghost s: seq<Node>, ghost k: nat) returns (ok: bool)
    requires parent != null ==> Children(parent, s)
    requires parent != null && item != null && s != [] ==> k < |s| && s[k] == item
    modifies Self(parent)`child, Self(replacement)`next, Self(replacement)`prev, s`next, s`prev
    ensures ok <==> parent != null && s != [] && item != null && replacement != null
    ensures ok ==> if replacement == item || replacement !in s then Children(parent, s[k := replacement])
                   else if OnlyHeadStays(s, k, replacement) then Children(parent, [replacement])
                   else forall t :: !Children(parent, t)
    ensures !ok && parent != null ==> Children(parent, s)
    ensures !ok && replacement != null ==> unchanged(replacement)
    ensures ok && item != replacement ==> item.next == null && item.prev == null
  {
    if parent == null || parent.child == null || replacement == null || item == null {
      return false;
    }
    if replacement == item {
      assert s[k := replacement] == s;
      return true;
    }
    if parent.child == item {
      assert Linked(s, 0) && Linked(s, k);
      OthersDiffer(s, 0);
      ReplaceFirst(parent, item, replacement, s);
    } else {
      ReplaceLater(parent, item, replacement, s, k);
    }
    return true;
  }

  /** The replacement takes over the links of the item, and its next one points back at the replacement. */
  method TakeOver(item: Node, replacement: Node)
    requires item != replacement && item.next != item
    modifies replacement`next, replacement`prev, Self(item.next)`prev
    ensures replacement.next == old(item.next) && item.next == old(item.next)
    ensures if item.next == replacement then replacement.prev == replacement
            else replacement.prev == old(item.prev) && (item.next != null ==> item.next.prev == replacement)
  {
    replacement.next := item.next;
    replacement.prev := item.prev;
    if replacement.next != null {
      replacement.next.prev := replacement;
    }
  }

  method ReplaceFirst(parent: Node, item: Node, replacement: Node, ghost s: seq<Node>)
    requires Children(parent, s) && s != [] && s[0] == item && replacement != item
    modifies parent`child, replacement`next, replacement`prev, s`next, s`prev
    ensures if replacement !in s then Children(parent, s[0 := replacement]) else forall t :: !Children(parent, t)
    ensures item.next == null && item.prev == null
  {
    assert Linked(s, 0);
    AllDiffer(s);
    ghost var j: nat := 0;
    if replacement in s {
      j :| j < |s| && s[j] == replacement;
    }
    TakeOver(item, replacement);
    if parent.child.prev == parent.child {
      replacement.prev := replacement;
    }
    parent.child := replacement;
    item.next := null;
    item.prev := null;
    if replacement !in s {
      ghost var t := s[0 := replacement];
      forall i | 0 <= i < |t| ensures Linked(t, i) {
        assert old(Linked(s, i));
      }
    } else {
      forall i | 0 < i < |s| - 1 && i != j ensures s[i].next == s[i + 1] {
        assert old(Linked(s, i));
      }
      forall t ensures !Children(parent, t) {
        ReplacedByChild(parent, s, t, j, 0);
      }
    }
  }

  method ReplaceLater(parent: Node, item: Node, replacement: Node, ghost s: seq<Node>, ghost k: nat)
    requires Children(parent, s) && 0 < k < |s| && s[k] == item && replacement != item
    modifies replacement`next, replacement`prev, s`next, s`prev
    ensures if replacement !in s then Children(parent, s[k := replacement])
            else if OnlyHeadStays(s, k, replacement) then Children(parent, [replacement])
            else forall t :: !Children(parent, t)
    ensures item.next == null && item.prev == null
  {
    assert Linked(s, k) && Linked(s, 0) && Linked(s, k - 1);
    AllDiffer(s);
    ghost var j: nat := 0;
    if replacement in s {
      j :| j < |s| && s[j] == replacement;
      assert Linked(s, j);
    }
    TakeOver(item, replacement);
    if replacement.prev != null {
      replacement.prev.next := replacement;
    }
    if replacement.next == null {
      parent.child.prev := replacement;
    }
    item.next := null;
    item.prev := null;
    if replacement !in s {
      ghost var t := s[k := replacement];
      forall i | 0 <= i < |t| ensures Linked(t, i) {
        assert old(Linked(s, i));
      }
    } else {
      forall i | 0 <= i < |s| - 1 && i != j && i != k && i + 1 != k ensures s[i].next == s[i + 1] {
        assert old(Linked(s, i));
      }
      if OnlyHeadStays(s, k, replacement) {
        assert Linked([replacement], 0);
      } else {
        forall t ensures !Children(parent, t) {
          ReplacedByChild(parent, s, t, j, k);
        }
      }
    }
  }

  /** cJSON_ReplaceItemInArray */
  method ReplaceItemInArray(parent: Node?, which: int, replacement: Node?, ghost s: seq<Node>) returns (ok: bool)
    requires parent != null ==> Children(parent, s)
    modifies Self(parent)`child, Self(replacement)`next, Self(replacement)`prev, s`next, s`prev
    ensures ok <==> parent != null && 0 <= which < |s| && replacement != null
    ensures ok ==> if replacement == s[which] || replacement !in s then Children(parent, s[which := replacement])
                   else if OnlyHeadStays(s, which, replacement) then Children(parent, [replacement])
                   else forall t :: !Children(parent, t)
    ensures !ok && parent != null ==> Children(parent, s)
    ensures !ok && replacement != null ==> unchanged(replacement)
    ensures ok && s[which] != replacement ==> s[which].next == null && s[which].prev == null
  {
    if which < 0 {
      return false;
    }
    var item := GetArrayItem(parent, which, s);
    ok := ReplaceItemViaPointer(parent, item, replacement, s, which);
  }

  // ----- Whole runs

  datatype Edit = Add(item: Node) | Insert(which: int, item: Node) | Detach(which: int) | Replace(which: int, item: Node)

  /** What an edit does to the sequence of children. */
  ghost function Edited(parent: Node, s: seq<Node>, e: Edit): seq<Node> {
    match e
    case Add(item) => if item == parent then s else s + [item]
    case Insert(which, item) =>
      if 0 <= which < |s| then With(s, which, item) else if which < 0 || item == parent then s else s + [item]
    case Detach(which) => if 0 <= which < |s| then Without(s, which) else s
    case Replace(which, item) => if 0 <= which < |s| then s[which := item] else s
  }

  /** The nodes that exist after an edit: a replaced node is deleted. */
  ghost function Remaining(pool: set<Node>, s: seq<Node>, e: Edit): set<Node> {
    if e.Replace? && 0 <= e.which < |s| && s[e.which] != e.item then pool - {s[e.which]} else pool
  }

  /** The node an edit brings in exists and is no child yet; a node may only replace itself. */
  ghost predicate Fits(pool: set<Node>, s: seq<Node>, e: Edit) {
    match e
    case Add(item) => item in pool && item !in s
    case Insert(_, item) => item in pool && item !in s
    case Detach(_) => true
    case Replace(which, item) => item in pool && (item !in s || (0 <= which < |s| && s[which] == item))
  }

  ghost predicate FitsAll(parent: Node, pool: set<Node>, s: seq<Node>, es: seq<Edit>)
    decreases |es|
  {
    es == [] || (Fits(pool, s, es[0]) && FitsAll(parent, Remaining(pool, s, es[0]), Edited(parent, s, es[0]), es[1..]))
  }

  ghost function EditedAll(parent: Node, s: seq<Node>, es: seq<Edit>): seq<Node>
    decreases |es|
  {
    if es == [] then s else EditedAll(parent, Edited(parent, s, es[0]), es[1..])
  }

  /** The children exist, and nodes that are not children point at nothing. */
  ghost predicate Tidy(parent: Node, pool: set<Node>, s: seq<Node>)
    reads parent`child, s, pool
  {
    && Children(parent, s)
    && (forall n <- s :: n in pool)
    && (forall n <- pool :: n !in s ==> n.next == null)
  }

  lemma {:induction false} WithMembers<T>(s: seq<T>, k: nat, x: T)
    requires k <= |s|
    ensures forall n :: n in With(s, k, x) <==> n == x || n in s
  {
    forall n | n in s ensures n in With(s, k, x) {
      var i :| 0 <= i < |s| && s[i] == n;
      assert With(s, k, x)[if i < k then i else i + 1] == n;
    }
    assert With(s, k, x)[k] == x;
  }

  lemma {:induction false} WithoutMembers<T>(s: seq<T>, k: nat)
    requires k < |s|
    ensures forall n :: n in Without(s, k) ==> n in s
    ensures forall n :: n in s && n != s[k] ==> n in Without(s, k)
  {
    forall n | n in s && n != s[k] ensures n in Without(s, k) {
      var i :| 0 <= i < |s| && s[i] == n;
      assert Without(s, k)[if i < k then i else i - 1] == n;
    }
  }

  lemma {:induction false} UpdateMembers<T>(s: seq<T>, k: nat, x: T)
    requires k < |s|
    ensures forall n :: n in s[k := x] ==> n == x || n in s
    ensures forall n :: n in s && n != s[k] ==> n in s[k := x]
    ensures x in s[k := x]
    ensures x != s[k] && (forall i :: 0 <= i < |s| && i != k ==> s[i] != s[k]) ==> s[k] !in s[k := x]
  {
    forall n | n in s && n != s[k] ensures n in s[k := x] {
      var i :| 0 <= i < |s| && s[i] == n;
      assert s[k := x][i] == n;
    }
    assert s[k := x][k] == x;
  }

  /** The edit brings its node in. */
  ghost predicate BringsIn(parent: Node, s: seq<Node>, e: Edit) {
    match e
    case Add(item) => item != parent
    case Insert(which, item) => 0 <= which && (which < |s| || item != parent)
    case Detach(_) => false
    case Replace(which, _) => 0 <= which < |s|
  }

  lemma {:induction false} EditedMembers(parent: Node, pool: set<Node>, s: seq<Node>, e: Edit)
    requires Fits(pool, s, e) && forall n <- s :: n in pool
    requires forall i, j :: 0 <= i < j < |s| ==> s[i] != s[j]
    ensures forall n <- Edited(parent, s, e) :: n in Remaining(pool, s, e)
    ensures forall n <- Remaining(pool, s, e) :: n !in Edited(parent, s, e) ==>
              n !in s || (e.Detach? && 0 <= e.which < |s| && n == s[e.which])
    ensures BringsIn(parent, s, e) ==> e.item in Edited(parent, s, e)
  {
    match e
    case Add(item) =>
    case Insert(which, item) =>
      if 0 <= which < |s| {
        WithMembers(s, which, item);
      }
    case Detach(which) =>
      if 0 <= which < |s| {
        WithoutMembers(s, which);
      }
    case Replace(which, item) =>
      if 0 <= which < |s| {
        UpdateMembers(s, which, item);
      }
  }

  lemma {:induction false} InsertedAtEnd(s: seq<Node>, item: Node)
    ensures With(s, |s|, item) == s + [item]
  {
  }

  method Perform(parent: Node, e: Edit, ghost pool: set<Node>, ghost s: seq<Node>)
    requires Tidy(parent, pool, s) && Fits(pool, s, e)
    modifies parent`child, pool`next, pool`prev
    ensures Tidy(parent, Remaining(pool, s, e), Edited(parent, s, e))
  {
    AllDiffer(s);
    EditedMembers(parent, pool, s, e);
    hide Chain, Without, With;
    match e
    case Add(item) =>
      var _ := AddItemToArray(parent, item, s);
    case Insert(which, item) =>
      InsertedAtEnd(s, item);
      var _ := InsertItemInArray(parent, which, item, s);
    case Detach(which) =>
      var _ := DetachItemFromArray(parent, which, s);
    case Replace(which, item) =>
      var _ := ReplaceItemInArray(parent, which, item, s);
  }

  /** Any run of edits: the links stand for the sequence that the edits make. */
  method Run(parent: Node, es: seq<Edit>, ghost pool: set<Node>, ghost s: seq<Node>)
    requires Tidy(parent, pool, s) && FitsAll(parent, pool, s, es)
    modifies parent`child, pool`next, pool`prev
    ensures Children(parent, EditedAll(parent, s, es))
    decreases |es|
  {
    if es != [] {
      Perform(parent, es[0], pool, s);
      Run(parent, es[1..], Remaining(pool, s, es[0]), Edited(parent, s, es[0]));
    }
  }
}
