/** The tree of a cJSON document with the blocks it owns, the allocator behind the hooks, cJSON_Delete and cJSON_Duplicate. */
module Items {
  import opened Ascii
  import opened Values

  /** A string block: its identity and its bytes up to the terminator. */
  datatype Block = Block(id: nat, text: Text)

  datatype Kind = InvalidKind | FalseKind | TrueKind | NullKind | NumberKind | StringKind | ArrayKind | ObjectKind

  /** `id` is the block of the item itself; `child` lists its children in the order of their links. */
  datatype Item = Item(id: nat, kind: Kind, valueint: int, valuedouble: real, valuestring: Option<Block>,
                       key: Option<Block>, child: seq<Item>, isReference: bool, constKey: bool)

  /** What cJSON_New_Item returns: a block set to zero. */
  function BlankItem(id: nat): Item {
    Item(id, InvalidKind, 0, 0.0, None, None, [], false, false)
  }

  function OneBlock(b: Option<Block>): multiset<nat> {
    match b
    case None => multiset{}
    case Some(block) => multiset{block.id}
  }

  /** The blocks that deleting an item releases: a reference owns no content, and a constant key is not owned. */
  function Owned(item: Item): multiset<nat>
    decreases item
  {
    multiset{item.id}
    + (if item.constKey then multiset{} else OneBlock(item.key))
    + (if item.isReference then multiset{} else OneBlock(item.valuestring) + OwnedAll(item.child))
  }

  function OwnedAll(items: seq<Item>): multiset<nat>
    decreases items
  {
    if items == [] then multiset{} else Owned(items[0]) + OwnedAll(items[1..])
  }

  lemma {:induction false} OwnedAllAppend(items: seq<Item>, last: Item)
    ensures OwnedAll(items + [last]) == OwnedAll(items) + Owned(last)
  {
    if items != [] {
      assert (items + [last])[1..] == items[1..] + [last];
      OwnedAllAppend(items[1..], last);
    }
  }

  /** An item without strings or children owns only itself; each string and each child adds what it owns. */
  lemma {:induction false} OwnedBare(item: Item)
    requires item.valuestring == None && item.key == None && item.child == []
    ensures Owned(item) == multiset{item.id}
  {
  }

  lemma {:induction false} OwnedAsKind(item: Item, kind: Kind)
    ensures Owned(item.(kind := kind)) == Owned(item)
  {
  }

  lemma {:induction false} OwnedAsNumber(item: Item, i: int, d: real)
    ensures Owned(item.(valueint := i, valuedouble := d)) == Owned(item)
  {
  }

  /** Moving the string just parsed over to the key moves its ownership. */
  lemma {:induction false} OwnedAsKey(item: Item)
    requires item.key == None && !item.isReference && !item.constKey && item.child == []
    ensures Owned(item.(key := item.valuestring, valuestring := None)) == Owned(item)
  {
  }

  lemma {:induction false} OwnedWithChildren(item: Item, kind: Kind, children: seq<Item>, rest: multiset<nat>)
    requires item.child == [] && !item.isReference
    ensures rest + Owned(item.(kind := kind, child := children)) == rest + Owned(item) + OwnedAll(children)
    ensures rest + Owned(item) + OwnedAll([]) == rest + Owned(item)
  {
  }

  lemma {:induction false} OwnedAllNone(rest: multiset<nat>)
    ensures rest + OwnedAll([]) == rest
  {
  }

  lemma {:induction false} OwnedAllTogether(rest: multiset<nat>, items: seq<Item>, added: seq<Item>)
    requires |added| <= 1
    ensures rest + OwnedAll(items + added) == rest + OwnedAll(items) + OwnedAll(added)
  {
    if added == [] {
      assert items + added == items;
      OwnedAllNone(rest + OwnedAll(items));
    } else {
      assert added == [added[0]];
      OwnedAllWithOne(rest, items, added[0]);
    }
  }

  lemma {:induction false} OwnedAllWithOne(rest: multiset<nat>, items: seq<Item>, last: Item)
    ensures rest + OwnedAll(items + [last]) == rest + OwnedAll(items) + OwnedAll([last])
  {
    hide *;
    OwnedAllAppend(items, last);
    OwnedOne(last);
    Reassociate(rest, OwnedAll(items), Owned(last));
  }

  lemma {:induction false} OwnedWithText(item: Item, b: Option<Block>)
    requires item.valuestring == None && !item.isReference
    ensures Owned(item.(valuestring := b)) == Owned(item) + OneBlock(b)
  {
  }

  lemma {:induction false} OwnedWithKey(item: Item, b: Option<Block>)
    requires item.key == None
    ensures Owned(item.(key := b)) == if item.constKey then Owned(item) else Owned(item) + OneBlock(b)
  {
  }

  lemma {:induction false} OwnedWithChild(item: Item, c: Item)
    requires !item.isReference
    ensures Owned(item.(child := item.child + [c])) == Owned(item) + Owned(c)
  {
    OwnedAllAppend(item.child, c);
  }

  lemma {:induction false} OwnedOne(item: Item)
    ensures OwnedAll([item]) == Owned(item)
  {
    assert OwnedAll([]) == multiset{};
  }

  /** valueint is valuedouble cut to the range of int, and towards zero (cJSON.c:360-371). */
  function Saturated(d: real): (n: int)
    ensures INT_MIN <= n <= INT_MAX && (IsInt32(d) ==> n as real == d)
    ensures INT_MIN as real <= d <= INT_MAX as real ==> -1.0 < d - n as real < 1.0
  {
    if d >= INT_MAX as real then INT_MAX
    else if d <= INT_MIN as real then INT_MIN
    else if d >= 0.0 then d.Floor
    else -((-d).Floor)
  }

  /** The tree of `item` stands for `v`. */
  ghost predicate Represents(item: Item, v: Value)
    decreases v
  {
    match v
    case Null => item.kind == NullKind
    case Bool(b) => item.kind == if b then TrueKind else FalseKind
    case Number(d) => item.kind == NumberKind && item.valuedouble == d && item.valueint == Saturated(d)
    case Str(s) => item.kind == StringKind && item.valuestring.Some? && item.valuestring.value.text == s
    case Arr(items) => item.kind == ArrayKind && RepresentItems(item.child, items)
    case Obj(members) => item.kind == ObjectKind && RepresentMembers(item.child, members)
  }

  ghost predicate RepresentItems(children: seq<Item>, items: seq<Value>)
    decreases items
  {
    |children| == |items| && forall i :: 0 <= i < |items| ==> Represents(children[i], items[i])
  }

  ghost predicate RepresentsMember(child: Item, m: Member)
    decreases m
  {
    child.key.Some? && child.key.value.text == m.key && Represents(child, m.value)
  }

  ghost predicate RepresentMembers(children: seq<Item>, members: seq<Member>)
    decreases members
  {
    |children| == |members| && forall i :: 0 <= i < |members| ==> RepresentsMember(children[i], members[i])
  }

  lemma {:induction false} RepresentsArray(item: Item)
    requires item.kind == ArrayKind
    ensures forall items :: RepresentItems(item.child, items) ==> Represents(item, Arr(items))
  {
  }

  lemma {:induction false} RepresentsObject(item: Item)
    requires item.kind == ObjectKind
    ensures forall members :: RepresentMembers(item.child, members) ==> Represents(item, Obj(members))
  {
  }

  /**
   * An allocator that refuses whichever requests `refuse` says. It hands out only blocks that are not live and takes back
   * only blocks that are.
   */
  class Allocator {
    const refuse: nat -> bool
    var requests: nat
    var next: nat
    ghost var live: multiset<nat>
    ghost var failures: nat

    ghost predicate Valid()
      reads this
    {
      forall b :: b in live ==> b < next && live[b] == 1
    }

    constructor (refuse: nat -> bool)
      ensures Valid() && live == multiset{} && failures == 0
    {
      this.refuse, requests, next := refuse, 0, 0;
      live, failures := multiset{}, 0;
    }

    method Allocate() returns (r: Option<nat>)
      requires Valid()
      modifies this
      ensures Valid()
      ensures r.None? ==> live == old(live) && failures == old(failures) + 1
      ensures r.Some? ==> r.value !in old(live) && live == old(live) + multiset{r.value} && failures == old(failures)
    {
      if refuse(requests) {
        r, failures := None, failures + 1;
      } else {
        r, live := Some(next), live + multiset{next};
        next := next + 1;
      }
      requests := requests + 1;
    }

    /** Releases a live block; `rest` is what stays live. */
    method Deallocate(b: nat, ghost rest: multiset<nat>)
      requires Valid() && live == rest + multiset{b}
      modifies this
      ensures Valid() && live == rest && b !in live && failures == old(failures)
    {
      assert live[b] == rest[b] + 1;
      assert forall c :: c in rest ==> c in live && rest[c] <= live[c];
      live := rest;
    }

    method DeallocateString(b: Option<Block>, ghost rest: multiset<nat>)
      requires Valid() && live == rest + OneBlock(b)
      modifies this
      ensures Valid() && live == rest && failures == old(failures)
    {
      if b.Some? {
        Deallocate(b.value.id, rest);
      }
    }
  }

  /** The blocks of an item besides those of its children. */
  function OwnBlocks(item: Item): multiset<nat> {
    (if item.isReference then multiset{} else OneBlock(item.valuestring))
    + (if item.constKey then multiset{} else OneBlock(item.key))
    + multiset{item.id}
  }

  function OwnChildren(item: Item): multiset<nat> {
    if item.isReference then multiset{} else OwnedAll(item.child)
  }

  lemma OwnedSplit(item: Item)
    ensures Owned(item) == OwnChildren(item) + OwnBlocks(item)
  {
  }

  lemma Reassociate(a: multiset<nat>, b: multiset<nat>, c: multiset<nat>)
    ensures a + (b + c) == (a + b) + c
  {
  }

  lemma Regroup(rest: multiset<nat>, a: multiset<nat>, b: multiset<nat>)
    ensures rest + (a + b) == (rest + b) + a
  {
  }

  /**
   * cJSON_Delete of the items chained from the first of `chain`: every owned block is released, each only once, and
   * `rest`, all other live blocks, is what stays.
   */
  method Delete(chain: seq<Item>, hooks: Allocator, ghost rest: multiset<nat>)
    requires hooks.Valid() && hooks.live == rest + OwnedAll(chain)
    modifies hooks
    ensures hooks.Valid() && hooks.live == rest && hooks.failures == old(hooks.failures)
    decreases chain
  {
    var i := 0;
    while i < |chain|
      invariant i <= |chain| && hooks.Valid() && hooks.failures == old(hooks.failures)
      invariant hooks.live == rest + OwnedAll(chain[i..])
    {
      assert chain[i..][0] == chain[i] && chain[i..][1..] == chain[i + 1..];
      Regroup(rest, Owned(chain[i]), OwnedAll(chain[i + 1..]));
      DeleteItem(chain[i], hooks, rest + OwnedAll(chain[i + 1..]));
      i := i + 1;
    }
  }

  /** One turn of the loop: the children first, then the strings, then the item. */
  method DeleteItem(item: Item, hooks: Allocator, ghost rest: multiset<nat>)
    requires hooks.Valid() && hooks.live == rest + Owned(item)
    modifies hooks
    ensures hooks.Valid() && hooks.live == rest && hooks.failures == old(hooks.failures)
    decreases item
  {
    OwnedSplit(item);
    Regroup(rest, OwnChildren(item), OwnBlocks(item));
    hide Owned, OwnedAll, OneBlock;
    if !item.isReference {
      Delete(item.child, hooks, rest + OwnBlocks(item));
    }
    DeleteBlocks(item, hooks, rest);
  }

  method DeleteBlocks(item: Item, hooks: Allocator, ghost rest: multiset<nat>)
    requires hooks.Valid() && hooks.live == rest + OwnBlocks(item)
    modifies hooks
    ensures hooks.Valid() && hooks.live == rest && hooks.failures == old(hooks.failures)
  {
    ghost var text := if item.isReference then multiset{} else OneBlock(item.valuestring);
    ghost var key := if item.constKey then multiset{} else OneBlock(item.key);
    Regroup(rest, text, key + multiset{item.id});
    Regroup(rest, key, multiset{item.id});
    assert text + (key + multiset{item.id}) == OwnBlocks(item);
    hide OneBlock;
    if !item.isReference {
      hooks.DeallocateString(item.valuestring, rest + (key + multiset{item.id}));
    }
    if !item.constKey {
      hooks.DeallocateString(item.key, rest + multiset{item.id});
    }
    hooks.Deallocate(item.id, rest);
  }

  // ----- References

  /** A reference owns nothing but itself, and stands for what its item stands for. */
  lemma {:induction false} ReferenceIsShallow(item: Item, id: nat)
    ensures var r := item.(id := id, key := None, isReference := true);
            Owned(r) == multiset{id} && forall v :: Represents(item, v) ==> Represents(r, v)
  {
    var r := item.(id := id, key := None, isReference := true);
    forall v | Represents(item, v) ensures Represents(r, v) {
    }
  }

  /** create_reference: a copy of the item itself, without its name, whose strings and children are those of the item. */
  method CreateReference(item: Item, hooks: Allocator) returns (r: Option<Item>)
    requires hooks.Valid()
    modifies hooks
    ensures hooks.Valid()
    ensures r.Some? ==> r.value == item.(id := r.value.id, key := None, isReference := true)
                        && hooks.live == old(hooks.live) + multiset{r.value.id} && hooks.failures == old(hooks.failures)
    ensures r.None? ==> hooks.live == old(hooks.live) && hooks.failures == old(hooks.failures) + 1
  {
    var id := hooks.Allocate();
    if id == None {
      return None;
    }
    return Some(item.(id := id.value, key := None, isReference := true));
  }

  /** Deleting a reference leaves what it refers to alone: the blocks that are live are those that were. */
  method ReferThenDelete(item: Item, hooks: Allocator)
    requires hooks.Valid()
    modifies hooks
    ensures hooks.Valid() && hooks.live == old(hooks.live)
  {
    ghost var before := hooks.live;
    var r := CreateReference(item, hooks);
    if r.Some? {
      ReferenceIsShallow(item, r.value.id);
      OwnedOne(r.value);
      hide Owned, OwnedAll;
      Delete([r.value], hooks, before);
    }
  }
}
