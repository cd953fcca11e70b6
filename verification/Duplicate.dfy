/** cJSON_Duplicate. */
module Duplicates {
  import opened Ascii
  import opened Values
  import opened Items

  function TextIn(b: Option<Block>): Option<Text> {
    match b
    case None => None
    case Some(block) => Some(block.text)
  }

  /** `c` has the content of `item`, is no reference, and (when `recurse`) has copies of its children in their order. */
  ghost predicate Copies(c: Item, item: Item, recurse: bool)
    decreases item
  {
    && c.kind == item.kind && c.valueint == item.valueint && c.valuedouble == item.valuedouble
    && !c.isReference && c.constKey == item.constKey
    && TextIn(c.valuestring) == TextIn(item.valuestring)
    && TextIn(c.key) == TextIn(item.key)
    && (if recurse then CopyAll(c.child, item.child) else c.child == [])
  }

  ghost predicate CopyAll(cs: seq<Item>, items: seq<Item>)
    decreases items
  {
    |cs| == |items| && forall i :: 0 <= i < |items| ==> Copies(cs[i], items[i], true)
  }

  /** A copy of all levels stands for the same value. */
  lemma {:induction false} CopiesRepresent(c: Item, item: Item, v: Value)
    requires Copies(c, item, true) && Represents(item, v)
    ensures Represents(c, v)
    decreases v
  {
    match v
    case Arr(items) =>
      forall i | 0 <= i < |items| ensures Represents(c.child[i], items[i]) {
        CopiesRepresent(c.child[i], item.child[i], items[i]);
      }
    case Obj(members) =>
      forall i | 0 <= i < |members| ensures RepresentsMember(c.child[i], members[i]) {
        assert RepresentsMember(item.child[i], members[i]);
        CopiesRepresent(c.child[i], item.child[i], members[i].value);
      }
    case _ =>
  }

  /** cJSON_strdup of a string that may be NULL. */
  method CopyString(b: Option<Block>, hooks: Allocator) returns (ok: bool, r: Option<Block>)
    requires hooks.Valid()
    modifies hooks
    ensures hooks.Valid()
    ensures ok ==> TextIn(r) == TextIn(b) && hooks.live == old(hooks.live) + OneBlock(r) && hooks.failures == old(hooks.failures)
    ensures !ok ==> hooks.live == old(hooks.live) && hooks.failures == old(hooks.failures) + 1
  {
    if b == None {
      return true, None;
    }
    var id := hooks.Allocate();
    if id == None {
      return false, None;
    }
    return true, Some(Block(id.value, b.value.text));
  }

  /** The item with its strings, before any child is copied. */
  method CopyItem(item: Item, hooks: Allocator) returns (r: Option<Item>)
    requires hooks.Valid()
    modifies hooks
    ensures hooks.Valid()
    ensures r.Some? ==> Copies(r.value, item, false)
                        && hooks.live == old(hooks.live) + Owned(r.value) && hooks.failures == old(hooks.failures)
    ensures r.None? ==> hooks.live == old(hooks.live) && hooks.failures == old(hooks.failures) + 1
  {
    ghost var before := hooks.live;
    var id := hooks.Allocate();
    if id == None {
      return None;
    }
    var copy := BlankItem(id.value).(kind := item.kind, valueint := item.valueint, valuedouble := item.valuedouble,
                                     constKey := item.constKey);
    OwnedBare(copy);
    hide Owned, OneBlock;
    var ok, text := CopyString(item.valuestring, hooks);
    if ok {
      OwnedWithText(copy, text);
      Reassociate(before, Owned(copy), OneBlock(text));
      copy := copy.(valuestring := text);
      var key := item.key;
      if !item.constKey {
        ok, key := CopyString(item.key, hooks);
      }
      if ok {
        OwnedWithKey(copy, key);
        Reassociate(before, Owned(copy), OneBlock(key));
        copy := copy.(key := key);
      }
    }
    if !ok {
      OwnedOne(copy);
      Delete([copy], hooks, before);
      return None;
    }
    return Some(copy);
  }

  /**
   * cJSON_Duplicate: on success exactly the copy's blocks are new; when the allocator refuses a request nothing stays
   * behind, and that is the only way to fail.
   */
  method Duplicate(item: Item, recurse: bool, hooks: Allocator) returns (r: Option<Item>)
    requires hooks.Valid()
    modifies hooks
    ensures hooks.Valid()
    ensures r.Some? ==> Copies(r.value, item, recurse)
                        && hooks.live == old(hooks.live) + Owned(r.value) && hooks.failures == old(hooks.failures)
    ensures r.None? ==> hooks.live == old(hooks.live) && hooks.failures == old(hooks.failures) + 1
    decreases item
  {
    hide Owned, OwnedAll;
    ghost var before := hooks.live;
    r := CopyItem(item, hooks);
    if r == None || !recurse {
      return;
    }
    var copy := r.value;
    var i := 0;
    while i < |item.child|
      invariant i <= |item.child| && hooks.Valid() && hooks.failures == old(hooks.failures)
      invariant hooks.live == before + Owned(copy)
      invariant copy == r.value.(child := copy.child)
      invariant CopyAll(copy.child, item.child[..i])
    {
      var child := Duplicate(item.child[i], true, hooks);
      if child == None {
        OwnedOne(copy);
        Delete([copy], hooks, before);
        return None;
      }
      OwnedWithChild(copy, child.value);
      copy := copy.(child := copy.child + [child.value]);
      i := i + 1;
    }
    assert item.child[..i] == item.child;
    return Some(copy);
  }
}
