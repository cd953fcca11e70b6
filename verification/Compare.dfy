/** cJSON_Compare, and the equality of values that it decides. */
module Comparison {
  import opened Ascii
  import opened Values
  import opened Items
  import opened Duplicates

  // ----- Keys

  /** tolower of the C locale. */
  function Lower(b: byte): byte {
    if 0x41 <= b <= 0x5A then b + 0x20 else b
  }

  /** What two names must have in common to be taken for the same. */
  function KeyOf(t: Text, exact: bool): Text {
    if exact then t else seq(|t|, i requires 0 <= i < |t| => Lower(t[i]))
  }

  /** The bytes are the same, or the capital and the small letter of one kind. */
  predicate SameLetter(b: byte, c: byte) {
    b == c || (0x41 <= b <= 0x5A && c == b + 32) || (0x41 <= c <= 0x5A && b == c + 32)
  }

  /** Without case two names are the same if and only if they agree byte by byte but for the case of letters from A to Z. */
  lemma {:induction false} SameNames(s: Text, t: Text)
    ensures KeyOf(s, false) == KeyOf(t, false) <==> |s| == |t| && forall i :: 0 <= i < |s| ==> SameLetter(s[i], t[i])
    ensures KeyOf(s, true) == KeyOf(t, true) <==> s == t
  {
    var u, w := KeyOf(s, false), KeyOf(t, false);
    if u == w {
      forall i | 0 <= i < |s| ensures SameLetter(s[i], t[i]) {
        assert u[i] == w[i];
      }
    }
  }

  /** case_insensitive_strcmp of two strings, as far as its callers look at the result. */
  method EqualIgnoringCase(s: Text, t: Text) returns (r: bool)
    ensures r <==> KeyOf(s, false) == KeyOf(t, false)
  {
    var i := 0;
    while i < |s| && i < |t| && Lower(s[i]) == Lower(t[i])
      invariant i <= |s| && i <= |t|
      invariant forall k :: 0 <= k < i ==> Lower(s[k]) == Lower(t[k])
    {
      i := i + 1;
    }
    r := i == |s| && i == |t|;
    if !r && i < |s| && i < |t| {
      assert KeyOf(s, false)[i] != KeyOf(t, false)[i];
    }
  }

  /** get_object_item: where the first child of that name is; an exact search ends at a child without a name. */
  function Find(children: seq<Item>, name: Option<Text>, exact: bool): (r: Option<nat>)
    ensures r.Some? ==> r.value < |children|
  {
    if name.None? || children == [] then None
    else
      var key := children[0].key;
      if key.None? && exact then None
      else if key.Some? && KeyOf(key.value.text, exact) == KeyOf(name.value, exact) then Some(0)
      else
        match Find(children[1..], name, exact)
        case None => None
        case Some(j) => Some(j + 1)
  }

  /** The child has a name, and it is the one looked for. */
  predicate Named(child: Item, name: Text, exact: bool) {
    child.key.Some? &&
    var key := child.key.value.text;
    if exact then key == name else |key| == |name| && forall i :: 0 <= i < |key| ==> SameLetter(key[i], name[i])
  }

  /** Found is the first child of the name, with no nameless one before it if the search is exact. */
  lemma {:induction false} FindsFirst(children: seq<Item>, name: Text, exact: bool, j: nat)
    requires j < |children|
    ensures Find(children, Some(name), exact) == Some(j) <==>
            && Named(children[j], name, exact)
            && forall i :: 0 <= i < j ==> !Named(children[i], name, exact) && (exact ==> children[i].key.Some?)
  {
    hide SameLetter;
    if children[0].key.Some? {
      SameNames(children[0].key.value.text, name);
    }
    hide KeyOf;
    if j > 0 {
      FindsFirst(children[1..], name, exact, j - 1);
      var rest := children[1..];
      assert forall i :: 0 < i < |children| ==> children[i] == rest[i - 1];
      FirstAndRest(children, name, exact, j);
    }
  }

  lemma {:induction false} FirstAndRest(children: seq<Item>, name: Text, exact: bool, j: nat)
    requires 0 < j < |children|
    ensures (forall i :: 0 <= i < j ==> !Named(children[i], name, exact) && (exact ==> children[i].key.Some?)) <==>
            && !Named(children[0], name, exact) && (exact ==> children[0].key.Some?)
            && forall i :: 0 <= i < j - 1 ==> !Named(children[1..][i], name, exact) && (exact ==> children[1..][i].key.Some?)
  {
    hide Named;
    var rest := children[1..];
    if !Named(children[0], name, exact) && (exact ==> children[0].key.Some?)
      && forall i :: 0 <= i < j - 1 ==> !Named(rest[i], name, exact) && (exact ==> rest[i].key.Some?)
    {
      forall i | 0 <= i < j ensures !Named(children[i], name, exact) && (exact ==> children[i].key.Some?) {
        assert i > 0 ==> children[i] == rest[i - 1];
      }
    }
    if forall i :: 0 <= i < j ==> !Named(children[i], name, exact) && (exact ==> children[i].key.Some?) {
      forall i | 0 <= i < j - 1 ensures !Named(rest[i], name, exact) && (exact ==> rest[i].key.Some?) {
        assert rest[i] == children[i + 1];
      }
    }
  }

  method GetObjectItem(parent: Item, name: Option<Text>, exact: bool) returns (r: Option<nat>)
    ensures r == Find(parent.child, name, exact)
  {
    if name.None? {
      return None;
    }
    var i := 0;
    while i < |parent.child|
      invariant i <= |parent.child|
      invariant var rest := Find(parent.child[i..], name, exact);
                Find(parent.child, name, exact) == if rest.None? then None else Some(i + rest.value)
    {
      assert parent.child[i..][0] == parent.child[i] && parent.child[i..][1..] == parent.child[i + 1..];
      var key := parent.child[i].key;
      if exact {
        if key.None? {
          return None;
        }
        if key.value.text == name.value {
          return Some(i);
        }
      } else if key.Some? {
        var equal := EqualIgnoringCase(name.value, key.value.text);
        if equal {
          return Some(i);
        }
      }
      i := i + 1;
    }
    return None;
  }

  // ----- Comparing

  function Size(item: Item): (n: nat)
    ensures 0 < n
    decreases item
  {
    1 + SizeAll(item.child)
  }

  function SizeAll(items: seq<Item>): (n: nat)
    decreases items
  {
    if items == [] then 0 else Size(items[0]) + SizeAll(items[1..])
  }

  lemma {:induction false} SizeOfOne(items: seq<Item>, i: nat)
    requires i < |items|
    ensures Size(items[i]) <= SizeAll(items)
  {
    if i > 0 {
      SizeOfOne(items[1..], i - 1);
    }
  }

  /** The same item is equal to itself without a look inside, if its kind is one there is. */
  predicate Same(a: Item, b: Item, exact: bool)
    decreases Size(a) + Size(b), 0
  {
    if a.kind != b.kind || a.kind == InvalidKind then false
    else if a.id == b.id then true
    else
      match a.kind
      case NumberKind => CompareDouble(a.valuedouble, b.valuedouble)
      case StringKind => a.valuestring.Some? && b.valuestring.Some? && a.valuestring.value.text == b.valuestring.value.text
      case ArrayKind => SameItems(a.child, b.child, exact)
      case ObjectKind => Covered(a.child, b.child, exact) && Covered(b.child, a.child, exact)
      case _ => true
  }

  /** An item is equal to itself, whatever names clash in it, unless it is of no kind there is. */
  lemma {:induction false} EqualsItself(item: Item, exact: bool)
    ensures Same(item, item, exact) <==> item.kind != InvalidKind
  {
  }

  predicate SameItems(s: seq<Item>, t: seq<Item>, exact: bool)
    decreases SizeAll(s) + SizeAll(t), 1
  {
    if s == [] || t == [] then s == [] && t == []
    else Same(s[0], t[0], exact) && SameItems(s[1..], t[1..], exact)
  }

  /** Every item of `s` has a namesake in `t`, and the first one is equal to it. */
  predicate Covered(s: seq<Item>, t: seq<Item>, exact: bool)
    decreases SizeAll(s) + SizeAll(t), 1
  {
    if s == [] then true
    else
      var j := Find(t, TextIn(s[0].key), exact);
      j.Some? && (SizeOfOne(t, j.value); Same(s[0], t[j.value], exact)) && Covered(s[1..], t, exact)
  }

  /** cJSON_Compare */
  method Compare(a: Item, b: Item, exact: bool) returns (r: bool)
    ensures r == Same(a, b, exact)
    decreases Size(a) + Size(b), 0
  {
    if a.kind != b.kind || a.kind == InvalidKind {
      return false;
    }
    if a.id == b.id {
      return true;
    }
    match a.kind
    case NumberKind => r := CompareDouble(a.valuedouble, b.valuedouble);
    case StringKind =>
      if a.valuestring.None? || b.valuestring.None? {
        return false;
      }
      r := a.valuestring.value.text == b.valuestring.value.text;
    case ArrayKind =>
      var i := 0;
      while i < |a.child| && i < |b.child|
        invariant i <= |a.child| && i <= |b.child|
        invariant SameItems(a.child, b.child, exact) == SameItems(a.child[i..], b.child[i..], exact)
      {
        SizeOfOne(a.child, i);
        SizeOfOne(b.child, i);
        assert a.child[i..][1..] == a.child[i + 1..] && b.child[i..][1..] == b.child[i + 1..];
        var same := Compare(a.child[i], b.child[i], exact);
        if !same {
          return false;
        }
        i := i + 1;
      }
      r := i == |a.child| && i == |b.child|;
    case ObjectKind =>
      r := CompareMembers(a, b, exact);
      if r {
        r := CompareMembers(b, a, exact);
      }
    case _ => r := true;
  }

  /** One of the two walks over an object. */
  method CompareMembers(a: Item, b: Item, exact: bool) returns (r: bool)
    ensures r == Covered(a.child, b.child, exact)
    decreases SizeAll(a.child) + SizeAll(b.child), 1
  {
    var i := 0;
    while i < |a.child|
      invariant i <= |a.child|
      invariant Covered(a.child, b.child, exact) == Covered(a.child[i..], b.child, exact)
    {
      assert a.child[i..][0] == a.child[i] && a.child[i..][1..] == a.child[i + 1..];
      var j := GetObjectItem(b, TextIn(a.child[i].key), exact);
      if j.None? {
        return false;
      }
      SizeOfOne(a.child, i);
      SizeOfOne(b.child, j.value);
      var same := Compare(a.child[i], b.child[j.value], exact);
      if !same {
        return false;
      }
      i := i + 1;
    }
    r := true;
  }
}
