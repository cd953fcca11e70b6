/** What cJSON_Compare decides: a relation on values, and how it compares with equality of values whose objects are read as maps. */
module CompareMeaning {
  import opened Ascii
  import opened Values
  import opened Items
  import opened Duplicates
  import opened Comparison

  /** A value with every object read as a map from its names. */
  datatype Canon =
    | CanonNull
    | CanonBool(b: bool)
    | CanonNumber(d: real)
    | CanonStr(s: Text)
    | CanonArr(items: seq<Canon>)
    | CanonObj(fields: map<Text, Canon>)

  function CanonOf(v: Value, exact: bool): Canon
    decreases v
  {
    match v
    case Null => CanonNull
    case Bool(b) => CanonBool(b)
    case Number(d) => CanonNumber(d)
    case Str(s) => CanonStr(s)
    case Arr(items) => CanonArr(CanonItems(items, exact))
    case Obj(members) => CanonObj(Fields(members, exact))
  }

  function CanonItems(items: seq<Value>, exact: bool): (r: seq<Canon>)
    ensures |r| == |items|
    decreases items
  {
    if items == [] then [] else [CanonOf(items[0], exact)] + CanonItems(items[1..], exact)
  }

  /** The first member of a name is the one that counts. */
  function Fields(members: seq<Member>, exact: bool): map<Text, Canon>
    decreases members
  {
    if members == [] then map[]
    else Fields(members[1..], exact)[KeyOf(members[0].key, exact) := CanonOf(members[0].value, exact)]
  }

  /** No two different numbers of the domain are compared equal. */
  ghost predicate Spaced(domain: iset<real>) {
    forall a, b :: a in domain && b in domain && CompareDouble(a, b) ==> a == b
  }

  /** From this number on doubles are whole. */
  const TWO52: real := 4503599627370496.0

  ghost const WHOLE_NUMBERS: iset<real> := iset d: real | d.Floor as real == d && Abs(d) < TWO52

  /** Members of one object that share a name have equal values, throughout. */
  predicate Consistent(v: Value, exact: bool)
    decreases v
  {
    match v
    case Arr(items) => forall i :: 0 <= i < |items| ==> Consistent(items[i], exact)
    case Obj(members) =>
      && (forall i :: 0 <= i < |members| ==> Consistent(members[i].value, exact))
      && (forall i, j :: 0 <= i < j < |members| && KeyOf(members[i].key, exact) == KeyOf(members[j].key, exact) ==>
            CanonOf(members[i].value, exact) == CanonOf(members[j].value, exact))
    case _ => true
  }

  /** No item of one tree is an item of the other. */
  ghost predicate Apart(a: Item, b: Item)
    decreases a
  {
    a.id != b.id && forall i, j :: 0 <= i < |a.child| && 0 <= j < |b.child| ==> Apart(a.child[i], b.child[j])
  }

  lemma {:induction false} ApartBothWays(a: Item, b: Item)
    requires Apart(a, b)
    ensures Apart(b, a)
    decreases a
  {
    forall i, j | 0 <= i < |b.child| && 0 <= j < |a.child| ensures Apart(b.child[i], a.child[j]) {
      ApartBothWays(a.child[j], b.child[i]);
    }
  }

  // ----- Numbers

  lemma {:induction false} EqualNumbersCompareEqual(a: real)
    ensures CompareDouble(a, a)
  {
    assert 0.0 <= Abs(a) * EPSILON;
  }

  /** Whole numbers are told apart up to this bound, and no further. */
  lemma {:induction false} WholeNumbersAreSpaced()
    ensures Spaced(WHOLE_NUMBERS)
    ensures CompareDouble(TWO52, TWO52 - 1.0)
  {
    forall a, b | a in WHOLE_NUMBERS && b in WHOLE_NUMBERS && CompareDouble(a, b) ensures a == b {
      if a != b {
        WholeNumbersDiffer(a, b);
      }
    }
  }

  lemma {:induction false} WholeNumbersDiffer(a: real, b: real)
    requires a.Floor as real == a && b.Floor as real == b && a != b && Abs(a) < TWO52 && Abs(b) < TWO52
    ensures !CompareDouble(a, b)
  {
    assert a.Floor != b.Floor;
    assert Abs(a - b) >= 1.0;
  }

  /** Comparing within an epsilon is not transitive. */
  lemma {:induction false} NearNumbersCompareEqual()
    ensures CompareDouble(1.0, 1.0 + EPSILON) && CompareDouble(1.0 + EPSILON, 1.0 + 2.0 * EPSILON)
    ensures !CompareDouble(1.0, 1.0 + 2.0 * EPSILON) && !Spaced(iset{1.0, 1.0 + EPSILON})
  {
    assert 1.0 in iset{1.0, 1.0 + EPSILON} && 1.0 + EPSILON in iset{1.0, 1.0 + EPSILON};
  }

  // ----- Names

  /** The first member of a name. */
  function First(members: seq<Member>, key: Text, exact: bool): (r: Option<nat>)
    ensures r.Some? ==> r.value < |members| && KeyOf(members[r.value].key, exact) == key
    ensures r.Some? ==> key in Fields(members, exact) && Fields(members, exact)[key] == CanonOf(members[r.value].value, exact)
    ensures r.None? ==> key !in Fields(members, exact)
  {
    if members == [] then None
    else if KeyOf(members[0].key, exact) == key then Some(0)
    else
      match First(members[1..], key, exact)
      case None => None
      case Some(j) => Some(j + 1)
  }

  lemma {:induction false} FindIsFirst(children: seq<Item>, members: seq<Member>, name: Text, exact: bool)
    requires RepresentMembers(children, members)
    ensures Find(children, Some(name), exact) == First(members, KeyOf(name, exact), exact)
    decreases |members|
  {
    if members != [] {
      assert RepresentsMember(children[0], members[0]);
      assert RepresentMembers(children[1..], members[1..]);
      FindIsFirst(children[1..], members[1..], name, exact);
    }
  }

  lemma {:induction false} OwnNameIsFound(members: seq<Member>, i: nat, exact: bool)
    requires i < |members|
    ensures KeyOf(members[i].key, exact) in Fields(members, exact)
  {
    if i > 0 {
      OwnNameIsFound(members[1..], i - 1, exact);
    }
  }

  lemma {:induction false} FirstIsFirst(ms: seq<Member>, i: nat, exact: bool)
    requires i < |ms|
    ensures var j := First(ms, KeyOf(ms[i].key, exact), exact); j.Some? && j.value <= i
  {
    if i > 0 {
      FirstIsFirst(ms[1..], i - 1, exact);
    }
  }

  // ----- The relation on values

  /**
   * Numbers lie within an epsilon, arrays agree item by item, and every member of either object agrees with its first namesake
   * in the other one.
   */
  predicate Alike(v: Value, w: Value, exact: bool)
    decreases v
  {
    match v
    case Number(d) => w.Number? && CompareDouble(d, w.d)
    case Arr(items) => w.Arr? && |items| == |w.items| && forall i :: 0 <= i < |items| ==> Alike(items[i], w.items[i], exact)
    case Obj(xs) => w.Obj? && MembersAlike(xs, w.members, exact)
    case _ => v == w
  }

  predicate MembersAlike(xs: seq<Member>, ms: seq<Member>, exact: bool)
    decreases xs
  {
    && (forall i :: 0 <= i < |xs| ==>
          var j := First(ms, KeyOf(xs[i].key, exact), exact);
          j.Some? && Alike(xs[i].value, ms[j.value].value, exact))
    && (forall j :: 0 <= j < |ms| ==>
          var i := First(xs, KeyOf(ms[j].key, exact), exact);
          i.Some? && Alike(xs[i.value].value, ms[j].value, exact))
  }

  lemma {:induction false} CoveredMeans(s: seq<Item>, t: seq<Item>, exact: bool)
    ensures Covered(s, t, exact) <==>
            forall i :: 0 <= i < |s| ==>
              var j := Find(t, TextIn(s[i].key), exact);
              j.Some? && Same(s[i], t[j.value], exact)
  {
    hide Same, Find;
    if s != [] {
      CoveredMeans(s[1..], t, exact);
      forall i | 0 < i < |s| ensures s[1..][i - 1] == s[i] {
      }
    }
  }

  lemma {:induction false} SameItemsMeans(s: seq<Item>, t: seq<Item>, exact: bool)
    ensures SameItems(s, t, exact) <==> |s| == |t| && forall i :: 0 <= i < |s| ==> Same(s[i], t[i], exact)
  {
    hide Same;
    if s != [] && t != [] {
      SameItemsMeans(s[1..], t[1..], exact);
      forall i | 0 < i < |s| ensures s[1..][i - 1] == s[i] {
      }
      forall i | 0 < i < |t| ensures t[1..][i - 1] == t[i] {
      }
    }
  }

  /** Two trees with nothing in common are compared equal exactly when they stand for values that are alike. */
  lemma {:induction false} CompareDecides(a: Item, b: Item, v: Value, w: Value, exact: bool)
    requires Represents(a, v) && Represents(b, w) && Apart(a, b)
    ensures Same(a, b, exact) <==> Alike(v, w, exact)
    decreases v
  {
    hide Covered, SameItems, CompareDouble, MembersAlike;
    if a.kind == b.kind {
      match v
      case Arr(items) =>
        SameItemsMeans(a.child, b.child, exact);
        forall i | 0 <= i < |items| && i < |w.items| ensures Same(a.child[i], b.child[i], exact) <==> Alike(items[i], w.items[i], exact) {
          CompareDecides(a.child[i], b.child[i], items[i], w.items[i], exact);
        }
      case Obj(members) =>
        CoveredIsAlike(a.child, b.child, members, w.members, exact);
      case _ =>
    }
  }

  lemma {:induction false} CoveredIsAlike(s: seq<Item>, t: seq<Item>, xs: seq<Member>, ms: seq<Member>, exact: bool)
    requires RepresentMembers(s, xs) && RepresentMembers(t, ms)
    requires forall i, j :: 0 <= i < |s| && 0 <= j < |t| ==> Apart(s[i], t[j])
    ensures Covered(s, t, exact) && Covered(t, s, exact) <==> MembersAlike(xs, ms, exact)
    decreases xs
  {
    hide Same, Find, First, Alike, Represents, KeyOf, Apart, Covered;
    CoveredMeans(s, t, exact);
    CoveredMeans(t, s, exact);
    forall i, j | 0 <= i < |s| && 0 <= j < |t|
      ensures Same(s[i], t[j], exact) == Same(t[j], s[i], exact) == Alike(xs[i].value, ms[j].value, exact)
    {
      assert RepresentsMember(s[i], xs[i]) && RepresentsMember(t[j], ms[j]);
      CompareDecides(s[i], t[j], xs[i].value, ms[j].value, exact);
      CompareIsSymmetric(s[i], t[j], exact);
    }
    forall i | 0 <= i < |s| ensures Find(t, TextIn(s[i].key), exact) == First(ms, KeyOf(xs[i].key, exact), exact) {
      assert RepresentsMember(s[i], xs[i]);
      FindIsFirst(t, ms, xs[i].key, exact);
    }
    forall j | 0 <= j < |t| ensures Find(s, TextIn(t[j].key), exact) == First(xs, KeyOf(ms[j].key, exact), exact) {
      assert RepresentsMember(t[j], ms[j]);
      FindIsFirst(s, xs, ms[j].key, exact);
    }
  }

  /** Comparing does not depend on the order of the two trees, whatever they hold. */
  lemma {:induction false} CompareIsSymmetric(a: Item, b: Item, exact: bool)
    ensures Same(a, b, exact) == Same(b, a, exact)
    decreases Size(a) + Size(b), 0
  {
    if a.kind == b.kind == ArrayKind {
      SameItemsBothWays(a.child, b.child, exact);
    }
  }

  lemma {:induction false} SameItemsBothWays(s: seq<Item>, t: seq<Item>, exact: bool)
    ensures SameItems(s, t, exact) == SameItems(t, s, exact)
    decreases SizeAll(s) + SizeAll(t), 1
  {
    if s != [] && t != [] {
      CompareIsSymmetric(s[0], t[0], exact);
      SameItemsBothWays(s[1..], t[1..], exact);
    }
  }

  lemma {:induction false} AlikeIsSymmetric(v: Value, w: Value, exact: bool)
    ensures Alike(v, w, exact) == Alike(w, v, exact)
    decreases v
  {
    hide MembersAlike;
    match v
    case Arr(items) =>
      if w.Arr? && |items| == |w.items| {
        forall i | 0 <= i < |items| ensures Alike(items[i], w.items[i], exact) == Alike(w.items[i], items[i], exact) {
          AlikeIsSymmetric(items[i], w.items[i], exact);
        }
      }
    case Obj(members) =>
      if w.Obj? {
        MembersAlikeBothWays(members, w.members, exact);
      }
    case _ =>
  }

  lemma {:induction false} MembersAlikeBothWays(xs: seq<Member>, ms: seq<Member>, exact: bool)
    ensures MembersAlike(xs, ms, exact) == MembersAlike(ms, xs, exact)
    decreases xs
  {
    hide First, KeyOf, Alike;
    forall i, j | 0 <= i < |xs| && 0 <= j < |ms|
      ensures Alike(xs[i].value, ms[j].value, exact) == Alike(ms[j].value, xs[i].value, exact)
    {
      AlikeIsSymmetric(xs[i].value, ms[j].value, exact);
    }
  }

  // ----- Transitivity

  ghost predicate TransitiveOn(domain: iset<real>) {
    forall a, b, c :: a in domain && b in domain && c in domain && CompareDouble(a, b) && CompareDouble(b, c) ==> CompareDouble(a, c)
  }

  lemma {:induction false} AlikeIsTransitive(u: Value, v: Value, w: Value, exact: bool, domain: iset<real>)
    requires TransitiveOn(domain) && NumbersIn(u, domain) && NumbersIn(v, domain) && NumbersIn(w, domain)
    requires Alike(u, v, exact) && Alike(v, w, exact)
    ensures Alike(u, w, exact)
    decreases u
  {
    hide First, KeyOf, CompareDouble;
    match u
    case Arr(items) =>
      forall i | 0 <= i < |items| ensures Alike(items[i], w.items[i], exact) {
        AlikeIsTransitive(items[i], v.items[i], w.items[i], exact, domain);
      }
    case Obj(members) =>
      MembersAlikeIsTransitive(members, v.members, w.members, exact, domain);
    case _ =>
  }

  lemma {:induction false} MembersAlikeIsTransitive(xs: seq<Member>, ys: seq<Member>, zs: seq<Member>, exact: bool, domain: iset<real>)
    requires TransitiveOn(domain)
    requires forall i :: 0 <= i < |xs| ==> NumbersIn(xs[i].value, domain)
    requires forall i :: 0 <= i < |ys| ==> NumbersIn(ys[i].value, domain)
    requires forall i :: 0 <= i < |zs| ==> NumbersIn(zs[i].value, domain)
    requires MembersAlike(xs, ys, exact) && MembersAlike(ys, zs, exact)
    ensures MembersAlike(xs, zs, exact)
    decreases xs
  {
    hide First, KeyOf, Alike, TransitiveOn, NumbersIn;
    forall i | 0 <= i < |xs|
      ensures var k := First(zs, KeyOf(xs[i].key, exact), exact); k.Some? && Alike(xs[i].value, zs[k.value].value, exact)
    {
      var j := First(ys, KeyOf(xs[i].key, exact), exact).value;
      var k := First(zs, KeyOf(ys[j].key, exact), exact).value;
      AlikeIsTransitive(xs[i].value, ys[j].value, zs[k].value, exact, domain);
    }
    forall k | 0 <= k < |zs|
      ensures var i := First(xs, KeyOf(zs[k].key, exact), exact); i.Some? && Alike(xs[i.value].value, zs[k].value, exact)
    {
      var j := First(ys, KeyOf(zs[k].key, exact), exact).value;
      var i := First(xs, KeyOf(ys[j].key, exact), exact).value;
      AlikeIsTransitive(xs[i].value, ys[j].value, zs[k].value, exact, domain);
    }
  }

  /** Of three values with numbers of the domain the outer ones are alike when both are alike to the middle one. */
  ghost predicate ValuesTransitiveOn(domain: iset<real>, exact: bool) {
    forall u, v, w | NumbersIn(u, domain) && NumbersIn(v, domain) && NumbersIn(w, domain) ::
      Alike(u, v, exact) && Alike(v, w, exact) ==> Alike(u, w, exact)
  }

  /** That is so exactly when comparing the numbers of the domain is transitive. */
  lemma {:induction false} TransitiveExactly(domain: iset<real>, exact: bool)
    ensures TransitiveOn(domain) <==> ValuesTransitiveOn(domain, exact)
  {
    if TransitiveOn(domain) {
      hide TransitiveOn, NumbersIn, Alike;
      forall u, v, w | NumbersIn(u, domain) && NumbersIn(v, domain) && NumbersIn(w, domain) && Alike(u, v, exact) && Alike(v, w, exact)
        ensures Alike(u, w, exact)
      {
        AlikeIsTransitive(u, v, w, exact, domain);
      }
    } else {
      var a, b, c :| a in domain && b in domain && c in domain && CompareDouble(a, b) && CompareDouble(b, c) && !CompareDouble(a, c);
      assert NumbersIn(Number(a), domain) && NumbersIn(Number(b), domain) && NumbersIn(Number(c), domain);
      assert Alike(Number(a), Number(b), exact) && Alike(Number(b), Number(c), exact) && !Alike(Number(a), Number(c), exact);
    }
  }

  /** Comparing trees of which no two have an item in common is transitive, if comparing their numbers is. */
  lemma {:induction false} CompareIsTransitive(a: Item, b: Item, c: Item, u: Value, v: Value, w: Value, exact: bool, domain: iset<real>)
    requires Represents(a, u) && Represents(b, v) && Represents(c, w)
    requires TransitiveOn(domain) && NumbersIn(u, domain) && NumbersIn(v, domain) && NumbersIn(w, domain)
    requires Apart(a, b) && Apart(b, c) && Apart(a, c)
    ensures Same(a, b, exact) && Same(b, c, exact) ==> Same(a, c, exact)
  {
    hide *;
    CompareDecides(a, b, u, v, exact);
    CompareDecides(b, c, v, w, exact);
    CompareDecides(a, c, u, w, exact);
    if Same(a, b, exact) && Same(b, c, exact) {
      AlikeIsTransitive(u, v, w, exact, domain);
    }
  }

  // ----- One walk over an object, on values read as maps

  /** `x` is equal to its first namesake among `members`. */
  predicate Matched(x: Member, members: seq<Member>, exact: bool) {
    var j := First(members, KeyOf(x.key, exact), exact);
    && j.Some?
    && Consistent(x.value, exact)
    && Consistent(members[j.value].value, exact)
    && CanonOf(x.value, exact) == CanonOf(members[j.value].value, exact)
  }

  predicate AllMatched(xs: seq<Member>, members: seq<Member>, exact: bool) {
    forall i :: 0 <= i < |xs| ==> Matched(xs[i], members, exact)
  }

  lemma {:induction false} MatchedMeans(xs: seq<Member>, ms: seq<Member>, i: nat, exact: bool)
    requires i < |xs| && AllMatched(xs, ms, exact)
    ensures var k := KeyOf(xs[i].key, exact);
            k in Fields(ms, exact) && Fields(ms, exact)[k] == CanonOf(xs[i].value, exact) && Consistent(xs[i].value, exact)
  {
    assert Matched(xs[i], ms, exact);
  }

  lemma {:induction false} MatchedIsConsistent(xs: seq<Member>, ms: seq<Member>, exact: bool)
    requires AllMatched(xs, ms, exact)
    ensures Consistent(Obj(xs), exact)
    ensures forall k :: k in Fields(xs, exact) ==> k in Fields(ms, exact) && Fields(ms, exact)[k] == Fields(xs, exact)[k]
  {
    hide First, Fields, KeyOf, AllMatched;
    forall i | 0 <= i < |xs| ensures Consistent(xs[i].value, exact) {
      MatchedMeans(xs, ms, i, exact);
    }
    forall i, j | 0 <= i < j < |xs| && KeyOf(xs[i].key, exact) == KeyOf(xs[j].key, exact)
      ensures CanonOf(xs[i].value, exact) == CanonOf(xs[j].value, exact)
    {
      MatchedMeans(xs, ms, i, exact);
      MatchedMeans(xs, ms, j, exact);
    }
    forall k | k in Fields(xs, exact) ensures k in Fields(ms, exact) && Fields(ms, exact)[k] == Fields(xs, exact)[k] {
      var i := First(xs, k, exact).value;
      MatchedMeans(xs, ms, i, exact);
    }
  }

  /** In a consistent object the first member of a name stands for all. */
  lemma {:induction false} ConsistentFirst(ms: seq<Member>, i: nat, exact: bool)
    requires i < |ms| && Consistent(Obj(ms), exact)
    ensures var k := KeyOf(ms[i].key, exact); k in Fields(ms, exact) && Fields(ms, exact)[k] == CanonOf(ms[i].value, exact)
  {
    hide Fields, KeyOf, CanonOf;
    var k := KeyOf(ms[i].key, exact);
    OwnNameIsFound(ms, i, exact);
    var j := First(ms, k, exact).value;
    FirstIsFirst(ms, i, exact);
  }

  lemma {:induction false} EqualIsMatched(xs: seq<Member>, ms: seq<Member>, exact: bool)
    requires Consistent(Obj(xs), exact) && Consistent(Obj(ms), exact) && Fields(xs, exact) == Fields(ms, exact)
    ensures AllMatched(xs, ms, exact)
  {
    forall i | 0 <= i < |xs| ensures Matched(xs[i], ms, exact) {
      hide Fields, KeyOf, CanonOf;
      ConsistentFirst(xs, i, exact);
      var j := First(ms, KeyOf(xs[i].key, exact), exact);
    }
  }

  lemma {:induction false} BothMatchedIsEqual(xs: seq<Member>, ms: seq<Member>, exact: bool)
    ensures AllMatched(xs, ms, exact) && AllMatched(ms, xs, exact) <==>
            Consistent(Obj(xs), exact) && Consistent(Obj(ms), exact) && Fields(xs, exact) == Fields(ms, exact)
  {
    hide Fields, AllMatched, Consistent;
    if AllMatched(xs, ms, exact) && AllMatched(ms, xs, exact) {
      MatchedIsConsistent(xs, ms, exact);
      MatchedIsConsistent(ms, xs, exact);
    }
    if Consistent(Obj(xs), exact) && Consistent(Obj(ms), exact) && Fields(xs, exact) == Fields(ms, exact) {
      EqualIsMatched(xs, ms, exact);
      EqualIsMatched(ms, xs, exact);
    }
  }

  // ----- Equality

  /** With objects read as maps the values are the same, and in neither does an object give one name two different values. */
  predicate EqualAsMaps(v: Value, w: Value, exact: bool) {
    Consistent(v, exact) && Consistent(w, exact) && CanonOf(v, exact) == CanonOf(w, exact)
  }

  lemma {:induction false} ItemsAreEqual(vs: seq<Value>, ws: seq<Value>, exact: bool)
    ensures EqualAsMaps(Arr(vs), Arr(ws), exact) <==>
            |vs| == |ws| && forall i :: 0 <= i < |vs| ==> EqualAsMaps(vs[i], ws[i], exact)
  {
    hide Consistent, CanonOf;
    forall i | 0 <= i < |vs| ensures CanonItems(vs, exact)[i] == CanonOf(vs[i], exact) {
      CanonItem(vs, i, exact);
    }
    forall i | 0 <= i < |ws| ensures CanonItems(ws, exact)[i] == CanonOf(ws[i], exact) {
      CanonItem(ws, i, exact);
    }
    ArrayMeans(vs, exact);
    ArrayMeans(ws, exact);
  }

  lemma {:induction false} CanonItem(vs: seq<Value>, i: nat, exact: bool)
    requires i < |vs|
    ensures CanonItems(vs, exact)[i] == CanonOf(vs[i], exact)
  {
    hide CanonOf;
    if i > 0 {
      CanonItem(vs[1..], i - 1, exact);
    }
  }

  lemma {:induction false} ArrayMeans(vs: seq<Value>, exact: bool)
    ensures Consistent(Arr(vs), exact) <==> forall i :: 0 <= i < |vs| ==> Consistent(vs[i], exact)
    ensures CanonOf(Arr(vs), exact) == CanonArr(CanonItems(vs, exact))
  {
    hide CanonItems;
  }

  lemma {:induction false} MembersAreEqual(xs: seq<Member>, ms: seq<Member>, exact: bool)
    ensures EqualAsMaps(Obj(xs), Obj(ms), exact) <==> AllMatched(xs, ms, exact) && AllMatched(ms, xs, exact)
  {
    hide Fields, Consistent, AllMatched;
    BothMatchedIsEqual(xs, ms, exact);
  }

  /** Equal values are alike, whatever their numbers. */
  lemma {:induction false} EqualIsAlike(v: Value, w: Value, exact: bool)
    requires EqualAsMaps(v, w, exact)
    ensures Alike(v, w, exact)
    decreases v
  {
    hide First, KeyOf, CanonItems, Fields, CompareDouble;
    match v
    case Number(d) => EqualNumbersCompareEqual(d);
    case Arr(items) =>
      ItemsAreEqual(items, w.items, exact);
      forall i | 0 <= i < |items| ensures Alike(items[i], w.items[i], exact) {
        EqualIsAlike(items[i], w.items[i], exact);
      }
    case Obj(members) =>
      MembersAreEqual(members, w.members, exact);
      MatchedIsAlike(members, w.members, exact);
    case _ =>
  }

  lemma {:induction false} MatchedIsAlike(xs: seq<Member>, ms: seq<Member>, exact: bool)
    requires AllMatched(xs, ms, exact) && AllMatched(ms, xs, exact)
    ensures MembersAlike(xs, ms, exact)
    decreases xs
  {
    hide First, KeyOf, Alike, Consistent, CanonOf;
    forall i | 0 <= i < |xs|
      ensures var j := First(ms, KeyOf(xs[i].key, exact), exact); j.Some? && Alike(xs[i].value, ms[j.value].value, exact)
    {
      assert Matched(xs[i], ms, exact);
      EqualIsAlike(xs[i].value, ms[First(ms, KeyOf(xs[i].key, exact), exact).value].value, exact);
    }
    forall j | 0 <= j < |ms|
      ensures var i := First(xs, KeyOf(ms[j].key, exact), exact); i.Some? && Alike(xs[i.value].value, ms[j].value, exact)
    {
      assert Matched(ms[j], xs, exact);
      EqualIsAlike(xs[First(xs, KeyOf(ms[j].key, exact), exact).value].value, ms[j].value, exact);
    }
  }

  /** Values with numbers that are told apart are alike only if they are equal. */
  lemma {:induction false} AlikeIsEqual(v: Value, w: Value, exact: bool, domain: iset<real>)
    requires Spaced(domain) && NumbersIn(v, domain) && NumbersIn(w, domain) && Alike(v, w, exact)
    ensures EqualAsMaps(v, w, exact)
    decreases v
  {
    hide First, KeyOf, CanonItems, Fields, CompareDouble;
    match v
    case Arr(items) =>
      ItemsAreEqual(items, w.items, exact);
      forall i | 0 <= i < |items| ensures EqualAsMaps(items[i], w.items[i], exact) {
        AlikeIsEqual(items[i], w.items[i], exact, domain);
      }
    case Obj(members) =>
      MembersAreEqual(members, w.members, exact);
      AlikeIsMatched(members, w.members, exact, domain);
    case _ =>
  }

  lemma {:induction false} AlikeIsMatched(xs: seq<Member>, ms: seq<Member>, exact: bool, domain: iset<real>)
    requires Spaced(domain) && MembersAlike(xs, ms, exact)
    requires forall i :: 0 <= i < |xs| ==> NumbersIn(xs[i].value, domain)
    requires forall i :: 0 <= i < |ms| ==> NumbersIn(ms[i].value, domain)
    ensures AllMatched(xs, ms, exact) && AllMatched(ms, xs, exact)
    decreases xs
  {
    hide First, KeyOf, Alike, Consistent, CanonOf, Spaced, NumbersIn;
    forall i | 0 <= i < |xs| ensures Matched(xs[i], ms, exact) {
      AlikeIsEqual(xs[i].value, ms[First(ms, KeyOf(xs[i].key, exact), exact).value].value, exact, domain);
    }
    forall j | 0 <= j < |ms| ensures Matched(ms[j], xs, exact) {
      AlikeIsEqual(xs[First(xs, KeyOf(ms[j].key, exact), exact).value].value, ms[j].value, exact, domain);
    }
  }

  /** On the values with numbers of a domain, alike means equal exactly when no two different numbers compare equal. */
  lemma {:induction false} EqualExactly(domain: iset<real>, exact: bool)
    ensures Spaced(domain) <==>
            forall v, w :: NumbersIn(v, domain) && NumbersIn(w, domain) ==> (Alike(v, w, exact) <==> EqualAsMaps(v, w, exact))
  {
    if Spaced(domain) {
      hide Alike, EqualAsMaps, Spaced, NumbersIn;
      forall v, w | NumbersIn(v, domain) && NumbersIn(w, domain) ensures Alike(v, w, exact) <==> EqualAsMaps(v, w, exact) {
        if Alike(v, w, exact) {
          AlikeIsEqual(v, w, exact, domain);
        }
        if EqualAsMaps(v, w, exact) {
          EqualIsAlike(v, w, exact);
        }
      }
    } else {
      var a, b :| a in domain && b in domain && CompareDouble(a, b) && a != b;
      assert NumbersIn(Number(a), domain) && NumbersIn(Number(b), domain);
      assert Alike(Number(a), Number(b), exact) && CanonOf(Number(a), exact) != CanonOf(Number(b), exact);
    }
  }

  // ----- Copies

  /** Every member of an object is alike to its first namesake in it, throughout. */
  predicate Settled(v: Value, exact: bool)
    decreases v
  {
    match v
    case Arr(items) => forall i :: 0 <= i < |items| ==> Settled(items[i], exact)
    case Obj(members) =>
      forall i :: 0 <= i < |members| ==>
        var j := First(members, KeyOf(members[i].key, exact), exact);
        j.Some? && if j.value == i then Settled(members[i].value, exact) else Alike(members[i].value, members[j.value].value, exact)
    case _ => true
  }

  lemma {:induction false} SettledIsAlike(v: Value, exact: bool)
    ensures Settled(v, exact) <==> Alike(v, v, exact)
    decreases v
  {
    hide First, KeyOf, CompareDouble;
    match v
    case Number(d) => EqualNumbersCompareEqual(d);
    case Arr(items) =>
      forall i | 0 <= i < |items| ensures Settled(items[i], exact) <==> Alike(items[i], items[i], exact) {
        SettledIsAlike(items[i], exact);
      }
    case Obj(members) =>
      forall i | 0 <= i < |members| ensures Settled(members[i].value, exact) <==> Alike(members[i].value, members[i].value, exact) {
        SettledIsAlike(members[i].value, exact);
      }
      forall i, j | 0 <= i < |members| && 0 <= j < |members|
        ensures Alike(members[i].value, members[j].value, exact) == Alike(members[j].value, members[i].value, exact)
      {
        AlikeIsSymmetric(members[i].value, members[j].value, exact);
      }
    case _ =>
  }

  /**
   * A recursive duplicate is compared equal to its original exactly when every member of an object in it compares equal to its
   * first namesake, whatever the numbers; so it always is when all names of an object differ, or namesakes have one value.
   */
  lemma {:induction false} DuplicateComparesEqual(item: Item, copy: Item, v: Value, exact: bool)
    requires Represents(item, v) && Copies(copy, item, true) && Apart(item, copy)
    ensures Same(item, copy, exact) <==> Settled(v, exact)
    ensures NamesDiffer(v, exact) || Consistent(v, exact) ==> Same(item, copy, exact)
  {
    hide Same, Alike, Settled, Represents, Copies, Apart, NamesDiffer, Consistent, CanonOf;
    CopiesRepresent(copy, item, v);
    CompareDecides(item, copy, v, v, exact);
    SettledIsAlike(v, exact);
    if NamesDiffer(v, exact) {
      DifferentNamesAreSettled(v, exact);
    }
    if Consistent(v, exact) {
      EqualIsAlike(v, v, exact);
    }
  }

  /** With numbers that are told apart that is so exactly when no object gives one name two different values. */
  lemma {:induction false} SettledIsConsistent(v: Value, exact: bool, domain: iset<real>)
    requires Spaced(domain) && NumbersIn(v, domain)
    ensures Settled(v, exact) <==> Consistent(v, exact)
  {
    hide Alike, Settled, Spaced, NumbersIn, Consistent, CanonOf;
    SettledIsAlike(v, exact);
    if Settled(v, exact) {
      AlikeIsEqual(v, v, exact, domain);
    }
    if Consistent(v, exact) {
      EqualIsAlike(v, v, exact);
    }
  }

  /** No object has two members of one name. */
  predicate NamesDiffer(v: Value, exact: bool)
    decreases v
  {
    match v
    case Arr(items) => forall i :: 0 <= i < |items| ==> NamesDiffer(items[i], exact)
    case Obj(members) =>
      && (forall i :: 0 <= i < |members| ==> NamesDiffer(members[i].value, exact))
      && (forall i, j :: 0 <= i < j < |members| ==> KeyOf(members[i].key, exact) != KeyOf(members[j].key, exact))
    case _ => true
  }

  lemma {:induction false} DifferentNamesAreSettled(v: Value, exact: bool)
    requires NamesDiffer(v, exact)
    ensures Settled(v, exact)
    decreases v
  {
    hide First, KeyOf, Alike;
    match v
    case Arr(items) =>
      forall i | 0 <= i < |items| ensures Settled(items[i], exact) {
        DifferentNamesAreSettled(items[i], exact);
      }
    case Obj(members) =>
      forall i | 0 <= i < |members|
        ensures First(members, KeyOf(members[i].key, exact), exact) == Some(i) && Settled(members[i].value, exact)
      {
        FirstIsFirst(members, i, exact);
        DifferentNamesAreSettled(members[i].value, exact);
      }
    case _ =>
  }

  /** The object {"a":1,"a":2} is not equal to its own duplicate. */
  lemma {:induction false} ClashingNamesDiffer(item: Item, copy: Item, exact: bool)
    requires Represents(item, Obj([Member([0x61], Number(1.0)), Member([0x61], Number(2.0))]))
    requires Copies(copy, item, true) && Apart(item, copy)
    ensures !Same(item, copy, exact)
  {
    DuplicateComparesEqual(item, copy, Obj([Member([0x61], Number(1.0)), Member([0x61], Number(2.0))]), exact);
    TwoNamesakes(1.0, 2.0, exact);
    WholeNumbersDiffer(1.0, 2.0);
  }

  lemma {:induction false} TwoNamesakes(d: real, e: real, exact: bool)
    ensures var v := Obj([Member([0x61], Number(d)), Member([0x61], Number(e))]);
            (Settled(v, exact) <==> CompareDouble(e, d)) && (Consistent(v, exact) ==> d == e)
  {
    var members := [Member([0x61], Number(d)), Member([0x61], Number(e))];
    hide KeyOf, CompareDouble;
    assert members[0].key == members[1].key;
    assert First(members, KeyOf(members[0].key, exact), exact) == Some(0);
    assert CanonOf(members[0].value, exact) == CanonNumber(d) && CanonOf(members[1].value, exact) == CanonNumber(e);
  }

  /** {"a":1,"a":1+EPSILON} is equal to its duplicate, although it gives one name two different values. */
  lemma {:induction false} NearNamesakesCompareEqual(item: Item, copy: Item, exact: bool)
    requires Represents(item, Obj([Member([0x61], Number(1.0)), Member([0x61], Number(1.0 + EPSILON))]))
    requires Copies(copy, item, true) && Apart(item, copy)
    ensures Same(item, copy, exact) && !Consistent(Obj([Member([0x61], Number(1.0)), Member([0x61], Number(1.0 + EPSILON))]), exact)
  {
    DuplicateComparesEqual(item, copy, Obj([Member([0x61], Number(1.0)), Member([0x61], Number(1.0 + EPSILON))]), exact);
    TwoNamesakes(1.0, 1.0 + EPSILON, exact);
    assert CompareDouble(1.0 + EPSILON, 1.0);
  }

  /** No item of the tree borrows its content. */
  predicate OwnsAll(item: Item)
    decreases item
  {
    !item.isReference && forall i :: 0 <= i < |item.child| ==> OwnsAll(item.child[i])
  }

  lemma {:induction false} ChildIsOwned(items: seq<Item>, i: nat)
    requires i < |items|
    ensures Owned(items[i]) <= OwnedAll(items)
  {
    if i > 0 {
      ChildIsOwned(items[1..], i - 1);
    }
  }

  lemma {:induction false} PartIsOwned(item: Item, i: nat)
    requires OwnsAll(item) && i < |item.child|
    ensures Owned(item.child[i]) <= Owned(item)
  {
    ChildIsOwned(item.child, i);
  }

  /** Trees that own different blocks have no item in common. */
  lemma {:induction false} OwnersAreApart(a: Item, b: Item)
    requires OwnsAll(a) && OwnsAll(b) && Owned(a) !! Owned(b)
    ensures Apart(a, b)
    decreases a
  {
    assert a.id in Owned(a) && b.id in Owned(b);
    hide Owned;
    forall i, j | 0 <= i < |a.child| && 0 <= j < |b.child| ensures Apart(a.child[i], b.child[j]) {
      PartIsOwned(a, i);
      PartIsOwned(b, j);
      OwnersAreApart(a.child[i], b.child[j]);
    }
  }

  lemma {:induction false} CopyOwnsAll(copy: Item, item: Item)
    requires Copies(copy, item, true)
    ensures OwnsAll(copy)
    decreases item
  {
    forall i | 0 <= i < |copy.child| ensures OwnsAll(copy.child[i]) {
      CopyOwnsAll(copy.child[i], item.child[i]);
    }
  }

  lemma {:induction false} LiveOnce(live: multiset<nat>, rest: multiset<nat>, a: multiset<nat>, b: multiset<nat>)
    requires live == (rest + a) + b && forall x :: x in live ==> live[x] == 1
    ensures a !! b
  {
    forall x ensures x !in a || x !in b {
      assert live[x] == rest[x] + a[x] + b[x];
    }
  }

  /** Duplicating a tree and comparing the two: the allocator itself sees to it that they have nothing in common. */
  method DuplicateThenCompare(item: Item, ghost v: Value, exact: bool, hooks: Allocator, ghost rest: multiset<nat>)
    returns (copy: Option<Item>, equal: bool)
    requires hooks.Valid() && hooks.live == rest + Owned(item)
    requires Represents(item, v) && OwnsAll(item)
    modifies hooks
    ensures copy.Some? ==> (equal <==> Settled(v, exact))
    ensures copy.None? ==> hooks.failures > old(hooks.failures)
  {
    hide Owned;
    equal := false;
    copy := Duplicate(item, true, hooks);
    if copy.Some? {
      LiveOnce(hooks.live, rest, Owned(item), Owned(copy.value));
      CopyOwnsAll(copy.value, item);
      OwnersAreApart(item, copy.value);
      DuplicateComparesEqual(item, copy.value, v, exact);
      equal := Compare(item, copy.value, exact);
    }
  }
}
