/** The JSON values that the trees of cJSON.c stand for. */
module Values {
  import opened Ascii

  const INT_MAX: int := 0x7FFF_FFFF
  const INT_MIN: int := -0x8000_0000

  /** How deeply arrays and objects may nest before the parser gives up (CJSON_NESTING_LIMIT). */
  const NESTING_LIMIT: nat := 1000

  /** A number is the `double` of the C item, read as the real it denotes. */
  datatype Value =
    | Null
    | Bool(b: bool)
    | Number(d: real)
    | Str(s: Text)
    | Arr(items: seq<Value>)
    | Obj(members: seq<Member>)

  datatype Member = Member(key: Text, value: Value)

  predicate IsInt32(d: real) {
    d == d.Floor as real && INT_MIN <= d.Floor <= INT_MAX
  }

  /** DBL_EPSILON */
  const EPSILON: real := 1.0 / 4503599627370496.0

  function Abs(x: real): real {
    if x < 0.0 then -x else x
  }

  /** compare_double */
  predicate CompareDouble(a: real, b: real) {
    Abs(a - b) <= (if Abs(a) > Abs(b) then Abs(a) else Abs(b)) * EPSILON
  }

  /** All numbers in the value are of the domain. */
  ghost predicate NumbersIn(v: Value, domain: iset<real>)
    decreases v
  {
    match v
    case Number(d) => d in domain
    case Arr(items) => forall i :: 0 <= i < |items| ==> NumbersIn(items[i], domain)
    case Obj(members) => forall i :: 0 <= i < |members| ==> NumbersIn(members[i].value, domain)
    case _ => true
  }

  /** Strings are C strings, throughout the value. */
  predicate Printable(v: Value)
    decreases v
  {
    match v
    case Null => true
    case Bool(_) => true
    case Number(_) => true
    case Str(s) => NulFree(s)
    case Arr(items) => forall i :: 0 <= i < |items| ==> Printable(items[i])
    case Obj(members) => forall i :: 0 <= i < |members| ==> NulFree(members[i].key) && Printable(members[i].value)
  }

  function Max(a: nat, b: nat): nat {
    if a < b then b else a
  }

  /** Nesting of containers: 0 for scalars, 1 for a flat array or object. */
  function Nesting(v: Value): nat
    decreases v
  {
    match v
    case Arr(items) => 1 + ItemsNesting(items)
    case Obj(members) => 1 + MembersNesting(members)
    case _ => 0
  }

  function ItemsNesting(items: seq<Value>): nat
    decreases items
  {
    if items == [] then 0 else Max(Nesting(items[0]), ItemsNesting(items[1..]))
  }

  function MembersNesting(members: seq<Member>): nat
    decreases members
  {
    if members == [] then 0 else Max(Nesting(members[0].value), MembersNesting(members[1..]))
  }
}
