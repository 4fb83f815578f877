/**
 * JavaScript values as the compiler's JSON output and the generic helpers see them:
 * own properties in `Object.getOwnPropertyNames` order, property reads, and the
 * truthiness tests the helpers branch on.
 */
module Json {
  import Numeric

  /**
   * A JavaScript value. Numbers are integers; an object lists its own properties in
   * own-property order, each name once.
   */
  datatype Value =
    | Undefined
    | Null
    | Bool(b: bool)
    | Number(n: int)
    | Str(s: string)
    | Array(items: seq<Value>)
    | Object(props: seq<(string, Value)>)

  /** JavaScript truthiness: `false`, 0, "", null and undefined are falsy. */
  predicate Truthy(v: Value) {
    match v
    case Undefined => false
    case Null => false
    case Bool(b) => b
    case Number(n) => n != 0
    case Str(s) => s != ""
    case _ => true
  }

  /** `v && typeof v === "object"`: an array or an object (null is excluded by truthiness). */
  predicate IsObjectLike(v: Value) {
    v.Array? || v.Object?
  }

  /** The property name of an array or string position: its decimal numeral. */
  function IndexKey(i: nat): string {
    Numeric.NatToString(i, 10)
  }

  /**
   * `Object.getOwnPropertyNames(v)` paired with the values: an object's properties;
   * an array's or a string's positions followed by `length`; nothing for other values.
   */
  function OwnProperties(v: Value): (r: seq<(string, Value)>)
    ensures v.Object? ==> r == v.props
    ensures v.Array? ==> |r| == |v.items| + 1 && r[|v.items|] == ("length", Number(|v.items|))
    ensures v.Array? ==> forall i :: 0 <= i < |v.items| ==> r[i] == (IndexKey(i), v.items[i])
    ensures v.Str? ==> |r| == |v.s| + 1 && r[|v.s|] == ("length", Number(|v.s|))
    ensures !v.Object? && !v.Array? && !v.Str? ==> r == []
  {
    match v
    case Object(props) => props
    case Array(items) =>
      seq(|items|, i requires 0 <= i < |items| => (IndexKey(i), items[i])) + [("length", Number(|items|))]
    case Str(s) =>
      seq(|s|, i requires 0 <= i < |s| => (IndexKey(i), Str([s[i]]))) + [("length", Number(|s|))]
    case _ => []
  }

  /** The value of the first property called `key`, or `undefined`. */
  function Lookup(props: seq<(string, Value)>, key: string): (r: Value)
    ensures (forall i :: 0 <= i < |props| ==> props[i].0 != key) ==> r == Undefined
  {
    if |props| == 0 then Undefined
    else if props[0].0 == key then props[0].1
    else Lookup(props[1..], key)
  }

  /** The value found is the one of the first property called `key`. */
  lemma {:induction false} LookupFirst(props: seq<(string, Value)>, key: string, i: nat)
    requires i < |props| && props[i].0 == key
    requires forall j :: 0 <= j < i ==> props[j].0 != key
    ensures Lookup(props, key) == props[i].1
  {
    if i > 0 {
      assert props[0].0 != key;
      assert forall j :: 0 <= j < i - 1 ==> props[1..][j] == props[j + 1];
      LookupFirst(props[1..], key, i - 1);
    }
  }

  /** `key in v` for an object or array: `v` has an own property called `key`. */
  predicate HasProperty(v: Value, key: string) {
    exists i :: 0 <= i < |OwnProperties(v)| && OwnProperties(v)[i].0 == key
  }

  /** `v[key]` on a value that is neither null nor undefined. */
  function Get(v: Value, key: string): (r: Value)
    ensures !HasProperty(v, key) ==> r == Undefined
  {
    Lookup(OwnProperties(v), key)
  }

  /** An array or object held by a property of `v` is a proper part of `v`. */
  lemma PropertyBelow(v: Value, i: nat)
    requires i < |OwnProperties(v)| && IsObjectLike(OwnProperties(v)[i].1)
    ensures OwnProperties(v)[i].1 < v
  {
    match v
    case Object(props) => assert props[i] in props;
    case Array(items) => assert items[i] in items;
    case _ =>
  }
}
