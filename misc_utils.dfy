/**
 * Generic helpers: `forAll` and `forAny` with early exit, `assert`, the recursive
 * property search `deepFindIn`, `extractProperties` and `coerceArray`.
 */
module MiscUtils {
  import opened Wrappers
  import opened Json

  /** `T | T[]`: a single value or an array of them. */
  datatype OneOrMany<T> = One(value: T) | Many(values: seq<T>)

  /** `coerceArray`: an array is returned as it is, a single value becomes a one-element array. */
  function CoerceArray<T>(doc: OneOrMany<T>): (r: seq<T>)
    ensures doc.Many? ==> r == doc.values
    ensures doc.One? ==> r == [doc.value]
  {
    match doc
    case One(v) => [v]
    case Many(vs) => vs
  }

  /**
   * `forAll`: true exactly when the callback holds for every element. `calls` counts
   * the callback invocations: the scan stops right after the first element that fails.
   */
  method ForAll<T>(s: seq<T>, cb: T -> bool) returns (r: bool, ghost calls: nat)
    ensures r <==> forall i :: 0 <= i < |s| ==> cb(s[i])
    ensures r ==> calls == |s|
    ensures !r ==> (0 < calls <= |s| && !cb(s[calls - 1]) &&
                    forall i :: 0 <= i < calls - 1 ==> cb(s[i]))
  {
    var i := 0;
    while i < |s|
      invariant 0 <= i <= |s|
      invariant forall j :: 0 <= j < i ==> cb(s[j])
    {
      if !cb(s[i]) {
        return false, i + 1;
      }
      i := i + 1;
    }
    return true, |s|;
  }

  /**
   * `forAny`: true exactly when the callback holds for some element. The scan stops
   * right after the first element that holds.
   */
  method ForAny<T>(s: seq<T>, cb: T -> bool) returns (r: bool, ghost calls: nat)
    ensures r <==> exists i :: 0 <= i < |s| && cb(s[i])
    ensures !r ==> calls == |s|
    ensures r ==> (0 < calls <= |s| && cb(s[calls - 1]) &&
                   forall i :: 0 <= i < calls - 1 ==> !cb(s[i]))
  {
    var i := 0;
    while i < |s|
      invariant 0 <= i <= |s|
      invariant forall j :: 0 <= j < i ==> !cb(s[j])
    {
      if cb(s[i]) {
        return true, i + 1;
      }
      i := i + 1;
    }
    return false, |s|;
  }

  /** `assert`: returns normally exactly when the condition holds, and fails with the message otherwise. */
  function Assert(condition: bool, message: string): (r: Outcome<string>)
    ensures r.Pass? <==> condition
    ensures r.Fail? ==> r.error == message
  {
    if condition then Pass else Fail(message)
  }

  /** `extractProperties`: the values of `obj` under `keys`, one per key and in the same order. */
  function ExtractProperties(obj: Value, keys: seq<string>): (r: seq<Value>)
    requires !obj.Null? && !obj.Undefined?
    ensures |r| == |keys|
    ensures forall i :: 0 <= i < |keys| ==> r[i] == Get(obj, keys[i])
  {
    seq(|keys|, i requires 0 <= i < |keys| => Get(obj, keys[i]))
  }

  /** Requesting the same keys in two parts gives the two parts' values one after the other. */
  lemma ExtractPropertiesAppend(obj: Value, keys1: seq<string>, keys2: seq<string>)
    requires !obj.Null? && !obj.Undefined?
    ensures ExtractProperties(obj, keys1 + keys2) == ExtractProperties(obj, keys1) + ExtractProperties(obj, keys2)
  {
    var l := ExtractProperties(obj, keys1 + keys2);
    var r := ExtractProperties(obj, keys1) + ExtractProperties(obj, keys2);
    assert forall i :: 0 <= i < |l| ==> l[i] == r[i] by {
      forall i | 0 <= i < |l| ensures l[i] == r[i] {
        if i < |keys1| {
          assert (keys1 + keys2)[i] == keys1[i];
        } else {
          assert (keys1 + keys2)[i] == keys2[i - |keys1|];
        }
      }
    }
  }

  /**
   * What a property named `matchKey` contributes: without a callback its value; with
   * one, the callback's result on the object holding it, when that result is truthy
   * or a number, and the property's value instead of a boolean result.
   */
  function MatchResult(value: Value, holder: Value, cb: Option<Value -> Value>): (r: seq<Value>)
    ensures cb.None? ==> r == [value]
    ensures cb.Some? ==> (|r| == 1 <==> Truthy(cb.value(holder)) || cb.value(holder).Number?)
    ensures cb.Some? && |r| == 1 ==> r[0] == (if cb.value(holder).Bool? then value else cb.value(holder))
    ensures |r| <= 1
  {
    match cb
    case None => [value]
    case Some(f) =>
      var ret := f(holder);
      if Truthy(ret) || ret.Number? then [if ret.Bool? then value else ret] else []
  }

  /**
   * What the `i`-th own property of `v` contributes: a match is never searched further;
   * any other array or object is searched in full, without `onlyFirst`.
   */
  function PropertyFinds(v: Value, i: nat, key: string, cb: Option<Value -> Value>): (r: seq<Value>)
    requires i < |OwnProperties(v)|
    decreases v, 0
  {
    var (name, value) := OwnProperties(v)[i];
    if name == key then MatchResult(value, v, cb)
    else if IsObjectLike(value) then
      PropertyBelow(v, i);
      ScanFrom(value, 0, key, cb, false)
    else []
  }

  /**
   * The results of the own properties of `v` from position `i` on, in order; with
   * `onlyFirst`, only the first property that contributes anything.
   */
  function ScanFrom(v: Value, i: nat, key: string, cb: Option<Value -> Value>, onlyFirst: bool): (r: seq<Value>)
    requires i <= |OwnProperties(v)|
    decreases v, 1, |OwnProperties(v)| - i
  {
    if i == |OwnProperties(v)| then []
    else
      var found := PropertyFinds(v, i, key, cb);
      if onlyFirst && |found| > 0 then found else found + ScanFrom(v, i + 1, key, cb, onlyFirst)
  }

  /** `deepFindIn(obj, matchKey, cb, onlyFirst)` as a value. */
  function DeepFind(v: Value, key: string, cb: Option<Value -> Value>, onlyFirst: bool): seq<Value> {
    ScanFrom(v, 0, key, cb, onlyFirst)
  }

  /**
   * `deepFindIn`: scans the own properties in order, collecting matches and searching
   * nested arrays and objects; with `onlyFirst` it stops once anything was collected.
   */
  method DeepFindIn(obj: Value, key: string, cb: Option<Value -> Value>, onlyFirst: bool)
      returns (result: seq<Value>)
    requires !obj.Null? && !obj.Undefined?
    ensures result == DeepFind(obj, key, cb, onlyFirst)
    decreases obj, 1
  {
    var props := OwnProperties(obj);
    result := [];
    var i := 0;
    while i < |props|
      invariant 0 <= i <= |props|
      invariant !onlyFirst ==> result + ScanFrom(obj, i, key, cb, false) == ScanFrom(obj, 0, key, cb, false)
      invariant onlyFirst ==> result == [] && ScanFrom(obj, i, key, cb, true) == ScanFrom(obj, 0, key, cb, true)
    {
      var found := FindInProperty(obj, i, key, cb);
      ScanUnfold(obj, i, key, cb, found);
      ScanStep(obj, i, key, cb, result, found);
      result := result + found;
      if onlyFirst && |result| > 0 {
        return;
      }
      i := i + 1;
    }
  }

  /** The body of the scan for the `i`-th own property: its match, or a full search below it. */
  method FindInProperty(obj: Value, i: nat, key: string, cb: Option<Value -> Value>) returns (found: seq<Value>)
    requires i < |OwnProperties(obj)|
    ensures found == PropertyFinds(obj, i, key, cb)
    decreases obj, 0
  {
    var (name, value) := OwnProperties(obj)[i];
    if name == key {
      found := MatchResult(value, obj, cb);
    } else if IsObjectLike(value) {
      PropertyBelow(obj, i);
      found := DeepFindIn(value, key, cb, false);
    } else {
      found := [];
    }
  }

  /** One step of the scan: the accumulated results followed by the rest of the scan. */
  lemma ScanStep(v: Value, i: nat, key: string, cb: Option<Value -> Value>, acc: seq<Value>, found: seq<Value>)
    requires i < |OwnProperties(v)| && found == PropertyFinds(v, i, key, cb)
    ensures acc + ScanFrom(v, i, key, cb, false) == (acc + found) + ScanFrom(v, i + 1, key, cb, false)
  {
    var rest := ScanFrom(v, i + 1, key, cb, false);
    ScanUnfold(v, i, key, cb, found);
    assert acc + (found + rest) == (acc + found) + rest;
  }

  /** Every result of the `i`-th property is among the results of a full scan from `j <= i`. */
  lemma {:induction false} PropertyFindsIncluded(v: Value, j: nat, i: nat, key: string, cb: Option<Value -> Value>)
    requires j <= i < |OwnProperties(v)|
    ensures forall x :: x in PropertyFinds(v, i, key, cb) ==> x in ScanFrom(v, j, key, cb, false)
    decreases i - j
  {
    ScanUnfold(v, j, key, cb, PropertyFinds(v, j, key, cb));
    if j < i {
      PropertyFindsIncluded(v, j + 1, i, key, cb);
    }
  }

  /** Without a callback, the value of every property named `matchKey` is collected, whatever it holds. */
  lemma MatchedValueCollected(v: Value, i: nat, key: string)
    requires i < |OwnProperties(v)| && OwnProperties(v)[i].0 == key
    ensures PropertyFinds(v, i, key, None) == [OwnProperties(v)[i].1]
    ensures OwnProperties(v)[i].1 in DeepFind(v, key, None, false)
  {
    PropertyFindsIncluded(v, 0, i, key, None);
  }

  /** The search goes down into every array or object held by a property not named `matchKey`. */
  lemma NestedFindsCollected(v: Value, i: nat, key: string, cb: Option<Value -> Value>)
    requires i < |OwnProperties(v)| && OwnProperties(v)[i].0 != key
    requires IsObjectLike(OwnProperties(v)[i].1)
    ensures forall x :: x in DeepFind(OwnProperties(v)[i].1, key, cb, false) ==> x in DeepFind(v, key, cb, false)
  {
    PropertyFindsIncluded(v, 0, i, key, cb);
  }

  /**
   * `onlyFirst` stops at the first property that contributes, and that contribution
   * is kept whole: the nested search it came from was not limited to its first find.
   */
  lemma {:induction false} OnlyFirstTakesFirstContribution(v: Value, j: nat, i: nat, key: string, cb: Option<Value -> Value>)
    requires j <= i < |OwnProperties(v)|
    requires forall k :: j <= k < i ==> PropertyFinds(v, k, key, cb) == []
    requires PropertyFinds(v, i, key, cb) != []
    ensures ScanFrom(v, j, key, cb, true) == PropertyFinds(v, i, key, cb)
    decreases i - j
  {
    if j < i {
      OnlyFirstTakesFirstContribution(v, j + 1, i, key, cb);
    }
  }

  /**
   * With `onlyFirst` the result is a prefix of the full result, and it is empty only
   * when the full result is.
   */
  lemma {:induction false} OnlyFirstIsPrefix(v: Value, i: nat, key: string, cb: Option<Value -> Value>)
    requires i <= |OwnProperties(v)|
    ensures ScanFrom(v, i, key, cb, true) <= ScanFrom(v, i, key, cb, false)
    ensures ScanFrom(v, i, key, cb, true) == [] <==> ScanFrom(v, i, key, cb, false) == []
    decreases |OwnProperties(v)| - i
  {
    if i < |OwnProperties(v)| {
      var found := PropertyFinds(v, i, key, cb);
      ScanUnfold(v, i, key, cb, found);
      OnlyFirstIsPrefix(v, i + 1, key, cb);
      if |found| == 0 {
        assert found + ScanFrom(v, i + 1, key, cb, false) == ScanFrom(v, i + 1, key, cb, false);
      }
    }
  }

  /** The scan from `i` is the `i`-th property's contribution, then the scan from `i + 1`. */
  lemma ScanUnfold(v: Value, i: nat, key: string, cb: Option<Value -> Value>, found: seq<Value>)
    requires i < |OwnProperties(v)| && found == PropertyFinds(v, i, key, cb)
    ensures ScanFrom(v, i, key, cb, false) == found + ScanFrom(v, i + 1, key, cb, false)
    ensures |found| == 0 ==> ScanFrom(v, i, key, cb, true) == ScanFrom(v, i + 1, key, cb, true)
    ensures |found| > 0 ==> ScanFrom(v, i, key, cb, true) == found
  {
    var rest := ScanFrom(v, i + 1, key, cb, false);
    assert ScanFrom(v, i, key, cb, false) == found + rest;
  }
}
