/** The loose structural equality comparator `looseEqual` and its helper
    `compareArrays`.

    `LooselyEqual` and `ArraysMatch` state the comparison policy as
    functions, in the comparator's own priority order: identity, dates,
    arrays, objects, and the `String()` fallback. The methods `LooseEqual`
    and `CompareArrays` follow the source's control flow (the reassigned
    `aValidType`/`bValidType` flags, the index loop that stops at the first
    mismatch, the key loop with early return) and are proved to compute
    exactly those functions.
 */
module LooseEquality {
  import opened JsValues

  /** The verdict of `looseEqual(a, b)`. Loosely equal values always fall in
      the same category: both dates or neither, both arrays or neither, both
      objects or neither. */
  function LooselyEqual(a: Value, b: Value): (r: bool)
    ensures r ==> (a.Date? <==> b.Date?) && (a.Arr? <==> b.Arr?) && (a.Obj? <==> b.Obj?)
    decreases Depth(a) + Depth(b), 1
  {
    if a == b then true
    else if a.Date? || b.Date? then a.Date? && b.Date? && a.ms == b.ms
    else if a.Arr? || b.Arr? then a.Arr? && b.Arr? && ArraysMatch(a, b)
    else if (a.Obj? || b.Obj?) && !(a.Obj? && b.Obj? && KeysMatch(a, b)) then false
    else Render(a) == Render(b)
  }

  /** The verdict of `compareArrays(a, b)`: same length, and every index
      (a hole reading as `undefined`) loosely equal to its counterpart. */
  function ArraysMatch(a: Value, b: Value): bool
    requires a.Arr? && b.Arr?
    decreases Depth(a) + Depth(b), 0
  {
    |a.slots| == |b.slots| &&
    forall i :: 0 <= i < |a.slots| ==>
      (ElementDepth(a, i); ElementDepth(b, i);
       LooselyEqual(Read(a.slots[i]), Read(b.slots[i])))
  }

  /** The object branch lets the call through to the `String()` fallback
      exactly when both own-key counts agree and every own key of `a` is an
      own key of `b` whose value is loosely equal to `a`'s. */
  function KeysMatch(a: Value, b: Value): bool
    requires a.Obj? && b.Obj?
    decreases Depth(a) + Depth(b), 0
  {
    |a.fields| == |b.fields| &&
    forall k :: k in a.fields ==>
      k in b.fields &&
      (FieldDepth(a, k); FieldDepth(b, k);
       LooselyEqual(a.fields[k], b.fields[k]))
  }

  /** `looseEqual(a, b)`. */
  method LooseEqual(a: Value, b: Value) returns (r: bool)
    ensures r == LooselyEqual(a, b)
    decreases Depth(a) + Depth(b), 1
  {
    if a == b {
      return true;
    }
    var aValidType := a.Date?;
    var bValidType := b.Date?;
    if aValidType || bValidType {
      return if aValidType && bValidType then a.ms == b.ms else false;
    }
    aValidType := a.Arr?;
    bValidType := b.Arr?;
    if aValidType || bValidType {
      if aValidType && bValidType {
        r := CompareArrays(a, b);
        return;
      }
      return false;
    }
    aValidType := a.Obj?;
    bValidType := b.Obj?;
    if aValidType || bValidType {
      if !aValidType || !bValidType {
        return false;
      }
      var aKeysCount := |a.fields|;
      var bKeysCount := |b.fields|;
      if aKeysCount != bKeysCount {
        return false;
      }
      // `for (const key in a)`: the own keys of `a`, in an order the model leaves open
      var pending := a.fields.Keys;
      while pending != {}
        invariant pending <= a.fields.Keys
        invariant forall k :: k in a.fields && k !in pending ==>
          k in b.fields && LooselyEqual(a.fields[k], b.fields[k])
        decreases pending
      {
        var key :| key in pending;
        var aHasKey := key in a.fields;
        var bHasKey := key in b.fields;
        if (aHasKey && !bHasKey) || (!aHasKey && bHasKey) {
          return false;
        }
        FieldDepth(a, key);
        FieldDepth(b, key);
        var same := LooseEqual(a.fields[key], b.fields[key]);
        if !same {
          return false;
        }
        pending := pending - {key};
      }
    }
    return Render(a) == Render(b);
  }

  /** `compareArrays(a, b)`; like the source, it assumes both are arrays. */
  method CompareArrays(a: Value, b: Value) returns (equal: bool)
    requires a.Arr? && b.Arr?
    ensures equal == ArraysMatch(a, b)
    decreases Depth(a) + Depth(b), 0
  {
    if |a.slots| != |b.slots| {
      return false;
    }
    equal := true;
    var i := 0;
    while equal && i < |a.slots|
      invariant 0 <= i <= |a.slots|
      invariant equal <==> forall j :: 0 <= j < i ==> LooselyEqual(Read(a.slots[j]), Read(b.slots[j]))
    {
      ElementDepth(a, i);
      ElementDepth(b, i);
      equal := LooseEqual(Read(a.slots[i]), Read(b.slots[i]));
      i := i + 1;
    }
  }
}
