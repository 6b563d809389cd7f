/** The runtime values that the loose equality comparator inspects.

    A JavaScript value is classified exactly as the comparator's helpers
    classify it: `isDate` is `Date?`, `isArray` is `Arr?`, `isObject` (a
    non-null value of type "object" that is neither a date nor an array) is
    `Obj?`, and `hasOwnProperty(o, k)` is `k in o.fields`.  Everything else
    reaches the comparator's `String(a) === String(b)` fallback, so it is
    kept together with the text `String()` produces for it.
 */
module JsValues {

  /** One runtime value. Arrays and objects are trees: the datatype is
      inductive, so the cyclic structures the comparator does not guard
      against cannot be built. */
  datatype Value =
    | Undefined
    | Null
    | Bool(b: bool)
    | Num(numText: string)   // a number, by its canonical `String()` text ("1", "NaN", "-1.5")
    | Str(s: string)
    | Date(ms: int)          // a Date, by the value `getTime()` returns
    | Arr(slots: seq<Slot>)  // an array; an unset index of a sparse array is a `Hole`
    | Obj(fields: map<string, Value>, objText: string)
      // an object (anything `isObject` accepts other than a date or an array: plain objects,
      // a `Map`, `new Number(1)`, class instances): its own enumerable string-keyed properties,
      // and what `String(obj)` gives ("[object Object]", a `Symbol.toStringTag` text such as
      // "[object Map]", or whatever a `toString` of its own or of its prototype returns)
    | Other(otherText: string)  // a function, symbol or bigint, by its `String()` text

  /** One index of an array: unset (sparse) or holding a value. */
  datatype Slot = Hole | Elem(v: Value)

  /** `a[i]`: reading an unset index of a sparse array yields `undefined`. */
  function Read(s: Slot): Value
  {
    match s
    case Hole => Undefined
    case Elem(v) => v
  }

  /** `String(v)` for the values the comparator's fallback can be handed;
      dates and arrays are always decided before the fallback is reached. */
  function Render(v: Value): string
    requires !v.Date? && !v.Arr?
  {
    match v
    case Undefined => "undefined"
    case Null => "null"
    case Bool(b) => if b then "true" else "false"
    case Num(t) => t
    case Str(s) => s
    case Obj(_, t) => t
    case Other(t) => t
  }

  /** The largest element of a finite set of naturals (0 for the empty set). */
  ghost function MaxOf(s: set<nat>): (m: nat)
    ensures forall x :: x in s ==> x <= m
    decreases s
  {
    if s == {} then 0
    else
      var x :| x in s;
      var rest := MaxOf(s - {x});
      assert forall y :: y in s ==> y == x || y in s - {x};
      if x < rest then rest else x
  }

  /** Nesting depth; the comparator recurses into array elements and object
      properties only, and a hole reads as the depth-0 `undefined`, so the sum
      of the two arguments' depths strictly decreases on every recursive call. */
  ghost function Depth(v: Value): nat
    decreases v
  {
    match v
    case Arr(slots) =>
      1 + MaxOf(set i | 0 <= i < |slots| && slots[i].Elem? :: Depth(slots[i].v))
    case Obj(fields, _) =>
      1 + MaxOf(set k | k in fields :: Depth(fields[k]))
    case _ => 0
  }

  lemma ElementDepth(a: Value, i: int)
    requires a.Arr? && 0 <= i < |a.slots|
    ensures Depth(Read(a.slots[i])) < Depth(a)
  {
    if a.slots[i].Elem? {
      var depths := set j | 0 <= j < |a.slots| && a.slots[j].Elem? :: Depth(a.slots[j].v);
      assert Depth(a.slots[i].v) in depths;
    }
  }

  lemma FieldDepth(a: Value, k: string)
    requires a.Obj? && k in a.fields
    ensures Depth(a.fields[k]) < Depth(a)
  {
    var depths := set j | j in a.fields :: Depth(a.fields[j]);
    assert Depth(a.fields[k]) in depths;
  }
}
