# Loose structural equality (`looseEqual`)

A Dafny model of `looseEqual` and its helper `compareArrays` from
`src/utils/loose-equal.ts`, the comparator a UI component library uses to
decide whether two arbitrary runtime values should count as equal (for
example, whether a bound model value changed). The comparator tries, in
order: identity; dates by `getTime()`; arrays by length and then index by
index, with an unset index of a sparse array read as `undefined`; objects
(anything `isObject` accepts other than dates and arrays) by own-key count
and then key by key; and finally, for everything
else and also after two objects pass the key loop, `String(a) === String(b)`.

Files:

- `js_values.dfy` (module `JsValues`): the runtime values the comparator
  sees. `Value` has one constructor per category the comparator tells apart
  (`Date`, `Arr`, `Obj`) and one per kind of primitive; `isDate`, `isArray`
  and `isObject` are the constructor tests `Date?`, `Arr?` and `Obj?`, and
  `hasOwnProperty(o, k)` is `k in o.fields`. An array is a sequence of
  `Slot`s, an unset index being a `Hole` that `Read` turns into `Undefined`.
  `Render` is `String(v)` for every value the fallback can be given; an
  object carries what `String(obj)` gives. `Depth` is the ghost
  measure that proves the mutual recursion terminates.
- `loose_equality.dfy` (module `LooseEquality`): the policy as functions
  (`LooselyEqual`, `ArraysMatch`, `KeysMatch`), in the source's branch order,
  and the methods `LooseEqual` and `CompareArrays`, which keep the source's
  control flow: the reassigned `aValidType`/`bValidType` flags, the index loop
  that stops at the first mismatch, and the key loop with early return. Each
  method is proved to return exactly the corresponding function.
- `properties.dfy` (module `LooseEqualityProperties`): the properties. The
  main one, `LooseEqualityIsSameShape`, gives an independent definition of the
  relation: two values are loosely equal exactly when they have the same
  `Shape`, the view in which a date is its time, a hole is `undefined`, an
  object is its own properties plus its text, and every other value is only
  its `String()` text. Symmetry and transitivity on the values the model
  represents follow from it (the source itself is not symmetric on objects
  with inherited or non-enumerable keys, see "## Left out"). The other
  lemmas state each branch's rule, with worked examples.

Abstractions:

- `===` is equality of `Value`s. That is exact for undefined, null,
  booleans, strings, bigints and numbers other than NaN. For NaN, symbols,
  functions, dates, arrays and objects it identifies distinct values with the
  same content (two `Symbol("a")`, for instance, are both `Other("Symbol(a)")`).
  On every pair of values the model represents this does not change a
  verdict: `IdentityShortcutIsRedundant` proves that the comparator without
  the shortcut (lines 21-51 alone, `StructurallyEqual`) returns the same
  verdict as the full comparator, so it too answers `true` for two values
  with the same content. (In the source the shortcut alone decides two cases
  the model leaves out: an invalid date and a null-prototype object compared
  with themselves; see "## Left out".)
- A number is carried as its canonical `String()` text. `NaN !== NaN` in
  JavaScript, but both render as "NaN", so the fallback answers `true`, as the
  model does. `0 === -0` holds, and both render as "0".
- The own keys of a `for...in` loop are visited in an order the model leaves
  open (`var key :| key in pending`). The verdict does not depend on it.

An unset index is not skipped: `a[i]` reads it as `undefined` and it goes
through the general rule, so `[, 1]` equals `[undefined, 1]` and
`["undefined", 1]` (because `String(undefined)` is "undefined") but not
`[null, 1]` (`HoleComparedAsUndefined`).

## Model

| member | source | states |
|---|---|---|
| `LooseEquality.LooselyEqual` | src/utils/loose-equal.ts:17-52 | the verdict of looseEqual in the source's branch order (identity, dates, arrays, objects, String fallback); a true verdict implies both values are in the same category: both dates or neither, both arrays or neither, both objects or neither |
| `LooseEquality.ArraysMatch` | src/utils/loose-equal.ts:6-15 | the verdict of compareArrays: same length, and every index-aligned pair, a hole read as undefined, loosely equal |
| `LooseEquality.KeysMatch` | src/utils/loose-equal.ts:38-49 | the condition under which the object branch lets the call through to the String fallback: equal own-key counts, and every own key of a owned by b with loosely equal values |
| `JsValues.Read` | src/utils/loose-equal.ts:12 | a[i] on one array index: the element, or undefined for an unset index of a sparse array |
| `JsValues.Render` | src/utils/loose-equal.ts:51 | String(v) for every value the fallback can be given: "undefined", "null", "true"/"false", a number's canonical text, the string itself, and the String text of an object, function, symbol or bigint |
| `LooseEquality.LooseEqual` | src/utils/loose-equal.ts:17-52 | the method, with its reassigned type flags and its early-returning own-key loop, returns exactly the verdict of the comparison policy for every pair of acyclic values |
| `LooseEquality.CompareArrays` | src/utils/loose-equal.ts:6-15 | given two arrays, the length check followed by the index loop that stops at the first mismatch returns true exactly when the lengths agree and every index-aligned pair (holes read as undefined) is loosely equal |
| `LooseEqualityProperties.LooseEqualityIsSameShape` | src/utils/loose-equal.ts:17-52 | two values are loosely equal if and only if they have the same shape: dates by time, arrays element by element with holes as undefined, objects by own keys, values and String text, everything else by String text alone |
| `LooseEqualityProperties.LooseEqualityIsSymmetric` | src/utils/loose-equal.ts:17-52 | on the values the model represents, swapping the two arguments never changes the verdict |
| `LooseEqualityProperties.LooseEqualityIsTransitive` | src/utils/loose-equal.ts:17-52 | on the values the model represents, if a equals b and b equals c then a equals c, so there the comparator is an equivalence relation |
| `LooseEqualityProperties.IdentityShortcutIsRedundant` | src/utils/loose-equal.ts:18-51 | the comparator with the identity shortcut of lines 18-20 removed returns the same verdict as the full comparator on every pair of values the model represents, so for them reading identity as equal content loses nothing |
| `LooseEqualityProperties.IdenticalValuesAreEqual` | src/utils/loose-equal.ts:18-20 | identical values compare equal |
| `LooseEqualityProperties.DatesCompareByTime` | src/utils/loose-equal.ts:21-25 | once either side is a date, the verdict is true exactly when both are dates with the same getTime value, and nothing later is consulted |
| `LooseEqualityProperties.ArrayAgainstNonArrayIsUnequal` | src/utils/loose-equal.ts:26-30 | an array is never equal to a value that is not an array |
| `LooseEqualityProperties.ArraysOfDifferentLengthsAreUnequal` | src/utils/loose-equal.ts:7-9 | arrays of different lengths are unequal |
| `LooseEqualityProperties.ArraysCompareIndexByIndex` | src/utils/loose-equal.ts:10-14 | arrays of the same length are equal if and only if every index-aligned pair, a hole read as undefined, is loosely equal |
| `LooseEqualityProperties.SparseArrayEqualsFilledCopy` | src/utils/loose-equal.ts:4-14 | holes are read rather than skipped: a sparse array equals the same array with every hole replaced by an explicit undefined |
| `LooseEqualityProperties.ObjectsWithDifferentKeyCountsAreUnequal` | src/utils/loose-equal.ts:38-42 | objects with different numbers of own keys are unequal |
| `LooseEqualityProperties.KeysMatchSharesKeys` | src/utils/loose-equal.ts:38-48 | on the values the model represents, two loosely equal objects have the same set of own keys, since equal counts plus every key of one owned by the other leave no key out |
| `LooseEqualityProperties.ObjectsWithDifferentKeysAreUnequal` | src/utils/loose-equal.ts:43-48 | a key owned by exactly one of two objects, on either side, makes them unequal |
| `LooseEqualityProperties.ObjectsWithUnequalValueAreUnequal` | src/utils/loose-equal.ts:43-48 | a shared own key whose two values are not loosely equal makes the objects unequal |
| `LooseEqualityProperties.MatchingObjectsFallThroughToText` | src/utils/loose-equal.ts:43-51 | for any two objects with the same own keys and loosely equal values under each, the verdict is still whether their String texts agree, not an unconditional true |
| `LooseEqualityProperties.ObjectsRenderingAlikeCompareByKeys` | src/utils/loose-equal.ts:31-51 | for objects with the same String text (all plain objects) equality is exactly: same own keys and loosely equal values under each |
| `LooseEqualityProperties.ObjectAgainstScalarIsUnequal` | src/utils/loose-equal.ts:33-37 | an object is unequal, in either argument position, to any value that is neither date, array nor object |
| `LooseEqualityProperties.ScalarsCompareByText` | src/utils/loose-equal.ts:51 | values that are neither dates, arrays nor objects are equal exactly when their String texts agree |
| `LooseEqualityProperties.NumberEqualsItsText` | src/utils/loose-equal.ts:51 | the number 1 and the string "1" compare equal |
| `LooseEqualityProperties.ArrayNeverEqualsItsText` | src/utils/loose-equal.ts:26-30 | the array [1] and the string "1" compare unequal although both render as "1" |
| `LooseEqualityProperties.NestedArrays` | src/utils/loose-equal.ts:6-15 | nested arrays compare recursively: [1, [2, 3]] equals [1, [2, "3"]] but not [1, [2, 4]] |
| `LooseEqualityProperties.HoleComparedAsUndefined` | src/utils/loose-equal.ts:10-14 | a hole at an index matches undefined and the string "undefined" at that index, and does not match null |
| `LooseEqualityProperties.CustomTextSeparatesObjects` | src/utils/loose-equal.ts:43-51 | objects with equal keys and values but different toString texts are unequal; plain objects whose values are 1 and "1" are equal |

## Left out

- `isDate`, `isArray`, `isObject` (from `src/utils/inspect`) and `hasOwnProperty` (from `src/utils/object`) are not part of this model; they are the constructor tests of `Value` and key membership in an object's own properties.
- Inherited enumerable properties: `for...in` also visits them, and for such a key `aHasKey` is false. If `b` owns the key, the objects are unequal; if `b` does not own it either, the loop still compares the inherited values `a[key]` and `b[key]`, so objects equal on their own properties can compare unequal. The model's objects hold their own string-keyed enumerable properties only and cannot express either case. With such keys the source is not symmetric, while `LooseEqualityIsSymmetric` holds of the model: `looseEqual({}, Object.create({x: 1}))` is true (both counts are 0, `for...in` over `{}` visits nothing, both render "[object Object]"), but the swapped call visits the inherited `x`, owned by neither, and compares `1` with `undefined`, so it is false. Non-enumerable own keys break symmetry too, since `hasOwnProperty` sees them and `Object.keys` and `for...in` do not: with `a = {x: 1, y: 2}` and `b = {y: 2, z: 5}` plus a non-enumerable own `x: 1`, `looseEqual(a, b)` is true and `looseEqual(b, a)` is false. Symbol keys, non-enumerable properties, getters with side effects and proxies are not modelled.
- The `TypeError` that `String(a)` throws after the key loop passes for an object with no usable `toString`/`valueOf` (a null-prototype object such as `Object.create(null)`, or one whose `toString` and `valueOf` both return objects): every model object carries a text, so the model's fallback always returns a verdict, `true` for two such objects with the same text and loosely equal own properties. Compared with itself, such an object gives `true` in the source only through the identity shortcut (without it `String(a)` would throw); the model cannot show that the shortcut decides this case.
- Invalid dates: `getTime()` is `NaN` for them, so two distinct invalid dates are unequal in JavaScript, and an invalid date equals itself only through the identity shortcut (the date branch alone would compare `NaN === NaN`, which is false); the model keeps a date's time as an integer and cannot express either case.
- `Render` gives `String()` only for values that are not dates or arrays. The comparator never reaches its fallback with either, and `String()` of a date depends on the host's time zone.
- JavaScript number formatting and floating point: a number is given by its canonical `String()` text.
- Cyclic structures: the comparator does not guard against them and would exhaust the stack; the inductive `Value` type cannot express them.
- `src/utils/event.ts`, `src/utils/array.ts`, `src/utils/props.ts`, `src/constants/regex.ts` and `docs/.vuepress/config.ts` are not part of this model: they are event-suppression wrappers, one-line array library calls, prop-name helpers over unseen code, bare regular-expression constants, and static documentation-site configuration, with no logic of their own to verify.
