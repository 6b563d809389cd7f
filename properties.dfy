/** What the comparison policy guarantees.

    The central result, `LooseEqualityIsSameShape`, characterises the
    comparator independently of its branch structure: two values are loosely
    equal exactly when they have the same `Shape`, the view of a value in
    which dates are their times, holes are `undefined`, and every other leaf
    is only its `String()` text. Symmetry and transitivity follow from it;
    the remaining lemmas state the branch-by-branch rules.
 */
module LooseEqualityProperties {
  import opened JsValues
  import opened LooseEquality

  /** What the comparator can observe of a value. */
  datatype Shape =
    | ShapeDate(ms: int)
    | ShapeArr(items: seq<Shape>)
    | ShapeObj(fields: map<string, Shape>, text: string)
    | ShapeText(text: string)

  function ShapeOf(v: Value): Shape
    decreases v
  {
    match v
    case Date(ms) => ShapeDate(ms)
    case Arr(slots) => ShapeArr(seq(|slots|, i requires 0 <= i < |slots| => SlotShape(slots[i])))
    case Obj(fields, t) => ShapeObj(map k | k in fields :: ShapeOf(fields[k]), t)
    case _ => ShapeText(Render(v))
  }

  /** An unset index has the shape of `undefined`. */
  function SlotShape(s: Slot): Shape
    decreases s
  {
    match s
    case Hole => ShapeText(Render(Undefined))
    case Elem(v) => ShapeOf(v)
  }

  lemma SlotShapeIsShapeOfRead(s: Slot)
    ensures SlotShape(s) == ShapeOf(Read(s))
  {
  }

  /** Equal own-key counts and one key set inside the other: the key sets agree. */
  lemma {:induction false} SameSizeSubsetIsEqual(x: set<string>, y: set<string>)
    requires x <= y && |x| == |y|
    ensures x == y
  {
    assert |y - x| == |y| - |x|;
  }

  /** Objects that pass the key loop have the same own keys. */
  lemma KeysMatchSharesKeys(a: Value, b: Value)
    requires a.Obj? && b.Obj? && LooselyEqual(a, b)
    ensures a.fields.Keys == b.fields.Keys
  {
    if a != b {
      assert KeysMatch(a, b);
      assert |a.fields.Keys| == |a.fields| == |b.fields| == |b.fields.Keys|;
      SameSizeSubsetIsEqual(a.fields.Keys, b.fields.Keys);
    }
  }

  lemma {:induction false} LooseEqualityIsSameShape(a: Value, b: Value)
    ensures LooselyEqual(a, b) <==> ShapeOf(a) == ShapeOf(b)
    decreases Depth(a) + Depth(b)
  {
    if a == b {
    } else if a.Date? || b.Date? {
    } else if a.Arr? || b.Arr? {
      if a.Arr? && b.Arr? {
        forall i | 0 <= i < |a.slots| && i < |b.slots|
          ensures LooselyEqual(Read(a.slots[i]), Read(b.slots[i]))
                  <==> SlotShape(a.slots[i]) == SlotShape(b.slots[i])
        {
          ElementDepth(a, i);
          ElementDepth(b, i);
          SlotShapeIsShapeOfRead(a.slots[i]);
          SlotShapeIsShapeOfRead(b.slots[i]);
          LooseEqualityIsSameShape(Read(a.slots[i]), Read(b.slots[i]));
        }
        var sa := ShapeOf(a).items;
        var sb := ShapeOf(b).items;
        if ArraysMatch(a, b) {
          assert sa == sb by {
            assert |sa| == |sb|;
            forall i | 0 <= i < |sa| ensures sa[i] == sb[i] {
              assert LooselyEqual(Read(a.slots[i]), Read(b.slots[i]));
            }
          }
        }
        if sa == sb {
          forall i | 0 <= i < |a.slots|
            ensures LooselyEqual(Read(a.slots[i]), Read(b.slots[i]))
          {
            assert sa[i] == sb[i];
          }
        }
      }
    } else if a.Obj? || b.Obj? {
      if a.Obj? && b.Obj? {
        forall k | k in a.fields && k in b.fields
          ensures LooselyEqual(a.fields[k], b.fields[k])
                  <==> ShapeOf(a.fields[k]) == ShapeOf(b.fields[k])
        {
          FieldDepth(a, k);
          FieldDepth(b, k);
          LooseEqualityIsSameShape(a.fields[k], b.fields[k]);
        }
        var ma := ShapeOf(a).fields;
        var mb := ShapeOf(b).fields;
        if KeysMatch(a, b) {
          SameSizeSubsetIsEqual(a.fields.Keys, b.fields.Keys);
          assert ma == mb by {
            assert ma.Keys == mb.Keys;
            forall k | k in ma ensures ma[k] == mb[k] {
              assert LooselyEqual(a.fields[k], b.fields[k]);
            }
          }
        }
        if ma == mb {
          assert a.fields.Keys == ma.Keys == mb.Keys == b.fields.Keys;
          assert |a.fields| == |b.fields| by {
            assert |a.fields| == |a.fields.Keys|;
            assert |b.fields| == |b.fields.Keys|;
          }
          forall k | k in a.fields ensures LooselyEqual(a.fields[k], b.fields[k]) {
            assert ma[k] == mb[k];
          }
          assert KeysMatch(a, b);
        }
      }
    } else {
    }
  }

  /** `looseEqual(a, b) === looseEqual(b, a)`. */
  lemma LooseEqualityIsSymmetric(a: Value, b: Value)
    ensures LooselyEqual(a, b) == LooselyEqual(b, a)
  {
    LooseEqualityIsSameShape(a, b);
    LooseEqualityIsSameShape(b, a);
  }

  /** Loose equality chains: together with reflexivity and symmetry, it is an
      equivalence relation on acyclic values. */
  lemma LooseEqualityIsTransitive(a: Value, b: Value, c: Value)
    requires LooselyEqual(a, b) && LooselyEqual(b, c)
    ensures LooselyEqual(a, c)
  {
    LooseEqualityIsSameShape(a, b);
    LooseEqualityIsSameShape(b, c);
    LooseEqualityIsSameShape(a, c);
  }

  /** The comparator with the identity shortcut removed: only the date, array,
      object and fallback branches, recursing into themselves. */
  function StructurallyEqual(a: Value, b: Value): bool
    decreases Depth(a) + Depth(b), 1
  {
    if a.Date? || b.Date? then a.Date? && b.Date? && a.ms == b.ms
    else if a.Arr? || b.Arr? then a.Arr? && b.Arr? && StructuralArraysMatch(a, b)
    else if (a.Obj? || b.Obj?) && !(a.Obj? && b.Obj? && StructuralKeysMatch(a, b)) then false
    else Render(a) == Render(b)
  }

  function StructuralArraysMatch(a: Value, b: Value): bool
    requires a.Arr? && b.Arr?
    decreases Depth(a) + Depth(b), 0
  {
    |a.slots| == |b.slots| &&
    forall i :: 0 <= i < |a.slots| ==>
      (ElementDepth(a, i); ElementDepth(b, i);
       StructurallyEqual(Read(a.slots[i]), Read(b.slots[i])))
  }

  function StructuralKeysMatch(a: Value, b: Value): bool
    requires a.Obj? && b.Obj?
    decreases Depth(a) + Depth(b), 0
  {
    |a.fields| == |b.fields| &&
    forall k :: k in a.fields ==>
      k in b.fields &&
      (FieldDepth(a, k); FieldDepth(b, k);
       StructurallyEqual(a.fields[k], b.fields[k]))
  }

  /** Without the shortcut, every value still equals itself. */
  lemma {:induction false} StructuralEqualityIsReflexive(a: Value)
    ensures StructurallyEqual(a, a)
    decreases Depth(a)
  {
    if a.Arr? {
      forall i | 0 <= i < |a.slots| ensures StructurallyEqual(Read(a.slots[i]), Read(a.slots[i])) {
        ElementDepth(a, i);
        StructuralEqualityIsReflexive(Read(a.slots[i]));
      }
    } else if a.Obj? {
      forall k | k in a.fields ensures StructurallyEqual(a.fields[k], a.fields[k]) {
        FieldDepth(a, k);
        StructuralEqualityIsReflexive(a.fields[k]);
      }
    }
  }

  /** On the values modelled here the `a === b` shortcut never changes a
      verdict: reading `===` as equality of values (identical content, not
      identical instance) is sound for them, because the date, array, object
      and fallback branches also answer `true` for equal content. */
  lemma {:induction false} IdentityShortcutIsRedundant(a: Value, b: Value)
    ensures LooselyEqual(a, b) == StructurallyEqual(a, b)
    decreases Depth(a) + Depth(b)
  {
    if a == b {
      StructuralEqualityIsReflexive(a);
    } else if a.Date? || b.Date? {
    } else if a.Arr? || b.Arr? {
      if a.Arr? && b.Arr? {
        forall i | 0 <= i < |a.slots| && i < |b.slots|
          ensures LooselyEqual(Read(a.slots[i]), Read(b.slots[i]))
                  == StructurallyEqual(Read(a.slots[i]), Read(b.slots[i]))
        {
          ElementDepth(a, i);
          ElementDepth(b, i);
          IdentityShortcutIsRedundant(Read(a.slots[i]), Read(b.slots[i]));
        }
        assert ArraysMatch(a, b) == StructuralArraysMatch(a, b);
      }
    } else if a.Obj? || b.Obj? {
      if a.Obj? && b.Obj? {
        forall k | k in a.fields && k in b.fields
          ensures LooselyEqual(a.fields[k], b.fields[k]) == StructurallyEqual(a.fields[k], b.fields[k])
        {
          FieldDepth(a, k);
          FieldDepth(b, k);
          IdentityShortcutIsRedundant(a.fields[k], b.fields[k]);
        }
        assert KeysMatch(a, b) == StructuralKeysMatch(a, b);
      }
    }
  }

  /** Identical values are equal without any later branch being consulted. */
  lemma IdenticalValuesAreEqual(a: Value, b: Value)
    requires a == b
    ensures LooselyEqual(a, b)
  {
  }

  /** A date is equal only to a date with the same `getTime()`; the date
      branch decides the call whenever either side is a date. */
  lemma DatesCompareByTime(a: Value, b: Value)
    requires a.Date? || b.Date?
    ensures LooselyEqual(a, b) <==> a.Date? && b.Date? && a.ms == b.ms
  {
  }

  /** An array is never equal to a non-array, whatever the latter renders as. */
  lemma ArrayAgainstNonArrayIsUnequal(a: Value, b: Value)
    requires a.Arr? != b.Arr?
    ensures !LooselyEqual(a, b)
  {
  }

  lemma ArraysOfDifferentLengthsAreUnequal(a: Value, b: Value)
    requires a.Arr? && b.Arr? && |a.slots| != |b.slots|
    ensures !LooselyEqual(a, b)
  {
  }

  /** Same-length arrays are equal exactly when every index-aligned pair is;
      an unset index takes part as `undefined`. */
  lemma ArraysCompareIndexByIndex(a: Value, b: Value)
    requires a.Arr? && b.Arr? && |a.slots| == |b.slots|
    ensures LooselyEqual(a, b) <==>
      forall i :: 0 <= i < |a.slots| ==> LooselyEqual(Read(a.slots[i]), Read(b.slots[i]))
  {
  }

  /** `a` with every unset index replaced by an explicit `undefined`. */
  function FillHoles(slots: seq<Slot>): seq<Slot>
  {
    seq(|slots|, i requires 0 <= i < |slots| => Elem(Read(slots[i])))
  }

  /** Holes are read, not skipped: a sparse array equals its densely filled copy. */
  lemma SparseArrayEqualsFilledCopy(a: Value)
    requires a.Arr?
    ensures LooselyEqual(a, Arr(FillHoles(a.slots)))
  {
    var b := Arr(FillHoles(a.slots));
    forall i | 0 <= i < |a.slots|
      ensures LooselyEqual(Read(a.slots[i]), Read(b.slots[i]))
    {
      IdenticalValuesAreEqual(Read(a.slots[i]), Read(b.slots[i]));
    }
  }

  lemma ObjectsWithDifferentKeyCountsAreUnequal(a: Value, b: Value)
    requires a.Obj? && b.Obj? && |a.fields| != |b.fields|
    ensures !LooselyEqual(a, b)
  {
  }

  /** A key that is own in one object and not in the other makes them unequal,
      whichever side holds it. */
  lemma ObjectsWithDifferentKeysAreUnequal(a: Value, b: Value, k: string)
    requires a.Obj? && b.Obj? && (k in a.fields) != (k in b.fields)
    ensures !LooselyEqual(a, b)
  {
    if LooselyEqual(a, b) {
      KeysMatchSharesKeys(a, b);
    }
  }

  /** A shared key whose values are not loosely equal makes the objects unequal. */
  lemma ObjectsWithUnequalValueAreUnequal(a: Value, b: Value, k: string)
    requires a.Obj? && b.Obj? && k in a.fields && k in b.fields
    requires !LooselyEqual(a.fields[k], b.fields[k])
    ensures !LooselyEqual(a, b)
  {
  }

  /** After every key matched, the object branch does not answer `true`: the
      `String()` fallback decides. */
  lemma MatchingObjectsFallThroughToText(a: Value, b: Value)
    requires a.Obj? && b.Obj?
    requires a.fields.Keys == b.fields.Keys
    requires forall k :: k in a.fields ==> LooselyEqual(a.fields[k], b.fields[k])
    ensures LooselyEqual(a, b) <==> a.objText == b.objText
  {
    assert |a.fields| == |a.fields.Keys| == |b.fields.Keys| == |b.fields|;
  }

  /** For objects that render alike (plain objects all give "[object Object]"),
      loose equality is exactly: same own keys, loosely equal values. */
  lemma ObjectsRenderingAlikeCompareByKeys(a: Value, b: Value)
    requires a.Obj? && b.Obj? && a.objText == b.objText
    ensures LooselyEqual(a, b) <==>
      a.fields.Keys == b.fields.Keys &&
      forall k :: k in a.fields ==> LooselyEqual(a.fields[k], b.fields[k])
  {
    if LooselyEqual(a, b) && a != b {
      KeysMatchSharesKeys(a, b);
    }
    if a.fields.Keys == b.fields.Keys {
      assert |a.fields| == |a.fields.Keys| == |b.fields.Keys| == |b.fields|;
    }
  }

  /** Values that are neither dates, arrays nor objects are equal exactly when
      they render to the same text. */
  lemma ScalarsCompareByText(a: Value, b: Value)
    requires !a.Date? && !a.Arr? && !a.Obj?
    requires !b.Date? && !b.Arr? && !b.Obj?
    ensures LooselyEqual(a, b) <==> Render(a) == Render(b)
  {
  }

  /** An object is never equal to a value that is not a date, array or object. */
  lemma ObjectAgainstScalarIsUnequal(a: Value, b: Value)
    requires a.Obj? && !b.Date? && !b.Arr? && !b.Obj?
    ensures !LooselyEqual(a, b) && !LooselyEqual(b, a)
  {
  }

  // Worked examples of the rules above.

  /** `looseEqual(1, "1")` is true. */
  lemma NumberEqualsItsText()
    ensures LooselyEqual(Num("1"), Str("1"))
  {
  }

  /** `looseEqual([1], "1")` is false, although `String([1])` is "1". */
  lemma ArrayNeverEqualsItsText()
    ensures !LooselyEqual(Arr([Elem(Num("1"))]), Str("1"))
  {
  }

  /** `looseEqual([1, [2, 3]], [1, [2, 3]])` holds, `[1, [2, 4]]` does not. */
  lemma NestedArrays()
    ensures LooselyEqual(Arr([Elem(Num("1")), Elem(Arr([Elem(Num("2")), Elem(Num("3"))]))]),
                         Arr([Elem(Num("1")), Elem(Arr([Elem(Num("2")), Elem(Str("3"))]))]))
    ensures !LooselyEqual(Arr([Elem(Num("1")), Elem(Arr([Elem(Num("2")), Elem(Num("3"))]))]),
                          Arr([Elem(Num("1")), Elem(Arr([Elem(Num("2")), Elem(Num("4"))]))]))
  {
    var inner3 := Arr([Elem(Num("2")), Elem(Num("3"))]);
    var inner3s := Arr([Elem(Num("2")), Elem(Str("3"))]);
    var inner4 := Arr([Elem(Num("2")), Elem(Num("4"))]);
    assert LooselyEqual(inner3, inner3s) by {
      assert LooselyEqual(Read(inner3.slots[1]), Read(inner3s.slots[1]));
    }
    assert !LooselyEqual(inner3, inner4) by {
      assert !LooselyEqual(Read(inner3.slots[1]), Read(inner4.slots[1]));
    }
    var outer3 := Arr([Elem(Num("1")), Elem(inner3)]);
    var outer4 := Arr([Elem(Num("1")), Elem(inner4)]);
    assert !LooselyEqual(outer3, outer4) by {
      assert !LooselyEqual(Read(outer3.slots[1]), Read(outer4.slots[1]));
    }
  }

  /** `[, 1]` compared with `[undefined, 1]`, with `["undefined", 1]` and with
      `[null, 1]`: the hole takes part as `undefined`, so it matches the first
      two (the second through the `String()` fallback) and not the third. */
  lemma HoleComparedAsUndefined()
    ensures LooselyEqual(Arr([Hole, Elem(Num("1"))]), Arr([Elem(Undefined), Elem(Num("1"))]))
    ensures LooselyEqual(Arr([Hole, Elem(Num("1"))]), Arr([Elem(Str("undefined")), Elem(Num("1"))]))
    ensures !LooselyEqual(Arr([Hole, Elem(Num("1"))]), Arr([Elem(Null), Elem(Num("1"))]))
  {
    var b := Arr([Elem(Null), Elem(Num("1"))]);
    assert !LooselyEqual(Read(Hole), Read(b.slots[0]));
  }

  /** Two objects with the same keys and values but different `toString`
      results are unequal: the fall-through to `String()` is observable. */
  lemma CustomTextSeparatesObjects()
    ensures !LooselyEqual(Obj(map["a" := Num("1")], "x"), Obj(map["a" := Num("1")], "y"))
    ensures LooselyEqual(Obj(map["a" := Num("1")], "[object Object]"),
                         Obj(map["a" := Str("1")], "[object Object]"))
  {
    var a := Obj(map["a" := Num("1")], "[object Object]");
    var b := Obj(map["a" := Str("1")], "[object Object]");
    assert LooselyEqual(a.fields["a"], b.fields["a"]);
    MatchingObjectsFallThroughToText(a, b);
  }
}
