/**
 * The record helpers of the settings panel: `noUndefined`, `removeAttribs` and the
 * curried field setter `propSetterSetter`. A JavaScript object is a map from property
 * name to value; a property that is present but holds `undefined` maps to `None`.
 */
module Records {
  import opened Wrappers

  /** A plain object whose properties may hold `undefined`. */
  type Loose<V> = map<string, Option<V>>

  /** Every property of `r`, none of them undefined. */
  function Lift<V>(r: map<string, V>): (l: Loose<V>)
    ensures l.Keys == r.Keys
    ensures forall k :: k in l ==> l[k] == Some(r[k])
  {
    map k | k in r :: Some(r[k])
  }

  /**
   * `noUndefined(obj)`: rebuild the object from those of its entries whose value is not
   * `undefined`.
   */
  function NoUndefined<V>(obj: Loose<V>): (r: map<string, V>)
    ensures forall k :: k in r <==> k in obj && obj[k] != None
    ensures forall k :: k in r ==> obj[k] == Some(r[k])
  {
    map k | k in obj && obj[k].Some? :: obj[k].value
  }

  /** An object with no undefined property comes back from `noUndefined` as it went in. */
  lemma NoUndefinedOfLift<V>(r: map<string, V>)
    ensures NoUndefined(Lift(r)) == r
  {
    assert NoUndefined(Lift(r)).Keys == r.Keys;
  }

  /** Dropping the undefined properties twice drops nothing more. */
  lemma NoUndefinedIdempotent<V>(obj: Loose<V>)
    ensures NoUndefined(Lift(NoUndefined(obj))) == NoUndefined(obj)
  {
    NoUndefinedOfLift(NoUndefined(obj));
  }

  /** Lifting the result gives back `obj` exactly when no property of `obj` was undefined. */
  lemma NoUndefinedLossless<V>(obj: Loose<V>)
    ensures Lift(NoUndefined(obj)) == obj <==> forall k :: k in obj ==> obj[k].Some?
  {
    if forall k :: k in obj ==> obj[k].Some? {
      assert Lift(NoUndefined(obj)).Keys == obj.Keys;
    } else {
      var k :| k in obj && obj[k].None?;
      assert k !in Lift(NoUndefined(obj));
    }
  }

  /**
   * `removeAttribs(obj, ...props)`: a copy of `obj` from which each listed property is
   * deleted in turn; deleting an absent property does nothing.
   */
  function RemoveAttribs<V>(obj: map<string, V>, props: seq<string>): (r: map<string, V>)
    ensures forall k :: k in r <==> k in obj && k !in props
    ensures forall k :: k in r ==> r[k] == obj[k]
    decreases |props|
  {
    if |props| == 0 then obj
    else
      var r := RemoveAttribs(obj - {props[0]}, props[1..]);
      assert forall k :: k in props <==> k == props[0] || k in props[1..];
      r
  }

  /** Deleting the listed properties one by one is subtracting the set of them at once. */
  lemma RemoveAttribsIsSubtraction<V>(obj: map<string, V>, props: seq<string>)
    ensures RemoveAttribs(obj, props) == obj - set p | p in props
  {
    assert RemoveAttribs(obj, props).Keys == (obj - set p | p in props).Keys;
  }

  /** Removing in two rounds is removing the concatenated list. */
  lemma RemoveAttribsConcat<V>(obj: map<string, V>, a: seq<string>, b: seq<string>)
    ensures RemoveAttribs(RemoveAttribs(obj, a), b) == RemoveAttribs(obj, a + b)
  {
    var x, y := RemoveAttribs(RemoveAttribs(obj, a), b), RemoveAttribs(obj, a + b);
    assert forall k :: k in a + b <==> k in a || k in b;
    assert x.Keys == y.Keys;
  }

  /** The order of two rounds of removal does not matter. */
  lemma RemoveAttribsCommute<V>(obj: map<string, V>, a: seq<string>, b: seq<string>)
    ensures RemoveAttribs(RemoveAttribs(obj, a), b) == RemoveAttribs(RemoveAttribs(obj, b), a)
  {
    var x, y := RemoveAttribs(RemoveAttribs(obj, a), b), RemoveAttribs(RemoveAttribs(obj, b), a);
    assert x.Keys == y.Keys;
  }

  /**
   * `propSetterSetter(obj, setter)(key)(v)` hands `setter` a copy of `obj` in which `key`
   * holds `v`, added when it was absent.
   */
  function PropSet<V>(obj: map<string, V>, key: string, v: V): (r: map<string, V>)
    ensures key in r && r[key] == v
    ensures forall k :: k != key ==> (k in r <==> k in obj)
    ensures forall k :: k in obj && k != key ==> r[k] == obj[k]
  {
    obj[key := v]
  }

  /** Two writes to the same field: the second wins. */
  lemma PropSetLastWins<V>(obj: map<string, V>, key: string, v1: V, v2: V)
    ensures PropSet(PropSet(obj, key, v1), key, v2) == PropSet(obj, key, v2)
  {
  }

  /** Writes to different fields commute. */
  lemma PropSetCommutes<V>(obj: map<string, V>, k1: string, v1: V, k2: string, v2: V)
    requires k1 != k2
    ensures PropSet(PropSet(obj, k1, v1), k2, v2) == PropSet(PropSet(obj, k2, v2), k1, v1)
  {
  }

  /** Writing back the value a field already holds changes nothing, and only then. */
  lemma PropSetNoOp<V>(obj: map<string, V>, key: string, v: V)
    ensures PropSet(obj, key, v) == obj <==> key in obj && obj[key] == v
  {
    if key in obj && obj[key] == v {
      assert PropSet(obj, key, v).Keys == obj.Keys;
    }
  }

  /** Writing a field and then removing it leaves the object with that field removed. */
  lemma PropSetThenRemove<V>(obj: map<string, V>, key: string, v: V)
    ensures RemoveAttribs(PropSet(obj, key, v), [key]) == RemoveAttribs(obj, [key])
  {
    assert RemoveAttribs(PropSet(obj, key, v), [key]).Keys == RemoveAttribs(obj, [key]).Keys;
  }
}
