/**
 Evaluation of one condition of a link against the query parameters: the
 private helper `areCoincidences` and the one-level `NOT` unwrapping done by
 its caller. PHP's loose comparisons are replaced by typed ones: an ordering
 holds only between two integers, and membership uses structural equality.
 */
module Conditions {
  import opened Values

  /** `$p >= $bound`, defined between integers only. */
  predicate AtLeast(p: Value, bound: Value)
  {
    p.Int? && bound.Int? && p.i >= bound.i
  }

  /** `$p <= $bound`, defined between integers only. */
  predicate AtMost(p: Value, bound: Value)
  {
    p.Int? && bound.Int? && p.i <= bound.i
  }

  /** `in_array($x, $list)`. */
  predicate Member(x: Value, list: Value)
  {
    x in ValuesOf(list)
  }

  /** `!empty(array_intersect($a, $b))`: the two arrays share a value. */
  predicate Overlaps(a: Value, b: Value)
  {
    exists x :: x in ValuesOf(a) && x in ValuesOf(b)
  }

  /** A range condition: an array with a `from` or a `to` entry. */
  predicate IsRange(cond: Value)
  {
    cond.Arr? && (IsSet(cond, "from") || IsSet(cond, "to"))
  }

  /**
   `areCoincidences($params, $key, $value)`: whether the parameter named `key`
   satisfies the (un-negated) condition `cond`.
   */
  function Coincides(params: Value, key: string, cond: Value): bool
  {
    var p := Field(params, key);
    if p == Null then false
    else if cond.Arr? then
      if IsSet(cond, "from") && IsSet(cond, "to") then
        AtLeast(p, Field(cond, "from")) && AtMost(p, Field(cond, "to"))
      else if IsSet(cond, "from") then AtLeast(p, Field(cond, "from"))
      else if IsSet(cond, "to") then AtMost(p, Field(cond, "to"))
      else if p.Arr? then Overlaps(cond, p)
      else Member(p, cond)
    else if p.Arr? then Member(cond, p)
    else p == cond
  }

  /**
   What `areCoincidences` decides, case by case: a missing parameter never
   coincides; a range checks the bounds it has, inclusively; a list condition
   asks for membership of a scalar parameter or a shared value with a list
   parameter; a scalar condition asks for membership in a list parameter or
   strict equality with a scalar one.
   */
  lemma CoincidesMeaning(params: Value, key: string, cond: Value)
    // a parameter that is missing or null never satisfies anything
    ensures !IsSet(params, key) ==> !Coincides(params, key, cond)
    // ranges: inclusive bounds, both checked when both are given
    ensures IsRange(cond) ==>
      (Coincides(params, key, cond) <==>
         && IsSet(params, key)
         && (IsSet(cond, "from") ==> AtLeast(Field(params, key), Field(cond, "from")))
         && (IsSet(cond, "to") ==> AtMost(Field(params, key), Field(cond, "to"))))
    // list condition: membership for a scalar parameter, a shared value for a list parameter
    ensures cond.Arr? && !IsRange(cond) && IsSet(params, key) ==>
      (Coincides(params, key, cond) <==>
         exists x :: x in ValuesOf(cond) &&
           (if Field(params, key).Arr? then x in ValuesOf(Field(params, key)) else x == Field(params, key)))
    // scalar condition: membership in a list parameter, strict equality with a scalar one
    ensures !cond.Arr? && IsSet(params, key) ==>
      (Coincides(params, key, cond) <==>
         if Field(params, key).Arr? then cond in ValuesOf(Field(params, key)) else Field(params, key) == cond)
  {
  }

  /** The condition `{NOT: c}`. */
  function Not(c: Value): Value
  {
    Arr([(StrKey("NOT"), c)])
  }

  /**
   One `(key, condition)` pair of a link, lines 90-101 of the matcher: a `NOT`
   entry is unwrapped once and the wrapped condition's verdict inverted.
   */
  function ConditionHolds(params: Value, key: string, cond: Value): bool
  {
    if IsSet(cond, "NOT") then !Coincides(params, key, Field(cond, "NOT"))
    else Coincides(params, key, cond)
  }

  /** Negation law: `{NOT: c}` holds exactly when `c` does not coincide. */
  lemma NotInverts(params: Value, key: string, c: Value)
    requires c != Null
    ensures ConditionHolds(params, key, Not(c)) == !Coincides(params, key, c)
  {
    assert Field(Not(c), "NOT") == c;
  }

  /** The inversion also applies to the missing-parameter verdict, so `{NOT: c}` holds then. */
  lemma NotHoldsOnMissingKey(params: Value, key: string, c: Value)
    requires c != Null
    requires !IsSet(params, key)
    ensures ConditionHolds(params, key, Not(c))
  {
    NotInverts(params, key, c);
  }

  /**
   Negation is one level deep: `{NOT: {NOT: c}}` with a scalar `c` treats the
   inner `{NOT: c}` as a one-element list condition, which coincides exactly
   when `c` does, so the double negation acts as a single one.
   */
  lemma DoubleNotActsAsNot(params: Value, key: string, c: Value)
    requires c != Null && !c.Arr?
    ensures ConditionHolds(params, key, Not(Not(c))) == ConditionHolds(params, key, Not(c))
  {
    NotInverts(params, key, Not(c));
    NotInverts(params, key, c);
    var inner := Not(c);
    assert ValuesOf(inner) == [c];
    assert !IsRange(inner);
    if IsSet(params, key) {
      var p := Field(params, key);
      if p.Arr? {
        assert Overlaps(inner, p) <==> c in ValuesOf(p);
      }
    }
  }
}
