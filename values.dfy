/** The JavaScript values the inventory UI reads out of records and puts into
    requests, and the three operators it applies to them: `??` (nullish
    coalescing), `||` (logical or on truthiness) and `===` (strict equality).

    A document field that is absent reads as `undefined`; here that is `None`
    in an `Option<Value>`. A field that is present holds a `Value`, which may be
    `null`. Numbers are exact reals plus NaN. */
module Js {

  datatype Option<+T> = None | Some(value: T)

  datatype Value = Null | Bool(b: bool) | Num(x: real) | NaN | Str(s: string)

  /** `null` or `undefined`: the only values on which `??` falls through. */
  predicate Nullish(a: Option<Value>) {
    a.None? || a == Some(Null)
  }

  /** `a ?? b`: a present value, even `""`, `0` or `false`, is kept. */
  function Coalesce(a: Option<Value>, b: Option<Value>): (r: Option<Value>)
    ensures !Nullish(a) ==> r == a
    ensures Nullish(a) ==> r == b
    ensures Nullish(r) <==> Nullish(a) && Nullish(b)
  {
    if Nullish(a) then b else a
  }

  /** JavaScript truthiness: `null`, `false`, `0`, `NaN` and `""` are falsy. */
  predicate Truthy(v: Value) {
    match v
    case Null => false
    case Bool(b) => b
    case Num(x) => x != 0.0
    case NaN => false
    case Str(s) => s != ""
  }

  /** `a || b` on two present values. */
  function Or(a: Value, b: Value): (r: Value)
    ensures Truthy(a) ==> r == a
    ensures !Truthy(a) ==> r == b
    ensures Truthy(r) <==> Truthy(a) || Truthy(b)
  {
    if Truthy(a) then a else b
  }

  /** `===` on two present values, case by case as the language defines it. */
  predicate ValueStrictEquals(x: Value, y: Value) {
    match (x, y)
    case (Null, Null) => true
    case (Bool(p), Bool(q)) => p == q
    case (Num(m), Num(n)) => m == n
    case (Str(s), Str(t)) => s == t
    case _ => false
  }

  /** `a === b`, where either side may be `undefined`. On the values modelled
      here it is structural equality, except that NaN equals nothing. */
  function StrictEquals(a: Option<Value>, b: Option<Value>): (r: bool)
    ensures r <==> a == b && a != Some(NaN)
  {
    match (a, b)
    case (None, None) => true
    case (Some(x), Some(y)) => ValueStrictEquals(x, y)
    case _ => false
  }

  /** `a ?? b ?? c` means the same however it is bracketed. */
  lemma CoalesceAssociative(a: Option<Value>, b: Option<Value>, c: Option<Value>)
    ensures Coalesce(Coalesce(a, b), c) == Coalesce(a, Coalesce(b, c))
  {
  }

  /** `??` and `||` part ways exactly on the present falsy values. */
  lemma CoalesceVersusOr(v: Value, d: Value)
    requires Truthy(d)
    ensures (Coalesce(Some(v), Some(d)) == Some(Or(v, d))) <==> (Truthy(v) || v == d || v == Null)
  {
  }
}
