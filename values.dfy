/** JavaScript values as the record store sees them: the fields of a request
    body and of a stored record, and JavaScript's strict equality on them. */
module Values {

  /** A JavaScript value, as far as `===` can tell two of them apart.
      Numbers are integral (the store's own ids come from `Date.now()`);
      an object or an array is `Composite`. */
  datatype Value =
    | Undefined
    | Null
    | Bool(b: bool)
    | Num(n: int)
    | Str(s: string)
    | Composite

  /** JavaScript's `===`: same type and same value. Objects and arrays
      compare by identity, and every parse of a request or of the file
      builds fresh ones, so a composite is never strictly equal to
      anything here. In particular `Str("5")` is not `Num(5)`. */
  predicate StrictEquals(a: Value, b: Value)
    ensures StrictEquals(a, b) <==> a == b && !a.Composite?
  {
    match a
    case Undefined => b.Undefined?
    case Null => b.Null?
    case Bool(x) => b.Bool? && b.b == x
    case Num(x) => b.Num? && b.n == x
    case Str(x) => b.Str? && b.s == x
    case Composite => false
  }
}
