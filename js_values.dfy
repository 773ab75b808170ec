/** How the notifier's numeric guards see a JavaScript argument.
    `isNaN(x)` and the comparisons `x >= 1`, `x > 0` coerce `x` to a number
    first; the model keeps only the outcome of that coercion. */
module JsValues {

  /** The number an argument coerces to: NaN (undefined, a non-numeric string,
      a plain object), a finite number (kept exactly, as a real), or one of
      the two infinities. */
  datatype NumArg = NaN | Num(value: real) | PosInf | NegInf

  /** `!isNaN(x) && x >= lo && x <= hi` */
  predicate WithinClosed(x: NumArg, lo: real, hi: real)
  {
    x.Num? && lo <= x.value <= hi
  }

  /** `!isNaN(x) && x > 0` */
  predicate IsPositive(x: NumArg)
  {
    (x.Num? && x.value > 0.0) || x.PosInf?
  }
}
