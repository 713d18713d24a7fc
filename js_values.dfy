/**
 * The few JavaScript values the dispatcher's arithmetic and results range over.
 */
module JsValues {

  /**
   * A JavaScript number, restricted to the integer-valued finite numbers
   * plus `NaN` and the two infinities.
   */
  datatype Num = Int(value: int) | NaN | Infinity(negative: bool) {

    /** `isFinite(x)` */
    predicate IsFinite() {
      Int?
    }

    /** `x >= 1`; every comparison with `NaN` is false. */
    predicate AtLeastOne() {
      (Int? && value >= 1) || (Infinity? && !negative)
    }
  }

  /** A value that may be `undefined`. */
  datatype Option<T> = None | Some(value: T)
}
