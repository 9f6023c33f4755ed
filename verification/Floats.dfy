/** 64-bit floats up to what equality can see. */
module Floats {
  /** `Number` stands for every bit pattern that is neither NaN nor a zero. */
  datatype Float = NaN | NegZero | PosZero | Number(bits: int)

  /** `==` on `f64`: NaN equals nothing and the zeros are equal. */
  predicate FloatEq(a: Float, b: Float) {
    a != NaN && b != NaN && (a == b || (!a.Number? && !b.Number?))
  }
}
