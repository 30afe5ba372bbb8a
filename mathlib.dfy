/**
 * The free-standing parts of the library: its named constants and the
 * `absolute` helper that every other routine may use.
 */
module MathLib {

  /** The golden ratio, as the literal the library defines. */
  const GoldenRatio: real := 1.6180339887498948

  /**
   * Magnitude of `value`: a negative value is multiplied by -1, any other
   * value is returned unchanged.
   */
  function Absolute(value: real): (r: real)
    ensures r >= 0.0
    ensures r == value || r == -value
  {
    if value < 0.0 then value * -1.0 else value
  }

  /** The same helper instantiated with integers. */
  function AbsoluteInt(value: int): (r: int)
    ensures r >= 0
    ensures r == value || r == -value
  {
    if value < 0 then value * -1 else value
  }

  /** The magnitude is the same for a value and its negation. */
  lemma AbsoluteOfNegation(value: real)
    ensures Absolute(-value) == Absolute(value)
  {
  }

  /** The result is `value` exactly when `value` is non-negative. */
  lemma AbsoluteIdentityIff(value: real)
    ensures Absolute(value) == value <==> value >= 0.0
  {
  }

  /** The reciprocal of the golden ratio lies strictly between one half and one. */
  lemma GoldenRatioReciprocal()
    ensures 0.5 < 1.0 / GoldenRatio < 1.0
  {
  }
}
