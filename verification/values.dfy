/** Shared value types of the water-level comparison engine.

    A sample is a water level in fixed-point units of 1e-4 m, or `None` for a
    missing value (pandas NaN). Every comparison in the engine is taken after
    rounding to 4 decimals, which is the identity on this grid, so no floating
    point appears anywhere in the model.
 */
module Values {

  datatype Option<+T> = None | Some(value: T)

  /** One water-level sample: `Some(units)` with 1 unit = 1e-4 m, or `None` for NaN. */
  type Sample = Option<int>

  /** Number of fixed-point units in one metre. */
  const Scale: int := 10000

  /** The exceptions the modelled Python code can raise. */
  datatype PyError = IndexError | KeyError | ValueError | ZeroDivisionError

  /** What a call of the modelled code does: return a value, raise, or loop forever. */
  datatype Outcome<+T> = Done(value: T) | Raised(error: PyError) | Hangs

  /** One row of a (dt, wl) frame: an opaque ordered timestamp and a water level. */
  datatype Observation = Observation(dt: int, wl: Sample)

  /** `round(reference - primary, 4)`: NaN as soon as either operand is NaN. */
  function Disc(reference: Sample, primary: Sample): (d: Sample)
    ensures d.Some? <==> reference.Some? && primary.Some?
    ensures d.Some? ==> primary.value + d.value == reference.value
  {
    if reference.Some? && primary.Some? then Some(reference.value - primary.value) else None
  }

  /** `value + offset` on a possibly-missing value (NaN stays NaN). */
  function Plus(a: Sample, offset: int): (s: Sample)
    ensures s.Some? <==> a.Some?
    ensures s.Some? ==> s.value - offset == a.value
  {
    if a.Some? then Some(a.value + offset) else None
  }

  /** Python float `==`: NaN is equal to nothing, not even NaN. */
  predicate FloatEq(a: Sample, b: Sample) {
    a.Some? && b.Some? && a.value == b.value
  }

  /** Absolute value, as Python's `abs` on a number (NaN stays NaN). */
  function Abs(a: Sample): (s: Sample)
    ensures s.Some? <==> a.Some?
    ensures s.Some? ==> s.value >= 0 && (s.value == a.value || s.value == -a.value)
  {
    if a.Some? then Some(if a.value < 0 then -a.value else a.value) else None
  }
}
