/** MathUtil: clamping an int or long into a range, and drawing a random
    int or long from a half-open range. */
module MathUtil {
  import opened Wrappers

  /** The two integer overloads: Java int (32 bits) and long (64 bits). */
  datatype Width = Int | Long

  function MinValue(w: Width): int {
    match w
    case Int => -0x8000_0000
    case Long => -0x8000_0000_0000_0000
  }

  function MaxValue(w: Width): int {
    match w
    case Int => 0x7fff_ffff
    case Long => 0x7fff_ffff_ffff_ffff
  }

  /** `x` is a value of the Java type of width `w`. */
  predicate Fits(w: Width, x: int) {
    MinValue(w) <= x <= MaxValue(w)
  }

  /** Math.min(max, Math.max(min, value)). */
  function Clamp(value: int, min: int, max: int): (r: int)
    requires min <= max
    ensures min <= r <= max
    ensures min <= value <= max ==> r == value
    ensures value < min ==> r == min
    ensures value > max ==> r == max
  {
    if value < min then min else if value > max then max else value
  }

  /** adjustToRange (int and long overloads): IllegalArgumentException when
      min > max, otherwise the value of [min, max] closest to `value`. */
  function AdjustToRange(w: Width, value: int, min: int, max: int): (r: Result<int, JavaException>)
    requires Fits(w, value) && Fits(w, min) && Fits(w, max)
    ensures r.Err? <==> min > max
    ensures r.Err? ==> r.error == IllegalArgumentException
    ensures r.Ok? ==> Fits(w, r.value) && min <= r.value <= max
    ensures r.Ok? ==> (min <= value <= max <==> r.value == value)
    ensures r.Ok? && value < min ==> r.value == min
    ensures r.Ok? && value > max ==> r.value == max
  {
    if min > max then Err(IllegalArgumentException) else Ok(Clamp(value, min, max))
  }

  /** Adjusting an adjusted value changes nothing. */
  lemma AdjustToRangeIdempotent(w: Width, value: int, min: int, max: int)
    requires Fits(w, value) && Fits(w, min) && Fits(w, max)
    requires AdjustToRange(w, value, min, max).Ok?
    ensures AdjustToRange(w, AdjustToRange(w, value, min, max).value, min, max) == AdjustToRange(w, value, min, max)
  {
  }

  /** The adjusted value is the closest point of the range: no value of the
      range is nearer to `value`. */
  lemma AdjustToRangeIsClosest(w: Width, value: int, min: int, max: int, other: int)
    requires Fits(w, value) && Fits(w, min) && Fits(w, max) && min <= other <= max
    ensures var r := AdjustToRange(w, value, min, max);
      r.Ok? && Distance(r.value, value) <= Distance(other, value)
  {
  }

  function Distance(a: int, b: int): nat {
    if a < b then b - a else a - b
  }

  /** Adjusting keeps the order of values. */
  lemma AdjustToRangeMonotone(w: Width, x: int, y: int, min: int, max: int)
    requires Fits(w, x) && Fits(w, y) && Fits(w, min) && Fits(w, max) && min <= max && x <= y
    ensures AdjustToRange(w, x, min, max).value <= AdjustToRange(w, y, min, max).value
  {
  }

  lemma AdjustToRangeExamples()
    ensures AdjustToRange(Int, 4, 2, 5) == Ok(4)
    ensures AdjustToRange(Int, 1, 2, 5) == Ok(2)
    ensures AdjustToRange(Int, 7, 2, 5) == Ok(5)
    ensures AdjustToRange(Int, -10, -3, 9) == Ok(-3)
    ensures AdjustToRange(Long, 2, -123125912, 59129293912) == Ok(2)
    ensures AdjustToRange(Int, 0, 9, 8) == Err(IllegalArgumentException)
    ensures AdjustToRange(Long, 0, 9, 8) == Err(IllegalArgumentException)
  {
  }

  /** randomInt / randomLong: Random.nextInt(origin, bound) and
      Random.nextLong(origin, bound) throw IllegalArgumentException unless
      origin < bound, and otherwise return some value of [origin, bound). The
      draw itself is an arbitrary choice. */
  method RandomBetween(w: Width, minInclusive: int, maxExclusive: int) returns (r: Result<int, JavaException>)
    requires Fits(w, minInclusive) && Fits(w, maxExclusive)
    ensures r.Err? <==> minInclusive >= maxExclusive
    ensures r.Err? ==> r.error == IllegalArgumentException
    ensures r.Ok? ==> Fits(w, r.value) && minInclusive <= r.value < maxExclusive
  {
    if minInclusive >= maxExclusive {
      return Err(IllegalArgumentException);
    }
    var drawn :| minInclusive <= drawn < maxExclusive;
    r := Ok(drawn);
  }

  /** With a range of one value there is nothing to choose. */
  method RandomBetweenSingleton(w: Width, value: int) returns (r: Result<int, JavaException>)
    requires Fits(w, value) && Fits(w, value + 1)
    ensures r == Ok(value)
  {
    r := RandomBetween(w, value, value + 1);
  }
}
