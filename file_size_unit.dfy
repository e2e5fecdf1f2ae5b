/** FileSizeUnit: five units, each 1024 times the previous one, and the
    conversion of a size between them, over exact reals. */
module FileSizeUnits {

  datatype FileSizeUnit = Byte | Kilobyte | Megabyte | Gigabyte | Terabyte

  /** Position of the unit in declaration order. */
  function Ordinal(u: FileSizeUnit): nat {
    match u
    case Byte => 0
    case Kilobyte => 1
    case Megabyte => 2
    case Gigabyte => 3
    case Terabyte => 4
  }

  function Pow(b: nat, e: nat): nat {
    if e == 0 then 1 else b * Pow(b, e - 1)
  }

  /** getNumberOfBytes: the constant each unit is declared with; every one
      is positive and fits in a Java long. */
  function NumberOfBytes(u: FileSizeUnit): (n: nat)
    ensures 0 < n < 0x8000_0000_0000_0000
  {
    match u
    case Byte => 1
    case Kilobyte => 1_024
    case Megabyte => 1_048_576
    case Gigabyte => 1_073_741_824
    case Terabyte => 1_099_511_627_776
  }

  /** The constant of each unit is 1024 to the power of its position. */
  lemma NumberOfBytesIsPower(u: FileSizeUnit)
    ensures NumberOfBytes(u) == Pow(1024, Ordinal(u))
  {
    assert Pow(1024, 1) == 1024;
    assert Pow(1024, 2) == 1024 * 1024;
    assert Pow(1024, 3) == 1024 * 1024 * 1024;
    assert Pow(1024, 4) == 1024 * 1024 * 1024 * 1024;
  }

  /** Each unit holds exactly 1024 of the previous one. */
  lemma NextUnitIs1024Times(u: FileSizeUnit, v: FileSizeUnit)
    requires Ordinal(v) == Ordinal(u) + 1
    ensures NumberOfBytes(v) == 1024 * NumberOfBytes(u)
  {
    NumberOfBytesIsPower(u);
    NumberOfBytesIsPower(v);
  }

  lemma {:induction false} PowGrows(b: nat, i: nat, j: nat)
    requires b > 1 && i < j
    ensures 0 < Pow(b, i) < Pow(b, j)
    decreases j
  {
    if i + 1 == j {
      PowPositive(b, i);
    } else {
      PowGrows(b, i, j - 1);
    }
  }

  lemma {:induction false} PowPositive(b: nat, e: nat)
    requires b > 0
    ensures Pow(b, e) > 0
  {
    if e > 0 {
      PowPositive(b, e - 1);
    }
  }

  /** The byte counts strictly increase with the unit order. */
  lemma NumberOfBytesIncreases(u: FileSizeUnit, v: FileSizeUnit)
    ensures Ordinal(u) < Ordinal(v) <==> NumberOfBytes(u) < NumberOfBytes(v)
  {
    NumberOfBytesIsPower(u);
    NumberOfBytesIsPower(v);
    if Ordinal(u) < Ordinal(v) {
      PowGrows(1024, Ordinal(u), Ordinal(v));
    } else if Ordinal(v) < Ordinal(u) {
      PowGrows(1024, Ordinal(v), Ordinal(u));
    }
  }

  /** convert: the size in the target unit that holds the same number of
      bytes as `originalUnitValue` in the original unit. */
  function Convert(originalUnitValue: real, originalUnit: FileSizeUnit, targetUnit: FileSizeUnit): (r: real)
    ensures r * NumberOfBytes(targetUnit) as real == originalUnitValue * NumberOfBytes(originalUnit) as real
  {
    originalUnitValue * (NumberOfBytes(originalUnit) as real / NumberOfBytes(targetUnit) as real)
  }

  /** The size in bytes determines the converted value: any value that holds
      the same number of bytes is the converted one. */
  lemma ConvertUnique(v: real, a: FileSizeUnit, b: FileSizeUnit, w: real)
    requires w * NumberOfBytes(b) as real == v * NumberOfBytes(a) as real
    ensures Convert(v, a, b) == w
  {
    var nb := NumberOfBytes(b) as real;
    assert (Convert(v, a, b) - w) * nb == 0.0;
  }

  lemma ConvertSameUnit(v: real, u: FileSizeUnit)
    ensures Convert(v, u, u) == v
  {
    ConvertUnique(v, u, u, v);
  }

  lemma ConvertRoundTrip(v: real, a: FileSizeUnit, b: FileSizeUnit)
    ensures Convert(Convert(v, a, b), b, a) == v
  {
    ConvertUnique(Convert(v, a, b), b, a, v);
  }

  lemma ConvertComposes(v: real, a: FileSizeUnit, b: FileSizeUnit, c: FileSizeUnit)
    ensures Convert(Convert(v, a, b), b, c) == Convert(v, a, c)
  {
    ConvertUnique(Convert(v, a, b), b, c, Convert(v, a, c));
  }

  /** The conversion factor of a pair of units: positive. */
  lemma RatioPositive(a: FileSizeUnit, b: FileSizeUnit)
    ensures Convert(1.0, a, b) > 0.0
    ensures forall x :: Convert(x, a, b) == x * Convert(1.0, a, b)
  {
  }

  /** Conversion is linear in the value. */
  lemma ConvertLinear(x: real, y: real, k: real, a: FileSizeUnit, b: FileSizeUnit)
    ensures Convert(x + y, a, b) == Convert(x, a, b) + Convert(y, a, b)
    ensures Convert(k * x, a, b) == k * Convert(x, a, b)
  {
    RatioPositive(a, b);
    var f := Convert(1.0, a, b);
    assert (x + y) * f == x * f + y * f;
    assert (k * x) * f == k * (x * f);
  }

  /** Conversion keeps zero and the sign. */
  lemma ConvertKeepsSign(x: real, a: FileSizeUnit, b: FileSizeUnit)
    ensures Convert(x, a, b) > 0.0 <==> x > 0.0
    ensures Convert(x, a, b) == 0.0 <==> x == 0.0
    ensures Convert(x, a, b) < 0.0 <==> x < 0.0
  {
    RatioPositive(a, b);
    var f := Convert(1.0, a, b);
    if x > 0.0 {
      assert x * f > 0.0;
    } else if x < 0.0 {
      assert (-x) * f > 0.0;
    }
  }

  lemma ConvertExamples()
    ensures Convert(1.0, Kilobyte, Byte) == 1024.0
    ensures Convert(1.5, Gigabyte, Megabyte) == 1536.0
    ensures Convert(512.0, Gigabyte, Terabyte) == 0.5
    ensures Convert(2048.0, Byte, Kilobyte) == 2.0
    ensures Convert(-3.0, Terabyte, Terabyte) == -3.0
  {
    ConvertUnique(1.0, Kilobyte, Byte, 1024.0);
    ConvertUnique(1.5, Gigabyte, Megabyte, 1536.0);
    ConvertUnique(512.0, Gigabyte, Terabyte, 0.5);
    ConvertUnique(2048.0, Byte, Kilobyte, 2.0);
    ConvertSameUnit(-3.0, Terabyte);
  }
}
