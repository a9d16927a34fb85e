/**
 Typed index cells and their ascending order. Floating-point cells are kept as their IEEE 754 bit
 patterns, so that signed zeros and NaNs behave as they do in the program.
 */
module IndexCells {
  import opened Results
  import opened Lexicographic
  import Arithmetic

  type Bits32 = n: nat | n < 0x1_0000_0000
  type Bits64 = n: nat | n < 0x1_0000_0000_0000_0000
  type Int32Value = n: int | -0x8000_0000 <= n < 0x8000_0000
  type Int64Value = n: int | -0x8000_0000_0000_0000 <= n < 0x8000_0000_0000_0000
  type Byte = n: nat | n < 256
  type ByteString = s: seq<Byte> | |s| < 0x1_0000_0000_0000_0000

  datatype IndexCell =
    | Int32(i32: Int32Value)
    | Uint32(u32: Bits32)
    | Int64(i64: Int64Value)
    | Uint64(u64: Bits64)
    | Bool(flag: bool)
    | Float(bits32: Bits32)
    | Double(bits64: Bits64)
    | Text(text: ByteString)
    | Bytes(bytes: ByteString)

  /** The type of a column; message-valued columns cannot hold cells. */
  datatype Kind = KInt32 | KUint32 | KInt64 | KUint64 | KBool | KFloat | KDouble | KText | KBytes | KMessage

  function KindOf(c: IndexCell): Kind {
    match c
    case Int32(_) => KInt32
    case Uint32(_) => KUint32
    case Int64(_) => KInt64
    case Uint64(_) => KUint64
    case Bool(_) => KBool
    case Float(_) => KFloat
    case Double(_) => KDouble
    case Text(_) => KText
    case Bytes(_) => KBytes
  }

  // -------------------------------------------------------------------------
  // IEEE 754 values
  // -------------------------------------------------------------------------

  const FLOAT_FRACTION: nat := 0x80_0000
  const FLOAT_SIGN: nat := 0x8000_0000
  const FLOAT_INFINITY: nat := 0x7F80_0000
  const DOUBLE_FRACTION: nat := 0x10_0000_0000_0000
  const DOUBLE_SIGN: nat := 0x8000_0000_0000_0000
  const DOUBLE_INFINITY: nat := 0x7FF0_0000_0000_0000

  /**
   The absolute value of a bit pattern without its sign bit, in units of the smallest positive
   number. `f` is two to the number of fraction bits. Infinity counts as the first value that is
   too large to be finite.
   */
  function Units(f: nat, m: nat): nat
    requires f > 0
  {
    if m < f then m else (f + m % f) * Arithmetic.Pow(2, m / f - 1)
  }

  /** The number a bit pattern stands for, again in units of the smallest positive number. */
  function NumberOf(f: nat, sign: nat, bits: nat): int
    requires f > 0
  {
    if bits < sign then Units(f, bits) else 0 - Units(f, bits - sign)
  }

  predicate IsNaN(c: IndexCell) {
    match c
    case Float(b) => b % FLOAT_SIGN > FLOAT_INFINITY
    case Double(b) => b % DOUBLE_SIGN > DOUBLE_INFINITY
    case _ => false
  }

  predicate IsNegativeZero(c: IndexCell) {
    c == Float(FLOAT_SIGN) || c == Double(DOUBLE_SIGN)
  }

  lemma UnitsAt(f: nat, q: nat, k: nat)
    requires k < f && q >= 1
    ensures Units(f, q * f + k) == (f + k) * Arithmetic.Pow(2, q - 1)
  {
    Arithmetic.DivModOf(f, q, k);
    Arithmetic.MulLe(1, q, f);
  }

  lemma Scale(a: nat, b: nat, p: nat)
    requires a < b && p > 0
    ensures a * p < b * p
  {
  }

  /** The next larger pattern stands for a larger number. */
  lemma UnitsStep(f: nat, m: nat)
    requires f > 0
    ensures Units(f, m) < Units(f, m + 1)
  {
    hide Units;
    Arithmetic.DivModDef(m, f);
    Arithmetic.DivNonNegative(m, f);
    var q, k := m / f, m % f;
    if q == 0 {
      SubnormalStep(f, m);
    } else {
      UnitsAt(f, q, k);
      if k + 1 < f {
        UnitsAt(f, q, k + 1);
        Scale(f + k, f + k + 1, Arithmetic.Pow(2, q - 1));
      } else {
        ExponentStep(f, q);
      }
    }
  }

  /** From the last pattern of an exponent to the first of the next. */
  lemma ExponentStep(f: nat, q: nat)
    requires f > 0 && q >= 1
    ensures Units(f, q * f + f - 1) < Units(f, q * f + f)
  {
    hide Units;
    UnitsAt(f, q, f - 1);
    UnitsAt(f, q + 1, 0);
    assert (q + 1) * f == q * f + f;
    var p := Arithmetic.Pow(2, q - 1);
    assert f * (2 * p) == (2 * f) * p;
    Scale(f + (f - 1), 2 * f, p);
  }

  lemma SubnormalStep(f: nat, m: nat)
    requires m < f
    ensures Units(f, m) < Units(f, m + 1)
  {
    if m + 1 == f {
      UnitsAt(f, 1, 0);
    }
  }

  lemma {:induction false} UnitsIncrease(f: nat, m: nat, n: nat)
    requires f > 0 && m < n
    ensures Units(f, m) < Units(f, n)
    decreases n - m
  {
    UnitsStep(f, n - 1);
    if m < n - 1 {
      UnitsIncrease(f, m, n - 1);
    }
  }

  /** Numbers grow with their bits, negatives mirror positives, and the sign decides between them. */
  lemma NumberOrder(f: nat, sign: nat, a: nat, b: nat)
    requires f > 0 && a < sign && b < sign
    ensures NumberOf(f, sign, a) < NumberOf(f, sign, b) <==> a < b
    ensures NumberOf(f, sign, sign + a) == 0 - NumberOf(f, sign, a)
    ensures NumberOf(f, sign, a) >= 0 && (NumberOf(f, sign, a) == 0 <==> a == 0)
  {
    assert Units(f, 0) == 0;
    if a < b {
      UnitsIncrease(f, a, b);
    } else if b < a {
      UnitsIncrease(f, b, a);
    }
    if a > 0 {
      UnitsIncrease(f, 0, a);
    }
  }

  /** A NaN has all exponent bits set and some fraction bit; infinities have none. */
  lemma NaNBits(b: Bits32, d: Bits64)
    ensures IsNaN(Float(b)) <==> (b / 0x80_0000) % 256 == 255 && b % 0x80_0000 != 0
    ensures IsNaN(Double(d)) <==> (d / 0x10_0000_0000_0000) % 2048 == 2047 && d % 0x10_0000_0000_0000 != 0
  {
    NaNField(b, 0x80_0000, 256);
    NaNField(d, 0x10_0000_0000_0000, 2048);
  }

  /** `f` is two to the number of fraction bits and `e` two to the number of exponent bits. */
  lemma NaNField(n: nat, f: nat, e: nat)
    requires f > 0 && e > 0 && f * e > 0
    ensures n % (f * e) > f * (e - 1) <==> (n / f) % e == e - 1 && n % f != 0
  {
    var q, r := n / f, n % f;
    Arithmetic.DivModDef(n, f);
    Arithmetic.DivNonNegative(n, f);
    var s, t := q / e, q % e;
    Arithmetic.DivModDef(q, e);
    assert n == s * (f * e) + (t * f + r);
    Arithmetic.MulLe(t + 1, e, f);
    assert (t + 1) * f == t * f + f && e * f == f * e;
    Arithmetic.DivModOf(f * e, s, t * f + r);
    if t < e - 1 {
      Arithmetic.MulLe(t + 1, e - 1, f);
      assert (e - 1) * f == f * (e - 1);
    } else {
      assert t * f == f * (e - 1);
    }
  }

  /** Only the two zeros share a number. */
  lemma NumberInjective(f: nat, sign: nat, a: nat, b: nat)
    requires f > 0 && NumberOf(f, sign, a) == NumberOf(f, sign, b)
    ensures a == b || {a, b} == {0, sign}
  {
    var x, y := if a < sign then a else a - sign, if b < sign then b else b - sign;
    assert Units(f, 0) == 0;
    if x < y {
      UnitsIncrease(f, x, y);
    }
    if y < x {
      UnitsIncrease(f, y, x);
    }
    if x > 0 {
      UnitsIncrease(f, 0, x);
    }
    if y > 0 {
      UnitsIncrease(f, 0, y);
    }
  }

  // -------------------------------------------------------------------------
  // Comparison
  // -------------------------------------------------------------------------

  function CompareInts(a: int, b: int): int {
    if a < b then -1 else if a > b then 1 else 0
  }

  function CompareStrings(a: seq<int>, b: seq<int>): int {
    if Less(a, b) then -1 else if Less(b, a) then 1 else 0
  }

  function BoolRank(b: bool): int {
    if b then 1 else 0
  }

  function FloatNumber(b: Bits32): int {
    NumberOf(FLOAT_FRACTION, FLOAT_SIGN, b)
  }

  function DoubleNumber(b: Bits64): int {
    NumberOf(DOUBLE_FRACTION, DOUBLE_SIGN, b)
  }

  /** Three-way comparison; cells of different types and NaNs have no order. */
  function CompareIndexCellAscending(a: IndexCell, b: IndexCell): Result<int> {
    if KindOf(a) != KindOf(b) then Err(InvalidArgument)
    else
      match a
      case Int32(x) => Ok(CompareInts(x, b.i32))
      case Uint32(x) => Ok(CompareInts(x, b.u32))
      case Int64(x) => Ok(CompareInts(x, b.i64))
      case Uint64(x) => Ok(CompareInts(x, b.u64))
      case Bool(x) => Ok(CompareInts(BoolRank(x), BoolRank(b.flag)))
      case Float(x) =>
        if IsNaN(a) || IsNaN(b) then Err(InvalidArgument) else Ok(CompareInts(FloatNumber(x), FloatNumber(b.bits32)))
      case Double(x) =>
        if IsNaN(a) || IsNaN(b) then Err(InvalidArgument) else Ok(CompareInts(DoubleNumber(x), DoubleNumber(b.bits64)))
      case Text(x) => Ok(CompareStrings(x, b.text))
      case Bytes(x) => Ok(CompareStrings(x, b.bytes))
  }

  /** The program's `==` on cells: equal numbers are equal, and a NaN equals nothing. */
  predicate CellsEqual(a: IndexCell, b: IndexCell) {
    CompareIndexCellAscending(a, b) == Ok(0)
  }

  /** Every cell as a key of the byte-wise order. */
  function RankOf(c: IndexCell): seq<int> {
    match c
    case Int32(x) => [x]
    case Uint32(x) => [x]
    case Int64(x) => [x]
    case Uint64(x) => [x]
    case Bool(x) => [BoolRank(x)]
    case Float(x) => [FloatNumber(x)]
    case Double(x) => [DoubleNumber(x)]
    case Text(x) => x
    case Bytes(x) => x
  }

  predicate Comparable(a: IndexCell, b: IndexCell) {
    KindOf(a) == KindOf(b) && !IsNaN(a) && !IsNaN(b)
  }

  lemma CompareSingletons(x: int, y: int)
    ensures CompareStrings([x], [y]) == CompareInts(x, y)
  {
    assert !Less([x][1..], [y][1..]) && !Less([y][1..], [x][1..]);
  }

  lemma CompareByRank(a: IndexCell, b: IndexCell)
    ensures CompareIndexCellAscending(a, b) ==
            if Comparable(a, b) then Ok(CompareStrings(RankOf(a), RankOf(b))) else Err(InvalidArgument)
  {
    hide FloatNumber, DoubleNumber;
    if KindOf(a) == KindOf(b) && !a.Text? && !a.Bytes? {
      CompareSingletons(RankOf(a)[0], RankOf(b)[0]);
    }
  }

  /** Comparing the other way round flips the answer; a tie means equal ranks. */
  lemma CompareFlips(a: IndexCell, b: IndexCell)
    ensures match CompareIndexCellAscending(a, b)
            case Ok(n) => CompareIndexCellAscending(b, a) == Ok(-n) && (n == 0 <==> RankOf(a) == RankOf(b))
            case Err(s) => CompareIndexCellAscending(b, a) == Err(s)
  {
    CompareByRank(a, b);
    CompareByRank(b, a);
    Trichotomy(RankOf(a), RankOf(b));
    Irreflexive(RankOf(a));
    if Less(RankOf(a), RankOf(b)) {
      Asymmetric(RankOf(a), RankOf(b));
    }
  }

  /** Cells that tie are the same cell, except for the two zeros. */
  lemma TiesAreEqual(a: IndexCell, b: IndexCell)
    requires CompareIndexCellAscending(a, b) == Ok(0)
    ensures a == b || IsNegativeZero(a) || IsNegativeZero(b)
  {
    CompareFlips(a, b);
    match a
    case Float(x) =>
      assert FloatNumber(x) == RankOf(a)[0] == RankOf(b)[0] == FloatNumber(b.bits32);
      NumberInjective(FLOAT_FRACTION, FLOAT_SIGN, x, b.bits32);
    case Double(x) =>
      assert DoubleNumber(x) == RankOf(a)[0] == RankOf(b)[0] == DoubleNumber(b.bits64);
      NumberInjective(DOUBLE_FRACTION, DOUBLE_SIGN, x, b.bits64);
    case Text(_) =>
    case Bytes(_) =>
    case _ => assert RankOf(a)[0] == RankOf(b)[0];
  }
}
