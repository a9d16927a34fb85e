/** The byte form of index keys: one self-delimiting encoding per cell, concatenated. */
module KeyEncoding {
  import opened Results
  import opened Arithmetic
  import opened IndexCells
  import opened Varint

  /** The low `width` bytes of a number, least significant first. */
  function LittleEndian(width: nat, v: nat): (b: seq<Byte>)
    ensures |b| == width
  {
    if width == 0 then [] else [v % 256] + LittleEndian(width - 1, v / 256)
  }

  lemma {:induction false} LittleEndianInjective(width: nat, v: nat, w: nat)
    requires v < Pow(256, width) && w < Pow(256, width) && LittleEndian(width, v) == LittleEndian(width, w)
    ensures v == w
  {
    if width > 0 {
      assert LittleEndian(width, v)[0] == v % 256 && LittleEndian(width, w)[0] == w % 256;
      assert LittleEndian(width, v)[1..] == LittleEndian(width - 1, v / 256);
      assert LittleEndian(width, w)[1..] == LittleEndian(width - 1, w / 256);
      LittleEndianInjective(width - 1, v / 256, w / 256);
    }
  }

  /** Byte `i` is the one with weight 256 to the power `i`. */
  lemma {:induction false} LittleEndianAt(width: nat, v: nat, i: nat)
    requires i < width
    ensures Pow(256, i) > 0 && LittleEndian(width, v)[i] == (v / Pow(256, i)) % 256
  {
    LittleEndianDigit(width, v, i);
    DigitIs(256, v, i);
  }

  lemma {:induction false} LittleEndianDigit(width: nat, v: nat, i: nat)
    requires i < width
    ensures LittleEndian(width, v)[i] == Digit(256, v, i)
  {
    if i > 0 {
      LittleEndianDigit(width - 1, v / 256, i - 1);
    }
  }

  /** What the bytes of each cell are: the bits of fixed-width values, and counted strings. */
  lemma CellFormat(i32: Int32Value, i64: Int64Value, u32: Bits32, u64: Bits64, s: ByteString)
    ensures CellBytes(Int32(i32)) == LittleEndian(4, i32 % 0x1_0000_0000)
    ensures CellBytes(Int64(i64)) == LittleEndian(8, i64 % TWO64)
    ensures CellBytes(Uint32(u32)) == CellBytes(Float(u32)) == LittleEndian(4, u32)
    ensures CellBytes(Uint64(u64)) == CellBytes(Double(u64)) == LittleEndian(8, u64)
    ensures CellBytes(Bool(false)) == [0] && CellBytes(Bool(true)) == [1]
    ensures CellBytes(Text(s)) == CellBytes(Bytes(s)) == Encoded(|s|) + s
  {
    hide LittleEndian;
    DivModOf(0x1_0000_0000, if i32 < 0 then -1 else 0, Unsigned32(i32));
    DivModOf(TWO64, if i64 < 0 then -1 else 0, Unsigned64(i64));
  }

  /** Two's complement. */
  function Unsigned32(v: Int32Value): nat {
    if v < 0 then v + 0x1_0000_0000 else v
  }

  function Unsigned64(v: Int64Value): nat {
    if v < 0 then v + TWO64 else v
  }

  function LengthPrefixed(s: seq<Byte>): seq<Byte> {
    Encoded(|s|) + s
  }

  /** The bytes that stand for a cell in a key. */
  function CellBytes(c: IndexCell): seq<Byte> {
    match c
    case Int32(v) => LittleEndian(4, Unsigned32(v))
    case Uint32(v) => LittleEndian(4, v)
    case Int64(v) => LittleEndian(8, Unsigned64(v))
    case Uint64(v) => LittleEndian(8, v)
    case Bool(b) => [if b then 1 else 0]
    case Float(bits) => LittleEndian(4, bits)
    case Double(bits) => LittleEndian(8, bits)
    case Text(s) => LengthPrefixed(s)
    case Bytes(s) => LengthPrefixed(s)
  }

  function TupleBytes(cells: seq<IndexCell>): seq<Byte> {
    if cells == [] then [] else CellBytes(cells[0]) + TupleBytes(cells[1..])
  }

  // -------------------------------------------------------------------------
  // Injective and prefix-free
  // -------------------------------------------------------------------------

  lemma SplitAt(a: seq<Byte>, b: seq<Byte>, x: seq<Byte>, y: seq<Byte>)
    requires a + x == b + y && |a| == |b|
    ensures a == b && x == y
  {
    assert a == (a + x)[..|a|] && b == (b + y)[..|b|];
    assert x == (a + x)[|a|..] && y == (b + y)[|b|..];
  }

  lemma LengthPrefixedUnique(s: seq<Byte>, t: seq<Byte>, x: seq<Byte>, y: seq<Byte>)
    requires LengthPrefixed(s) + x == LengthPrefixed(t) + y
    ensures s == t && x == y
  {
    assert LengthPrefixed(s) + x == Encoded(|s|) + (s + x) && LengthPrefixed(t) + y == Encoded(|t|) + (t + y);
    EncodedPrefixFree(|s|, |t|, s + x, t + y);
    SplitAt(s, t, x, y);
  }

  /** Two cells of one type have different bytes, neither a prefix of the other. */
  lemma CellPrefixFree(a: IndexCell, b: IndexCell, x: seq<Byte>, y: seq<Byte>)
    requires KindOf(a) == KindOf(b) && CellBytes(a) + x == CellBytes(b) + y
    ensures a == b && x == y
  {
    hide Encoded, LittleEndian, Pow, LengthPrefixed;
    Pow256();
    match a
    case Text(s) => LengthPrefixedUnique(s, b.text, x, y);
    case Bytes(s) => LengthPrefixedUnique(s, b.bytes, x, y);
    case Bool(_) => SplitAt(CellBytes(a), CellBytes(b), x, y);
    case Int32(v) =>
      SplitAt(CellBytes(a), CellBytes(b), x, y);
      LittleEndianInjective(4, Unsigned32(v), Unsigned32(b.i32));
    case Uint32(v) =>
      SplitAt(CellBytes(a), CellBytes(b), x, y);
      LittleEndianInjective(4, v, b.u32);
    case Int64(v) =>
      SplitAt(CellBytes(a), CellBytes(b), x, y);
      LittleEndianInjective(8, Unsigned64(v), Unsigned64(b.i64));
    case Uint64(v) =>
      SplitAt(CellBytes(a), CellBytes(b), x, y);
      LittleEndianInjective(8, v, b.u64);
    case Float(v) =>
      SplitAt(CellBytes(a), CellBytes(b), x, y);
      LittleEndianInjective(4, v, b.bits32);
    case Double(v) =>
      SplitAt(CellBytes(a), CellBytes(b), x, y);
      LittleEndianInjective(8, v, b.bits64);
  }

  ghost predicate SameSignature(a: seq<IndexCell>, b: seq<IndexCell>) {
    |a| == |b| && forall i :: 0 <= i < |a| ==> KindOf(a[i]) == KindOf(b[i])
  }

  /** Tuples of one signature encode injectively, and no encoding is a prefix of another. */
  lemma {:induction false} TuplePrefixFree(a: seq<IndexCell>, b: seq<IndexCell>, x: seq<Byte>, y: seq<Byte>)
    requires SameSignature(a, b) && TupleBytes(a) + x == TupleBytes(b) + y
    ensures a == b && x == y
  {
    hide CellBytes;
    if a == [] {
      assert x == TupleBytes(a) + x && y == TupleBytes(b) + y;
    } else {
      assert TupleBytes(a) + x == CellBytes(a[0]) + (TupleBytes(a[1..]) + x);
      assert TupleBytes(b) + y == CellBytes(b[0]) + (TupleBytes(b[1..]) + y);
      CellPrefixFree(a[0], b[0], TupleBytes(a[1..]) + x, TupleBytes(b[1..]) + y);
      TuplePrefixFree(a[1..], b[1..], x, y);
      assert a == [a[0]] + a[1..] && b == [b[0]] + b[1..];
    }
  }

  // -------------------------------------------------------------------------
  // The encoders
  // -------------------------------------------------------------------------

  method AppendLittleEndian(width: nat, value: nat, out: seq<Byte>) returns (out': seq<Byte>)
    ensures out' == out + LittleEndian(width, value)
  {
    out' := out;
    var rest := value;
    for i := 0 to width
      invariant out + LittleEndian(width, value) == out' + LittleEndian(width - i, rest)
    {
      out' := out' + [rest % 256];
      rest := rest / 256;
    }
  }

  /**
   The encoder's own check of a length prefix, in 64-bit arithmetic that wraps around. On bytes that
   carry a 64-bit value it accepts the minimal encoding and nothing else.
   */
  method IsMinimalVarintEncoding(encoded: seq<Byte>) returns (minimal: bool)
    ensures minimal <==>
            Terminated(encoded) && |encoded| <= 10 && |Encoded(Carried(encoded) % TWO64)| == |encoded|
    ensures Carried(encoded) < TWO64 ==> (minimal <==> encoded == Encoded(Carried(encoded)))
  {
    hide Encoded, Pow, Carried;
    if Carried(encoded) < TWO64 {
      MinimalIsEncoded(encoded);
    }
    if encoded == [] || |encoded| > 10 {
      return false;
    }
    var value: nat := 0;
    CarriedNothing();
    for i := 0 to |encoded|
      invariant value == Carried(encoded[..i]) % TWO64
      invariant forall j :: 0 <= j < i && j + 1 < |encoded| ==> encoded[j] >= 128
      invariant i == |encoded| ==> encoded[|encoded| - 1] < 128
    {
      var last := i + 1 == |encoded|;
      if last && encoded[i] >= 128 {
        return false;
      }
      if !last && encoded[i] < 128 {
        return false;
      }
      assert encoded[..i + 1] == encoded[..i] + [encoded[i]];
      CarriedGrows(encoded[..i], encoded[i]);
      ModAdd(Carried(encoded[..i]), (encoded[i] % 128) * Pow(128, i), TWO64);
      value := (value + (encoded[i] % 128) * Pow(128, i)) % TWO64;
    }
    assert encoded[..|encoded|] == encoded;
    var n := MinimalLength(value);
    return n == |encoded|;
  }

  lemma MinimalIsEncoded(e: seq<Byte>)
    requires Carried(e) < TWO64
    ensures Terminated(e) && |e| <= 10 && |Encoded(Carried(e) % TWO64)| == |e| <==> e == Encoded(Carried(e))
  {
    hide Encoded;
    var v := Carried(e);
    EncodedFits(v);
    EncodedStopsOnce(v);
    CarriedOfEncoded(v);
    if Terminated(e) && |Encoded(v)| == |e| {
      TerminatedUnique(e, Encoded(v));
    }
  }

  method MinimalLength(value: nat) returns (n: nat)
    ensures n == |Encoded(value)|
  {
    var rest := value;
    n := 1;
    while rest >= 128
      invariant n + |Encoded(rest)| == 1 + |Encoded(value)|
    {
      rest := rest / 128;
      n := n + 1;
    }
  }

  method AppendLengthPrefixed(s: seq<Byte>, out: seq<Byte>) returns (r: Result<seq<Byte>>)
    requires |s| < TWO64
    ensures r == Ok(out + LengthPrefixed(s))
  {
    var length := EncodeVarint(|s|);
    CarriedOfEncoded(|s|);
    var minimal := IsMinimalVarintEncoding(length);
    if !minimal {
      return Err(InvalidArgument);
    }
    assert out + LengthPrefixed(s) == out + length + s;
    return Ok(out + length + s);
  }

  /** The write side: never refuses a cell. */
  method EncodeIndexCell(c: IndexCell, out: seq<Byte>) returns (r: Result<seq<Byte>>)
    ensures r == Ok(out + CellBytes(c))
  {
    hide LittleEndian, LengthPrefixed;
    var b: seq<Byte>;
    match c
    case Int32(v) => b := AppendLittleEndian(4, Unsigned32(v), out); r := Ok(b);
    case Uint32(v) => b := AppendLittleEndian(4, v, out); r := Ok(b);
    case Int64(v) => b := AppendLittleEndian(8, Unsigned64(v), out); r := Ok(b);
    case Uint64(v) => b := AppendLittleEndian(8, v, out); r := Ok(b);
    case Bool(flag) => r := Ok(out + [if flag then 1 else 0]);
    case Float(bits) => b := AppendLittleEndian(4, bits, out); r := Ok(b);
    case Double(bits) => b := AppendLittleEndian(8, bits, out); r := Ok(b);
    case Text(s) => r := AppendLengthPrefixed(s, out);
    case Bytes(s) => r := AppendLengthPrefixed(s, out);
  }

  /** A value as it is read from a message for indexing: no NaN, and zeros are positive. */
  function ScalarValue(raw: IndexCell): (r: Result<IndexCell>)
    ensures r.Ok? <==> !IsNaN(raw)
    ensures r.Ok? ==>
      CellsEqual(r.value, raw) && !IsNegativeZero(r.value) && !IsNaN(r.value) && KindOf(r.value) == KindOf(raw)
  {
    ReadingKeepsValue(raw);
    match raw
    case Float(b) => if IsNaN(raw) then Err(InvalidArgument) else Ok(if FloatNumber(b) == 0 then Float(0) else raw)
    case Double(b) => if IsNaN(raw) then Err(InvalidArgument) else Ok(if DoubleNumber(b) == 0 then Double(0) else raw)
    case _ => Ok(raw)
  }

  lemma ReadingKeepsValue(raw: IndexCell)
    ensures !IsNaN(raw) ==> CellsEqual(raw, raw)
    ensures FloatNumber(0) == FloatNumber(FLOAT_SIGN) == 0 && DoubleNumber(0) == DoubleNumber(DOUBLE_SIGN) == 0
  {
    CompareByRank(raw, raw);
    CompareFlips(raw, raw);
  }

  /** The lookup side, which reads, normalises and encodes in one go. */
  method AppendFieldValue(raw: IndexCell, out: seq<Byte>) returns (r: Result<seq<Byte>>)
    ensures match ScalarValue(raw)
            case Ok(c) => r == Ok(out + CellBytes(c))
            case Err(s) => r == Err(s)
  {
    hide LittleEndian, LengthPrefixed, FloatNumber, DoubleNumber;
    var b: seq<Byte>;
    match raw
    case Int32(v) => b := AppendLittleEndian(4, Unsigned32(v), out); r := Ok(b);
    case Uint32(v) => b := AppendLittleEndian(4, v, out); r := Ok(b);
    case Int64(v) => b := AppendLittleEndian(8, Unsigned64(v), out); r := Ok(b);
    case Uint64(v) => b := AppendLittleEndian(8, v, out); r := Ok(b);
    case Bool(flag) => r := Ok(out + [if flag then 1 else 0]);
    case Float(bits) =>
      if IsNaN(raw) {
        return Err(InvalidArgument);
      }
      var value := bits;
      if FloatNumber(bits) == 0 {
        value := 0;
      }
      b := AppendLittleEndian(4, value, out);
      r := Ok(b);
    case Double(bits) =>
      if IsNaN(raw) {
        return Err(InvalidArgument);
      }
      var value := bits;
      if DoubleNumber(bits) == 0 {
        value := 0;
      }
      b := AppendLittleEndian(8, value, out);
      r := Ok(b);
    case Text(s) =>
      b := EncodeStringKey(s);
      r := Ok(out + b);
    case Bytes(s) =>
      b := EncodeStringKey(s);
      r := Ok(out + b);
  }

  /** The covering-index lookups encode their keys by hand, to the same bytes. */
  method EncodeUint64Key(value: Bits64) returns (out: seq<Byte>)
    ensures out == CellBytes(Uint64(value))
  {
    out := AppendLittleEndian(8, value, []);
  }

  method EncodeStringKey(value: seq<Byte>) returns (out: seq<Byte>)
    requires |value| < TWO64
    ensures out == CellBytes(Text(value)) == CellBytes(Bytes(value))
  {
    var length := EncodeVarint(|value|);
    out := length + value;
  }

  lemma ScalarErrors(raw: IndexCell)
    ensures IsNaN(raw) ==> ScalarValue(raw) == Err(InvalidArgument)
  {
  }

  lemma {:induction false} TupleGrows(cells: seq<IndexCell>, c: IndexCell)
    ensures TupleBytes(cells + [c]) == TupleBytes(cells) + CellBytes(c)
  {
    hide CellBytes;
    if cells == [] {
      assert [c][1..] == [] && TupleBytes([]) == [];
    } else {
      assert (cells + [c])[1..] == cells[1..] + [c];
      TupleGrows(cells[1..], c);
    }
  }
}
