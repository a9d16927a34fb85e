/** Base-128 varints, least significant group first. */
module Varint {
  import opened Results
  import opened Arithmetic
  import opened IndexCells

  /** The encoding as the wire format defines it. */
  function Encoded(v: nat): (b: seq<Byte>)
    ensures b != []
  {
    if v < 128 then [v] else [v % 128 + 128] + Encoded(v / 128)
  }

  /** The number that a group of bytes carries, with the continuation bits ignored. */
  function Carried(b: seq<Byte>): nat {
    if b == [] then 0 else b[0] % 128 + 128 * Carried(b[1..])
  }

  lemma {:induction false} CarriedOfEncoded(v: nat)
    ensures Carried(Encoded(v)) == v
  {
    if v >= 128 {
      CarriedOfEncoded(v / 128);
      assert Encoded(v)[1..] == Encoded(v / 128);
    } else {
      assert Encoded(v)[1..] == [];
    }
  }

  /** Only the last byte of an encoding has its top bit clear. */
  lemma {:induction false} EncodedStopsOnce(v: nat)
    ensures forall i :: 0 <= i < |Encoded(v)| - 1 ==> Encoded(v)[i] >= 128
    ensures Encoded(v)[|Encoded(v)| - 1] < 128
  {
    if v >= 128 {
      EncodedStopsOnce(v / 128);
      assert Encoded(v)[1..] == Encoded(v / 128);
      forall i | 0 <= i < |Encoded(v)| - 1
        ensures Encoded(v)[i] >= 128
      {
        if i > 0 {
          assert Encoded(v)[i] == Encoded(v / 128)[i - 1];
        }
      }
    }
  }

  /** The last byte, and no other, has its top bit clear. */
  predicate Terminated(b: seq<Byte>) {
    b != [] && b[|b| - 1] < 128 && forall i :: 0 <= i < |b| - 1 ==> b[i] >= 128
  }

  /** A terminated byte string is determined by its length and the number it carries. */
  lemma {:induction false} TerminatedUnique(a: seq<Byte>, b: seq<Byte>)
    requires Terminated(a) && Terminated(b) && |a| == |b| && Carried(a) == Carried(b)
    ensures a == b
  {
    hide Carried;
    SameStart(a, b);
    assert a == [a[0]] + a[1..] && b == [b[0]] + b[1..];
    if |a| > 1 {
      TailTerminated(a);
      TailTerminated(b);
      hide Terminated;
      TerminatedUnique(a[1..], b[1..]);
    }
  }

  lemma SameStart(a: seq<Byte>, b: seq<Byte>)
    requires Terminated(a) && Terminated(b) && |a| == |b| && Carried(a) == Carried(b)
    ensures a[0] == b[0] && Carried(a[1..]) == Carried(b[1..])
  {
    assert (a[0] < 128 <==> |a| == 1) && (b[0] < 128 <==> |b| == 1);
    FirstGroupUnique(a[0] % 128, Carried(a[1..]), b[0] % 128, Carried(b[1..]));
  }

  lemma TailTerminated(a: seq<Byte>)
    requires Terminated(a) && |a| > 1
    ensures Terminated(a[1..])
  {
  }

  lemma FirstGroupUnique(x: nat, y: nat, z: nat, w: nat)
    requires x < 128 && z < 128 && x + 128 * y == z + 128 * w
    ensures x == z && y == w
  {
    QuotientUnique(128, y, x, w, z);
  }

  /** No encoding is a proper prefix of another. */
  lemma EncodedPrefixFree(v: nat, w: nat, x: seq<Byte>, y: seq<Byte>)
    requires Encoded(v) + x == Encoded(w) + y
    ensures v == w && x == y
  {
    var a, b := Encoded(v), Encoded(w);
    EncodedStopsOnce(v);
    EncodedStopsOnce(w);
    assert (a + x)[|a| - 1] == a[|a| - 1] && (b + y)[|b| - 1] == b[|b| - 1];
    assert |a| == |b|;
    assert a == (a + x)[..|a|] == b;
    assert x == (a + x)[|a|..] == y;
    CarriedOfEncoded(v);
    CarriedOfEncoded(w);
  }

  lemma {:induction false} EncodedSize(v: nat)
    ensures v < Pow(128, |Encoded(v)|) && (|Encoded(v)| > 1 ==> v >= Pow(128, |Encoded(v)| - 1))
  {
    if v >= 128 {
      EncodedSize(v / 128);
      var n := |Encoded(v / 128)|;
      assert Pow(128, n + 1) == 128 * Pow(128, n);
      assert n > 1 ==> Pow(128, n) == 128 * Pow(128, n - 1);
    }
    assert Pow(128, 1) == 128 * Pow(128, 0);
  }

  lemma Pow128()
    ensures Pow(128, 9) == 0x8000_0000_0000_0000 && Pow(128, 10) == 64 * TWO64
  {
    assert Pow(128, 3) == 0x20_0000 by {
      assert Pow(128, 2) == 0x4000 by { assert Pow(128, 1) == 128; }
    }
    assert Pow(128, 6) == 0x400_0000_0000 by {
      assert Pow(128, 5) == 0x8_0000_0000 by { assert Pow(128, 4) == 0x1000_0000; }
    }
    assert Pow(128, 9) == 0x8000_0000_0000_0000 by {
      assert Pow(128, 8) == 0x100_0000_0000_0000 by { assert Pow(128, 7) == 0x2_0000_0000_0000; }
    }
  }

  lemma {:induction false} PowIncreases(m: nat, n: nat)
    requires m <= n
    ensures Pow(128, m) <= Pow(128, n)
    decreases n
  {
    if m < n {
      PowIncreases(m, n - 1);
    }
  }

  /** A 64-bit value takes at most ten bytes. */
  lemma EncodedFits(v: nat)
    requires v < TWO64
    ensures |Encoded(v)| <= 10
  {
    EncodedSize(v);
    Pow128();
    if |Encoded(v)| > 10 {
      PowIncreases(10, |Encoded(v)| - 1);
    }
  }

  lemma {:induction false} CarriedGrows(b: seq<Byte>, x: Byte)
    ensures Carried(b + [x]) == Carried(b) + (x % 128) * Pow(128, |b|)
  {
    if b == [] {
      assert [x][1..] == [];
      assert Carried([x]) == x % 128;
    } else {
      assert (b + [x])[1..] == b[1..] + [x];
      CarriedGrows(b[1..], x);
      var p := Pow(128, |b| - 1);
      assert 128 * ((x % 128) * p) == (x % 128) * (128 * p);
    }
  }

  lemma {:induction false} CarriedBound(b: seq<Byte>)
    ensures Carried(b) < Pow(128, |b|)
  {
    if b != [] {
      CarriedBound(b[1..]);
    }
  }

  method EncodeVarint(value: nat) returns (out: seq<Byte>)
    requires value < TWO64
    ensures out == Encoded(value) && |out| <= 10
  {
    EncodedFits(value);
    var rest := value;
    out := [];
    while true
      invariant Encoded(value) == out + Encoded(rest)
      decreases rest
    {
      var byte: Byte := rest % 128;
      var next := rest / 128;
      if next != 0 {
        byte := byte + 128;
      }
      out := out + [byte];
      rest := next;
      if rest == 0 {
        break;
      }
    }
  }

  /** The bytes start with the encoding of a 64-bit value. */
  ghost predicate StartsWith(bytes: seq<Byte>, v: nat) {
    v < TWO64 && Encoded(v) <= bytes
  }

  lemma {:induction false} StopDecides(bytes: seq<Byte>, v: nat, n: nat)
    requires StartsWith(bytes, v) && n < |bytes| && bytes[n] < 128 && forall i :: 0 <= i < n ==> bytes[i] >= 128
    ensures bytes[..n + 1] == Encoded(v) && Carried(bytes[..n + 1]) == v
  {
    EncodedStopsOnce(v);
    CarriedOfEncoded(v);
    var e := Encoded(v);
    assert e[|e| - 1] == bytes[|e| - 1];
    assert |e| == n + 1;
  }

  lemma EncodingStops(bytes: seq<Byte>, v: nat)
    requires StartsWith(bytes, v)
    ensures exists i :: 0 <= i < |bytes| && i < 10 && bytes[i] < 128
  {
    EncodedStopsOnce(v);
    EncodedFits(v);
    var e := Encoded(v);
    assert bytes[|e| - 1] == e[|e| - 1];
  }

  lemma TenthByte(bytes: seq<Byte>, v: nat)
    requires StartsWith(bytes, v) && |bytes| >= 10 && bytes[9] < 128 && forall i :: 0 <= i < 9 ==> bytes[i] >= 128
    ensures bytes[9] <= 1
  {
    StopDecides(bytes, v, 9);
    assert bytes[..10] == bytes[..9] + [bytes[9]];
    CarriedGrows(bytes[..9], bytes[9]);
    Pow128();
    assert |bytes[..9]| == 9;
  }

  /** Accepts exactly the encodings of 64-bit values, and reports how many bytes were read. */
  method DecodeVarint(bytes: seq<Byte>) returns (r: Result<(nat, nat)>)
    ensures match r
            case Ok((v, n)) => v < TWO64 && n <= |bytes| && bytes[..n] == Encoded(v)
            case Err(s) => s == InvalidArgument && forall v :: !StartsWith(bytes, v)
  {
    hide Encoded, Carried, Pow;
    var value := 0;
    CarriedNothing();
    for i := 0 to if |bytes| < 10 then |bytes| else 10
      invariant forall j :: 0 <= j < i ==> bytes[j] >= 128
      invariant value == Carried(bytes[..i])
    {
      var byte := bytes[i];
      assert bytes[..i + 1] == bytes[..i] + [byte];
      CarriedGrows(bytes[..i], byte);
      CarriedBound(bytes[..i + 1]);
      Pow128();
      if i < 9 {
        value := value + (byte % 128) * Pow(128, i);
        if byte < 128 {
          PowIncreases(i + 1, 9);
          r := CheckCanonical(bytes, value, i);
          return;
        }
      } else {
        if byte >= 128 {
          forall v | StartsWith(bytes, v) ensures false {
            EncodingStops(bytes, v);
          }
          return Err(InvalidArgument);
        }
        if byte > 1 {
          forall v | StartsWith(bytes, v) ensures false {
            TenthByte(bytes, v);
          }
          return Err(InvalidArgument);
        }
        CarriedBound(bytes[..9]);
        value := value + byte * 0x8000_0000_0000_0000;
        r := CheckCanonical(bytes, value, i);
        return;
      }
    }
    forall v | StartsWith(bytes, v) ensures false {
      EncodingStops(bytes, v);
    }
    return Err(InvalidArgument);
  }

  lemma CarriedNothing()
    ensures Carried([]) == 0
  {
  }

  /** The value must encode back to the very bytes that were read. */
  method CheckCanonical(bytes: seq<Byte>, value: nat, i: nat) returns (r: Result<(nat, nat)>)
    requires i < |bytes| && bytes[i] < 128 && (forall j :: 0 <= j < i ==> bytes[j] >= 128)
    requires value == Carried(bytes[..i + 1]) && value < TWO64
    ensures match r
            case Ok((v, n)) => v == value && n == i + 1 && bytes[..n] == Encoded(v)
            case Err(s) => s == InvalidArgument && forall v :: !StartsWith(bytes, v)
  {
    var canonical := EncodeVarint(value);
    if |canonical| != i + 1 || canonical != bytes[..i + 1] {
      forall v | StartsWith(bytes, v) ensures false {
        StopDecides(bytes, v, i);
      }
      return Err(InvalidArgument);
    }
    return Ok((value, i + 1));
  }
}
