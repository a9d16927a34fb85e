/** Base64 with the URL-safe alphabet (section 5 of RFC 4648) and without padding. */
module Base64Url {
  import opened Results
  import opened IndexCells
  import Arithmetic

  type Sextet = n: nat | n < 64

  /** Upper-case letters, lower-case letters, digits, then `-` and `_`. */
  function Alphabet(n: Sextet): char {
    if n < 26 then ('A' as int + n) as char
    else if n < 52 then ('a' as int + n - 26) as char
    else if n < 62 then ('0' as int + n - 52) as char
    else if n == 62 then '-'
    else '_'
  }

  const UPPER := "ABCDEFGHIJKLMNOPQRSTUVWXYZ"
  const LOWER := "abcdefghijklmnopqrstuvwxyz"
  const DIGITS := "0123456789"

  /** The alphabet as section 5 of RFC 4648 lists it. */
  const RFC_ALPHABET := UPPER + LOWER + DIGITS + "-_"

  lemma UpperCodes(n: nat)
    requires n < 26
    ensures UPPER[n] as int == 'A' as int + n
  {
  }

  lemma LowerCodes(n: nat)
    requires n < 26
    ensures LOWER[n] as int == 'a' as int + n
  {
  }

  lemma DigitCodes(n: nat)
    requires n < 10
    ensures DIGITS[n] as int == '0' as int + n
  {
  }

  /** Sextets are written as the characters of that alphabet, in its order. */
  lemma AlphabetIsStandard(n: Sextet)
    ensures |RFC_ALPHABET| == 64 && Alphabet(n) == RFC_ALPHABET[n]
  {
    if n < 26 {
      UpperCodes(n);
      assert RFC_ALPHABET[n] == UPPER[n];
    } else if n < 52 {
      LowerCodes(n - 26);
      assert RFC_ALPHABET[n] == LOWER[n - 26];
    } else if n < 62 {
      DigitCodes(n - 52);
      assert RFC_ALPHABET[n] == DIGITS[n - 52];
    } else {
      assert RFC_ALPHABET[n] == "-_"[n - 62];
    }
  }

  function DecodeBase64UrlChar(c: char): int {
    if 'A' <= c <= 'Z' then c as int - 'A' as int
    else if 'a' <= c <= 'z' then c as int - 'a' as int + 26
    else if '0' <= c <= '9' then c as int - '0' as int + 52
    else if c == '-' then 62
    else if c == '_' then 63
    else -1
  }

  lemma AlphabetInverse(n: Sextet, c: char)
    ensures DecodeBase64UrlChar(Alphabet(n)) == n
    ensures DecodeBase64UrlChar(c) >= 0 ==> DecodeBase64UrlChar(c) < 64 && Alphabet(DecodeBase64UrlChar(c)) == c
  {
  }

  // -------------------------------------------------------------------------
  // Three bytes are four sextets
  // -------------------------------------------------------------------------

  function Sextet0(x: Byte): Sextet { x / 4 }

  function Sextet1(x: Byte, y: Byte): Sextet { (x % 4) * 16 + y / 16 }

  function Sextet2(y: Byte, z: Byte): Sextet { (y % 16) * 4 + z / 64 }

  function Sextet3(z: Byte): Sextet { z % 64 }

  function Byte0(a: Sextet, b: Sextet): Byte { a * 4 + b / 16 }

  function Byte1(b: Sextet, c: Sextet): Byte { (b % 16) * 16 + c / 4 }

  function Byte2(c: Sextet, d: Sextet): Byte { (c % 4) * 64 + d }

  /** Three bytes side by side. */
  function Chunk(x: nat, y: nat, z: nat): nat {
    x * 0x1_0000 + y * 0x100 + z
  }

  /** Four sextets side by side. */
  function SextetChunk(a: nat, b: nat, c: nat, d: nat): nat {
    a * 0x4_0000 + b * 0x1000 + c * 0x40 + d
  }

  /** The shifts and masks of a 24-bit chunk pick out these groups of bits. */
  lemma ChunkSextets(x: Byte, y: Byte, z: Byte)
    ensures (Chunk(x, y, z) / 0x4_0000) % 64 == Sextet0(x)
    ensures (Chunk(x, y, z) / 0x1000) % 64 == Sextet1(x, y)
    ensures (Chunk(x, y, z) / 0x40) % 64 == Sextet2(y, z)
    ensures Chunk(x, y, z) % 64 == Sextet3(z)
  {
    var (xh, xl, yh, yl, zh, zl) := (x / 4, x % 4, y / 16, y % 16, z / 64, z % 64);
    assert x == 4 * xh + xl && y == 16 * yh + yl && z == 64 * zh + zl;
    Arithmetic.DivModOf(0x4_0000, xh, Chunk(xl, y, z));
    Arithmetic.DivModOf(0x1000, x * 16 + yh, Chunk(0, yl, z));
    Arithmetic.DivModOf(64, xh, xl * 16 + yh);
    Arithmetic.DivModOf(0x40, x * 1024 + y * 4 + zh, zl);
    Arithmetic.DivModOf(64, x * 16 + yh, yl * 4 + zh);
    Arithmetic.DivModOf(64, xh, 0);
    Arithmetic.DivModOf(64, 0, xh);
  }

  lemma ChunkBytes(a: Sextet, b: Sextet, c: Sextet, d: Sextet)
    ensures (SextetChunk(a, b, c, d) / 0x1_0000) % 256 == Byte0(a, b)
    ensures (SextetChunk(a, b, c, d) / 0x100) % 256 == Byte1(b, c)
    ensures SextetChunk(a, b, c, d) % 256 == Byte2(c, d)
  {
    hide SextetChunk, Byte0, Byte1, Byte2;
    HighByte(a, b, c, d);
    MiddleByte(a, b, c, d);
    LowByte(a, b, c, d);
  }

  lemma HighByte(a: Sextet, b: Sextet, c: Sextet, d: Sextet)
    ensures (SextetChunk(a, b, c, d) / 0x1_0000) % 256 == Byte0(a, b)
  {
    Arithmetic.DivModDef(b, 16);
    Arithmetic.DivModOf(0x1_0000, a * 4 + b / 16, SextetChunk(0, b % 16, c, d));
    Arithmetic.DivModOf(256, 0, a * 4 + b / 16);
  }

  lemma MiddleByte(a: Sextet, b: Sextet, c: Sextet, d: Sextet)
    ensures (SextetChunk(a, b, c, d) / 0x100) % 256 == Byte1(b, c)
  {
    Arithmetic.DivModDef(b, 16);
    Arithmetic.DivModDef(c, 4);
    Arithmetic.DivModOf(0x100, a * 1024 + b * 16 + c / 4, (c % 4) * 64 + d);
    Arithmetic.DivModOf(256, a * 4 + b / 16, (b % 16) * 16 + c / 4);
  }

  lemma LowByte(a: Sextet, b: Sextet, c: Sextet, d: Sextet)
    ensures SextetChunk(a, b, c, d) % 256 == Byte2(c, d)
  {
    Arithmetic.DivModDef(c, 4);
    Arithmetic.DivModOf(0x100, a * 1024 + b * 16 + c / 4, (c % 4) * 64 + d);
  }

  lemma ChunkInverse(x: Byte, y: Byte, z: Byte)
    ensures Byte0(Sextet0(x), Sextet1(x, y)) == x
    ensures Byte1(Sextet1(x, y), Sextet2(y, z)) == y
    ensures Byte2(Sextet2(y, z), Sextet3(z)) == z
  {
  }

  lemma SextetInverse(a: Sextet, b: Sextet, c: Sextet, d: Sextet)
    ensures Sextet0(Byte0(a, b)) == a
    ensures Sextet1(Byte0(a, b), Byte1(b, c)) == b
    ensures Sextet2(Byte1(b, c), Byte2(c, d)) == c
    ensures Sextet3(Byte2(c, d)) == d
  {
  }

  // -------------------------------------------------------------------------
  // The encoding and its inverse
  // -------------------------------------------------------------------------

  /** The text of a byte string; the last sextet of a short group is filled up with zero bits. */
  function Encoded(b: seq<Byte>): string {
    if b == [] then ""
    else if |b| == 1 then [Alphabet(Sextet0(b[0])), Alphabet(Sextet1(b[0], 0))]
    else if |b| == 2 then [Alphabet(Sextet0(b[0])), Alphabet(Sextet1(b[0], b[1])), Alphabet(Sextet2(b[1], 0))]
    else EncodedGroup(b[0], b[1], b[2]) + Encoded(b[3..])
  }

  function EncodedGroup(x: Byte, y: Byte, z: Byte): string {
    [Alphabet(Sextet0(x)), Alphabet(Sextet1(x, y)), Alphabet(Sextet2(y, z)), Alphabet(Sextet3(z))]
  }

  predicate IsText(s: string) {
    |s| % 4 != 1 && forall i :: 0 <= i < |s| ==> DecodeBase64UrlChar(s[i]) >= 0
  }

  function SextetAt(s: string, i: nat): Sextet
    requires IsText(s) && i < |s|
  {
    AlphabetInverse(0, s[i]);
    DecodeBase64UrlChar(s[i])
  }

  /** The bytes that a text stands for. */
  function Decoded(s: string): seq<Byte>
    requires IsText(s)
    decreases |s|
  {
    if s == "" then []
    else if |s| == 2 then [Byte0(SextetAt(s, 0), SextetAt(s, 1))]
    else if |s| == 3 then [Byte0(SextetAt(s, 0), SextetAt(s, 1)), Byte1(SextetAt(s, 1), SextetAt(s, 2))]
    else DecodedGroup(s) + Decoded(s[4..])
  }

  function DecodedGroup(s: string): seq<Byte>
    requires IsText(s) && |s| >= 4
  {
    [Byte0(SextetAt(s, 0), SextetAt(s, 1)), Byte1(SextetAt(s, 1), SextetAt(s, 2)),
     Byte2(SextetAt(s, 2), SextetAt(s, 3))]
  }

  lemma AlphabetDecodes()
    ensures forall n: Sextet :: DecodeBase64UrlChar(Alphabet(n)) == n
  {
  }

  /** Decoding inverts encoding, for every byte string. */
  lemma {:induction false} DecodeInvertsEncode(b: seq<Byte>)
    ensures IsText(Encoded(b)) && Decoded(Encoded(b)) == b
    decreases |b|
  {
    hide Alphabet, DecodeBase64UrlChar, Sextet0, Sextet1, Sextet2, Sextet3, Byte0, Byte1, Byte2;
    AlphabetDecodes();
    if |b| == 1 {
      ChunkInverse(b[0], 0, 0);
    } else if |b| == 2 {
      ChunkInverse(b[0], b[1], 0);
    } else if |b| >= 3 {
      hide IsText, Decoded, EncodedGroup;
      DecodeInvertsEncode(b[3..]);
      GroupDecodes(b[0], b[1], b[2], Encoded(b[3..]));
      assert b == [b[0], b[1], b[2]] + b[3..];
    }
  }

  /** The bits that a short last group cannot use are zero. */
  predicate UnusedBitsAreZero(s: string)
    requires IsText(s)
  {
    var n := |s|;
    && (n % 4 == 2 ==> SextetAt(s, n - 1) % 16 == 0)
    && (n % 4 == 3 ==> SextetAt(s, n - 1) % 4 == 0)
  }

  /** A text encodes back to itself exactly when its unused bits are zero; other texts are aliases. */
  lemma {:induction false} EncodeInvertsDecode(s: string)
    requires IsText(s)
    ensures Encoded(Decoded(s)) == s <==> UnusedBitsAreZero(s)
    decreases |s|
  {
    hide DecodeBase64UrlChar, Alphabet, Sextet0, Sextet1, Sextet2, Sextet3, Byte0, Byte1, Byte2, EncodedGroup;
    if |s| == 2 {
      PairEncodesBack(s);
    } else if |s| == 3 {
      TripleEncodesBack(s);
    } else if s != "" {
      GroupEncodesBack(s);
      var g, t := DecodedGroup(s), s[4..];
      EncodeInvertsDecode(t);
      EncodedStep(g, Decoded(t));
      assert s == s[..4] + t;
      hide Encoded, Decoded, IsText, SextetAt;
      SameTail(s[..4], Encoded(Decoded(t)), t);
      TailBits(s);
    }
  }

  lemma SameTail(g: string, x: string, y: string)
    ensures g + x == g + y <==> x == y
  {
    assert (g + x)[|g|..] == x && (g + y)[|g|..] == y;
  }

  lemma TailBits(s: string)
    requires IsText(s) && |s| >= 4
    ensures IsText(s[4..]) && (UnusedBitsAreZero(s[4..]) <==> UnusedBitsAreZero(s))
  {
    hide IsText, SextetAt;
    TailIsText(s);
    var t := s[4..];
    if t != "" {
      TailSextet(s);
    }
    assert |t| % 4 == |s| % 4;
  }

  lemma TailIsText(s: string)
    requires IsText(s) && |s| >= 4
    ensures IsText(s[4..])
  {
    hide DecodeBase64UrlChar;
    var t := s[4..];
    assert forall i :: 0 <= i < |t| ==> t[i] == s[i + 4];
  }

  lemma TailSextet(s: string)
    requires |s| > 4 && IsText(s) && IsText(s[4..])
    ensures SextetAt(s[4..], |s| - 5) == SextetAt(s, |s| - 1)
  {
    hide DecodeBase64UrlChar, IsText;
    assert s[4..][|s| - 5] == s[|s| - 1];
  }

  lemma EncodedStep(g: seq<Byte>, rest: seq<Byte>)
    requires |g| == 3
    ensures Encoded(g + rest) == EncodedGroup(g[0], g[1], g[2]) + Encoded(rest)
  {
    assert (g + rest)[3..] == rest;
  }

  lemma GroupEncodesBack(s: string)
    requires IsText(s) && |s| >= 4
    ensures
      var g := DecodedGroup(s);
      |g| == 3 && EncodedGroup(g[0], g[1], g[2]) == s[..4]
  {
    AlphabetInverse(0, s[0]);
    AlphabetInverse(0, s[1]);
    AlphabetInverse(0, s[2]);
    AlphabetInverse(0, s[3]);
    hide DecodeBase64UrlChar, Alphabet, Sextet0, Sextet1, Sextet2, Sextet3, Byte0, Byte1, Byte2;
    SextetInverse(SextetAt(s, 0), SextetAt(s, 1), SextetAt(s, 2), SextetAt(s, 3));
  }

  /** What is left of a last sextet once its unused bits are gone. */
  lemma LastOfTwo(a: Sextet, b: Sextet)
    ensures Sextet1(Byte0(a, b), 0) == b <==> b % 16 == 0
  {
    Arithmetic.DivModOf(4, a, b / 16);
    Arithmetic.DivModDef(b, 16);
  }

  lemma LastOfThree(b: Sextet, c: Sextet)
    ensures Sextet2(Byte1(b, c), 0) == c <==> c % 4 == 0
  {
    Arithmetic.DivModOf(16, b % 16, c / 4);
    Arithmetic.DivModDef(c, 4);
  }

  lemma SameLetter(a: Sextet, s: string, i: nat)
    requires IsText(s) && i < |s|
    ensures Alphabet(a) == s[i] <==> a == SextetAt(s, i)
  {
    AlphabetInverse(a, s[i]);
  }

  lemma PairText(s: string)
    requires IsText(s) && |s| == 2
    ensures
      var (a, b) := (SextetAt(s, 0), SextetAt(s, 1));
      && Encoded(Decoded(s)) == [Alphabet(Sextet0(Byte0(a, b))), Alphabet(Sextet1(Byte0(a, b), 0))]
      && (UnusedBitsAreZero(s) <==> b % 16 == 0)
  {
    hide DecodeBase64UrlChar, Alphabet, SextetAt, Sextet0, Sextet1, Byte0;
  }

  lemma PairEncodesBack(s: string)
    requires IsText(s) && |s| == 2
    ensures Encoded(Decoded(s)) == s <==> UnusedBitsAreZero(s)
  {
    hide IsText, Encoded, Decoded, UnusedBitsAreZero, Alphabet, SextetAt, Sextet0, Sextet1, Byte0;
    PairText(s);
    var a, b := SextetAt(s, 0), SextetAt(s, 1);
    SextetInverse(a, b, 0, 0);
    LastOfTwo(a, b);
    SameLetter(a, s, 0);
    SameLetter(Sextet1(Byte0(a, b), 0), s, 1);
    assert s == [s[0], s[1]];
  }

  lemma TripleText(s: string)
    requires IsText(s) && |s| == 3
    ensures
      var (a, b, c) := (SextetAt(s, 0), SextetAt(s, 1), SextetAt(s, 2));
      && Encoded(Decoded(s)) ==
         [Alphabet(Sextet0(Byte0(a, b))), Alphabet(Sextet1(Byte0(a, b), Byte1(b, c))),
          Alphabet(Sextet2(Byte1(b, c), 0))]
      && (UnusedBitsAreZero(s) <==> c % 4 == 0)
  {
    hide DecodeBase64UrlChar, Alphabet, SextetAt, Sextet0, Sextet1, Sextet2, Byte0, Byte1;
  }

  lemma TripleEncodesBack(s: string)
    requires IsText(s) && |s| == 3
    ensures Encoded(Decoded(s)) == s <==> UnusedBitsAreZero(s)
  {
    hide IsText, Encoded, Decoded, UnusedBitsAreZero, Alphabet, SextetAt, Sextet0, Sextet1, Sextet2, Byte0, Byte1;
    TripleText(s);
    var a, b, c := SextetAt(s, 0), SextetAt(s, 1), SextetAt(s, 2);
    SextetInverse(a, b, c, 0);
    LastOfThree(b, c);
    SameLetter(a, s, 0);
    SameLetter(b, s, 1);
    SameLetter(Sextet2(Byte1(b, c), 0), s, 2);
    assert s == [s[0], s[1], s[2]];
  }

  /** The same text with a bit set that decoding does not look at. */
  function Alias(b: seq<Byte>): string
    requires |b| % 3 == 2
  {
    if |b| == 2 then [Alphabet(Sextet0(b[0])), Alphabet(Sextet1(b[0], b[1])), Alphabet(UnusedBitSet(b[1]))]
    else EncodedGroup(b[0], b[1], b[2]) + Alias(b[3..])
  }

  function UnusedBitSet(y: Byte): (n: Sextet)
    ensures n == Sextet2(y, 0) + 1 && Sextet2(y, 0) % 4 == 0
  {
    (y % 16) * 4 + 1
  }

  lemma UnusedBitIsUnused(x: Byte, y: Byte)
    ensures Byte1(Sextet1(x, y), UnusedBitSet(y)) == y
  {
    Arithmetic.DivModOf(16, x % 4, y / 16);
    Arithmetic.DivModOf(4, y % 16, 1);
    Arithmetic.DivModDef(y, 16);
  }

  /** Such a text decodes to the same bytes although it is not their encoding. */
  lemma {:induction false} AliasDecodes(b: seq<Byte>)
    requires |b| % 3 == 2
    ensures IsText(Alias(b)) && Decoded(Alias(b)) == b && Alias(b) != Encoded(b)
    decreases |b|
  {
    hide IsText, Decoded, EncodedGroup, Alphabet, UnusedBitSet, Sextet0, Sextet1;
    if |b| == 2 {
      PairAlias(b);
    } else {
      AliasDecodes(b[3..]);
      GroupDecodes(b[0], b[1], b[2], Alias(b[3..]));
      assert b == [b[0], b[1], b[2]] + b[3..];
      EncodedStep(b[..3], b[3..]);
      assert b == b[..3] + b[3..];
      SameTail(EncodedGroup(b[0], b[1], b[2]), Alias(b[3..]), Encoded(b[3..]));
    }
  }

  /** A group in front of a text is three bytes in front of its bytes. */
  lemma GroupDecodes(x: Byte, y: Byte, z: Byte, t: string)
    requires IsText(t)
    ensures IsText(EncodedGroup(x, y, z) + t) && Decoded(EncodedGroup(x, y, z) + t) == [x, y, z] + Decoded(t)
  {
    hide Alphabet, DecodeBase64UrlChar, Sextet0, Sextet1, Sextet2, Sextet3, Byte0, Byte1, Byte2;
    AlphabetDecodes();
    ChunkInverse(x, y, z);
    var s := EncodedGroup(x, y, z) + t;
    assert s[4..] == t;
    assert forall i :: 4 <= i < |s| ==> s[i] == t[i - 4];
  }

  lemma PairAlias(b: seq<Byte>)
    requires |b| == 2
    ensures IsText(Alias(b)) && Decoded(Alias(b)) == b && Alias(b) != Encoded(b)
  {
    hide Alphabet, DecodeBase64UrlChar, Sextet0, Sextet1, Byte0, Byte1;
    AlphabetDecodes();
    ChunkInverse(b[0], b[1], 0);
    UnusedBitIsUnused(b[0], b[1]);
    var c, d := UnusedBitSet(b[1]), Sextet2(b[1], 0);
    assert DecodeBase64UrlChar(Alphabet(c)) != DecodeBase64UrlChar(Alphabet(d));
    assert Alias(b)[2] != Encoded(b)[2];
  }

  // -------------------------------------------------------------------------
  // The loops
  // -------------------------------------------------------------------------

  method Encode(bytes: seq<Byte>) returns (output: string)
    ensures output == Encoded(bytes)
  {
    hide Alphabet, Sextet0, Sextet1, Sextet2, Sextet3, Chunk;
    output := "";
    var i := 0;
    while i + 3 <= |bytes|
      invariant i <= |bytes| && output + Encoded(bytes[i..]) == Encoded(bytes)
    {
      var chunk := Chunk(bytes[i], bytes[i + 1], bytes[i + 2]);
      ChunkSextets(bytes[i], bytes[i + 1], bytes[i + 2]);
      assert bytes[i..] == bytes[i..i + 3] + bytes[i + 3..];
      EncodedStep(bytes[i..i + 3], bytes[i + 3..]);
      output := output + [Alphabet((chunk / 0x4_0000) % 64), Alphabet((chunk / 0x1000) % 64),
                          Alphabet((chunk / 0x40) % 64), Alphabet(chunk % 64)];
      i := i + 3;
    }
    var remaining := |bytes| - i;
    if remaining == 1 {
      var chunk := Chunk(bytes[i], 0, 0);
      ChunkSextets(bytes[i], 0, 0);
      output := output + [Alphabet((chunk / 0x4_0000) % 64), Alphabet((chunk / 0x1000) % 64)];
    } else if remaining == 2 {
      var chunk := Chunk(bytes[i], bytes[i + 1], 0);
      ChunkSextets(bytes[i], bytes[i + 1], 0);
      output := output + [Alphabet((chunk / 0x4_0000) % 64), Alphabet((chunk / 0x1000) % 64),
                          Alphabet((chunk / 0x40) % 64)];
    }
  }

  /** Everything from position `i` on decodes to the rest of the bytes. */
  ghost predicate DecodesFrom(s: string, i: nat, output: seq<Byte>)
    requires IsText(s)
  {
    i <= |s| && IsText(s[i..]) && output + Decoded(s[i..]) == Decoded(s)
  }

  lemma DecodeStep(s: string, i: nat, output: seq<Byte>)
    requires IsText(s) && i + 4 <= |s| && DecodesFrom(s, i, output)
    ensures
      var (a, b, c, d) := (SextetAt(s, i), SextetAt(s, i + 1), SextetAt(s, i + 2), SextetAt(s, i + 3));
      DecodesFrom(s, i + 4, output + [Byte0(a, b), Byte1(b, c), Byte2(c, d)])
  {
    hide DecodeBase64UrlChar, Byte0, Byte1, Byte2;
    assert s[i..][4..] == s[i + 4..];
  }

  /** Succeeds on exactly the strings over the alphabet of a possible length. */
  method Decode(encoded: string) returns (r: Result<seq<Byte>>)
    ensures match r
            case Ok(b) => IsText(encoded) && b == Decoded(encoded)
            case Err(s) => !IsText(encoded) && s == InvalidArgument
  {
    hide DecodeBase64UrlChar, Byte0, Byte1, Byte2, DecodesFrom, Decoded, SextetChunk;
    if |encoded| % 4 == 1 {
      return Err(InvalidArgument);
    }
    var output: seq<Byte> := [];
    var i := 0;
    if IsText(encoded) {
      DecodesFromStart(encoded);
    }
    while i + 4 <= |encoded|
      invariant i <= |encoded| && i % 4 == 0
      invariant forall j :: 0 <= j < i ==> DecodeBase64UrlChar(encoded[j]) >= 0
      invariant IsText(encoded) ==> DecodesFrom(encoded, i, output)
    {
      var a, b, c, d := DecodeBase64UrlChar(encoded[i]), DecodeBase64UrlChar(encoded[i + 1]),
                        DecodeBase64UrlChar(encoded[i + 2]), DecodeBase64UrlChar(encoded[i + 3]);
      if a < 0 || b < 0 || c < 0 || d < 0 {
        return Err(InvalidArgument);
      }
      SextetsAre(encoded);
      ChunkBytes(a, b, c, d);
      if IsText(encoded) {
        DecodeStep(encoded, i, output);
      }
      var chunk := SextetChunk(a, b, c, d);
      output := output + [(chunk / 0x1_0000) % 256, (chunk / 0x100) % 256, chunk % 256];
      i := i + 4;
    }
    SextetsAre(encoded);
    var remaining := |encoded| - i;
    if remaining == 2 {
      var a, b := DecodeBase64UrlChar(encoded[i]), DecodeBase64UrlChar(encoded[i + 1]);
      if a < 0 || b < 0 {
        return Err(InvalidArgument);
      }
      ChunkBytes(a, b, 0, 0);
      DecodeRest(encoded, i, output);
      output := output + [(SextetChunk(a, b, 0, 0) / 0x1_0000) % 256];
    } else if remaining == 3 {
      var a, b, c := DecodeBase64UrlChar(encoded[i]), DecodeBase64UrlChar(encoded[i + 1]),
        DecodeBase64UrlChar(encoded[i + 2]);
      if a < 0 || b < 0 || c < 0 {
        return Err(InvalidArgument);
      }
      ChunkBytes(a, b, c, 0);
      DecodeRest(encoded, i, output);
      var chunk := SextetChunk(a, b, c, 0);
      output := output + [(chunk / 0x1_0000) % 256, (chunk / 0x100) % 256];
    } else {
      DecodeRest(encoded, i, output);
    }
    return Ok(output);
  }

  lemma DecodesFromStart(s: string)
    requires IsText(s)
    ensures DecodesFrom(s, 0, [])
  {
    assert s[0..] == s;
  }

  lemma DecodeRest(s: string, i: nat, output: seq<Byte>)
    requires IsText(s) && DecodesFrom(s, i, output) && |s| - i < 4
    ensures |s| == i ==> output == Decoded(s)
    ensures |s| - i == 2 ==> output + [Byte0(SextetAt(s, i), SextetAt(s, i + 1))] == Decoded(s)
    ensures |s| - i == 3 ==>
      output + [Byte0(SextetAt(s, i), SextetAt(s, i + 1)), Byte1(SextetAt(s, i + 1), SextetAt(s, i + 2))] == Decoded(s)
  {
    hide DecodeBase64UrlChar, Byte0, Byte1;
  }

  lemma SextetsAre(s: string)
    ensures forall i :: 0 <= i < |s| ==> DecodeBase64UrlChar(s[i]) < 64
  {
  }
}
