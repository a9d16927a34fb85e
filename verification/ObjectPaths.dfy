/** Names of stored objects, and the ids that are read back from them. */
module ObjectPaths {
  import opened Results
  import opened Arithmetic
  import opened IndexCells
  import opened CommitNames
  import Base64Url

  const ARTIFACTS := "artifacts/"
  const INDEXES := "indexes/"
  const PAYLOAD := "payload/"

  /** The low `width` bytes of a number, most significant first. */
  function BigEndian(width: nat, v: nat): (b: seq<Byte>)
    ensures |b| == width
  {
    if width == 0 then [] else BigEndian(width - 1, v / 256) + [v % 256]
  }

  /** Byte `i` is the one with weight 256 to the power `width - 1 - i`. */
  lemma BigEndianAt(width: nat, v: nat, i: nat)
    requires i < width
    ensures Pow(256, width - 1 - i) > 0 && BigEndian(width, v)[i] == (v / Pow(256, width - 1 - i)) % 256
  {
    BigEndianDigit(width, v, width - 1 - i);
    DigitIs(256, v, width - 1 - i);
  }

  lemma {:induction false} BigEndianDigit(width: nat, v: nat, k: nat)
    requires k < width
    ensures BigEndian(width, v)[width - 1 - k] == Digit(256, v, k)
  {
    if k > 0 {
      BigEndianDigit(width - 1, v / 256, k - 1);
      assert BigEndian(width, v)[width - 1 - k] == BigEndian(width - 1, v / 256)[width - 1 - k];
    }
  }

  function FromBigEndian(b: seq<Byte>): nat {
    if b == [] then 0 else FromBigEndian(b[..|b| - 1]) * 256 + b[|b| - 1]
  }

  lemma {:induction false} BigEndianRoundTrip(width: nat, v: nat)
    requires v < Pow(256, width)
    ensures FromBigEndian(BigEndian(width, v)) == v
  {
    if width > 0 {
      BigEndianRoundTrip(width - 1, v / 256);
      assert BigEndian(width, v)[..width - 1] == BigEndian(width - 1, v / 256);
    }
  }

  lemma {:induction false} FromBigEndianRoundTrip(b: seq<Byte>)
    ensures BigEndian(|b|, FromBigEndian(b)) == b && FromBigEndian(b) < Pow(256, |b|)
  {
    if b != [] {
      var n := |b| - 1;
      FromBigEndianRoundTrip(b[..n]);
      assert b == b[..n] + [b[n]];
    }
  }

  // -------------------------------------------------------------------------
  // Names
  // -------------------------------------------------------------------------

  function ArtifactPath(id: Bits64): string {
    ARTIFACTS + Base64Url.Encoded(BigEndian(8, id))
  }

  /** `digest` is the hash applied to the encoded key. */
  function IndexPath(digest: seq<Byte> -> seq<Byte>, def: Bits64, key: seq<Byte>): string {
    INDEXES + Base64Url.Encoded(BigEndian(8, def)) + "/" + Base64Url.Encoded(digest(key))
  }

  function IdFromText(s: string): Option<nat> {
    if Base64Url.IsText(s) && |Base64Url.Decoded(s)| == 8 then Some(FromBigEndian(Base64Url.Decoded(s))) else None
  }

  /** Position of the first slash, or the length if there is none. */
  function FirstSlash(s: string): (n: nat)
    ensures n <= |s| && (forall i :: 0 <= i < n ==> s[i] != '/') && (n < |s| ==> s[n] == '/')
  {
    if s == "" || s[0] == '/' then 0 else 1 + FirstSlash(s[1..])
  }

  function AfterLastSlash(s: string): (t: string)
    ensures |t| <= |s| && t == s[|s| - |t|..] && forall i :: 0 <= i < |t| ==> t[i] != '/'
    ensures |t| < |s| ==> s[|s| - |t| - 1] == '/'
  {
    if s == "" || s[|s| - 1] == '/' then "" else AfterLastSlash(s[..|s| - 1]) + [s[|s| - 1]]
  }

  predicate AllDigits(s: string) {
    forall i :: 0 <= i < |s| ==> IsDigit(s[i])
  }

  method FoldBytes(bytes: seq<Byte>) returns (id: nat)
    requires |bytes| == 8
    ensures id == FromBigEndian(bytes) && id < TWO64
  {
    id := 0;
    for i := 0 to |bytes|
      invariant id == FromBigEndian(bytes[..i])
    {
      assert bytes[..i + 1][..i] == bytes[..i];
      id := id * 256 + bytes[i];
    }
    assert bytes[..8] == bytes;
    FromBigEndianRoundTrip(bytes);
    Pow256();
  }

  method ParseIndexDefinitionIdFromPath(path: string) returns (r: Result<nat>)
    ensures
      var rest := if INDEXES <= path then path[|INDEXES|..] else "";
      r == if INDEXES <= path && FirstSlash(rest) < |rest| && IdFromText(rest[..FirstSlash(rest)]).Some?
           then Ok(IdFromText(rest[..FirstSlash(rest)]).value)
           else Err(InvalidArgument)
  {
    hide Base64Url.Decoded, Base64Url.IsText;
    if !(INDEXES <= path) {
      return Err(InvalidArgument);
    }
    var rest := path[|INDEXES|..];
    var end := FirstSlash(rest);
    if end == |rest| {
      return Err(InvalidArgument);
    }
    var decoded := Base64Url.Decode(rest[..end]);
    if decoded.Err? || |decoded.value| != 8 {
      return Err(InvalidArgument);
    }
    var id := FoldBytes(decoded.value);
    return Ok(id);
  }

  /** Decimal digits, in 64-bit arithmetic that wraps around. */
  method ParseDecimalSuffix(suffix: string) returns (r: Option<nat>)
    ensures r == if suffix != "" && AllDigits(suffix) then Some(ParseDecimal(suffix) % TWO64) else None
  {
    if suffix == "" {
      return None;
    }
    var value := 0;
    for i := 0 to |suffix|
      invariant AllDigits(suffix[..i]) && value == ParseDecimal(suffix[..i]) % TWO64
    {
      if !IsDigit(suffix[i]) {
        return None;
      }
      assert suffix[..i + 1] == suffix[..i] + [suffix[i]];
      assert suffix[..i + 1][..i] == suffix[..i];
      WrapStep(ParseDecimal(suffix[..i]), suffix[i] as int - '0' as int);
      value := (value * 10 + (suffix[i] as int - '0' as int)) % TWO64;
    }
    assert suffix[..|suffix|] == suffix;
    return Some(value);
  }

  lemma WrapStep(n: nat, d: nat)
    ensures ((n % TWO64) * 10 + d) % TWO64 == (n * 10 + d) % TWO64
  {
    var q, m := n / TWO64, n % TWO64;
    var v := m * 10 + d;
    DivModDef(n, TWO64);
    DivModDef(v, TWO64);
    assert n * 10 + d == (q * 10 + v / TWO64) * TWO64 + v % TWO64;
    DivModOf(TWO64, q * 10 + v / TWO64, v % TWO64);
  }

  method DecodeArtifactIdFromPath(path: string) returns (r: Option<nat>)
    ensures r ==
      if PAYLOAD <= path then
        var t := AfterLastSlash(path);
        if t != "" && AllDigits(t) then Some(ParseDecimal(t) % TWO64) else None
      else if ARTIFACTS <= path then IdFromText(path[|ARTIFACTS|..])
      else None
  {
    hide Base64Url.Decoded, Base64Url.IsText;
    if PAYLOAD <= path {
      r := ParseDecimalSuffix(AfterLastSlash(path));
      return;
    }
    if !(ARTIFACTS <= path) {
      return None;
    }
    var decoded := Base64Url.Decode(path[|ARTIFACTS|..]);
    if decoded.Err? || |decoded.value| != 8 {
      return None;
    }
    var id := FoldBytes(decoded.value);
    return Some(id);
  }

  // -------------------------------------------------------------------------
  // Ids survive the round trip
  // -------------------------------------------------------------------------

  lemma IdTextReadsBack(id: Bits64)
    ensures IdFromText(Base64Url.Encoded(BigEndian(8, id))) == Some(id)
  {
    Base64Url.DecodeInvertsEncode(BigEndian(8, id));
    Pow256();
    BigEndianRoundTrip(8, id);
  }

  /** The id read from an artifact's name is the artifact's id, and the name is not taken for a payload. */
  lemma ArtifactIdRecovered(id: Bits64)
    ensures ARTIFACTS <= ArtifactPath(id) && !(PAYLOAD <= ArtifactPath(id))
    ensures IdFromText(ArtifactPath(id)[|ARTIFACTS|..]) == Some(id)
  {
    hide Base64Url.Encoded, Base64Url.Decoded;
    IdTextReadsBack(id);
    var path := ArtifactPath(id);
    assert path[|ARTIFACTS|..] == Base64Url.Encoded(BigEndian(8, id));
    assert path[0] == 'a';
    assert PAYLOAD[0] == 'p';
  }

  lemma {:induction false} NoSlashInText(s: string)
    requires Base64Url.IsText(s)
    ensures forall i :: 0 <= i < |s| ==> s[i] != '/'
  {
    assert Base64Url.DecodeBase64UrlChar('/') == -1;
  }

  lemma {:induction false} FirstSlashAfter(s: string, t: string)
    requires forall i :: 0 <= i < |s| ==> s[i] != '/'
    ensures FirstSlash(s + "/" + t) == |s|
  {
    if s != "" {
      assert (s + "/" + t)[1..] == s[1..] + "/" + t;
      FirstSlashAfter(s[1..], t);
    }
  }

  /** The definition id read from an index object's name is the one it was named with. */
  lemma IndexDefinitionIdRecovered(digest: seq<Byte> -> seq<Byte>, def: Bits64, key: seq<Byte>)
    ensures
      var path := IndexPath(digest, def, key);
      && INDEXES <= path
      && var rest := path[|INDEXES|..];
         FirstSlash(rest) < |rest| && IdFromText(rest[..FirstSlash(rest)]) == Some(def)
  {
    hide Base64Url.Encoded, Base64Url.Decoded;
    var s, t := Base64Url.Encoded(BigEndian(8, def)), Base64Url.Encoded(digest(key));
    IdTextReadsBack(def);
    NoSlashInText(s);
    FirstSlashAfter(s, t);
    assert IndexPath(digest, def, key)[|INDEXES|..] == s + "/" + t;
    assert (s + "/" + t)[..|s|] == s;
  }

  /** Different artifacts and different index keys never share a name, for a collision-free hash. */
  lemma PathsAreDistinct(digest: seq<Byte> -> seq<Byte>, a: Bits64, a': Bits64, d: Bits64, d': Bits64, k: seq<Byte>,
                         k': seq<Byte>)
    requires digest(k) == digest(k') ==> k == k'
    ensures ArtifactPath(a) == ArtifactPath(a') ==> a == a'
    ensures IndexPath(digest, d, k) == IndexPath(digest, d', k') ==> d == d' && k == k'
    ensures ArtifactPath(a) != IndexPath(digest, d, k)
  {
    hide Base64Url.Encoded, Base64Url.Decoded, BigEndian;
    ArtifactIdRecovered(a);
    ArtifactIdRecovered(a');
    IndexDefinitionIdRecovered(digest, d, k);
    IndexDefinitionIdRecovered(digest, d', k');
    if IndexPath(digest, d, k) == IndexPath(digest, d', k') {
      assert d == d';
      var head := INDEXES + Base64Url.Encoded(BigEndian(8, d)) + "/";
      assert IndexPath(digest, d, k)[|head|..] == Base64Url.Encoded(digest(k));
      assert IndexPath(digest, d', k')[|head|..] == Base64Url.Encoded(digest(k'));
      Base64Url.DecodeInvertsEncode(digest(k));
      Base64Url.DecodeInvertsEncode(digest(k'));
    }
    assert ArtifactPath(a)[0] == 'a' && IndexPath(digest, d, k)[0] == 'i';
  }

  /** A name under `artifacts/` that yields an id is that artifact's name exactly when its unused bits are zero. */
  lemma ArtifactPathAliases(s: string, id: Bits64)
    requires IdFromText(s) == Some(id)
    ensures ARTIFACTS + s == ArtifactPath(id) <==> Base64Url.UnusedBitsAreZero(s)
  {
    hide Base64Url.Encoded, Base64Url.Decoded, Base64Url.UnusedBitsAreZero;
    FromBigEndianRoundTrip(Base64Url.Decoded(s));
    Base64Url.EncodeInvertsDecode(s);
    assert (ARTIFACTS + s)[|ARTIFACTS|..] == s;
    assert ArtifactPath(id)[|ARTIFACTS|..] == Base64Url.Encoded(BigEndian(8, id));
  }

  /** Every artifact has such an alias. */
  lemma EveryArtifactHasAnAlias(id: Bits64) returns (s: string)
    ensures IdFromText(s) == Some(id) && ARTIFACTS + s != ArtifactPath(id)
  {
    hide Base64Url.Encoded, Base64Url.Decoded, Base64Url.Alias;
    var b := BigEndian(8, id);
    s := Base64Url.Alias(b);
    Base64Url.AliasDecodes(b);
    Pow256();
    BigEndianRoundTrip(8, id);
    assert (ARTIFACTS + s)[|ARTIFACTS|..] == s;
    assert ArtifactPath(id)[|ARTIFACTS|..] == Base64Url.Encoded(b);
  }
}
