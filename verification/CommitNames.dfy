/**
 Commit identifiers. A commit is numbered by the sequence counter that created it and is
 known to callers by its rendered name, `commit-N`; names are what ties are broken on.
 */
module CommitNames {
  import Lexicographic
  import Arithmetic

  const PREFIX := "commit-"

  predicate IsDigit(c: char) {
    '0' <= c <= '9'
  }

  function Decimal(n: nat): (s: string)
    ensures s != [] && forall i :: 0 <= i < |s| ==> IsDigit(s[i])
  {
    if n < 10 then [('0' as int + n) as char]
    else Decimal(n / 10) + [('0' as int + n % 10) as char]
  }

  /** Most significant digit first: the digit `k` places from the end has weight 10 to the power `k`. */
  lemma DecimalAt(n: nat, k: nat)
    requires k < |Decimal(n)|
    ensures
      var c := Decimal(n)[|Decimal(n)| - 1 - k];
      Arithmetic.Pow(10, k) > 0 && c as int - '0' as int == (n / Arithmetic.Pow(10, k)) % 10
  {
    DecimalDigit(n, k);
    Arithmetic.DigitIs(10, n, k);
  }

  lemma {:induction false} DecimalDigit(n: nat, k: nat)
    requires k < |Decimal(n)|
    ensures Decimal(n)[|Decimal(n)| - 1 - k] as int - '0' as int == Arithmetic.Digit(10, n, k)
  {
    if k > 0 {
      DecimalDigit(n / 10, k - 1);
      var s, t := Decimal(n), Decimal(n / 10);
      assert s[|s| - 1 - k] == t[|t| - 1 - (k - 1)];
    }
  }

  /** No number but zero starts with a zero. */
  lemma {:induction false} NoLeadingZero(n: nat)
    requires n > 0
    ensures Decimal(n)[0] != '0'
  {
    if n >= 10 {
      NoLeadingZero(n / 10);
      assert Decimal(n)[0] == Decimal(n / 10)[0];
    }
  }

  function ParseDecimal(s: string): (n: nat)
    requires forall i :: 0 <= i < |s| ==> IsDigit(s[i])
  {
    if s == [] then 0
    else
      assert IsDigit(s[|s| - 1]);
      10 * ParseDecimal(s[..|s| - 1]) + (s[|s| - 1] as int - '0' as int)
  }

  /** The name handed out for the n-th commit. */
  function CommitName(n: nat): string {
    PREFIX + Decimal(n)
  }

  /** Branch names that look like a commit name are refused. */
  predicate IsReservedCommitIdName(name: string) {
    && PREFIX <= name
    && |name| != |PREFIX|
    && forall i :: |PREFIX| <= i < |name| ==> IsDigit(name[i])
  }

  /** Names order commits the way strings do: commit-10 comes before commit-9. */
  predicate NameLess(m: nat, n: nat) {
    Lexicographic.Less(Lexicographic.Codes(CommitName(m)), Lexicographic.Codes(CommitName(n)))
  }

  lemma {:induction false} ParseInvertsDecimal(n: nat)
    ensures ParseDecimal(Decimal(n)) == n
  {
    if n >= 10 {
      var s := Decimal(n);
      assert s[..|s| - 1] == Decimal(n / 10);
      ParseInvertsDecimal(n / 10);
    }
  }

  lemma NameInjective(m: nat, n: nat)
    requires CommitName(m) == CommitName(n)
    ensures m == n
  {
    assert Decimal(m) == CommitName(m)[|PREFIX|..] == Decimal(n);
    ParseInvertsDecimal(m);
    ParseInvertsDecimal(n);
  }

  lemma NameIsReserved(n: nat)
    ensures IsReservedCommitIdName(CommitName(n))
  {
    var name := CommitName(n);
    forall i | |PREFIX| <= i < |name|
      ensures IsDigit(name[i])
    {
      assert name[i] == Decimal(n)[i - |PREFIX|];
    }
  }

  lemma NameLessTotal(m: nat, n: nat)
    ensures NameLess(m, n) || NameLess(n, m) || m == n
    ensures !(NameLess(m, n) && NameLess(n, m))
  {
    var a, b := Lexicographic.Codes(CommitName(m)), Lexicographic.Codes(CommitName(n));
    Lexicographic.Trichotomy(a, b);
    if a == b {
      Lexicographic.CodesInjective(CommitName(m), CommitName(n));
      NameInjective(m, n);
    }
    if NameLess(m, n) {
      Lexicographic.Asymmetric(a, b);
    }
  }

  lemma NameLessTransitive(l: nat, m: nat, n: nat)
    requires NameLess(l, m) && NameLess(m, n)
    ensures NameLess(l, n)
  {
    Lexicographic.Transitive(Lexicographic.Codes(CommitName(l)), Lexicographic.Codes(CommitName(m)),
                             Lexicographic.Codes(CommitName(n)));
  }
}
