/**
 When a conflicting merge is tried again, and how long to wait before it is.
 */
module RetryPolicy {
  import Arithmetic

  datatype PathConflictKind =
    | RetryableNonUniqueIndex
    | UniqueIndex
    | PayloadPath
    | Referential
    | UnknownPath

  datatype ConflictType = TypeUnspecified | PayloadConflict | IndexConflict | ReferentialViolation

  datatype RetryDecision = RetryDecision(retryable: bool, conflictType: ConflictType)

  /** The kind that names a conflict: payload first, then index, then referential integrity. */
  method ResolveConflictType(kinds: seq<PathConflictKind>) returns (t: ConflictType)
    ensures t == PayloadConflict <==> PayloadPath in kinds
    ensures t == IndexConflict <==> PayloadPath !in kinds && (RetryableNonUniqueIndex in kinds || UniqueIndex in kinds)
    ensures t == ReferentialViolation <==>
            PayloadPath !in kinds && RetryableNonUniqueIndex !in kinds && UniqueIndex !in kinds && Referential in kinds
  {
    var sawIndex, sawReferential := false, false;
    for i := 0 to |kinds|
      invariant PayloadPath !in kinds[..i]
      invariant sawIndex <==> RetryableNonUniqueIndex in kinds[..i] || UniqueIndex in kinds[..i]
      invariant sawReferential <==> Referential in kinds[..i]
    {
      assert kinds[..i + 1] == kinds[..i] + [kinds[i]];
      match kinds[i] {
        case PayloadPath => return PayloadConflict;
        case RetryableNonUniqueIndex => sawIndex := true;
        case UniqueIndex => sawIndex := true;
        case Referential => sawReferential := true;
        case UnknownPath =>
      }
    }
    assert kinds[..|kinds|] == kinds;
    return if sawIndex then IndexConflict else if sawReferential then ReferentialViolation else TypeUnspecified;
  }

  /** A conflict is worth another attempt only if every path is a non-unique index and attempts remain. */
  method EvaluateRetryDecision<P>(paths: seq<P>, attempts: nat, maxAttempts: nat, classifier: P -> PathConflictKind)
    returns (d: RetryDecision)
    ensures d.retryable <==>
            && paths != [] && attempts < maxAttempts
            && forall i :: 0 <= i < |paths| ==> classifier(paths[i]) == RetryableNonUniqueIndex
    ensures d.retryable ==> d.conflictType == IndexConflict
    ensures d.conflictType == PayloadConflict <==> exists i :: 0 <= i < |paths| && classifier(paths[i]) == PayloadPath
    ensures d.conflictType == IndexConflict <==>
            && (forall i :: 0 <= i < |paths| ==> classifier(paths[i]) != PayloadPath)
            && (exists i :: 0 <= i < |paths| && classifier(paths[i]) in {RetryableNonUniqueIndex, UniqueIndex})
    ensures d.conflictType == ReferentialViolation <==>
            && (forall i :: 0 <= i < |paths| ==>
                  classifier(paths[i]) !in {PayloadPath, RetryableNonUniqueIndex, UniqueIndex})
            && (exists i :: 0 <= i < |paths| && classifier(paths[i]) == Referential)
  {
    if paths == [] {
      return RetryDecision(false, TypeUnspecified);
    }
    var kinds: seq<PathConflictKind> := [];
    var allRetryable := true;
    for i := 0 to |paths|
      invariant |kinds| == i && forall j :: 0 <= j < i ==> kinds[j] == classifier(paths[j])
      invariant allRetryable <==> forall j :: 0 <= j < i ==> classifier(paths[j]) == RetryableNonUniqueIndex
    {
      var kind := classifier(paths[i]);
      kinds := kinds + [kind];
      if kind != RetryableNonUniqueIndex {
        allRetryable := false;
      }
    }
    var t := ResolveConflictType(kinds);
    forall kind: PathConflictKind
      ensures kind in kinds <==> exists i :: 0 <= i < |paths| && classifier(paths[i]) == kind
    {
      if kind in kinds {
        var i :| 0 <= i < |kinds| && kinds[i] == kind;
        assert classifier(paths[i]) == kind;
      }
      if i :| 0 <= i < |paths| && classifier(paths[i]) == kind {
        assert kinds[i] == kind;
      }
    }
    assert allRetryable ==> kinds[0] == RetryableNonUniqueIndex && PayloadPath !in kinds;
    return RetryDecision(allRetryable && attempts < maxAttempts, t);
  }

  // -------------------------------------------------------------------------
  // Backoff
  // -------------------------------------------------------------------------

  function Min(a: int, b: int): int {
    if b < a then b else a
  }

  /** Doubling from `initial`, capped: the delay before jitter, in clock ticks. */
  function Capped(initial: int, maxBackoff: int, i: nat): int {
    if i == 0 then Min(if initial < 0 then 0 else initial, maxBackoff)
    else Min(2 * Capped(initial, maxBackoff, i - 1), maxBackoff)
  }

  /** The jitter takes some share of what is allowed, rounded to whole ticks in any way. */
  ghost predicate IsShare(share: nat -> nat) {
    forall x: nat :: share(x) <= x
  }

  /**
   The delay before attempt `i` is repeated. `share` multiplies by the fraction hashed from `i`, which
   lies between zero and one.
   */
  method ComputeBackoffWithJitter(i: nat, initial: int, maxBackoff: int, share: nat -> nat) returns (delay: int)
    requires IsShare(share)
    ensures delay == Backoff(i, initial, maxBackoff, share)
  {
    if maxBackoff <= 0 {
      return 0;
    }
    var backoff := if initial < 0 then 0 else initial;
    var k := 0;
    while k < i && backoff < maxBackoff
      invariant k <= i
      invariant Min(backoff, maxBackoff) == Capped(initial, maxBackoff, k)
      invariant backoff >= 0
    {
      backoff := backoff * 2;
      if backoff > maxBackoff {
        backoff := maxBackoff;
      }
      k := k + 1;
    }
    if backoff >= maxBackoff {
      StaysCapped(initial, maxBackoff, k, i);
      return maxBackoff;
    }
    var maxJitter := Min(maxBackoff - backoff, backoff / 2);
    if maxJitter <= 0 {
      return backoff;
    }
    return backoff + share(maxJitter);
  }

  lemma {:induction false} StaysCapped(initial: int, maxBackoff: int, k: nat, i: nat)
    requires maxBackoff > 0 && Capped(initial, maxBackoff, k) == maxBackoff && k <= i
    ensures Capped(initial, maxBackoff, i) == maxBackoff
    decreases i
  {
    if k < i {
      StaysCapped(initial, maxBackoff, k, i - 1);
    }
  }

  function Backoff(i: nat, initial: int, maxBackoff: int, share: nat -> nat): int {
    if maxBackoff <= 0 then 0
    else
      var b := Capped(initial, maxBackoff, i);
      CappedBounds(initial, maxBackoff, i);
      b + share(Min(maxBackoff - b, b / 2))
  }

  lemma {:induction false} CappedBounds(initial: int, maxBackoff: int, i: nat)
    requires maxBackoff > 0
    ensures 0 <= Capped(initial, maxBackoff, i) <= maxBackoff
  {
    if i > 0 {
      CappedBounds(initial, maxBackoff, i - 1);
    }
  }

  /** Whatever the jitter hash yields, delays never exceed the maximum and never shrink. */
  lemma BackoffsGrow(i: nat, initial: int, maxBackoff: int, share: nat -> nat, share': nat -> nat)
    requires IsShare(share) && IsShare(share')
    ensures 0 <= Backoff(i, initial, maxBackoff, share) <= Backoff(i + 1, initial, maxBackoff, share')
    ensures maxBackoff > 0 ==> Backoff(i, initial, maxBackoff, share) <= maxBackoff
  {
    if maxBackoff > 0 {
      CappedBounds(initial, maxBackoff, i);
      CappedBounds(initial, maxBackoff, i + 1);
    }
  }

  /** The delay before jitter is the initial one doubled that many times, but at most the maximum. */
  lemma {:induction false} CappedIs(initial: int, maxBackoff: int, i: nat)
    requires maxBackoff > 0
    ensures
      var doubled := (if initial < 0 then 0 else initial) * Arithmetic.Pow(2, i);
      Capped(initial, maxBackoff, i) == if doubled < maxBackoff then doubled else maxBackoff
  {
    var start := if initial < 0 then 0 else initial;
    if i > 0 {
      CappedIs(initial, maxBackoff, i - 1);
      assert start * Arithmetic.Pow(2, i) == 2 * (start * Arithmetic.Pow(2, i - 1));
    }
  }

  /** Jitter adds a share of half of that, or of what is left up to the maximum. */
  lemma BackoffIs(i: nat, initial: int, maxBackoff: int, share: nat -> nat)
    requires IsShare(share)
    ensures maxBackoff <= 0 ==> Backoff(i, initial, maxBackoff, share) == 0
    ensures maxBackoff > 0 ==>
      var doubled := (if initial < 0 then 0 else initial) * Arithmetic.Pow(2, i);
      var delay := Backoff(i, initial, maxBackoff, share);
      && (doubled >= maxBackoff ==> delay == maxBackoff)
      && (0 <= doubled < maxBackoff ==>
            var room := if maxBackoff - doubled < doubled / 2 then maxBackoff - doubled else doubled / 2;
            delay == doubled + share(room))
  {
    if maxBackoff > 0 {
      CappedIs(initial, maxBackoff, i);
      CappedBounds(initial, maxBackoff, i);
    }
  }
}
