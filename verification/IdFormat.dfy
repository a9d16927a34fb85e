/**
 The layout of ids: a bucket index above a sequential counter, all below 2^53.
 */
module IdFormat {
  import Arithmetic

  lemma {:induction false} PowAdd(m: nat, n: nat)
    ensures Arithmetic.Pow(2, m + n) == Arithmetic.Pow(2, m) * Arithmetic.Pow(2, n)
    decreases m
  {
    if m > 0 {
      PowAdd(m - 1, n);
      assert Arithmetic.Pow(2, m + n) == 2 * Arithmetic.Pow(2, m - 1 + n);
    }
  }

  datatype Config = Config(partition: string, numBuckets: nat, bucketBits: nat, superBlockSize: nat, blockSize: nat) {
    /** Exclusive bound on the counter of one bucket. */
    function Span(): (p: nat)
      ensures p >= 1
    {
      Arithmetic.Pow(2, bucketBits)
    }

    /** The checks made before a partition is accepted, in order. */
    predicate Validated() {
      && partition != ""
      && numBuckets != 0
      && 1 <= bucketBits <= 52
      && blockSize != 0
      && superBlockSize != 0
      && Arithmetic.Multiple(superBlockSize, blockSize)
      && numBuckets <= Arithmetic.Pow(2, 53 - bucketBits)
    }
  }

  function ComposeId(cfg: Config, bucket: nat, counter: nat): nat {
    bucket * cfg.Span() + counter
  }

  function ExtractBucketIndex(cfg: Config, id: nat): nat {
    Arithmetic.DivNonNegative(id, cfg.Span());
    id / cfg.Span()
  }

  function ExtractCounter(cfg: Config, id: nat): nat {
    id % cfg.Span()
  }

  /** Ids decompose into what they were composed of. */
  lemma ExtractInvertsCompose(cfg: Config, bucket: nat, counter: nat)
    requires counter < cfg.Span()
    ensures ExtractBucketIndex(cfg, ComposeId(cfg, bucket, counter)) == bucket
    ensures ExtractCounter(cfg, ComposeId(cfg, bucket, counter)) == counter
  {
    Arithmetic.DivModOf(cfg.Span(), bucket, counter);
  }

  /** Every id of an accepted partition is a safe integer for JavaScript clients. */
  lemma IdsFitIn53Bits(cfg: Config, bucket: nat, counter: nat)
    requires cfg.Validated() && bucket < cfg.numBuckets && counter < cfg.Span()
    ensures ComposeId(cfg, bucket, counter) < Arithmetic.Pow(2, 53)
  {
    hide Arithmetic.Pow;
    var p, q := Arithmetic.Pow(2, cfg.bucketBits), Arithmetic.Pow(2, 53 - cfg.bucketBits);
    PowAdd(53 - cfg.bucketBits, cfg.bucketBits);
    Arithmetic.MulLe(bucket + 1, q, p);
    assert (bucket + 1) * p == bucket * p + p;
  }
}
