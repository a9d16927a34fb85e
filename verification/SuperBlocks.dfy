/**
 The service side of id allocation: bucket counters in a persistent store, super blocks reserved
 from them, and the double-buffered allocator that carves blocks out of super blocks.
 */
module SuperBlocks {
  import opened Results
  import opened IdFormat
  import Arithmetic

  // -------------------------------------------------------------------------
  // The counter store
  // -------------------------------------------------------------------------

  type Counters = map<nat, nat>

  function CounterOf(counters: Counters, bucket: nat): nat {
    if bucket in counters then counters[bucket] else 0
  }

  /** Bounded increment of one bucket; the previous value is the caller's to use. */
  function StoreAllocate(counters: Counters, bucket: nat, increment: nat, maxValue: nat): (Counters, Result<nat>) {
    var count := CounterOf(counters, bucket);
    if count + increment > maxValue then (counters, Err(ResourceExhausted))
    else (counters[bucket := count + increment], Ok(count))
  }

  ghost predicate CountersOk(cfg: Config, counters: Counters) {
    forall b :: b in counters ==> counters[b] <= cfg.Span() && b < cfg.numBuckets
  }

  /** Ids whose counter value has been taken from the store. */
  predicate Reserved(cfg: Config, counters: Counters, id: nat) {
    ExtractCounter(cfg, id) < CounterOf(counters, ExtractBucketIndex(cfg, id))
  }

  // -------------------------------------------------------------------------
  // Super blocks
  // -------------------------------------------------------------------------

  datatype SuperBlock = SuperBlock(start: nat, end: nat, next: nat) {
    function Remaining(): nat {
      if next < end then end - next else 0
    }

    predicate IsEmpty() {
      start == end
    }

    predicate Holds(id: nat) {
      next <= id < end
    }
  }

  const NO_BLOCK := SuperBlock(0, 0, 0)

  function FetchFrom(cfg: Config, counters: Counters, bucket: nat): (Counters, Result<SuperBlock>) {
    var (counters', r) := StoreAllocate(counters, bucket, cfg.superBlockSize, cfg.Span());
    match r
    case Err(e) => (counters', Err(e))
    case Ok(previous) =>
      var start := ComposeId(cfg, bucket, previous);
      var end := ComposeId(cfg, bucket, previous + cfg.superBlockSize);
      (counters', Ok(SuperBlock(start, end, start)))
  }

  /** A fetched super block holds exactly the ids that the fetch reserved, and no counter runs over. */
  lemma FetchReserves(cfg: Config, counters: Counters, bucket: nat)
    requires cfg.Validated() && CountersOk(cfg, counters) && bucket < cfg.numBuckets
    ensures
      var (counters', r) := FetchFrom(cfg, counters, bucket);
      && CountersOk(cfg, counters')
      && (r.Err? ==> counters' == counters)
      && (r.Ok? ==> r.value.start == r.value.next && r.value.end == r.value.start + cfg.superBlockSize)
      && (forall id :: Reserved(cfg, counters', id) <==>
                       Reserved(cfg, counters, id) || (r.Ok? && r.value.Holds(id)))
      && (forall id :: r.Ok? && r.value.Holds(id) ==> !Reserved(cfg, counters, id))
  {
    var (counters', r) := FetchFrom(cfg, counters, bucket);
    if r.Ok? {
      var p, previous := cfg.Span(), CounterOf(counters, bucket);
      forall id: nat
        ensures Reserved(cfg, counters', id) <==> Reserved(cfg, counters, id) || r.value.Holds(id)
        ensures r.value.Holds(id) ==> !Reserved(cfg, counters, id)
      {
        if ExtractBucketIndex(cfg, id) == bucket {
          Arithmetic.DivModDef(id, p);
        } else if r.value.Holds(id) {
          Arithmetic.DivModOf(p, bucket, id - bucket * p);
        }
      }
    }
  }

  // -------------------------------------------------------------------------
  // The allocator
  // -------------------------------------------------------------------------

  /** A prefetch on its own thread: still running against a chosen bucket, or finished. */
  datatype Fetch = Running(bucket: nat) | Done(result: Result<SuperBlock>)

  datatype Allocator = Allocator(active: SuperBlock, background: SuperBlock, pending: Option<Fetch>) {
    predicate PendingHolds(id: nat) {
      pending.Some? && pending.value.Done? && pending.value.result.Ok? && pending.value.result.value.Holds(id)
    }

    /** Ids this allocator has reserved and not handed out. */
    predicate Owns(id: nat) {
      active.Holds(id) || background.Holds(id) || PendingHolds(id)
    }
  }

  const FRESH := Allocator(NO_BLOCK, NO_BLOCK, None)

  datatype Block = Block(start: nat, end: nat) {
    predicate Holds(id: nat) {
      start <= id < end
    }
  }

  predicate Whole(cfg: Config, sb: SuperBlock) {
    sb.start == sb.next && sb.end == sb.start + cfg.superBlockSize
  }

  /**
   Blocks tile the active super block, a prefetch never coexists with a background block, and no id is in two
   places.
   */
  ghost predicate AllocatorOk(cfg: Config, a: Allocator)
    requires cfg.Validated()
  {
    && a.active.next <= a.active.end && Arithmetic.Multiple(a.active.end - a.active.next, cfg.blockSize)
    && (a.background == NO_BLOCK || Whole(cfg, a.background))
    && (a.pending.Some? ==>
          && a.background == NO_BLOCK
          && match a.pending.value
             case Running(b) => b < cfg.numBuckets
             case Done(r) => r.Ok? ==> Whole(cfg, r.value))
    && (forall id :: !(a.active.Holds(id) && a.background.Holds(id)) && !(a.active.Holds(id) && a.PendingHolds(id)))
  }

  /** The body of the prefetch thread. */
  function RunFetch(cfg: Config, a: Allocator, counters: Counters): (Allocator, Counters) {
    match a.pending
    case Some(Running(b)) =>
      var (counters', r) := FetchFrom(cfg, counters, b);
      (a.(pending := Some(Done(r))), counters')
    case _ => (a, counters)
  }

  function TryCompletePrefetch(a: Allocator): Allocator {
    match a.pending
    case Some(Done(Ok(sb))) => Allocator(a.active, sb, None)
    case Some(Done(Err(_))) => a.(pending := None)
    case _ => a
  }

  /** Start a prefetch at half capacity if none runs and nothing is in reserve; selection may fail. */
  function MaybeStartPrefetch(cfg: Config, a: Allocator, pick: Result<nat>): Allocator {
    if a.pending.Some? then a
    else if a.active.Remaining() <= cfg.superBlockSize / 2 && a.background.IsEmpty() && pick.Ok? then
      a.(pending := Some(Running(pick.value)))
    else a
  }

  function Carve(cfg: Config, a: Allocator, pick: Result<nat>): (Allocator, Block)
    requires a.active.Remaining() >= cfg.blockSize
  {
    var next := a.active.next + cfg.blockSize;
    (MaybeStartPrefetch(cfg, a.(active := a.active.(next := next)), pick), Block(a.active.next, next))
  }

  /** Hand out one block: from the active super block, then the background one, then a fetch. */
  function AllocateBlock(cfg: Config, a: Allocator, counters: Counters, syncPick: Result<nat>, fault: Option<Status>,
                         pick: Result<nat>)
    : (Allocator, Counters, Result<Block>)
  {
    var a1 := TryCompletePrefetch(a);
    if a1.active.Remaining() >= cfg.blockSize then
      var (a2, b) := Carve(cfg, a1, pick);
      (a2, counters, Ok(b))
    else
      var a2 := if a1.background.IsEmpty() then a1 else Allocator(a1.background, NO_BLOCK, a1.pending);
      if !a1.background.IsEmpty() && a2.active.Remaining() >= cfg.blockSize then
        var (a3, b) := Carve(cfg, a2, pick);
        (a3, counters, Ok(b))
      else
        var (counters', fetched) := FetchNow(cfg, a2, counters, syncPick, fault);
        var a3 := a2.(pending := None);
        match fetched
        case Err(e) => (a3, counters', Err(e))
        case Ok(sb) =>
          var a4 := a3.(active := sb);
          if sb.Remaining() >= cfg.blockSize then
            var (a5, b) := Carve(cfg, a4, pick);
            (a5, counters', Ok(b))
          else (a4, counters', Err(ResourceExhausted))
  }

  /**
   Wait for the running prefetch, or fetch on the spot from a bucket chosen now. `fault` is the error of
   a store that cannot carry out the fetch.
   */
  function FetchNow(cfg: Config, a: Allocator, counters: Counters, syncPick: Result<nat>, fault: Option<Status>)
    : (Counters, Result<SuperBlock>)
  {
    match a.pending
    case Some(Done(r)) => (counters, r)
    case Some(Running(b)) => if fault.Some? then (counters, Err(fault.value)) else FetchFrom(cfg, counters, b)
    case None =>
      match syncPick
      case Ok(b) => if fault.Some? then (counters, Err(fault.value)) else FetchFrom(cfg, counters, b)
      case Err(e) => (counters, Err(e))
  }

  predicate PickOk(cfg: Config, pick: Result<nat>) {
    pick.Ok? ==> pick.value < cfg.numBuckets
  }

  // -------------------------------------------------------------------------
  // Conservation
  // -------------------------------------------------------------------------

  lemma FreshIsOk(cfg: Config)
    requires cfg.Validated()
    ensures AllocatorOk(cfg, FRESH) && forall id :: !FRESH.Owns(id)
  {
    Arithmetic.SmallMultiple(0, cfg.blockSize);
  }

  /** Carving moves one block's worth of ids out of the active super block, and nothing else. */
  lemma CarveConserves(cfg: Config, a: Allocator, pick: Result<nat>)
    requires cfg.Validated() && AllocatorOk(cfg, a) && PickOk(cfg, pick)
    requires a.active.Remaining() >= cfg.blockSize
    ensures
      var (a', b) := Carve(cfg, a, pick);
      && AllocatorOk(cfg, a') && b.end == b.start + cfg.blockSize
      && (forall id :: a'.Owns(id) || b.Holds(id) <==> a.Owns(id))
      && (forall id :: !(a'.Owns(id) && b.Holds(id)))
  {
    hide Arithmetic.Multiple;
    Arithmetic.MultipleStep(a.active.end - a.active.next, cfg.blockSize);
    var (a', b) := Carve(cfg, a, pick);
    assert a'.active.end - a'.active.next == a.active.end - a.active.next - cfg.blockSize;
    assert forall id :: a'.active.Holds(id) ==> a.active.Holds(id);
    assert forall id :: a'.PendingHolds(id) ==> a.PendingHolds(id);
    assert a'.background == a.background;
  }

  /** What is left of a super block that cannot serve a block is nothing. */
  lemma ExhaustedIsEmpty(cfg: Config, a: Allocator)
    requires cfg.Validated() && AllocatorOk(cfg, a) && a.active.Remaining() < cfg.blockSize
    ensures forall id :: !a.active.Holds(id)
  {
    Arithmetic.SmallMultiple(a.active.end - a.active.next, cfg.blockSize);
  }

  lemma WholeServes(cfg: Config, sb: SuperBlock)
    requires cfg.Validated() && Whole(cfg, sb)
    ensures sb.Remaining() >= cfg.blockSize && Arithmetic.Multiple(sb.end - sb.next, cfg.blockSize) && !sb.IsEmpty()
  {
    if cfg.superBlockSize < cfg.blockSize {
      Arithmetic.SmallMultiple(cfg.superBlockSize, cfg.blockSize);
    }
  }

  ghost predicate Exhausted(cfg: Config, counters: Counters, bucket: nat) {
    CounterOf(counters, bucket) + cfg.superBlockSize > cfg.Span()
  }

  ghost predicate SomeBucketExhausted(cfg: Config, counters: Counters) {
    exists b: nat :: b < cfg.numBuckets && Exhausted(cfg, counters, b)
  }

  /** What was owned or newly reserved is owned or handed out, never both; a failure reserves nothing. */
  ghost predicate Conserved(cfg: Config, a: Allocator, counters: Counters, a': Allocator, counters': Counters,
                            r: Result<Block>)
    requires cfg.Validated()
  {
    && CountersOk(cfg, counters')
    && (forall id :: Reserved(cfg, counters, id) ==> Reserved(cfg, counters', id))
    && (forall id :: a'.Owns(id) || (r.Ok? && r.value.Holds(id)) <==>
                     a.Owns(id) || (Reserved(cfg, counters', id) && !Reserved(cfg, counters, id)))
    && (forall id :: !(a'.Owns(id) && r.Ok? && r.value.Holds(id)))
    && (r.Ok? ==> r.value.end == r.value.start + cfg.blockSize) && (r.Err? ==> counters' == counters)
  }

  /**
   Every id an allocator ever reserved is in exactly one place. A call to AllocateBlock keeps all of
   them: what it owned plus what it reserved meanwhile is what it owns now plus, separately, the
   block it returned. It fails only if choosing a bucket failed, the store failed or the chosen bucket is
   used up: a super block once fetched always serves a block.
   */
  lemma AllocateConserves(cfg: Config, a: Allocator, counters: Counters, syncPick: Result<nat>, fault: Option<Status>,
                          pick: Result<nat>)
    requires cfg.Validated() && CountersOk(cfg, counters) && AllocatorOk(cfg, a)
    requires PickOk(cfg, syncPick) && PickOk(cfg, pick)
    requires forall id :: a.Owns(id) ==> Reserved(cfg, counters, id)
    ensures
      var (a', counters', r) := AllocateBlock(cfg, a, counters, syncPick, fault, pick);
      && AllocatorOk(cfg, a') && Conserved(cfg, a, counters, a', counters', r)
      && (r.Err? ==> syncPick.Err? || fault.Some? || SomeBucketExhausted(cfg, counters))
  {
    hide AllocatorOk, Conserved, Reserved, FetchNow, Carve, SomeBucketExhausted;
    var a1 := TryCompletePrefetch(a);
    HarvestConserves(cfg, a);
    if a1.active.Remaining() >= cfg.blockSize {
      CarvedIsConserved(cfg, a, a1, counters, pick);
    } else {
      ExhaustedIsEmpty(cfg, a1);
      if a1.background.IsEmpty() {
        FetchedIsConserved(cfg, a, a1, counters, syncPick, fault, pick);
      } else {
        PromotedIsConserved(cfg, a, a1, counters, pick);
      }
    }
  }

  lemma CarvedIsConserved(cfg: Config, a: Allocator, a1: Allocator, counters: Counters, pick: Result<nat>)
    requires cfg.Validated() && CountersOk(cfg, counters) && AllocatorOk(cfg, a1) && PickOk(cfg, pick)
    requires (forall id :: a1.Owns(id) <==> a.Owns(id)) && a1.active.Remaining() >= cfg.blockSize
    ensures
      var (a', b) := Carve(cfg, a1, pick);
      AllocatorOk(cfg, a') && Conserved(cfg, a, counters, a', counters, Ok(b))
  {
    hide AllocatorOk, Reserved, Carve;
    CarveConserves(cfg, a1, pick);
  }

  lemma PromotedIsConserved(cfg: Config, a: Allocator, a1: Allocator, counters: Counters, pick: Result<nat>)
    requires cfg.Validated() && CountersOk(cfg, counters) && AllocatorOk(cfg, a1) && PickOk(cfg, pick)
    requires (forall id :: a1.Owns(id) <==> a.Owns(id)) && (forall id :: !a1.active.Holds(id))
    requires !a1.background.IsEmpty()
    ensures
      var a2 := Allocator(a1.background, NO_BLOCK, a1.pending);
      && a2.active.Remaining() >= cfg.blockSize
      && var (a', b) := Carve(cfg, a2, pick);
         AllocatorOk(cfg, a') && Conserved(cfg, a, counters, a', counters, Ok(b))
  {
    hide Carve, Conserved, Reserved;
    WholeServes(cfg, a1.background);
    CarvedIsConserved(cfg, a, Allocator(a1.background, NO_BLOCK, a1.pending), counters, pick);
  }

  lemma FetchedIsConserved(cfg: Config, a: Allocator, a1: Allocator, counters: Counters, syncPick: Result<nat>,
                           fault: Option<Status>, pick: Result<nat>)
    requires cfg.Validated() && CountersOk(cfg, counters) && AllocatorOk(cfg, a1)
    requires PickOk(cfg, syncPick) && PickOk(cfg, pick)
    requires forall id :: a.Owns(id) ==> Reserved(cfg, counters, id)
    requires (forall id :: a1.Owns(id) <==> a.Owns(id)) && (forall id :: !a1.active.Holds(id))
    requires a1.background == NO_BLOCK && (a1.pending.Some? ==> a1.pending.value.Running?)
    ensures
      var (counters', fetched) := FetchNow(cfg, a1, counters, syncPick, fault);
      match fetched
      case Err(e) =>
        && AllocatorOk(cfg, a1.(pending := None))
          && Conserved(cfg, a, counters, a1.(pending := None), counters', Err(e))
        && (syncPick.Err? || fault.Some? || SomeBucketExhausted(cfg, counters))
      case Ok(sb) =>
        && sb.Remaining() >= cfg.blockSize
        && var (a', b) := Carve(cfg, Allocator(sb, NO_BLOCK, None), pick);
           AllocatorOk(cfg, a') && Conserved(cfg, a, counters, a', counters', Ok(b))
  {
    hide AllocatorOk, Reserved, FetchNow, Carve, SomeBucketExhausted;
    FetchConserves(cfg, a1, counters, syncPick, fault, pick);
    var fetched := FetchNow(cfg, a1, counters, syncPick, fault).1;
    if fetched.Err? {
      assert forall id :: a1.(pending := None).Owns(id) <==> a1.Owns(id);
    }
  }

  /**
   Ids at hand are served without touching the store. With none at hand there is one fetch, from the
   bucket of the running prefetch if there is one and else from the bucket chosen now, and the call
   fails exactly as that fetch does.
   */
  lemma AllocateServes(cfg: Config, a: Allocator, counters: Counters, syncPick: Result<nat>, fault: Option<Status>,
                       pick: Result<nat>)
    requires cfg.Validated() && CountersOk(cfg, counters) && AllocatorOk(cfg, a)
    requires PickOk(cfg, syncPick) && PickOk(cfg, pick)
    ensures
      var (a', counters', r) := AllocateBlock(cfg, a, counters, syncPick, fault, pick);
      if exists id: nat :: a.Owns(id) then r.Ok? && counters' == counters
      else
        var bucket := if a.pending.Some? && a.pending.value.Running? then Ok(a.pending.value.bucket) else syncPick;
        && (r.Err? <==> bucket.Err? || fault.Some? || Exhausted(cfg, counters, bucket.value))
        && (r.Err? ==> r.status == if bucket.Err? then bucket.status
                                   else if fault.Some? then fault.value
                                   else ResourceExhausted)
  {
    hide Reserved, Carve;
    var a1 := TryCompletePrefetch(a);
    HarvestConserves(cfg, a);
    if a1.active.Remaining() >= cfg.blockSize {
      assert a1.active.Holds(a1.active.next);
      assert a.Owns(a1.active.next);
    } else {
      ExhaustedIsEmpty(cfg, a1);
      if a1.background.IsEmpty() {
        assert forall id: nat :: !a1.Owns(id);
        FetchServes(cfg, a1, counters, syncPick, fault);
      } else {
        WholeServes(cfg, a1.background);
        assert a1.background.Holds(a1.background.next);
        assert a.Owns(a1.background.next);
      }
    }
  }

  lemma FetchServes(cfg: Config, a: Allocator, counters: Counters, syncPick: Result<nat>, fault: Option<Status>)
    requires cfg.Validated() && CountersOk(cfg, counters) && PickOk(cfg, syncPick)
    requires a.pending.Some? ==> a.pending.value.Running? && a.pending.value.bucket < cfg.numBuckets
    ensures
      var bucket := if a.pending.Some? then Ok(a.pending.value.bucket) else syncPick;
      var fetched := FetchNow(cfg, a, counters, syncPick, fault).1;
      && (fetched.Err? <==> bucket.Err? || fault.Some? || Exhausted(cfg, counters, bucket.value))
      && (fetched.Err? ==> fetched.status == if bucket.Err? then bucket.status
                                             else if fault.Some? then fault.value
                                             else ResourceExhausted)
      && (fetched.Ok? ==> fetched.value.Remaining() >= cfg.blockSize)
  {
    var bucket := if a.pending.Some? then Ok(a.pending.value.bucket) else syncPick;
    if bucket.Ok? && fault.None? {
      FetchReserves(cfg, counters, bucket.value);
      if FetchFrom(cfg, counters, bucket.value).1.Ok? {
        WholeServes(cfg, FetchFrom(cfg, counters, bucket.value).1.value);
      }
    }
  }

  /** A prefetch starts exactly when none is under way, nothing is in reserve and half is used up. */
  lemma PrefetchStartsAtHalf(cfg: Config, a: Allocator, pick: Result<nat>)
    requires a.pending.None? && pick.Ok?
    ensures
      var started := 2 * a.active.Remaining() <= cfg.superBlockSize && a.background.IsEmpty();
      MaybeStartPrefetch(cfg, a, pick) == if started then a.(pending := Some(Running(pick.value))) else a
  {
  }

  lemma HarvestConserves(cfg: Config, a: Allocator)
    requires cfg.Validated() && AllocatorOk(cfg, a)
    ensures
      var a1 := TryCompletePrefetch(a);
      && AllocatorOk(cfg, a1) && (a1.pending.Some? ==> a1.pending.value.Running?)
      && (forall id :: a1.Owns(id) <==> a.Owns(id))
      && (a1.background.IsEmpty() <==> a1.background == NO_BLOCK)
  {
    var a1 := TryCompletePrefetch(a);
    if a1.background != NO_BLOCK {
      WholeServes(cfg, a1.background);
    }
  }

  lemma FetchConserves(cfg: Config, a: Allocator, counters: Counters, syncPick: Result<nat>, fault: Option<Status>,
                       pick: Result<nat>)
    requires cfg.Validated() && CountersOk(cfg, counters) && AllocatorOk(cfg, a)
    requires PickOk(cfg, syncPick) && PickOk(cfg, pick)
    requires a.background == NO_BLOCK && (forall id :: !a.active.Holds(id))
      && (a.pending.Some? ==> a.pending.value.Running?)
    ensures
      var (counters', fetched) := FetchNow(cfg, a, counters, syncPick, fault);
      && CountersOk(cfg, counters')
      && (forall id :: Reserved(cfg, counters, id) ==> Reserved(cfg, counters', id))
      && (fetched.Err? ==>
            && counters' == counters && AllocatorOk(cfg, a.(pending := None))
            && (syncPick.Err? || fault.Some? || SomeBucketExhausted(cfg, counters)))
      && (fetched.Ok? ==>
            var a4 := Allocator(fetched.value, NO_BLOCK, None);
            && fetched.value.Remaining() >= cfg.blockSize
            && var (a', b) := Carve(cfg, a4, pick);
            && AllocatorOk(cfg, a') && b.end == b.start + cfg.blockSize
            && (forall id :: a'.Owns(id) || b.Holds(id) <==>
              Reserved(cfg, counters', id) && !Reserved(cfg, counters, id))
            && (forall id :: !(a'.Owns(id) && b.Holds(id))))
  {
    var (counters', fetched) := FetchNow(cfg, a, counters, syncPick, fault);
    if (a.pending.Some? || syncPick.Ok?) && fault.None? {
      var bucket := if a.pending.Some? then a.pending.value.bucket else syncPick.value;
      FetchReserves(cfg, counters, bucket);
      if fetched.Ok? {
        WholeServes(cfg, fetched.value);
        CarveConserves(cfg, Allocator(fetched.value, NO_BLOCK, None), pick);
      } else {
        assert Exhausted(cfg, counters, bucket);
      }
    }
  }

  /** The prefetch thread only moves newly reserved ids into the pending slot. */
  lemma RunFetchConserves(cfg: Config, a: Allocator, counters: Counters)
    requires cfg.Validated() && CountersOk(cfg, counters) && AllocatorOk(cfg, a)
    requires forall id :: a.Owns(id) ==> Reserved(cfg, counters, id)
    ensures
      var (a', counters') := RunFetch(cfg, a, counters);
      && AllocatorOk(cfg, a') && CountersOk(cfg, counters')
      && (forall id :: Reserved(cfg, counters, id) ==> Reserved(cfg, counters', id))
      && (forall id :: a'.Owns(id) <==> a.Owns(id) || (Reserved(cfg, counters', id) && !Reserved(cfg, counters, id)))
  {
    if a.pending.Some? && a.pending.value.Running? {
      FetchReserves(cfg, counters, a.pending.value.bucket);
    }
  }
}
