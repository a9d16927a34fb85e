/**
 The id services as objects: the counter store, the super block allocator and the client's double
 buffer, updated in place and proved to make exactly the moves that the id system is built from.
 */
module IdAllocator {
  import opened Results
  import opened IdFormat
  import opened SuperBlocks
  import opened IdSystem

  class MemoryStore {
    var counters: Counters

    constructor ()
      ensures counters == map[]
    {
      counters := map[];
    }

    method Allocate(bucket: nat, increment: nat, maxValue: nat) returns (r: Result<nat>)
      modifies this
      ensures (counters, r) == StoreAllocate(old(counters), bucket, increment, maxValue)
    {
      var count := if bucket in counters then counters[bucket] else 0;
      if count + increment > maxValue {
        return Err(ResourceExhausted);
      }
      counters := counters[bucket := count + increment];
      return Ok(count);
    }
  }

  /** Bucket choices are made by the caller: `syncPick` for a fetch on the spot, `pick` for a prefetch. */
  class SuperBlockAllocator {
    const store: MemoryStore
    const cfg: Config
    var active: SuperBlock
    var background: SuperBlock
    var pending: Option<Fetch>

    ghost function State(): Allocator
      reads this
    {
      Allocator(active, background, pending)
    }

    /** Blocks tile what is held, no id is held twice, and every id held was reserved in the store. */
    ghost predicate Valid()
      reads this, store
    {
      && cfg.Validated() && CountersOk(cfg, store.counters) && AllocatorOk(cfg, State())
      && forall id :: State().Owns(id) ==> Reserved(cfg, store.counters, id)
    }

    constructor (store: MemoryStore, cfg: Config)
      requires cfg.Validated() && CountersOk(cfg, store.counters)
      ensures this.store == store && this.cfg == cfg && Valid() && State() == FRESH
    {
      this.store := store;
      this.cfg := cfg;
      active, background, pending := NO_BLOCK, NO_BLOCK, None;
      new;
      FreshIsOk(cfg);
    }

    method FetchSuperBlockFrom(bucket: nat) returns (r: Result<SuperBlock>)
      modifies store
      ensures (store.counters, r) == FetchFrom(cfg, old(store.counters), bucket)
    {
      var reserved := store.Allocate(bucket, cfg.superBlockSize, cfg.Span());
      if reserved.Err? {
        return Err(reserved.status);
      }
      var start := ComposeId(cfg, bucket, reserved.value);
      var end := ComposeId(cfg, bucket, reserved.value + cfg.superBlockSize);
      return Ok(SuperBlock(start, end, start));
    }

    /** What the prefetch thread does, at whatever moment it gets to run. */
    method RunPendingFetch()
      requires Valid()
      modifies this, store
      ensures Valid() && (State(), store.counters) == RunFetch(cfg, old(State()), old(store.counters))
      ensures forall id :: State().Owns(id) <==>
        old(State()).Owns(id) || (Reserved(cfg, store.counters, id) && !old(Reserved(cfg, store.counters, id)))
    {
      hide SuperBlocks.AllocatorOk, SuperBlocks.Reserved;
      RunFetchConserves(cfg, State(), store.counters);
      if pending.Some? && pending.value.Running? {
        var r := FetchSuperBlockFrom(pending.value.bucket);
        pending := Some(Done(r));
      }
    }

    /** Ids only change their slot: a background block is never overwritten. */
    method TryComplete()
      requires Valid()
      modifies this
      ensures Valid() && State() == TryCompletePrefetch(old(State()))
      ensures forall id :: State().Owns(id) <==> old(State()).Owns(id)
    {
      HarvestConserves(cfg, State());
      hide SuperBlocks.AllocatorOk, SuperBlocks.Reserved;
      if pending.Some? && pending.value.Done? {
        var result := pending.value.result;
        pending := None;
        if result.Ok? {
          background := result.value;
        }
      }
    }

    method CarveActive() returns (b: Option<Block>)
      modifies this
      ensures old(active).Remaining() < cfg.blockSize ==> b.None? && State() == old(State())
      ensures old(active).Remaining() >= cfg.blockSize ==>
        && b == Some(Block(old(active).next, old(active).next + cfg.blockSize))
        && State() == old(State()).(active := old(active).(next := old(active).next + cfg.blockSize))
    {
      if active.Remaining() < cfg.blockSize {
        return None;
      }
      var start := active.next;
      active := active.(next := start + cfg.blockSize);
      return Some(Block(start, active.next));
    }

    /** A prefetch starts when none is under way, half is used up and nothing is in reserve. */
    method MaybeStart(pick: Result<nat>)
      modifies this
      ensures State() == MaybeStartPrefetch(cfg, old(State()), pick)
      ensures active == old(active) && background == old(background)
      ensures pending ==
        if old(pending).None? && 2 * old(active).Remaining() <= cfg.superBlockSize && old(background).IsEmpty()
          && pick.Ok?
        then Some(Running(pick.value)) else old(pending)
    {
      if pending.Some? {
        return;
      }
      var belowThreshold := active.Remaining() <= cfg.superBlockSize / 2;
      if belowThreshold && background.IsEmpty() {
        if pick.Err? {
          return;
        }
        pending := Some(Running(pick.value));
      }
    }

    /** Wait for the prefetch in flight, or fetch here and now; the store may fail either way. */
    method FetchOnDemand(syncPick: Result<nat>, fault: Option<Status>) returns (r: Result<SuperBlock>)
      modifies this, store
      ensures (store.counters, r) == FetchNow(cfg, old(State()), old(store.counters), syncPick, fault)
      ensures State() == old(State()).(pending := None)
    {
      if pending.Some? {
        if pending.value.Done? {
          r := pending.value.result;
        } else if fault.Some? {
          r := Err(fault.value);
        } else {
          r := FetchSuperBlockFrom(pending.value.bucket);
        }
        pending := None;
      } else if syncPick.Err? {
        r := Err(syncPick.status);
      } else if fault.Some? {
        r := Err(fault.value);
      } else {
        r := FetchSuperBlockFrom(syncPick.value);
      }
    }

    /**
     Hands out a block. Ids are conserved: what was owned or newly reserved is owned still or handed
     out. Ids at hand are always served; with none at hand the outcome is that of the one fetch made.
     */
    method AllocateBlock(syncPick: Result<nat>, fault: Option<Status>, pick: Result<nat>) returns (r: Result<Block>)
      requires Valid() && PickOk(cfg, syncPick) && PickOk(cfg, pick)
      modifies this, store
      ensures (State(), store.counters, r) ==
              SuperBlocks.AllocateBlock(cfg, old(State()), old(store.counters), syncPick, fault, pick)
      ensures Valid() && Conserved(cfg, old(State()), old(store.counters), State(), store.counters, r)
      ensures r.Ok? ==> forall id :: r.value.Holds(id) ==> Reserved(cfg, store.counters, id)
      ensures (exists id: nat :: old(State()).Owns(id)) ==> r.Ok? && store.counters == old(store.counters)
      ensures (forall id: nat :: !old(State()).Owns(id)) ==>
        var bucket := if old(pending).Some? && old(pending).value.Running? then Ok(old(pending).value.bucket)
          else syncPick;
        && (r.Err? <==> bucket.Err? || fault.Some? || Exhausted(cfg, old(store.counters), bucket.value))
        && (r.Err? ==> r.status == if bucket.Err? then bucket.status
                                   else if fault.Some? then fault.value
                                   else ResourceExhausted)
    {
      AllocateConserves(cfg, State(), store.counters, syncPick, fault, pick);
      AllocateServes(cfg, State(), store.counters, syncPick, fault, pick);
      hide SuperBlocks.AllocatorOk, SuperBlocks.Reserved;
      r := AllocateFrom(syncPick, fault, pick);
    }

    method AllocateFrom(syncPick: Result<nat>, fault: Option<Status>, pick: Result<nat>) returns (r: Result<Block>)
      requires Valid()
      modifies this, store
      ensures (State(), store.counters, r) ==
              SuperBlocks.AllocateBlock(cfg, old(State()), old(store.counters), syncPick, fault, pick)
    {
      hide SuperBlocks.FetchNow, SuperBlocks.MaybeStartPrefetch, SuperBlocks.AllocatorOk, SuperBlocks.Reserved;
      TryComplete();
      var block := CarveActive();
      if block.Some? {
        MaybeStart(pick);
        return Ok(block.value);
      }
      if !background.IsEmpty() {
        active, background := background, NO_BLOCK;
        block := CarveActive();
        if block.Some? {
          MaybeStart(pick);
          return Ok(block.value);
        }
      }
      var fetched := FetchOnDemand(syncPick, fault);
      if fetched.Err? {
        return Err(fetched.status);
      }
      active := fetched.value;
      block := CarveActive();
      if block.Some? {
        MaybeStart(pick);
        return Ok(block.value);
      }
      return Err(ResourceExhausted);
    }
  }

  class BlockDoubleBuffer {
    const highWaterMark: nat
    var front: Block
    var back: Block
    var fetching: bool

    ghost function State(): Client
      reads this
    {
      Client(highWaterMark, front, back, fetching)
    }

    /** The two blocks share no id. */
    ghost predicate Valid()
      reads this
    {
      ClientOk(State())
    }

    constructor (highWaterMark: nat)
      ensures Valid() && State() == Client(highWaterMark, NO_IDS, NO_IDS, false)
    {
      this.highWaterMark := highWaterMark;
      front, back, fetching := NO_IDS, NO_IDS, false;
    }

    method Initialize(fetched: Block) returns (r: Result<()>)
      modifies this
      ensures State() == old(State()).(front := Fill(old(front), fetched).0) && (r.Ok? <==> Fill(old(front), fetched).1)
      ensures old(Valid()) && (forall id :: fetched.Holds(id) ==> !old(State()).Owns(id)) ==> Valid()
      ensures forall id :: State().Owns(id) <==> old(State()).Owns(id) || (r.Ok? && fetched.Holds(id))
      ensures r.Ok? <==> old(front).start >= old(front).end
    {
      if HasId(front) {
        return Err(FailedPrecondition);
      }
      front := fetched;
      return Ok(());
    }

    /** Takes one id out of the buffer and leaves all others; fails only on an empty buffer. */
    method AllocateId() returns (r: Result<nat>)
      modifies this
      ensures (State(), r) == TakeId(old(State()))
      ensures r.Err? <==> forall id: nat :: !old(State()).Owns(id)
      ensures r.Ok? ==> old(State()).Owns(r.value)
      ensures old(Valid()) ==> Valid() && forall id: nat :: State().Owns(id) <==> old(State()).Owns(id) && r != Ok(id)
      ensures r.Ok? ==> r.value == (if HasId(old(front)) then old(front).start else old(back).start)
      ensures r.Ok? ==> (fetching <==>
        old(fetching) || (front.end - front.start <= highWaterMark && back.start >= back.end))
    {
      ghost var start := State();
      if !HasId(front) {
        if !HasId(back) {
          return Err(ResourceExhausted);
        }
        front, back := back, NO_IDS;
      }
      var id := front.start;
      assert front.Holds(id) && start.Owns(id);
      front := Block(id + 1, front.end);
      if front.end - front.start <= highWaterMark {
        if !fetching && !HasId(back) {
          fetching := true;
        }
      }
      return Ok(id);
    }

    /** A prefetch worker finishing: a failed fetch, or a block that fits only if the back is used up. */
    method WorkerFinishes(fetched: Option<Block>)
      modifies this
      ensures fetched.None? ==> State() == old(State()).(fetching := false)
      ensures fetched.Some? ==> State() == old(State()).(back := Fill(old(back), fetched.value).0, fetching := false)
      ensures forall id :: old(State()).Owns(id) ==> State().Owns(id)
      ensures fetched.Some? && old(back).start >= old(back).end ==> back == fetched.value
      ensures old(Valid()) && (fetched.Some? ==> forall id :: fetched.value.Holds(id) ==> !old(State()).Owns(id)) ==>
        Valid()
    {
      if fetched.Some? && !HasId(back) {
        back := fetched.value;
      }
      fetching := false;
    }

    method Close()
      modifies this
      ensures Valid() && State() == old(State()).(front := NO_IDS, back := NO_IDS, fetching := false)
    {
      fetching, front, back := false, NO_IDS, NO_IDS;
    }
  }
}
