/**
 The whole id supply: servers with asynchronous prefetches over one persistent counter store, blocks
 on the wire, and clients with double buffers and prefetch workers, under any interleaving.
 */
module IdSystem {
  import opened Results
  import opened IdFormat
  import opened SuperBlocks
  import Arithmetic

  // -------------------------------------------------------------------------
  // A client's double buffer
  // -------------------------------------------------------------------------

  const NO_IDS := Block(0, 0)

  datatype Client = Client(highWaterMark: nat, front: Block, back: Block, fetching: bool) {
    predicate Owns(id: nat) {
      front.Holds(id) || back.Holds(id)
    }
  }

  function Remaining(b: Block): int {
    b.end - b.start
  }

  predicate HasId(b: Block) {
    b.start < b.end
  }

  /** Filling a block that still has ids is refused; the ids offered are then dropped. */
  function Fill(b: Block, offered: Block): (Block, bool) {
    if HasId(b) then (b, false) else (offered, true)
  }

  /** Take one id, swapping the buffers when the front is used up and starting a prefetch when low. */
  function TakeId(c: Client): (Client, Result<nat>) {
    if !HasId(c.front) && !HasId(c.back) then (c, Err(ResourceExhausted))
    else
      var c1 := if HasId(c.front) then c else c.(front := c.back, back := NO_IDS);
      var c2 := c1.(front := Block(c1.front.start + 1, c1.front.end));
      var c3 := if Remaining(c2.front) <= c2.highWaterMark && !c2.fetching && !HasId(c2.back)
                then c2.(fetching := true) else c2;
      (c3, Ok(c1.front.start))
  }

  ghost predicate ClientOk(c: Client) {
    forall id :: !(c.front.Holds(id) && c.back.Holds(id))
  }

  // -------------------------------------------------------------------------
  // The system
  // -------------------------------------------------------------------------

  /** `issued` is every id ever returned to an application, in order. */
  datatype System = System(
    counters: Counters,
    servers: map<nat, Allocator>,
    wire: map<nat, Block>,
    clients: map<nat, Client>,
    issued: seq<nat>)

  datatype Event =
    | ServerStart(s: nat)
    | ServerCrash(s: nat)
    | PrefetchRuns(s: nat)
    | PrefetchFails(s: nat, error: Status)
    | OrphanedFetch(bucket: nat)
    | ServeBlock(s: nat, syncPick: Result<nat>, fault: Option<Status>, pick: Result<nat>, rpc: nat)
    | ReplyLost(rpc: nat)
    | ClientStart(c: nat, highWaterMark: nat)
    | ClientInitialize(c: nat, rpc: nat)
    | WorkerDelivers(c: nat, rpc: nat)
    | WorkerFails(c: nat)
    | ClientTakes(c: nat)
    | ClientClose(c: nat)
    | ClientCrash(c: nat)

  predicate Enabled(cfg: Config, y: System, e: Event) {
    match e
    case ServerStart(s) => s !in y.servers
    case ServerCrash(s) => s in y.servers
    case PrefetchRuns(s) => s in y.servers
    case PrefetchFails(s, _) => s in y.servers && y.servers[s].pending.Some? && y.servers[s].pending.value.Running?
    case OrphanedFetch(b) => b < cfg.numBuckets
    case ServeBlock(s, syncPick, _, pick, rpc) =>
      s in y.servers && PickOk(cfg, syncPick) && PickOk(cfg, pick) && rpc !in y.wire
    case ReplyLost(rpc) => rpc in y.wire
    case ClientStart(c, hwm) => c !in y.clients && hwm >= 1
    case ClientInitialize(c, rpc) => c in y.clients && rpc in y.wire
    case WorkerDelivers(c, rpc) => c in y.clients && rpc in y.wire
    case WorkerFails(c) => c in y.clients
    case ClientTakes(c) => c in y.clients
    case ClientClose(c) => c in y.clients
    case ClientCrash(c) => c in y.clients
  }

  function Next(cfg: Config, y: System, e: Event): System
    requires Enabled(cfg, y, e)
  {
    match e
    case ServerStart(s) => y.(servers := y.servers[s := FRESH])
    case ServerCrash(s) => y.(servers := y.servers - {s})
    case PrefetchRuns(s) =>
      var (a, counters) := RunFetch(cfg, y.servers[s], y.counters);
      y.(servers := y.servers[s := a], counters := counters)
    case PrefetchFails(s, error) => y.(servers := y.servers[s := y.servers[s].(pending := Some(Done(Err(error))))])
    case OrphanedFetch(b) => y.(counters := FetchFrom(cfg, y.counters, b).0)
    case ServeBlock(s, syncPick, fault, pick, rpc) =>
      var (a, counters, r) := AllocateBlock(cfg, y.servers[s], y.counters, syncPick, fault, pick);
      var wire := if r.Ok? then y.wire[rpc := r.value] else y.wire;
      y.(servers := y.servers[s := a], counters := counters, wire := wire)
    case ReplyLost(rpc) => y.(wire := y.wire - {rpc})
    case ClientStart(c, hwm) => y.(clients := y.clients[c := Client(hwm, NO_IDS, NO_IDS, false)])
    case ClientInitialize(c, rpc) =>
      var client := y.clients[c];
      y.(clients := y.clients[c := client.(front := Fill(client.front, y.wire[rpc]).0)], wire := y.wire - {rpc})
    case WorkerDelivers(c, rpc) =>
      var client := y.clients[c];
      y.(clients := y.clients[c := client.(back := Fill(client.back, y.wire[rpc]).0, fetching := false)],
         wire := y.wire - {rpc})
    case WorkerFails(c) => y.(clients := y.clients[c := y.clients[c].(fetching := false)])
    case ClientTakes(c) =>
      var (client, r) := TakeId(y.clients[c]);
      y.(clients := y.clients[c := client], issued := y.issued + (if r.Ok? then [r.value] else []))
    case ClientClose(c) =>
      y.(clients := y.clients[c := y.clients[c].(front := NO_IDS, back := NO_IDS, fetching := false)])
    case ClientCrash(c) => y.(clients := y.clients - {c})
  }

  // -------------------------------------------------------------------------
  // Every id is in at most one place
  // -------------------------------------------------------------------------

  datatype Place = AtServer(s: nat) | OnWire(rpc: nat) | AtClient(c: nat) | IssuedAs(k: nat)

  predicate HeldAt(y: System, p: Place, id: nat) {
    match p
    case AtServer(s) => s in y.servers && y.servers[s].Owns(id)
    case OnWire(rpc) => rpc in y.wire && y.wire[rpc].Holds(id)
    case AtClient(c) => c in y.clients && y.clients[c].Owns(id)
    case IssuedAs(k) => k < |y.issued| && y.issued[k] == id
  }

  ghost predicate Exclusive(y: System) {
    forall p, q, id :: HeldAt(y, p, id) && HeldAt(y, q, id) ==> p == q
  }

  ghost predicate AllReserved(cfg: Config, y: System) {
    forall p, id :: HeldAt(y, p, id) ==> Reserved(cfg, y.counters, id)
  }

  ghost predicate SystemOk(cfg: Config, y: System)
    requires cfg.Validated()
  {
    && CountersOk(cfg, y.counters)
    && (forall s :: s in y.servers ==> AllocatorOk(cfg, y.servers[s]))
    && (forall c :: c in y.clients ==> ClientOk(y.clients[c]))
    && Exclusive(y) && AllReserved(cfg, y)
  }

  /** Ids only move from `p` to `q`, appear at `p` when newly reserved, or disappear. */
  ghost predicate Moves(cfg: Config, y: System, y': System, p: Place, q: Place) {
    && (forall id :: Reserved(cfg, y.counters, id) ==> Reserved(cfg, y'.counters, id))
    && (forall x, id :: x != p && x != q && HeldAt(y', x, id) ==> HeldAt(y, x, id))
    && (forall id :: HeldAt(y', p, id) || HeldAt(y', q, id) ==>
          HeldAt(y, p, id) || HeldAt(y, q, id) || (Reserved(cfg, y'.counters, id) && !Reserved(cfg, y.counters, id)))
    && (p != q ==> forall id :: !(HeldAt(y', p, id) && HeldAt(y', q, id)))
  }

  lemma MovingKeepsExclusive(cfg: Config, y: System, y': System, p: Place, q: Place)
    requires Exclusive(y) && AllReserved(cfg, y) && Moves(cfg, y, y', p, q)
    ensures Exclusive(y') && AllReserved(cfg, y')
  {
    hide HeldAt, SuperBlocks.Reserved;
    forall a, b, id | HeldAt(y', a, id) && HeldAt(y', b, id)
      ensures a == b
    {
      if a != p && a != q {
        assert HeldAt(y, a, id);
      }
      if b != p && b != q {
        assert HeldAt(y, b, id);
      }
    }
  }

  /** The places an event moves ids between. */
  function From(e: Event): Place {
    match e
    case ServerStart(s) => AtServer(s)
    case ServerCrash(s) => AtServer(s)
    case PrefetchRuns(s) => AtServer(s)
    case PrefetchFails(s, _) => AtServer(s)
    case OrphanedFetch(_) => IssuedAs(0)
    case ServeBlock(s, _, _, _, _) => AtServer(s)
    case ReplyLost(rpc) => OnWire(rpc)
    case ClientInitialize(_, rpc) => OnWire(rpc)
    case WorkerDelivers(_, rpc) => OnWire(rpc)
    case _ => AtClient(e.c)
  }

  function To(y: System, e: Event): Place {
    match e
    case ServeBlock(_, _, _, _, rpc) => OnWire(rpc)
    case ClientInitialize(c, _) => AtClient(c)
    case WorkerDelivers(c, _) => AtClient(c)
    case ClientTakes(_) => IssuedAs(|y.issued|)
    case _ => From(e)
  }

  predicate IsServerEvent(e: Event) {
    e.ServerStart? || e.ServerCrash? || e.PrefetchRuns? || e.PrefetchFails? || e.OrphanedFetch? || e.ServeBlock?
  }

  lemma ServerOwnsReserved(cfg: Config, y: System, s: nat)
    requires cfg.Validated() && SystemOk(cfg, y) && s in y.servers
    ensures forall id :: y.servers[s].Owns(id) ==> Reserved(cfg, y.counters, id)
  {
    assert forall id :: y.servers[s].Owns(id) ==> HeldAt(y, AtServer(s), id);
  }

  /** One server's allocator, the counters and perhaps one reply change; the ids add up. */
  lemma ServeBlockMoves(cfg: Config, y: System, e: Event)
    requires cfg.Validated() && SystemOk(cfg, y) && Enabled(cfg, y, e) && e.ServeBlock?
    ensures
      var y' := Next(cfg, y, e);
      && CountersOk(cfg, y'.counters) && (forall s :: s in y'.servers ==> AllocatorOk(cfg, y'.servers[s]))
      && Moves(cfg, y, y', From(e), To(y, e))
  {
    hide SuperBlocks.AllocateBlock, SuperBlocks.Reserved, SuperBlocks.AllocatorOk, Exclusive, AllReserved;
    ServerOwnsReserved(cfg, y, e.s);
    AllocateConserves(cfg, y.servers[e.s], y.counters, e.syncPick, e.fault, e.pick);
  }

  lemma ServerEventMoves(cfg: Config, y: System, e: Event)
    requires cfg.Validated() && SystemOk(cfg, y) && Enabled(cfg, y, e) && IsServerEvent(e) && !e.ServeBlock?
    ensures
      var y' := Next(cfg, y, e);
      && CountersOk(cfg, y'.counters) && (forall s :: s in y'.servers ==> AllocatorOk(cfg, y'.servers[s]))
      && Moves(cfg, y, y', From(e), To(y, e))
  {
    hide SystemOk, Moves, SuperBlocks.AllocatorOk, SuperBlocks.CountersOk;
    match e {
      case PrefetchRuns(s) => PrefetchMoves(cfg, y, s);
      case OrphanedFetch(b) => OrphanMoves(cfg, y, b);
      case _ => QuietServerMoves(cfg, y, e);
    }
  }

  lemma PrefetchMoves(cfg: Config, y: System, s: nat)
    requires cfg.Validated() && SystemOk(cfg, y) && s in y.servers
    ensures
      var y' := Next(cfg, y, PrefetchRuns(s));
      && CountersOk(cfg, y'.counters) && (forall t :: t in y'.servers ==> AllocatorOk(cfg, y'.servers[t]))
      && Moves(cfg, y, y', AtServer(s), AtServer(s))
  {
    hide SuperBlocks.Reserved, SuperBlocks.AllocatorOk, Exclusive, AllReserved, SuperBlocks.RunFetch;
    ServerOwnsReserved(cfg, y, s);
    RunFetchConserves(cfg, y.servers[s], y.counters);
  }

  lemma OrphanMoves(cfg: Config, y: System, b: nat)
    requires cfg.Validated() && SystemOk(cfg, y) && b < cfg.numBuckets
    ensures
      var y' := Next(cfg, y, OrphanedFetch(b));
      && CountersOk(cfg, y'.counters) && (forall t :: t in y'.servers ==> AllocatorOk(cfg, y'.servers[t]))
      && Moves(cfg, y, y', IssuedAs(0), IssuedAs(0))
  {
    hide SuperBlocks.FetchFrom, SuperBlocks.Reserved, SuperBlocks.AllocatorOk, Exclusive, AllReserved;
    FetchReserves(cfg, y.counters, b);
  }

  lemma QuietServerMoves(cfg: Config, y: System, e: Event)
    requires cfg.Validated() && SystemOk(cfg, y) && Enabled(cfg, y, e)
    requires e.ServerStart? || e.ServerCrash? || e.PrefetchFails?
    ensures
      var y' := Next(cfg, y, e);
      && y'.counters == y.counters && (forall s :: s in y'.servers ==> AllocatorOk(cfg, y'.servers[s]))
      && Moves(cfg, y, y', AtServer(e.s), AtServer(e.s)) && CountersOk(cfg, y'.counters)
  {
    hide SuperBlocks.Reserved, Arithmetic.Multiple, Exclusive, AllReserved;
    if e.ServerStart? {
      FreshIsOk(cfg);
    }
  }

  /** A block on the wire shares no id with the client it reaches. */
  lemma DeliveryIsDisjoint(y: System, c: nat, rpc: nat)
    requires Exclusive(y) && c in y.clients && rpc in y.wire
    ensures forall id :: !(y.wire[rpc].Holds(id) && y.clients[c].Owns(id))
  {
    forall id | y.wire[rpc].Holds(id)
      ensures !y.clients[c].Owns(id)
    {
      assert HeldAt(y, OnWire(rpc), id);
      assert y.clients[c].Owns(id) ==> HeldAt(y, AtClient(c), id);
    }
  }

  lemma ClientEventMoves(cfg: Config, y: System, e: Event)
    requires cfg.Validated() && SystemOk(cfg, y) && Enabled(cfg, y, e) && !IsServerEvent(e) && !e.ClientTakes?
    ensures
      var y' := Next(cfg, y, e);
      && y'.counters == y.counters && y'.servers == y.servers
      && (forall c :: c in y'.clients ==> ClientOk(y'.clients[c]))
      && Moves(cfg, y, y', From(e), To(y, e))
  {
    hide SuperBlocks.Reserved, Exclusive, AllReserved, SuperBlocks.AllocatorOk;
    if e.ClientInitialize? || e.WorkerDelivers? {
      DeliveryIsDisjoint(y, e.c, e.rpc);
    }
  }

  /** One id leaves the client's buffers and becomes the latest issued one. */
  lemma ClientTakesMoves(cfg: Config, y: System, c: nat)
    requires cfg.Validated() && SystemOk(cfg, y) && c in y.clients
    ensures
      var e := ClientTakes(c);
      var y' := Next(cfg, y, e);
      && y'.counters == y.counters && y'.servers == y.servers
      && (forall d :: d in y'.clients ==> ClientOk(y'.clients[d]))
      && Moves(cfg, y, y', From(e), To(y, e))
  {
    hide SuperBlocks.Reserved, Exclusive, AllReserved, SuperBlocks.AllocatorOk, TakeId, ClientOk;
    TakeIdConserves(y.clients[c]);
  }

  /** Taking an id leaves all others in the buffer, and fails only if there is none. */
  lemma TakeIdConserves(c: Client)
    ensures
      var (c', r) := TakeId(c);
      && (r.Ok? ==> c.Owns(r.value)) && (r.Err? ==> c' == c && forall id: nat :: !c.Owns(id))
      && (ClientOk(c) ==> ClientOk(c') && forall id: nat :: c'.Owns(id) <==> c.Owns(id) && r != Ok(id))
  {
    var (c', r) := TakeId(c);
    if r.Ok? {
      assert (if HasId(c.front) then c.front else c.back).Holds(r.value);
    }
  }

  lemma NextKeepsOk(cfg: Config, y: System, e: Event)
    requires cfg.Validated() && SystemOk(cfg, y) && Enabled(cfg, y, e)
    ensures SystemOk(cfg, Next(cfg, y, e))
  {
    hide HeldAt, SuperBlocks.AllocateBlock, SuperBlocks.Reserved, SuperBlocks.AllocatorOk;
    if e.ServeBlock? {
      ServeBlockMoves(cfg, y, e);
    } else if IsServerEvent(e) {
      ServerEventMoves(cfg, y, e);
    } else if e.ClientTakes? {
      ClientTakesMoves(cfg, y, e.c);
    } else {
      ClientEventMoves(cfg, y, e);
    }
    MovingKeepsExclusive(cfg, y, Next(cfg, y, e), From(e), To(y, e));
  }

  // -------------------------------------------------------------------------
  // Runs
  // -------------------------------------------------------------------------

  /** A cold start: whatever the persistent counters say, nobody holds anything yet. */
  predicate Initial(y: System) {
    y.servers == map[] && y.wire == map[] && y.clients == map[] && y.issued == []
  }

  ghost predicate IsRun(cfg: Config, ys: seq<System>, es: seq<Event>) {
    && |ys| == |es| + 1
    && CountersOk(cfg, ys[0].counters) && Initial(ys[0])
    && forall i :: 0 <= i < |es| ==> Enabled(cfg, ys[i], es[i]) && ys[i + 1] == Next(cfg, ys[i], es[i])
  }

  lemma {:induction false} RunsStayOk(cfg: Config, ys: seq<System>, es: seq<Event>, i: nat)
    requires cfg.Validated() && IsRun(cfg, ys, es) && i < |ys|
    ensures SystemOk(cfg, ys[i])
  {
    if i > 0 {
      RunsStayOk(cfg, ys, es, i - 1);
      NextKeepsOk(cfg, ys[i - 1], es[i - 1]);
    }
  }

  /**
   In every run, with any number of servers and clients, prefetches in flight, failed fetches, lost
   replies and crashes: no id is returned twice, and every returned id is below 2^53 and decomposes
   into a bucket of the partition and a counter value taken from that bucket.
   */
  lemma IdsAreUnique(cfg: Config, ys: seq<System>, es: seq<Event>, i: nat)
    requires cfg.Validated() && IsRun(cfg, ys, es) && i < |ys|
    ensures forall j, k :: 0 <= j < k < |ys[i].issued| ==> ys[i].issued[j] != ys[i].issued[k]
    ensures forall k :: 0 <= k < |ys[i].issued| ==>
      var id := ys[i].issued[k];
      && id < Arithmetic.Pow(2, 53)
      && ExtractBucketIndex(cfg, id) < cfg.numBuckets
      && ExtractCounter(cfg, id) < CounterOf(ys[i].counters, ExtractBucketIndex(cfg, id))
      && ComposeId(cfg, ExtractBucketIndex(cfg, id), ExtractCounter(cfg, id)) == id
  {
    var y := ys[i];
    RunsStayOk(cfg, ys, es, i);
    forall k | 0 <= k < |y.issued|
      ensures Reserved(cfg, y.counters, y.issued[k])
    {
      assert HeldAt(y, IssuedAs(k), y.issued[k]);
    }
    forall j, k | 0 <= j < k < |y.issued|
      ensures y.issued[j] != y.issued[k]
    {
      assert HeldAt(y, IssuedAs(j), y.issued[j]) && HeldAt(y, IssuedAs(k), y.issued[k]);
    }
    forall k | 0 <= k < |y.issued|
      ensures ReservedIdIsGood(cfg, y.counters, y.issued[k])
    {
      ReservedIsGood(cfg, y.counters, y.issued[k]);
    }
  }

  ghost predicate ReservedIdIsGood(cfg: Config, counters: Counters, id: nat) {
    && id < Arithmetic.Pow(2, 53)
    && ExtractBucketIndex(cfg, id) < cfg.numBuckets
    && ComposeId(cfg, ExtractBucketIndex(cfg, id), ExtractCounter(cfg, id)) == id
  }

  lemma ReservedIsGood(cfg: Config, counters: Counters, id: nat)
    requires cfg.Validated() && CountersOk(cfg, counters) && Reserved(cfg, counters, id)
    ensures ReservedIdIsGood(cfg, counters, id)
  {
    Arithmetic.DivModDef(id, cfg.Span());
    IdsFitIn53Bits(cfg, ExtractBucketIndex(cfg, id), ExtractCounter(cfg, id));
  }
}
