/**
  The routing table as a state machine: its buckets, its diversity filter if it has one,
  and the PeerAdded and PeerRemoved callbacks it has made. Each locked operation is one step.
 */
module TableMachine {
  import opened Peers
  import opened BucketSpec
  import opened TableSpec
  import F = FilterSpec

  datatype Event = PeerAdded(id: PeerID) | PeerRemoved(id: PeerID)

  datatype Table = Table(buckets: Buckets, df: Option<F.FilterState>, events: seq<Event>)

  /** A call of TryAddPeer, with what the world answers during it: the time, whether the
      latency of the peer is acceptable, and what its addresses are. */
  datatype AddRequest = AddRequest(
    id: PeerID,
    queryPeer: bool,
    isReplaceable: bool,
    now: Clock,
    latencyOk: bool,
    addrs: seq<F.Address>)

  datatype AddOutcome = Added | AlreadyPresent | LatencyTooHigh | RejectedByFilter | NoCapacity

  function NewPeer(c: Config, r: AddRequest): Peer
  {
    Peer(r.id, if r.queryPeer then r.now else NEVER, r.now, r.now, c.hash(r.id), r.isReplaceable)
  }

  /** The record of a resident after it has been queried: bumped if it was never useful. */
  function Bumped(p: Peer, r: AddRequest): Peer
  {
    if p.lastUsefulAt == NEVER && r.queryPeer then p.(lastUsefulAt := r.now) else p
  }

  /** Replace the first record with this id. */
  function Rewrite(c: Config, bs: Buckets, id: PeerID, p: Peer): Buckets
    requires |bs| >= 1 && Resides(c, bs, id)
  {
    var i := BucketIndex(c, |bs|, c.hash(id));
    bs[i := bs[i][IndexOf(bs[i], id) := p]]
  }

  function FilterAdd(df: Option<F.FilterState>, id: PeerID, addrs: seq<F.Address>): Option<F.FilterState>
  {
    match df
    case None => None
    case Some(f) => Some(F.TryAdd(f, id, addrs))
  }

  function FilterRemove(df: Option<F.FilterState>, id: PeerID): Option<F.FilterState>
  {
    match df
    case None => None
    case Some(f) => Some(F.Remove(f, id))
  }

  predicate FilterAdmits(df: Option<F.FilterState>, id: PeerID, addrs: seq<F.Address>)
  {
    df.None? || F.Admits(df.value, id, addrs)
  }

  /** How addPeer ends, once it is known what room there is. */
  function Conclude(t: Table, r: AddRequest, placement: Placement): (Table, AddOutcome)
  {
    match placement
    case Fits(bs) => (t.(buckets := bs, events := t.events + [PeerAdded(r.id)]), Added)
    case Replaces(bs, v) =>
      (Table(bs, FilterRemove(t.df, v.id), t.events + [PeerAdded(r.id)] + [PeerRemoved(v.id)]), Added)
    case NoRoom(bs) => (Table(bs, FilterRemove(t.df, r.id), t.events), NoCapacity)
  }

  /** addPeer */
  function AddPeer(c: Config, t: Table, r: AddRequest): (Table, AddOutcome)
    requires |t.buckets| >= 1
  {
    if Resides(c, t.buckets, r.id) then
      var p := Found(c, t.buckets, r.id);
      (t.(buckets := Rewrite(c, t.buckets, r.id, Bumped(p, r))), AlreadyPresent)
    else if !r.latencyOk then (t, LatencyTooHigh)
    else if !FilterAdmits(t.df, r.id, r.addrs) then (t, RejectedByFilter)
    else
      Conclude(t.(df := FilterAdd(t.df, r.id, r.addrs)), r, Place(c, t.buckets, NewPeer(c, r)))
  }

  /** removePeer */
  function RemovePeer(c: Config, t: Table, id: PeerID): Table
    requires |t.buckets| >= 1
  {
    if !Resides(c, t.buckets, id) then t
    else Table(RemoveFrom(c, t.buckets, id), FilterRemove(t.df, id), t.events + [PeerRemoved(id)])
  }

  /** The three updates of records in place. */
  function SetLastUseful(c: Config, t: Table, id: PeerID, at: Time): Table
    requires |t.buckets| >= 1
  {
    if !Resides(c, t.buckets, id) then t
    else t.(buckets := Rewrite(c, t.buckets, id, Found(c, t.buckets, id).(lastUsefulAt := at)))
  }

  function SetLastQuery(c: Config, t: Table, id: PeerID, at: Time): Table
    requires |t.buckets| >= 1
  {
    if !Resides(c, t.buckets, id) then t
    else t.(buckets := Rewrite(c, t.buckets, id, Found(c, t.buckets, id).(lastQueryAt := at)))
  }

  function Pin(p: Peer): Peer
  {
    p.(isReplaceable := false)
  }

  function Pinned(b: seq<Peer>): (r: seq<Peer>)
    ensures |r| == |b|
  {
    seq(|b|, i requires 0 <= i < |b| => Pin(b[i]))
  }

  function MarkAllIrreplaceable(t: Table): (r: Table)
    ensures |r.buckets| == |t.buckets|
  {
    t.(buckets := seq(|t.buckets|, i requires 0 <= i < |t.buckets| => Pinned(t.buckets[i])))
  }

  function WhitelistPeers(t: Table, ids: set<PeerID>): Table
  {
    match t.df
    case None => t
    case Some(f) => t.(df := Some(F.Whitelist(f, ids)))
  }

  /** Two bucket arrays with the same number of records at each place. */
  ghost predicate SameShape(bs: Buckets, bs': Buckets)
  {
    |bs'| == |bs| && forall i :: 0 <= i < |bs| ==> |bs'[i]| == |bs[i]|
  }

  // ------------------------------------------------------------------ runs

  datatype Op =
    | TryAdd(request: AddRequest)
    | Remove(id: PeerID)
    | MarkAll
    | UpdateUseful(id: PeerID, at: Time)
    | UpdateQuery(id: PeerID, at: Time)
    | Whitelist(ids: set<PeerID>)

  function Step(c: Config, t: Table, op: Op): Table
    requires |t.buckets| >= 1
  {
    match op
    case TryAdd(r) => AddPeer(c, t, r).0
    case Remove(id) => RemovePeer(c, t, id)
    case MarkAll => MarkAllIrreplaceable(t)
    case UpdateUseful(id, at) => SetLastUseful(c, t, id, at)
    case UpdateQuery(id, at) => SetLastQuery(c, t, id, at)
    case Whitelist(ids) => WhitelistPeers(t, ids)
  }

  /** NewRoutingTable, with or without a diversity filter, in which nobody is recorded yet. */
  ghost predicate Fresh(t: Table)
  {
    t.buckets == [[]] && t.events == [] && Unused(t.df)
  }

  ghost predicate Unused(df: Option<F.FilterState>)
  {
    df.Some? ==> F.FilterInv(df.value) && df.value.peerGroups == map[]
  }

  /** The table after a run of operations. */
  function Run(c: Config, t: Table, ops: seq<Op>): (r: Table)
    requires |t.buckets| >= 1
    ensures |r.buckets| >= 1
  {
    if ops == [] then t else Step(c, Run(c, t, ops[..|ops| - 1]), ops[|ops| - 1])
  }

  // ------------------------------------------------------------------ the invariant of the machine

  /** Replaying callbacks: the peers that were added and not removed since, or None if some
      callback adds a present peer or removes an absent one. */
  function Replay(events: seq<Event>): Option<set<PeerID>>
  {
    if events == [] then Some({})
    else
      match Replay(events[..|events| - 1])
      case None => None
      case Some(ids) =>
        match events[|events| - 1]
        case PeerAdded(id) => if id in ids then None else Some(ids + {id})
        case PeerRemoved(id) => if id in ids then Some(ids - {id}) else None
  }

  /** The filter, if there is one, records residents only, and skips only whitelisted ones. */
  ghost predicate Matches(df: Option<F.FilterState>, ids: set<PeerID>)
  {
    df.Some? ==>
      && F.FilterInv(df.value)
      && df.value.peerGroups.Keys <= ids
      && ids <= df.value.peerGroups.Keys + df.value.whitelisted
  }

  ghost predicate InStep(t: Table)
  {
    Matches(t.df, ResidentIds(t.buckets))
  }

  /** What holds of every table: peers stand where they belong, no bucket is overfull, nobody is
      in the table twice, and the callbacks replayed in order give exactly the residents. */
  ghost predicate Sound(c: Config, t: Table): (sound: bool)
    ensures sound ==> |t.buckets| >= 1
  {
    && Inv(c, t.buckets)
    && Replay(t.events) == Some(ResidentIds(t.buckets))
  }

  /** What holds besides when the filter had nobody on record at first, and only the table has
      added and removed peers since. */
  ghost predicate Good(c: Config, t: Table)
  {
    Sound(c, t) && InStep(t)
  }
}
