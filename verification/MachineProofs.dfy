/**
  What every step of the routing table does and keeps, and what follows for whole runs.
 */
module MachineProofs {
  import opened Peers
  import opened BucketSpec
  import opened TableSpec
  import opened TableProofs
  import opened AddProofs
  import opened TableFacts
  import opened CapacityProofs
  import opened TableMachine
  import F = FilterSpec

  // ------------------------------------------------------------------ updates in place

  lemma RewriteInBucket(c: Config, b: seq<Peer>, k: nat, p: Peer, i: nat, n: nat)
    requires GoodBucket(c, b, i, n) && k < |b| && p.id == b[k].id && p.dhtId == b[k].dhtId
    ensures GoodBucket(c, b[k := p], i, n)
    ensures multiset(b[k := p]) + multiset{b[k]} == multiset(b) + multiset{p}
  {
    hide Cpl;
    assert InPlace(c, b[k], i, n);
    assert forall q :: q in b[k := p] ==> q == p || q in b;
  }

  /** Rewriting the record of a resident changes that record and nothing else. */
  lemma RewriteKeeps(c: Config, bs: Buckets, id: PeerID, p: Peer)
    requires Inv(c, bs) && Resides(c, bs, id)
    requires p.id == id && p.dhtId == Found(c, bs, id).dhtId
    ensures var r := Rewrite(c, bs, id, p);
            && Inv(c, r)
            && Found(c, bs, id) in Content(bs)
            && Content(r) + multiset{Found(c, bs, id)} == Content(bs) + multiset{p}
  {
    hide Cpl, GoodBucket, Content, IndexOf;
    var i := BucketIndex(c, |bs|, c.hash(id));
    var k := IndexOf(bs[i], id);
    var b := bs[i][k := p];
    assert GoodBucket(c, bs[i], i, |bs|);
    RewriteInBucket(c, bs[i], k, p, i, |bs|);
    ReplaceKeeps(c, bs, i, b);
    ContentUpdate(bs, i, b);
    ContentMember(bs, bs[i][k]);
    ExchangeOneInSum(Content(Rewrite(c, bs, id, p)), Content(bs), multiset(bs[i]), multiset(b), bs[i][k], p);
  }

  lemma ExchangeOneInSum(r: multiset<Peer>, s: multiset<Peer>, before: multiset<Peer>, after: multiset<Peer>, p: Peer, q: Peer)
    requires r + before == s + after && after + multiset{p} == before + multiset{q}
    ensures r + multiset{p} == s + multiset{q}
  {
    forall x
      ensures (r + multiset{p})[x] == (s + multiset{q})[x]
    {
      assert (r + before)[x] == (s + after)[x];
      assert (after + multiset{p})[x] == (before + multiset{q})[x];
    }
  }

  /** Exchanging a record for one with the same id leaves the ids alone. */
  lemma ExchangeKeepsIds(bs: Buckets, bs': Buckets, p: Peer, q: Peer)
    requires Content(bs') + multiset{p} == Content(bs) + multiset{q} && p.id == q.id && p in Content(bs)
    ensures ResidentIds(bs') == ResidentIds(bs)
  {
    var after, before := Content(bs'), Content(bs);
    assert q in after + multiset{p};
    forall x
      ensures x in before ==> x == p || x in after
      ensures x in after ==> x == q || x in before
      ensures p != q ==> q in after
    {
      assert (after + multiset{p})[x] == (before + multiset{q})[x];
    }
  }

  lemma PinnedBucket(c: Config, b: seq<Peer>, i: nat, n: nat)
    requires GoodBucket(c, b, i, n)
    ensures GoodBucket(c, Pinned(b), i, n)
    ensures forall q :: q in Pinned(b) <==> exists p :: p in b && q == p.(isReplaceable := false)
  {
    hide Cpl;
    var r := Pinned(b);
    forall q | q in r
      ensures exists p :: p in b && q == Pin(p)
    {
      var k :| 0 <= k < |r| && r[k] == q;
      assert b[k] in b;
    }
    forall p | p in b
      ensures Pin(p) in r
    {
      var k :| 0 <= k < |b| && b[k] == p;
      assert r[k] == Pin(p);
    }
    forall q | q in r
      ensures InPlace(c, q, i, n)
    {
      var p :| p in b && q == Pin(p);
      assert InPlace(c, p, i, n);
    }
  }

  /** Marking makes every record irreplaceable, changes nothing else in it, and leaves it where it is. */
  lemma MarkAllChanges(t: Table)
    ensures var t' := MarkAllIrreplaceable(t);
            && t'.df == t.df && t'.events == t.events && SameShape(t.buckets, t'.buckets)
            && forall i, k :: 0 <= i < |t.buckets| && 0 <= k < |t.buckets[i]| ==>
                                t'.buckets[i][k] == t.buckets[i][k].(isReplaceable := false)
  {
  }

  /** Marking keeps every resident, in its place, and makes all of them irreplaceable. */
  lemma MarkAllKeeps(c: Config, t: Table)
    requires Inv(c, t.buckets)
    ensures var r := MarkAllIrreplaceable(t).buckets;
            && Inv(c, r)
            && (forall q :: q in Content(r) <==> exists p :: p in Content(t.buckets) && q == p.(isReplaceable := false))
            && ResidentIds(r) == ResidentIds(t.buckets)
  {
    hide GoodBucket, Content, Pinned;
    var bs, r := t.buckets, MarkAllIrreplaceable(t).buckets;
    forall i | 0 <= i < |bs|
      ensures GoodBucket(c, r[i], i, |bs|)
      ensures |r[i]| <= c.bucketSize
      ensures forall q :: q in r[i] <==> exists p: Peer :: p in bs[i] && q == p.(isReplaceable := false)
    {
      assert GoodBucket(c, bs[i], i, |bs|);
      PinnedBucket(c, bs[i], i, |bs|);
    }
    forall q
      ensures q in Content(r) <==> exists p :: p in Content(bs) && q == p.(isReplaceable := false)
    {
      ContentMember(r, q);
      if q in Content(r) {
        var i :| 0 <= i < |r| && q in r[i];
        var p: Peer :| p in bs[i] && q == p.(isReplaceable := false);
        ContentMember(bs, p);
      }
      if p :| p in Content(bs) && q == p.(isReplaceable := false) {
        ContentMember(bs, p);
        var i :| 0 <= i < |bs| && p in bs[i];
        assert q in r[i];
      }
    }
    forall p | p in Content(bs)
      ensures p.(isReplaceable := false) in Content(r)
    {
    }
  }

  // ------------------------------------------------------------------ single records

  /** Two positions of a table never hold records with the same id. */
  lemma IdsAreDistinct(c: Config, bs: Buckets, i: nat, k: nat, j: nat, m: nat)
    requires WellPlaced(c, bs) && i < |bs| && k < |bs[i]| && j < |bs| && m < |bs[j]|
    requires i != j || k != m
    ensures bs[i][k].id != bs[j][m].id
  {
    hide Cpl;
    assert GoodBucket(c, bs[i], i, |bs|) && GoodBucket(c, bs[j], j, |bs|);
    assert InPlace(c, bs[i][k], i, |bs|) && InPlace(c, bs[j][m], j, |bs|);
    PlaceIsUnique(c, bs[i][k], i, |bs|);
    PlaceIsUnique(c, bs[j][m], j, |bs|);
    if i == j {
      assert bs[i][if k < m then k else m].id != bs[i][if k < m then m else k].id;
    }
  }

  /** `bs'` is `bs`, but for a record of `id` that has become `p`, at the same position. */
  ghost predicate OneRecordBecomes(bs: Buckets, bs': Buckets, id: PeerID, p: Peer)
  {
    && SameShape(bs, bs')
    && forall i, k :: 0 <= i < |bs| && 0 <= k < |bs[i]| ==> bs'[i][k] == if bs[i][k].id == id then p else bs[i][k]
  }

  lemma RewriteAt(c: Config, bs: Buckets, id: PeerID, p: Peer)
    requires WellPlaced(c, bs) && Resides(c, bs, id)
    ensures OneRecordBecomes(bs, Rewrite(c, bs, id, p), id, p)
  {
    hide Cpl, IndexOf, WellPlaced;
    var i := BucketIndex(c, |bs|, c.hash(id));
    var k := IndexOf(bs[i], id);
    forall j, m | 0 <= j < |bs| && 0 <= m < |bs[j]|
      ensures Rewrite(c, bs, id, p)[j][m] == if bs[j][m].id == id then p else bs[j][m]
    {
      if i != j || k != m {
        IdsAreDistinct(c, bs, i, k, j, m);
      }
    }
  }

  lemma FoundAt(c: Config, bs: Buckets, id: PeerID, i: nat, k: nat)
    requires WellPlaced(c, bs) && i < |bs| && k < |bs[i]| && bs[i][k].id == id
    ensures Resides(c, bs, id) && Found(c, bs, id) == bs[i][k]
  {
    FoundIsThatPeer(c, bs, i, bs[i][k]);
  }

  /** The setters change one time of one record, and nothing else in the whole table. */
  lemma SettersChange(c: Config, t: Table, id: PeerID, at: Time)
    requires Inv(c, t.buckets)
    ensures var bs, u, q := t.buckets, SetLastUseful(c, t, id, at), SetLastQuery(c, t, id, at);
            && u.df == t.df == q.df && u.events == t.events == q.events
            && SameShape(bs, u.buckets) && SameShape(bs, q.buckets)
            && forall i, k :: 0 <= i < |bs| && 0 <= k < |bs[i]| ==>
                                && u.buckets[i][k] == (if bs[i][k].id == id then bs[i][k].(lastUsefulAt := at) else bs[i][k])
                                && q.buckets[i][k] == (if bs[i][k].id == id then bs[i][k].(lastQueryAt := at) else bs[i][k])
  {
    hide Cpl, GoodBucket, Rewrite, Found, Resides;
    var bs := t.buckets;
    if Resides(c, bs, id) {
      RewriteAt(c, bs, id, Found(c, bs, id).(lastUsefulAt := at));
      RewriteAt(c, bs, id, Found(c, bs, id).(lastQueryAt := at));
    }
    forall i, k | 0 <= i < |bs| && 0 <= k < |bs[i]| && bs[i][k].id == id
      ensures Resides(c, bs, id) && Found(c, bs, id) == bs[i][k]
    {
      FoundAt(c, bs, id, i, k);
    }
  }

  // ------------------------------------------------------------------ filter and callbacks

  lemma ReplayOne(events: seq<Event>, e: Event)
    requires Replay(events).Some?
    ensures var ids := Replay(events).value;
            Replay(events + [e]) ==
            match e
            case PeerAdded(id) => if id in ids then None else Some(ids + {id})
            case PeerRemoved(id) => if id in ids then Some(ids - {id}) else None
  {
  }

  lemma FilterAddMatches(df: Option<F.FilterState>, ids: set<PeerID>, id: PeerID, addrs: seq<F.Address>)
    requires Matches(df, ids) && FilterAdmits(df, id, addrs)
    ensures Matches(FilterAdd(df, id, addrs), ids + {id})
  {
    hide F.FilterInv;
    if df.Some? {
      F.TryAddKeeps(df.value, id, addrs);
    }
  }

  lemma FilterRemoveMatches(df: Option<F.FilterState>, ids: set<PeerID>, id: PeerID)
    requires Matches(df, ids)
    ensures Matches(FilterRemove(df, id), ids - {id})
  {
    hide F.FilterInv;
    if df.Some? {
      F.RemoveKeeps(df.value, id);
    }
  }

  /** Two filters that differ in the calls they made, but not in what those calls add up to. */
  ghost predicate SameFilter(df: Option<F.FilterState>, df': Option<F.FilterState>)
  {
    match (df, df')
    case (Some(f), Some(f')) => f' == f.(calls := f'.calls) && forall g :: F.Net(f'.calls, g) == F.Net(f.calls, g)
    case (None, None) => true
    case _ => false
  }

  lemma RejectionRestoresFilter(df: Option<F.FilterState>, ids: set<PeerID>, id: PeerID, addrs: seq<F.Address>)
    requires Matches(df, ids) && id !in ids
    ensures SameFilter(df, FilterRemove(FilterAdd(df, id, addrs), id))
  {
    hide F.FilterInv;
    if df.Some? {
      F.RejectionRestores(df.value, id, addrs);
    }
  }

  // ------------------------------------------------------------------ the effect of each step

  /** The record that a request makes: useful now if the peer answered a query, else never. */
  ghost predicate IsRecordOf(c: Config, r: AddRequest, p: Peer)
  {
    && p.id == r.id && p.dhtId == c.hash(r.id) && p.isReplaceable == r.isReplaceable
    && p.addedAt == r.now && p.lastQueryAt == r.now
    && p.lastUsefulAt == if r.queryPeer then r.now else NEVER
  }

  /** The peer `v` makes place for the newcomer of `r`; nobody else comes or goes. */
  ghost predicate Replaced(c: Config, t: Table, r: AddRequest, t': Table, v: Peer)
  {
    && v in Content(t.buckets) && v.isReplaceable && Cpl(c, v.dhtId) == Cpl(c, c.hash(r.id))
    && Content(t'.buckets) + multiset{v} == Content(t.buckets) + multiset{NewPeer(c, r)}
    && IsRecordOf(c, r, NewPeer(c, r))
    && t'.df == FilterRemove(FilterAdd(t.df, r.id, r.addrs), v.id)
    && t'.events == t.events + [PeerAdded(r.id), PeerRemoved(v.id)]
  }

  /** The newcomer of `r` finds a free place; nobody else comes or goes. */
  ghost predicate Joined(c: Config, t: Table, r: AddRequest, t': Table)
  {
    && Content(t'.buckets) == Content(t.buckets) + multiset{NewPeer(c, r)}
    && IsRecordOf(c, r, NewPeer(c, r))
    && t'.df == FilterAdd(t.df, r.id, r.addrs)
    && t'.events == t.events + [PeerAdded(r.id)]
  }

  /** The resident of `r` becomes useful now if it never was and has answered a query, and is left
      alone otherwise; nobody comes or goes. */
  ghost predicate Refreshed(t: Table, r: AddRequest, t': Table, p: Peer)
  {
    && p in Content(t.buckets) && p.id == r.id
    && (var q := if p.lastUsefulAt == NEVER && r.queryPeer then p.(lastUsefulAt := r.now) else p;
        && Content(t'.buckets) + multiset{p} == Content(t.buckets) + multiset{q}
        && OneRecordBecomes(t.buckets, t'.buckets, r.id, q))
    && t'.df == t.df && t'.events == t.events
  }

  /** How many residents share exactly as many bits as the newcomer. */
  ghost function Rivals(c: Config, t: Table, r: AddRequest): nat
  {
    CountInTable(c, t.buckets, Cpl(c, c.hash(r.id)))
  }

  /** What TryAddPeer does to contents, filter and callbacks, read off the outcome it reports. */
  ghost predicate AddEffect(c: Config, t: Table, r: AddRequest, t': Table, outcome: AddOutcome)
  {
    match outcome
    case AlreadyPresent => exists p :: Refreshed(t, r, t', p)
    case LatencyTooHigh => t' == t
    case RejectedByFilter => t' == t
    case NoCapacity =>
      && Content(t'.buckets) == Content(t.buckets) && t'.events == t.events
      && t'.df == FilterRemove(FilterAdd(t.df, r.id, r.addrs), r.id)
      && (InStep(t) ==> SameFilter(t.df, t'.df))
      && Rivals(c, t, r) == c.bucketSize && !ReplaceableAt(c, t.buckets, Cpl(c, c.hash(r.id)))
    case Added =>
      && r.id !in ResidentIds(t.buckets)
      && (if Rivals(c, t, r) < c.bucketSize then Joined(c, t, r, t')
          else Rivals(c, t, r) == c.bucketSize && exists v :: Replaced(c, t, r, t', v))
  }

  lemma AddToResident(c: Config, t: Table, r: AddRequest)
    requires Sound(c, t) && Resides(c, t.buckets, r.id)
    ensures var (t', outcome) := AddPeer(c, t, r);
            && outcome == AlreadyPresent && Sound(c, t') && (InStep(t) ==> InStep(t'))
            && AddEffect(c, t, r, t', outcome)
  {
    hide GoodBucket, WithinCapacity, Content, ResidentIds, Rewrite, F.FilterInv, Found, Resides;
    var p, t' := Found(c, t.buckets, r.id), AddPeer(c, t, r).0;
    RewriteKeeps(c, t.buckets, r.id, Bumped(p, r));
    RewriteAt(c, t.buckets, r.id, Bumped(p, r));
    ExchangeKeepsIds(t.buckets, t'.buckets, p, Bumped(p, r));
    assert Refreshed(t, r, t', p);
  }

  lemma IdsAfterFits(bs: Buckets, bs': Buckets, p: Peer)
    requires Content(bs') == Content(bs) + multiset{p}
    ensures ResidentIds(bs') == ResidentIds(bs) + {p.id}
  {
  }

  lemma IdsAfterReplaces(bs: Buckets, bs': Buckets, p: Peer, v: Peer)
    requires Content(bs') + multiset{v} == Content(bs) + multiset{p}
    requires v.id != p.id && v.id !in ResidentIds(bs') && v in Content(bs)
    ensures v.id in ResidentIds(bs) && ResidentIds(bs') == (ResidentIds(bs) + {p.id}) - {v.id}
  {
    var after, before := Content(bs'), Content(bs);
    forall x
      ensures x in after ==> x == p || x in before
      ensures x in before ==> x == v || x in after
    {
      assert (after + multiset{v})[x] == (before + multiset{p})[x];
    }
    assert (after + multiset{v})[p] == (before + multiset{p})[p];
    assert p in after;
  }

  lemma AddToNonResident(c: Config, t: Table, r: AddRequest)
    requires Sound(c, t) && !Resides(c, t.buckets, r.id) && r.latencyOk && FilterAdmits(t.df, r.id, r.addrs)
    ensures var (t', outcome) := AddPeer(c, t, r);
            && Sound(c, t') && (InStep(t) ==> InStep(t')) && AddEffect(c, t, r, t', outcome)
            && var place := Place(c, t.buckets, NewPeer(c, r)); place.Replaces? ==> Replaced(c, t, r, t', place.evicted)
  {
    hide GoodBucket, WithinCapacity, Content, ResidentIds, Place, Matches, FilterAdd, FilterRemove, Found, Resides;
    hide CountInTable, ReplaceableAt;
    var p, ids := NewPeer(c, r), ResidentIds(t.buckets);
    var df := FilterAdd(t.df, r.id, r.addrs);
    var t' := AddPeer(c, t, r).0;
    PlaceKeeps(c, t.buckets, p);
    PlacementIsByCount(c, t.buckets, p);
    LookupIsComplete(c, t.buckets, r.id);
    ReplayOne(t.events, PeerAdded(r.id));
    if InStep(t) {
      FilterAddMatches(t.df, ids, r.id, r.addrs);
    }
    match Place(c, t.buckets, p) {
      case Fits(bs) =>
        IdsAfterFits(t.buckets, bs, p);
      case Replaces(bs, v) =>
        IdsAfterReplaces(t.buckets, bs, p, v);
        ReplayOne(t.events + [PeerAdded(r.id)], PeerRemoved(v.id));
        assert t.events + [PeerAdded(r.id)] + [PeerRemoved(v.id)] == t.events + [PeerAdded(r.id), PeerRemoved(v.id)];
        assert Replaced(c, t, r, t', v);
        if InStep(t) {
          FilterRemoveMatches(df, ids + {r.id}, v.id);
        }
      case NoRoom(bs) =>
        SameContentSameIds(t.buckets, bs);
        if InStep(t) {
          FilterRemoveMatches(df, ids + {r.id}, r.id);
          RejectionRestoresFilter(t.df, ids, r.id, r.addrs);
        }
    }
  }

  /** TryAddPeer keeps the table sound and the filter in step, does to contents, filter and
      callbacks exactly what its outcome says, and adds a peer if and only if UsefulNewPeer, the
      latency and the filter are all in favour. */
  lemma AddPeerMeetsContract(c: Config, t: Table, r: AddRequest)
    requires Sound(c, t)
    ensures var (t', outcome) := AddPeer(c, t, r);
            && Sound(c, t') && (InStep(t) ==> InStep(t')) && AddEffect(c, t, r, t', outcome)
            && (outcome == Added <==> Useful(c, t.buckets, r.id) && r.latencyOk && FilterAdmits(t.df, r.id, r.addrs))
            && (outcome == AlreadyPresent <==> Resides(c, t.buckets, r.id))
            && (outcome == LatencyTooHigh ==> !r.latencyOk)
            && (outcome == RejectedByFilter ==> r.latencyOk && !FilterAdmits(t.df, r.id, r.addrs))
            && (outcome == NoCapacity ==> !Useful(c, t.buckets, r.id))
            && (outcome == Added || outcome == NoCapacity ==> r.latencyOk && FilterAdmits(t.df, r.id, r.addrs))
  {
    hide GoodBucket, WithinCapacity, Content, ResidentIds, Place, Matches, Found, Rewrite;
    if Resides(c, t.buckets, r.id) {
      AddToResident(c, t, r);
    } else {
      UsefulIffPlaced(c, t.buckets, NewPeer(c, r));
      if r.latencyOk && FilterAdmits(t.df, r.id, r.addrs) {
        AddToNonResident(c, t, r);
      }
    }
  }

  /** Where everybody stands after TryAddPeer. Unless a place was sought, the buckets are not
      touched; a full wildcard is unfolded for a newcomer of it, taken in or not. */
  lemma AddPeerLayout(c: Config, t: Table, r: AddRequest)
    requires Sound(c, t)
    ensures var (t', outcome), base := AddPeer(c, t, r), Unfolded(c, t.buckets, NewPeer(c, r));
            var i := BucketIndex(c, |base|, c.hash(r.id));
            var joined := base[i := [NewPeer(c, r)] + base[i]];
            match outcome
            case AlreadyPresent => SameShape(t.buckets, t'.buckets)
            case LatencyTooHigh => t'.buckets == t.buckets
            case RejectedByFilter => t'.buckets == t.buckets
            case NoCapacity => t'.buckets == base
            case Added =>
              if Rivals(c, t, r) < c.bucketSize then t'.buckets == joined
              else exists v :: Replaced(c, t, r, t', v) && TakenOutAndTidied(joined, t'.buckets, v.id)
  {
    hide GoodBucket, Content, Resides, Place, FilterAdmits, Found, Rewrite, Replaced, NextBucket, TakenOutAndTidied, CountInTable;
    if Resides(c, t.buckets, r.id) {
      RewriteAt(c, t.buckets, r.id, Bumped(Found(c, t.buckets, r.id), r));
    } else if r.latencyOk && FilterAdmits(t.df, r.id, r.addrs) {
      PlaceLayout(c, t.buckets, NewPeer(c, r));
      PlacementIsByCount(c, t.buckets, NewPeer(c, r));
      AddToNonResident(c, t, r);
    }
  }

  /** The filter turns down exactly the peers that are not whitelisted and have an address that
      does not count, or none; these never get as far as to look for a place. */
  lemma FilterIsEnforced(c: Config, t: Table, r: AddRequest)
    requires Sound(c, t)
    ensures var outcome := AddPeer(c, t, r).1;
            var refused := exists i :: 0 <= i < |r.addrs| && (r.addrs[i].NoIP? || r.addrs[i].key == [] || !r.addrs[i].allowed);
            var turnedDown := t.df.Some? && r.id !in t.df.value.whitelisted && (r.addrs == [] || refused);
            && (outcome == RejectedByFilter <==> r.id !in ResidentIds(t.buckets) && r.latencyOk && turnedDown)
            && (turnedDown ==> outcome != Added && outcome != NoCapacity)
  {
    hide Cpl, GoodBucket, Content, Resides, Place, Found, Rewrite, ResidentIds;
    LookupIsComplete(c, t.buckets, r.id);
  }

  /** RemovePeer takes away the named peer, if it is there, and nothing else, makes the filter
      forget it and nobody else, and leaves no empty bucket at the end of the table. */
  lemma RemovePeerMeetsContract(c: Config, t: Table, id: PeerID)
    requires Sound(c, t)
    ensures var t' := RemovePeer(c, t, id);
            && Sound(c, t') && (InStep(t) ==> InStep(t'))
            && ResidentIds(t'.buckets) == ResidentIds(t.buckets) - {id}
            && (!Resides(c, t.buckets, id) ==> t' == t)
            && (Resides(c, t.buckets, id) ==>
                  && Content(t.buckets) == Content(t'.buckets) + multiset{Found(c, t.buckets, id)}
                  && TakenOutAndTidied(t.buckets, t'.buckets, id) && t'.df == FilterRemove(t.df, id)
                  && t'.events == t.events + [PeerRemoved(id)])
  {
    hide GoodBucket, Content, ResidentIds, Matches, FilterRemove, Found, Resides, RemoveFrom, TakenOutAndTidied;
    var t' := RemovePeer(c, t, id);
    LookupIsComplete(c, t.buckets, id);
    if Resides(c, t.buckets, id) {
      RemoveKeeps(c, t.buckets, id);
      RemoveLayout(c, t.buckets, id);
      LookupIsComplete(c, t'.buckets, id);
      IdsAfterRemoval(t.buckets, t'.buckets, Found(c, t.buckets, id));
      ReplayOne(t.events, PeerRemoved(id));
      if InStep(t) {
        FilterRemoveMatches(t.df, ResidentIds(t.buckets), id);
      }
    }
  }

  lemma IdsAfterRemoval(bs: Buckets, bs': Buckets, p: Peer)
    requires Content(bs) == Content(bs') + multiset{p} && p.id !in ResidentIds(bs')
    ensures ResidentIds(bs') == ResidentIds(bs) - {p.id}
  {
  }

  lemma SetterKeeps(c: Config, t: Table, id: PeerID, p: Peer)
    requires Sound(c, t) && Resides(c, t.buckets, id)
    requires p.id == id && p.dhtId == Found(c, t.buckets, id).dhtId
    ensures var t' := t.(buckets := Rewrite(c, t.buckets, id, p));
            && Sound(c, t') && ResidentIds(t'.buckets) == ResidentIds(t.buckets)
  {
    hide GoodBucket, WithinCapacity, Content, ResidentIds, Rewrite, Found, Resides;
    RewriteKeeps(c, t.buckets, id, p);
    ExchangeKeepsIds(t.buckets, Rewrite(c, t.buckets, id, p), Found(c, t.buckets, id), p);
  }

  /** Every operation keeps the table sound, and the filter in step if it was. */
  lemma StepKeepsGood(c: Config, t: Table, op: Op)
    requires Sound(c, t)
    ensures Sound(c, Step(c, t, op)) && (InStep(t) ==> InStep(Step(c, t, op)))
  {
    hide GoodBucket, WithinCapacity, Content, ResidentIds, Place, Found, Rewrite, F.Labelled, F.Regrouped, F.Balanced;
    match op {
      case TryAdd(r) => AddPeerMeetsContract(c, t, r);
      case Remove(id) => RemovePeerMeetsContract(c, t, id);
      case MarkAll => MarkAllKeeps(c, t);
      case UpdateUseful(id, at) =>
        if Resides(c, t.buckets, id) {
          SetterKeeps(c, t, id, Found(c, t.buckets, id).(lastUsefulAt := at));
        }
      case UpdateQuery(id, at) =>
        if Resides(c, t.buckets, id) {
          SetterKeeps(c, t, id, Found(c, t.buckets, id).(lastQueryAt := at));
        }
      case Whitelist(ids) =>
        if InStep(t) && t.df.Some? {
          F.WhitelistKeeps(t.df.value, ids);
        }
    }
  }

  /** Every table that any run of operations can reach is sound: peers stand where they belong,
      no bucket is overfull, no peer occurs twice, and the callbacks replayed in order give
      exactly the residents. The filter is in step if it was at first. */
  lemma {:induction false} RunIsGood(c: Config, t: Table, ops: seq<Op>)
    requires Sound(c, t)
    ensures Sound(c, Run(c, t, ops)) && (InStep(t) ==> InStep(Run(c, t, ops)))
  {
    hide Sound, InStep, Step;
    if ops == [] {
    } else {
      RunIsGood(c, t, ops[..|ops| - 1]);
      StepKeepsGood(c, Run(c, t, ops[..|ops| - 1]), ops[|ops| - 1]);
    }
  }

  lemma NewIsSound(c: Config, t: Table)
    requires t.buckets == [[]] && t.events == []
    ensures Sound(c, t) && (Unused(t.df) ==> InStep(t))
  {
    assert t.buckets[..0] == [];
    assert Content(t.buckets) == multiset{};
    var ids := ResidentIds(t.buckets);
    assert forall id :: id !in ids;
    assert ids == {} && Replay(t.events) == Some({});
  }

  /** Reachable: the state after some run from a new table. */
  ghost predicate Reachable(c: Config, t: Table)
  {
    exists start, ops :: Fresh(start) && |start.buckets| >= 1 && t == Run(c, start, ops)
  }

  lemma ReachableIsGood(c: Config, t: Table)
    requires Reachable(c, t)
    ensures Good(c, t)
  {
    hide Sound, InStep, Run;
    var start, ops :| Fresh(start) && |start.buckets| >= 1 && t == Run(c, start, ops);
    NewIsSound(c, start);
    RunIsGood(c, start, ops);
  }

  // ------------------------------------------------------------------ what an add leaves alone

  /** The three ways in which an add can change the contents, one record for another at most. */
  lemma AddCases(c: Config, t: Table, r: AddRequest)
    requires Sound(c, t)
    ensures var (t', outcome) := AddPeer(c, t, r);
            || (outcome != Added && outcome != AlreadyPresent
                && Content(t'.buckets) == Content(t.buckets) && t'.events == t.events)
            || (outcome == AlreadyPresent && exists p :: Refreshed(t, r, t', p))
            || (outcome == Added && Rivals(c, t, r) < c.bucketSize && Joined(c, t, r, t'))
            || (outcome == Added && Rivals(c, t, r) == c.bucketSize && exists v :: Replaced(c, t, r, t', v))
  {
    hide Sound, AddPeer, Joined, Replaced, Refreshed, Content;
    AddPeerMeetsContract(c, t, r);
  }

  /** TryAddPeer never shrinks the table, even when it evicts. */
  lemma AddNeverShrinks(c: Config, t: Table, r: AddRequest)
    requires Sound(c, t)
    ensures |Content(AddPeer(c, t, r).0.buckets)| >= |Content(t.buckets)|
  {
    hide Sound, AddPeer, Content, NewPeer, Bumped;
    AddCases(c, t, r);
    var t' := AddPeer(c, t, r).0;
    var before, after := Content(t.buckets), Content(t'.buckets);
    if p :| Refreshed(t, r, t', p) {
      assert |after + multiset{p}| == |before + multiset{Bumped(p, r)}|;
    } else if v :| Replaced(c, t, r, t', v) {
      assert |after + multiset{v}| == |before + multiset{NewPeer(c, r)}|;
    }
  }

  /** Adding a peer raises the number of residents with its prefix length by one until there are
      bucketSize of them, and changes the number of no others. */
  lemma AddKeepsCounts(c: Config, t: Table, r: AddRequest, z: nat)
    requires Sound(c, t)
    ensures var (t', outcome) := AddPeer(c, t, r);
            var n := CountInTable(c, t.buckets, z);
            CountInTable(c, t'.buckets, z) ==
            if outcome == Added && Cpl(c, c.hash(r.id)) == z && n < c.bucketSize then n + 1 else n
  {
    hide Sound, AddPeer, Content, Cpl, CountInTable;
    AddCases(c, t, r);
    var (t', outcome) := AddPeer(c, t, r);
    if p :| Refreshed(t, r, t', p) {
      CountAfterExchange(c, t.buckets, t'.buckets, p, Bumped(p, r), z);
    } else if Joined(c, t, r, t') {
      CountAfterJoin(c, t.buckets, t'.buckets, NewPeer(c, r), z);
    } else if v :| Replaced(c, t, r, t', v) {
      CountAfterExchange(c, t.buckets, t'.buckets, v, NewPeer(c, r), z);
    } else {
      CountIsByContent(c, t.buckets, t'.buckets, z);
    }
  }

  // ------------------------------------------------------------------ the filter over a run

  /** The peers that the operations whitelist. */
  function WhitelistedBy(ops: seq<Op>): set<PeerID>
  {
    if ops == [] then {}
    else WhitelistedBy(ops[..|ops| - 1]) + if ops[|ops| - 1].Whitelist? then ops[|ops| - 1].ids else {}
  }

  /** The filter is still there, with the same prefix lengths, and `ids` are new on its whitelist. */
  ghost predicate SameFrame(df: Option<F.FilterState>, df': Option<F.FilterState>, ids: set<PeerID>)
  {
    && (df.Some? <==> df'.Some?)
    && (df.Some? ==> df'.value.cplOf == df.value.cplOf && df'.value.whitelisted == df.value.whitelisted + ids)
  }

  lemma AddKeepsFrame(df: Option<F.FilterState>, id: PeerID, addrs: seq<F.Address>)
    ensures SameFrame(df, FilterAdd(df, id, addrs), {})
  {
    if df.Some? {
      F.TryAddFrame(df.value, id, addrs);
    }
  }

  lemma StepKeepsFrame(c: Config, t: Table, op: Op)
    requires |t.buckets| >= 1
    ensures SameFrame(t.df, Step(c, t, op).df, if op.Whitelist? then op.ids else {})
  {
    hide FilterAdd, Place, Resides, Rewrite, Found;
    if op.TryAdd? {
      AddKeepsFrame(t.df, op.request.id, op.request.addrs);
    }
  }

  /** Over a whole run the filter never goes away, its prefix lengths never change, and its
      whitelist grows by exactly the peers that the run whitelists. */
  lemma {:induction false} RunKeepsFrame(c: Config, t: Table, ops: seq<Op>)
    requires |t.buckets| >= 1
    ensures SameFrame(t.df, Run(c, t, ops).df, WhitelistedBy(ops))
  {
    hide Step;
    if ops == [] {
    } else {
      RunKeepsFrame(c, t, ops[..|ops| - 1]);
      StepKeepsFrame(c, Run(c, t, ops[..|ops| - 1]), ops[|ops| - 1]);
    }
  }

  /** The groups on record for a peer. */
  function GroupsOnRecord(df: Option<F.FilterState>, q: PeerID): seq<F.GroupInfo>
  {
    if df.None? then [] else F.GetOr(df.value.peerGroups, q, [])
  }

  lemma FilterLeavesOthers(df: Option<F.FilterState>, id: PeerID, addrs: seq<F.Address>, q: PeerID)
    requires q != id
    ensures GroupsOnRecord(FilterAdd(df, id, addrs), q) == GroupsOnRecord(df, q)
    ensures GroupsOnRecord(FilterRemove(df, id), q) == GroupsOnRecord(df, q)
  {
    if df.Some? {
      F.TryAddFrame(df.value, id, addrs);
    }
  }

  /** No operation touches the groups recorded for a peer, unless it adds or removes that peer or
      evicts it, and then says so in its callbacks. */
  lemma StepLeavesOtherGroups(c: Config, t: Table, op: Op, q: PeerID)
    requires Sound(c, t) && (op.TryAdd? ==> op.request.id != q) && op != Remove(q)
    ensures var t' := Step(c, t, op);
            || GroupsOnRecord(t'.df, q) == GroupsOnRecord(t.df, q)
            || t'.events == t.events + [PeerAdded(op.request.id), PeerRemoved(q)]
  {
    hide Sound, AddPeer, FilterAdd, FilterRemove, Content, Resides, Found, Rewrite;
    if op.TryAdd? {
      var r := op.request;
      var (t', outcome) := AddPeer(c, t, r);
      AddPeerMeetsContract(c, t, r);
      FilterLeavesOthers(t.df, r.id, r.addrs, q);
      if outcome == NoCapacity {
        FilterLeavesOthers(FilterAdd(t.df, r.id, r.addrs), r.id, r.addrs, q);
      } else if v :| Replaced(c, t, r, t', v) {
        if v.id != q {
          FilterLeavesOthers(FilterAdd(t.df, r.id, r.addrs), v.id, r.addrs, q);
        }
      }
    } else if op.Remove? {
      FilterLeavesOthers(t.df, op.id, [], q);
    }
  }

  // ------------------------------------------------------------------ irreplaceable peers

  /** The peer is resident and not replaceable. */
  ghost predicate Held(bs: Buckets, id: PeerID)
  {
    exists p :: p in Content(bs) && p.id == id && !p.isReplaceable
  }

  lemma AddKeepsHeld(c: Config, t: Table, r: AddRequest, id: PeerID)
    requires Sound(c, t) && Held(t.buckets, id)
    ensures Held(AddPeer(c, t, r).0.buckets, id)
  {
    hide Sound, AddPeer, Content, NewPeer;
    var p :| p in Content(t.buckets) && p.id == id && !p.isReplaceable;
    var t' := AddPeer(c, t, r).0;
    AddCases(c, t, r);
    var before, after := Content(t.buckets), Content(t'.buckets);
    if q :| Refreshed(t, r, t', q) {
      SurvivesExchange(before, after, q, Bumped(q, r), p);
    } else if v :| Replaced(c, t, r, t', v) {
      SurvivesExchange(before, after, v, NewPeer(c, r), p);
    }
  }

  lemma RewriteKeepsHeld(c: Config, bs: Buckets, other: PeerID, q: Peer, id: PeerID)
    requires Inv(c, bs) && Held(bs, id) && Resides(c, bs, other)
    requires q.id == other && q.dhtId == Found(c, bs, other).dhtId && q.isReplaceable == Found(c, bs, other).isReplaceable
    ensures Held(Rewrite(c, bs, other, q), id)
  {
    hide GoodBucket, WithinCapacity, Content, Found, Rewrite, Resides;
    var p :| p in Content(bs) && p.id == id && !p.isReplaceable;
    RewriteKeeps(c, bs, other, q);
    SurvivesExchange(Content(bs), Content(Rewrite(c, bs, other, q)), Found(c, bs, other), q, p);
  }

  /** A peer that is kept for good survives every step but its own removal. */
  lemma StepKeepsHeld(c: Config, t: Table, op: Op, id: PeerID)
    requires Sound(c, t) && Held(t.buckets, id) && op != Remove(id)
    ensures Held(Step(c, t, op).buckets, id)
  {
    hide GoodBucket, WithinCapacity, Content, AddPeer, Found, Rewrite, F.FilterInv, Resides, RemoveFrom;
    var p :| p in Content(t.buckets) && p.id == id && !p.isReplaceable;
    match op {
      case TryAdd(r) =>
        AddKeepsHeld(c, t, r, id);
      case Remove(other) =>
        RemovePeerMeetsContract(c, t, other);
      case MarkAll =>
        MarkAllKeeps(c, t);
        assert Pin(p) in Content(MarkAllIrreplaceable(t).buckets);
      case UpdateUseful(other, at) =>
        if Resides(c, t.buckets, other) {
          RewriteKeepsHeld(c, t.buckets, other, Found(c, t.buckets, other).(lastUsefulAt := at), id);
        }
      case UpdateQuery(other, at) =>
        if Resides(c, t.buckets, other) {
          RewriteKeepsHeld(c, t.buckets, other, Found(c, t.buckets, other).(lastQueryAt := at), id);
        }
      case Whitelist(ids) =>
    }
  }

  /** When `q` is exchanged for `q'`, every other record stays, and `q'` is there. */
  lemma SurvivesExchange(before: multiset<Peer>, after: multiset<Peer>, q: Peer, q': Peer, p: Peer)
    requires after + multiset{q} == before + multiset{q'} && p in before
    ensures p in after || (p == q && q' in after)
  {
    assert (after + multiset{q})[p] == (before + multiset{q'})[p];
    assert (after + multiset{q})[q'] == (before + multiset{q'})[q'];
  }

  /** Over a whole run, a peer held at the start is held at the end unless the run removes it. */
  lemma {:induction false} RunKeepsHeld(c: Config, t: Table, ops: seq<Op>, id: PeerID)
    requires Sound(c, t) && Held(t.buckets, id) && Remove(id) !in ops
    ensures Held(Run(c, t, ops).buckets, id)
  {
    hide Sound, Step, Held;
    if ops == [] {
    } else {
      var front := ops[..|ops| - 1];
      RunKeepsHeld(c, t, front, id);
      RunIsGood(c, t, front);
      StepKeepsHeld(c, Run(c, t, front), ops[|ops| - 1], id);
    }
  }

  /** In particular, marking all peers keeps every resident of that moment. */
  lemma MarkAllHoldsEveryone(c: Config, t: Table, ops: seq<Op>, id: PeerID)
    requires Sound(c, t) && id in ResidentIds(t.buckets) && Remove(id) !in ops
    ensures Held(Run(c, Step(c, t, MarkAll), ops).buckets, id)
  {
    hide Content;
    MarkAllKeeps(c, t);
    StepKeepsGood(c, t, MarkAll);
    var p :| p in Content(t.buckets) && p.id == id;
    assert Pin(p) in Content(MarkAllIrreplaceable(t).buckets);
    RunKeepsHeld(c, Step(c, t, MarkAll), ops, id);
  }

  // ------------------------------------------------------------------ the bump happens once

  ghost predicate OnlyAdds(ops: seq<Op>)
  {
    forall i :: 0 <= i < |ops| ==> ops[i].TryAdd?
  }

  /** Some callback since `past` reports the removal of the peer. */
  ghost predicate RemovedSince(past: seq<Event>, now: seq<Event>, id: PeerID)
  {
    past <= now && PeerRemoved(id) in now[|past|..]
  }

  lemma AddKeepsSettled(c: Config, t: Table, r: AddRequest, p: Peer)
    requires Sound(c, t) && p in Content(t.buckets) && p.lastUsefulAt != NEVER
    ensures var t' := AddPeer(c, t, r).0; p in Content(t'.buckets) || RemovedSince(t.events, t'.events, p.id)
  {
    hide Sound, AddPeer, Content, NewPeer;
    var t' := AddPeer(c, t, r).0;
    AddCases(c, t, r);
    var before, after := Content(t.buckets), Content(t'.buckets);
    if q :| Refreshed(t, r, t', q) {
      SurvivesExchange(before, after, q, Bumped(q, r), p);
    } else if v :| Replaced(c, t, r, t', v) {
      SurvivesExchange(before, after, v, NewPeer(c, r), p);
      assert t'.events[|t.events|..][1] == PeerRemoved(v.id);
    }
  }

  lemma AddOnlyAppends(c: Config, t: Table, r: AddRequest)
    requires |t.buckets| >= 1
    ensures t.events <= AddPeer(c, t, r).0.events
  {
    hide Resides, FilterAdmits, Place, Rewrite, Found;
  }

  lemma {:induction false} RunOfAddsOnlyAppends(c: Config, t: Table, ops: seq<Op>)
    requires |t.buckets| >= 1 && OnlyAdds(ops)
    ensures t.events <= Run(c, t, ops).events
  {
    hide AddPeer;
    if ops == [] {
    } else {
      var front := ops[..|ops| - 1];
      RunOfAddsOnlyAppends(c, t, front);
      AddOnlyAppends(c, Run(c, t, front), ops[|ops| - 1].request);
    }
  }

  lemma RemovedSinceGrows(past: seq<Event>, mid: seq<Event>, now: seq<Event>, id: PeerID)
    requires past <= mid <= now
    ensures RemovedSince(past, mid, id) ==> RemovedSince(past, now, id)
    ensures RemovedSince(mid, now, id) ==> RemovedSince(past, now, id)
  {
    assert now[|past|..] == mid[|past|..] + now[|mid|..];
  }

  /** Once a peer has been bumped, no number of TryAddPeer calls, for it or for others, changes
      anything in its record, unless one of them evicts it. */
  lemma {:induction false} RunOfAddsKeepsSettled(c: Config, t: Table, ops: seq<Op>, p: Peer)
    requires Sound(c, t) && p in Content(t.buckets) && p.lastUsefulAt != NEVER && OnlyAdds(ops)
    ensures var t' := Run(c, t, ops); p in Content(t'.buckets) || RemovedSince(t.events, t'.events, p.id)
  {
    hide Sound, AddPeer, Content, RemovedSince;
    if ops == [] {
    } else {
      var front := ops[..|ops| - 1];
      var mid, t' := Run(c, t, front), Run(c, t, ops);
      RunOfAddsKeepsSettled(c, t, front, p);
      RunIsGood(c, t, front);
      RunOfAddsOnlyAppends(c, t, front);
      AddOnlyAppends(c, mid, ops[|ops| - 1].request);
      RemovedSinceGrows(t.events, mid.events, t'.events, p.id);
      if p in Content(mid.buckets) {
        AddKeepsSettled(c, mid, ops[|ops| - 1].request, p);
      }
    }
  }
}
