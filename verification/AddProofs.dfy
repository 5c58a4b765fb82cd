/**
  The exact effect of looking for room for a new peer, and the agreement of UsefulNewPeer
  with it.
 */
module AddProofs {
  import opened Peers
  import opened BucketSpec
  import opened TableSpec
  import opened TableProofs

  /** Ids are unique, so looking up the id of a resident finds that very record. */
  lemma FoundIsThatPeer(c: Config, bs: Buckets, i: nat, p: Peer)
    requires WellPlaced(c, bs) && i < |bs| && p in bs[i]
    ensures i == BucketIndex(c, |bs|, c.hash(p.id))
    ensures Resides(c, bs, p.id) && Found(c, bs, p.id) == p
  {
  }

  /** What a placement does to a table: nothing is lost but the one peer it names. */
  ghost predicate PlacementEffect(c: Config, bs: Buckets, p: Peer, r: Placement)
  {
    match r
    case Fits(bs') =>
      Content(bs') == Content(bs) + multiset{p}
    case Replaces(bs', v) =>
      && v in Content(bs) && v.isReplaceable && v.id != p.id && v.id !in ResidentIds(bs')
      && Content(bs') + multiset{v} == Content(bs) + multiset{p}
      && Cpl(c, v.dhtId) == Cpl(c, p.dhtId)
    case NoRoom(bs') =>
      Content(bs') == Content(bs)
  }

  lemma ContentAfterEviction(c: Config, bs: Buckets, p: Peer, v: Peer)
    requires WellPlaced(c, bs) && p.dhtId == c.hash(p.id) && !Resides(c, bs, p.id)
    requires v in bs[BucketIndex(c, |bs|, p.dhtId)]
    ensures var pushed := Push(bs, BucketIndex(c, |bs|, p.dhtId), p);
            var r := RemoveFrom(c, pushed, v.id);
            && v.id != p.id && v in Content(bs) && v.id !in ResidentIds(r)
            && WellPlaced(c, r) && Content(r) + multiset{v} == Content(bs) + multiset{p}
            && (WithinCapacity(c, bs) ==> WithinCapacity(c, r))
  {
    hide Cpl, GoodBucket, Content, IndexOf, RemoveFrom, ResidentIds;
    var i := BucketIndex(c, |bs|, p.dhtId);
    var pushed := Push(bs, i, p);
    PushKeeps(c, bs, p);
    HoldsIsMembership(bs[i], p.id);
    ContentMember(bs, v);
    assert v in pushed[i];
    FoundIsThatPeer(c, pushed, i, v);
    RemoveKeeps(c, pushed, v.id);
    LookupIsComplete(c, RemoveFrom(c, pushed, v.id), v.id);
  }

  /** In a dedicated bucket everybody shares as many bits with the local identifier. */
  lemma DedicatedPeersAgree(c: Config, bs: Buckets, p: Peer, v: Peer)
    requires WellPlaced(c, bs) && BucketIndex(c, |bs|, p.dhtId) + 1 < |bs|
    requires v in bs[BucketIndex(c, |bs|, p.dhtId)]
    ensures Cpl(c, v.dhtId) == Cpl(c, p.dhtId) == BucketIndex(c, |bs|, p.dhtId)
  {
    hide Cpl;
    var i := BucketIndex(c, |bs|, p.dhtId);
    assert GoodBucket(c, bs[i], i, |bs|);
    assert InPlace(c, v, i, |bs|);
  }

  lemma EvictKeeps(c: Config, bs: Buckets, p: Peer)
    requires Inv(c, bs) && p.dhtId == c.hash(p.id) && !Resides(c, bs, p.id)
    requires BucketIndex(c, |bs|, p.dhtId) + 1 < |bs|
    ensures var r := Evict(c, bs, p);
            Inv(c, r.buckets) && PlacementEffect(c, bs, p, r)
  {
    hide Cpl, GoodBucket, Content, RemoveFrom, Resides, ResidentIds;
    var i := BucketIndex(c, |bs|, p.dhtId);
    if Victim(bs[i]).Some? {
      ContentAfterEviction(c, bs, p, Victim(bs[i]).value);
      DedicatedPeersAgree(c, bs, p, Victim(bs[i]).value);
    }
  }

  lemma FitsKeeps(c: Config, bs: Buckets, p: Peer)
    requires Inv(c, bs) && p.dhtId == c.hash(p.id) && !Resides(c, bs, p.id)
    requires |bs[BucketIndex(c, |bs|, p.dhtId)]| < c.bucketSize
    ensures var bs' := Push(bs, BucketIndex(c, |bs|, p.dhtId), p);
            Inv(c, bs') && Content(bs') == Content(bs) + multiset{p}
  {
    hide Cpl, GoodBucket, Content;
    PushKeeps(c, bs, p);
  }

  /** nextBucket keeps the whole invariant and the set of residents. */
  lemma UnfoldingKeeps(c: Config, bs: Buckets, id: PeerID)
    requires Inv(c, bs) && bs[|bs| - 1] != []
    ensures var r := NextBucket(c, bs);
            && Inv(c, r) && Content(r) == Content(bs) && |r[|r| - 1]| < c.bucketSize
            && (Resides(c, r, id) <==> Resides(c, bs, id))
  {
    hide Cpl, GoodBucket, Content, ResidentIds, Resides;
    var r := NextBucket(c, bs);
    NextBucketKeeps(c, bs);
    forall i | 0 <= i < |r|
      ensures |r[i]| <= c.bucketSize
    {
      assert |bs[|bs| - 1]| <= c.bucketSize;
      if i < |bs| - 1 {
        assert |bs[i]| <= c.bucketSize;
      }
    }
    SameContentSameIds(bs, r);
    LookupIsComplete(c, bs, id);
    LookupIsComplete(c, r, id);
  }

  /** The heart of addPeer: it keeps the table invariant, adds exactly the new peer, and gives
      up at most one peer, a replaceable one. Unfolding on the way changes no contents. */
  lemma PlaceKeeps(c: Config, bs: Buckets, p: Peer)
    requires Inv(c, bs) && p.dhtId == c.hash(p.id) && !Resides(c, bs, p.id)
    ensures var r := Place(c, bs, p);
            Inv(c, r.buckets) && PlacementEffect(c, bs, p, r)
  {
    hide Cpl, GoodBucket, Content, Resides, ResidentIds, NextBucket, Evict;
    var i := BucketIndex(c, |bs|, p.dhtId);
    if |bs[i]| < c.bucketSize {
      FitsKeeps(c, bs, p);
    } else if i < |bs| - 1 {
      EvictKeeps(c, bs, p);
    } else {
      UnfoldingKeeps(c, bs, p.id);
      var unfolded := NextBucket(c, bs);
      if |unfolded[BucketIndex(c, |unfolded|, p.dhtId)]| < c.bucketSize {
        FitsKeeps(c, unfolded, p);
      } else {
        EvictKeeps(c, unfolded, p);
      }
    }
  }

  /** The table in which addPeer finds a place: a full wildcard is unfolded for a newcomer of it,
      and only then. */
  function Unfolded(c: Config, bs: Buckets, p: Peer): (r: Buckets)
    requires |bs| >= 1
    ensures |r| >= 1
  {
    if |bs[|bs| - 1]| >= c.bucketSize && BucketIndex(c, |bs|, p.dhtId) == |bs| - 1 then NextBucket(c, bs) else bs
  }

  /** Where everybody stands after a placement: the newcomer at the front of its bucket, the
      evicted peer taken out, everybody else where the unfolding, if any, put them. */
  ghost predicate PlacementLayout(c: Config, bs: Buckets, p: Peer, r: Placement)
    requires |bs| >= 1
  {
    var base := Unfolded(c, bs, p);
    var i := BucketIndex(c, |base|, p.dhtId);
    match r
    case Fits(bs') => bs' == base[i := [p] + base[i]]
    case Replaces(bs', v) => TakenOutAndTidied(base[i := [p] + base[i]], bs', v.id)
    case NoRoom(bs') => bs' == base
  }

  lemma PlaceLayout(c: Config, bs: Buckets, p: Peer)
    requires Inv(c, bs) && p.dhtId == c.hash(p.id) && !Resides(c, bs, p.id)
    ensures PlacementLayout(c, bs, p, Place(c, bs, p))
  {
    hide Cpl, GoodBucket, Content, Resides, ResidentIds, NextBucket, RemoveFrom, TakenOutAndTidied;
    var base := Unfolded(c, bs, p);
    if base != bs {
      UnfoldingKeeps(c, bs, p.id);
    }
    if Place(c, bs, p).Replaces? {
      EvictionLayout(c, base, p);
    }
  }

  lemma EvictionLayout(c: Config, bs: Buckets, p: Peer)
    requires WellPlaced(c, bs) && p.dhtId == c.hash(p.id) && !Resides(c, bs, p.id)
    requires Victim(bs[BucketIndex(c, |bs|, p.dhtId)]).Some?
    ensures var i := BucketIndex(c, |bs|, p.dhtId);
            var v := Victim(bs[i]).value;
            TakenOutAndTidied(bs[i := [p] + bs[i]], RemoveFrom(c, Push(bs, i, p), v.id), v.id)
  {
    hide Cpl, GoodBucket, Content, RemoveFrom, TakenOutAndTidied, Resides;
    var i := BucketIndex(c, |bs|, p.dhtId);
    var v := Victim(bs[i]).value;
    PushKeeps(c, bs, p);
    assert v in Push(bs, i, p)[i];
    FoundIsThatPeer(c, Push(bs, i, p), i, v);
    RemoveLayout(c, Push(bs, i, p), v.id);
  }

  /** At the moment of an eviction the bucket of the newcomer is never the last one, so the peer
      it replaces shares exactly as many bits with the local identifier. */
  lemma EvictionIsFromDedicatedBucket(c: Config, bs: Buckets, p: Peer)
    requires Inv(c, bs) && p.dhtId == c.hash(p.id) && !Resides(c, bs, p.id) && Place(c, bs, p).Replaces?
    ensures var r := Unfolded(c, bs, p);
            var i, v := BucketIndex(c, |r|, p.dhtId), Place(c, bs, p).evicted;
            i + 1 < |r| && v in r[i] && Cpl(c, v.dhtId) == Cpl(c, p.dhtId) == i
  {
    hide Cpl, GoodBucket, Content, Resides, ResidentIds, NextBucket, RemoveFrom;
    if BucketIndex(c, |bs|, p.dhtId) == |bs| - 1 {
      UnfoldingKeeps(c, bs, p.id);
    }
    DedicatedPeersAgree(c, Unfolded(c, bs, p), p, Place(c, bs, p).evicted);
  }

  /** UsefulNewPeer predicts addPeer exactly: a peer that is not in the table finds a place
      if and only if the predictor says it is useful. */
  lemma UsefulIffPlaced(c: Config, bs: Buckets, p: Peer)
    requires Inv(c, bs) && p.dhtId == c.hash(p.id) && !Resides(c, bs, p.id)
    ensures Useful(c, bs, p.id) <==> !Place(c, bs, p).NoRoom?
  {
    hide Cpl, GoodBucket, NextBucket, RemoveFrom;
    var i := BucketIndex(c, |bs|, p.dhtId);
    var last := |bs| - 1;
    assert |bs[i]| <= c.bucketSize;
    VictimIffReplaceable(bs[i]);
    if |bs[i]| == c.bucketSize && i == last {
      NextBucketMakesRoom(c, bs, p.dhtId);
    }
  }

  /** A peer of the wildcard that is turned away leaves its trace: the table has been unfolded,
      and its new wildcard is empty. Only a removal collapses it again. */
  lemma RejectionLeavesEmptyWildcard(c: Config, bs: Buckets, p: Peer)
    requires Inv(c, bs) && p.dhtId == c.hash(p.id) && !Resides(c, bs, p.id)
    requires Place(c, bs, p).NoRoom? && BucketIndex(c, |bs|, p.dhtId) == |bs| - 1
    ensures var r := Place(c, bs, p).buckets; |r| > |bs| && r[|r| - 1] == []
  {
    hide Cpl, GoodBucket, NextBucket, RemoveFrom;
    assert |bs[|bs| - 1]| == c.bucketSize;
    NextBucketMakesRoom(c, bs, p.dhtId);
  }

  lemma VictimIffReplaceable(b: seq<Peer>)
    ensures Victim(b).Some? <==> exists p :: p in b && p.isReplaceable
  {
  }
}
