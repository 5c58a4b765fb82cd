/**
  When a newcomer is taken in, whom it replaces, and when it is turned away, in terms of the
  residents that share as many bits with the local identifier as the newcomer does: the
  arrangement of the buckets does not matter.
 */
module CapacityProofs {
  import opened Peers
  import opened TableSpec
  import opened TableProofs
  import opened AddProofs
  import opened TableFacts

  /** Some resident that shares exactly `z` bits can be replaced. */
  ghost predicate ReplaceableAt(c: Config, bs: Buckets, z: nat)
  {
    exists q :: q in Content(bs) && q.isReplaceable && Cpl(c, q.dhtId) == z
  }

  /** The members of a dedicated bucket are the residents with its prefix length. */
  lemma DedicatedMembers(c: Config, bs: Buckets, z: nat)
    requires WellPlaced(c, bs) && z + 1 < |bs|
    ensures forall q :: q in bs[z] <==> q in Content(bs) && Cpl(c, q.dhtId) == z
  {
    hide Cpl, Content;
    forall q
      ensures q in bs[z] <==> q in Content(bs) && Cpl(c, q.dhtId) == z
    {
      ContentMember(bs, q);
      assert GoodBucket(c, bs[z], z, |bs|);
      if q in bs[z] {
        assert InPlace(c, q, z, |bs|);
      }
      if q in Content(bs) && Cpl(c, q.dhtId) == z {
        var i :| 0 <= i < |bs| && q in bs[i];
        assert GoodBucket(c, bs[i], i, |bs|);
        assert InPlace(c, q, i, |bs|);
      }
    }
  }

  /** What decides in the table in which addPeer looks for a place. */
  lemma RoomInUnfolded(c: Config, bs: Buckets, p: Peer)
    requires Inv(c, bs) && p.dhtId == c.hash(p.id) && !Resides(c, bs, p.id)
    ensures var r, z := Unfolded(c, bs, p), Cpl(c, p.dhtId);
            var i := BucketIndex(c, |r|, p.dhtId);
            && Inv(c, r) && Content(r) == Content(bs)
            && (|r[i]| < c.bucketSize <==> CountInTable(c, bs, z) < c.bucketSize)
            && (i == |r| - 1 ==> |r[i]| < c.bucketSize)
            && (i < |r| - 1 ==> i == z)
  {
    hide Cpl, GoodBucket, Content, Resides, NextBucket, CountAt, CountInTable;
    var r, z := Unfolded(c, bs, p), Cpl(c, p.dhtId);
    if r != bs {
      UnfoldingKeeps(c, bs, p.id);
    }
    CountIsByContent(c, bs, r, z);
    PeersForCplIsExact(c, r, z);
  }

  /** A newcomer is taken in for nobody if and only if fewer than bucketSize residents share
      exactly as many bits; it replaces one of these if there are bucketSize of them and some can
      be replaced; otherwise it is turned away. */
  lemma PlacementIsByCount(c: Config, bs: Buckets, p: Peer)
    requires Inv(c, bs) && p.dhtId == c.hash(p.id) && !Resides(c, bs, p.id)
    ensures var r, z := Place(c, bs, p), Cpl(c, p.dhtId);
            && (r.Fits? <==> CountInTable(c, bs, z) < c.bucketSize)
            && (r.Replaces? <==> CountInTable(c, bs, z) == c.bucketSize && ReplaceableAt(c, bs, z))
            && (r.NoRoom? <==> CountInTable(c, bs, z) == c.bucketSize && !ReplaceableAt(c, bs, z))
  {
    hide Cpl, GoodBucket, Content, Resides, NextBucket, CountInTable, RemoveFrom;
    var base, z := Unfolded(c, bs, p), Cpl(c, p.dhtId);
    PeersForCplIsExact(c, bs, z);
    RoomInUnfolded(c, bs, p);
    if |base[BucketIndex(c, |base|, p.dhtId)]| >= c.bucketSize {
      DedicatedMembers(c, base, z);
      VictimIffReplaceable(base[z]);
    }
  }

  /** UsefulNewPeer in the same terms. */
  lemma UsefulIsByCount(c: Config, bs: Buckets, id: PeerID)
    requires Inv(c, bs)
    ensures var z := Cpl(c, c.hash(id));
            Useful(c, bs, id) <==>
            id !in ResidentIds(bs) && (CountInTable(c, bs, z) < c.bucketSize || ReplaceableAt(c, bs, z))
  {
    hide Cpl, GoodBucket, Content, Place, CountInTable, ReplaceableAt, ResidentIds;
    LookupIsComplete(c, bs, id);
    if !Resides(c, bs, id) {
      var p := Peer(id, NEVER, NEVER, NEVER, c.hash(id), false);
      UsefulIffPlaced(c, bs, p);
      PlacementIsByCount(c, bs, p);
      PeersForCplIsExact(c, bs, Cpl(c, p.dhtId));
    }
  }
}
