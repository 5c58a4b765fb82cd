/**
  The bucket array of table.go as a value, and the functions that unfold, collapse,
  fill and empty it. Bucket i < last belongs to the peers that share exactly i bits
  with the local identifier; the last bucket is the wildcard for all the others.
 */
module TableSpec {
  import opened Peers
  import opened BucketSpec

  type Buckets = seq<seq<Peer>>

  const MAX_BUCKETS := DIGEST_BITS + 2

  /** bucketIdForPeer, given the number of buckets. */
  function BucketIndex(c: Config, n: nat, d: Digest): (i: nat)
    requires n >= 1
    ensures i < n
  {
    if Cpl(c, d) >= n then n - 1 else Cpl(c, d)
  }

  /** Split the wildcard once: it keeps the peers that share exactly `last` bits. */
  function UnfoldOnce(c: Config, bs: Buckets): Buckets
    requires |bs| >= 1
  {
    var last := |bs| - 1;
    bs[..last] + [Staying(c, bs[last], last), Leaving(c, bs[last], last)]
  }

  /** nextBucket: split the wildcard until what is left of it is not full. */
  function NextBucket(c: Config, bs: Buckets): (r: Buckets)
    requires |bs| >= 1
    ensures |r| > |bs|
    decreases MAX_BUCKETS - |bs|
  {
    var last := |bs| - 1;
    var far := Leaving(c, bs[last], last);
    if |far| < c.bucketSize then UnfoldOnce(c, bs)
    else
      SplitMembers(c, bs[last], last);
      assert far[0] in far;
      NextBucket(c, UnfoldOnce(c, bs))
  }

  /** The clean-up of removePeer: drop an empty wildcard, or let it swallow an empty neighbour. */
  function Collapse(bs: Buckets): (r: Buckets)
    requires |bs| >= 1
    ensures 1 <= |r| <= |bs|
    ensures |r| == 1 || (r[|r| - 1] != [] && r[|r| - 2] != [])
    decreases |bs|
  {
    var last := |bs| - 1;
    if |bs| > 1 && bs[last] == [] then Collapse(bs[..last])
    else if |bs| > 1 && bs[last - 1] == [] then Collapse(bs[..last - 1] + [bs[last]])
    else bs
  }

  predicate Resides(c: Config, bs: Buckets, id: PeerID)
    requires |bs| >= 1
  {
    Holds(bs[BucketIndex(c, |bs|, c.hash(id))], id)
  }

  /** The record of a resident. */
  function Found(c: Config, bs: Buckets, id: PeerID): (p: Peer)
    requires |bs| >= 1 && Resides(c, bs, id)
    ensures p.id == id
  {
    var b := bs[BucketIndex(c, |bs|, c.hash(id))];
    b[IndexOf(b, id)]
  }

  /** removePeer on the buckets. */
  function RemoveFrom(c: Config, bs: Buckets, id: PeerID): (r: Buckets)
    requires |bs| >= 1
    ensures |r| >= 1
  {
    if !Resides(c, bs, id) then bs
    else
      var i := BucketIndex(c, |bs|, c.hash(id));
      Collapse(bs[i := Without(bs[i], id)])
  }

  function Push(bs: Buckets, i: nat, p: Peer): Buckets
    requires i < |bs|
  {
    bs[i := [p] + bs[i]]
  }

  /** How addPeer ends once it has decided that it wants the peer. */
  datatype Placement =
    | Fits(buckets: Buckets)
    | Replaces(buckets: Buckets, evicted: Peer)
    | NoRoom(buckets: Buckets)

  /** The part of addPeer that looks for room: fill, unfold, evict, or give up. */
  function Place(c: Config, bs: Buckets, p: Peer): (r: Placement)
    requires |bs| >= 1
    ensures |r.buckets| >= 1
  {
    var i := BucketIndex(c, |bs|, p.dhtId);
    if |bs[i]| < c.bucketSize then Fits(Push(bs, i, p))
    else if i < |bs| - 1 then Evict(c, bs, p)
    else FillOrEvict(c, NextBucket(c, bs), p)
  }

  function FillOrEvict(c: Config, bs: Buckets, p: Peer): (r: Placement)
    requires |bs| >= 1
    ensures |r.buckets| >= 1
  {
    var i := BucketIndex(c, |bs|, p.dhtId);
    if |bs[i]| < c.bucketSize then Fits(Push(bs, i, p)) else Evict(c, bs, p)
  }

  function Evict(c: Config, bs: Buckets, p: Peer): (r: Placement)
    requires |bs| >= 1
    ensures |r.buckets| >= 1
  {
    var i := BucketIndex(c, |bs|, p.dhtId);
    match Victim(bs[i])
    case Some(v) => Replaces(RemoveFrom(c, Push(bs, i, p), v.id), v)
    case None => NoRoom(bs)
  }

  /** UsefulNewPeer. */
  predicate Useful(c: Config, bs: Buckets, id: PeerID)
    requires |bs| >= 1
  {
    var i := BucketIndex(c, |bs|, c.hash(id));
    && !Holds(bs[i], id)
    && (|| |bs[i]| < c.bucketSize
        || (exists p :: p in bs[i] && p.isReplaceable)
        || (i == |bs| - 1 && exists p :: p in bs[i] && Cpl(c, p.dhtId) != Cpl(c, c.hash(id))))
  }

  // ------------------------------------------------------------------ contents

  /** Every peer of the table, with multiplicity. */
  ghost function Content(bs: Buckets): multiset<Peer>
  {
    if bs == [] then multiset{} else Content(bs[..|bs| - 1]) + multiset(bs[|bs| - 1])
  }

  ghost function ResidentIds(bs: Buckets): set<PeerID>
  {
    set p | p in Content(bs) :: p.id
  }

  lemma {:induction false} ContentMember(bs: Buckets, p: Peer)
    ensures p in Content(bs) <==> exists i :: 0 <= i < |bs| && p in bs[i]
  {
    if bs == [] {
    } else {
      var front := bs[..|bs| - 1];
      ContentMember(front, p);
      if i :| 0 <= i < |front| && p in front[i] {
        assert p in bs[i];
      }
    }
  }

  lemma {:induction false} ContentUpdate(bs: Buckets, i: nat, b: seq<Peer>)
    requires i < |bs|
    ensures Content(bs[i := b]) + multiset(bs[i]) == Content(bs) + multiset(b)
  {
    var n := |bs| - 1;
    if i == n {
      assert bs[i := b][..n] == bs[..n];
    } else {
      var front, last := bs[..n], multiset(bs[n]);
      ContentUpdate(front, i, b);
      assert bs[i := b][..n] == front[i := b];
      assert Content(bs[i := b]) == Content(front[i := b]) + last;
      assert Content(bs) == Content(front) + last;
      calc {
        Content(bs[i := b]) + multiset(bs[i]);
        (Content(front[i := b]) + multiset(bs[i])) + last;
        (Content(front) + multiset(b)) + last;
        Content(bs) + multiset(b);
      }
    }
  }

  lemma ContentSnoc(bs: Buckets, b: seq<Peer>)
    ensures Content(bs + [b]) == Content(bs) + multiset(b)
  {
  }

  // ------------------------------------------------------------------ the table invariant

  /** Peer `p` may stand in bucket `i` of `n`. */
  ghost predicate InPlace(c: Config, p: Peer, i: nat, n: nat)
  {
    && p.dhtId == c.hash(p.id)
    && (if i + 1 < n then Cpl(c, p.dhtId) == i else Cpl(c, p.dhtId) + 1 >= n)
  }

  ghost predicate GoodBucket(c: Config, b: seq<Peer>, i: nat, n: nat)
  {
    && DistinctIds(b)
    && forall p :: p in b ==> InPlace(c, p, i, n)
  }

  /** Every bucket holds only peers that belong there, none of them twice. */
  ghost predicate WellPlaced(c: Config, bs: Buckets)
  {
    && 1 <= |bs| <= MAX_BUCKETS
    && forall i :: 0 <= i < |bs| ==> GoodBucket(c, bs[i], i, |bs|)
  }

  /** No bucket holds more than the bucket size. */
  ghost predicate WithinCapacity(c: Config, bs: Buckets)
  {
    forall i :: 0 <= i < |bs| ==> |bs[i]| <= c.bucketSize
  }

  ghost predicate Inv(c: Config, bs: Buckets)
  {
    WellPlaced(c, bs) && WithinCapacity(c, bs)
  }
}
