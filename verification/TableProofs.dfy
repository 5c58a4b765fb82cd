/**
  What unfolding, collapsing, filling and emptying keep: the placement of every peer,
  the capacity of every bucket, and the contents of the table as a whole.
 */
module TableProofs {
  import opened Peers
  import opened BucketSpec
  import opened TableSpec

  // ------------------------------------------------------------------ placement

  /** A well-hashed peer belongs in exactly one bucket, the one bucketIdForPeer names. */
  lemma PlaceIsUnique(c: Config, p: Peer, i: nat, n: nat)
    requires i < n && p.dhtId == c.hash(p.id)
    ensures InPlace(c, p, i, n) <==> i == BucketIndex(c, n, p.dhtId)
  {
  }

  /** Looking into one bucket is enough to find a peer anywhere in the table. */
  lemma LookupIsComplete(c: Config, bs: Buckets, id: PeerID)
    requires WellPlaced(c, bs)
    ensures Resides(c, bs, id) <==> id in ResidentIds(bs)
  {
    hide Cpl;
    var i := BucketIndex(c, |bs|, c.hash(id));
    HoldsIsMembership(bs[i], id);
    if Resides(c, bs, id) {
      var p :| p in bs[i] && p.id == id;
      ContentMember(bs, p);
    }
    if id in ResidentIds(bs) {
      var p :| p in Content(bs) && p.id == id;
      ContentMember(bs, p);
      var j :| 0 <= j < |bs| && p in bs[j];
      assert GoodBucket(c, bs[j], j, |bs|);
      PlaceIsUnique(c, p, j, |bs|);
    }
  }

  /** Replacing one bucket by one that fits its position. */
  lemma ReplaceKeeps(c: Config, bs: Buckets, i: nat, b: seq<Peer>)
    requires WellPlaced(c, bs) && i < |bs| && GoodBucket(c, b, i, |bs|)
    ensures WellPlaced(c, bs[i := b])
  {
  }

  lemma GoodBucketCons(c: Config, p: Peer, b: seq<Peer>, i: nat, n: nat)
    requires GoodBucket(c, b, i, n) && InPlace(c, p, i, n) && !Holds(b, p.id)
    ensures GoodBucket(c, [p] + b, i, n)
  {
  }

  lemma PushKeeps(c: Config, bs: Buckets, p: Peer)
    requires WellPlaced(c, bs) && p.dhtId == c.hash(p.id) && !Resides(c, bs, p.id)
    ensures var bs' := Push(bs, BucketIndex(c, |bs|, p.dhtId), p);
            WellPlaced(c, bs') && Content(bs') == Content(bs) + multiset{p}
  {
    hide Cpl, GoodBucket, Content;
    var i := BucketIndex(c, |bs|, p.dhtId);
    var b := [p] + bs[i];
    PlaceIsUnique(c, p, i, |bs|);
    assert GoodBucket(c, bs[i], i, |bs|);
    GoodBucketCons(c, p, bs[i], i, |bs|);
    ReplaceKeeps(c, bs, i, b);
    ContentUpdate(bs, i, b);
    var before := multiset(bs[i]);
    assert multiset(b) == multiset{p} + before;
    calc {
      Content(bs[i := b]);
      (Content(bs[i := b]) + before) - before;
      (Content(bs) + multiset{p} + before) - before;
      Content(bs) + multiset{p};
    }
  }

  // ------------------------------------------------------------------ unfolding

  lemma SplitFits(c: Config, b: seq<Peer>, last: nat)
    requires GoodBucket(c, b, last, last + 1)
    ensures GoodBucket(c, Staying(c, b, last), last, last + 2)
    ensures GoodBucket(c, Leaving(c, b, last), last + 1, last + 2)
  {
    hide Cpl, Staying, Leaving;
    SplitDistinct(c, b, last);
    SplitMembers(c, b, last);
    assert forall p :: p in b ==> InPlace(c, p, last, last + 1);
  }

  lemma DedicatedStaysGood(c: Config, b: seq<Peer>, i: nat, n: nat, m: nat)
    requires GoodBucket(c, b, i, n) && i + 1 < n && i + 1 < m
    ensures GoodBucket(c, b, i, m)
  {
  }

  lemma UnfoldOncePlaces(c: Config, bs: Buckets)
    requires WellPlaced(c, bs) && |bs| < MAX_BUCKETS
    ensures WellPlaced(c, UnfoldOnce(c, bs))
  {
    hide GoodBucket;
    var last := |bs| - 1;
    var bs' := UnfoldOnce(c, bs);
    assert GoodBucket(c, bs[last], last, |bs|);
    SplitFits(c, bs[last], last);
    forall i | 0 <= i < |bs'|
      ensures GoodBucket(c, bs'[i], i, |bs'|)
    {
      if i < last {
        assert GoodBucket(c, bs[i], i, |bs|);
        DedicatedStaysGood(c, bs[i], i, |bs|, |bs'|);
      }
    }
  }

  lemma SumIsAssociative(m: multiset<Peer>, a: multiset<Peer>, b: multiset<Peer>)
    ensures (m + a) + b == m + (a + b)
  {
  }

  lemma UnfoldOnceConserves(c: Config, bs: Buckets)
    requires |bs| >= 1
    ensures Content(UnfoldOnce(c, bs)) == Content(bs)
  {
    hide Staying, Leaving;
    var last := |bs| - 1;
    var front, near, far := bs[..last], Staying(c, bs[last], last), Leaving(c, bs[last], last);
    SplitPartition(c, bs[last], last);
    assert Content(bs) == Content(front) + multiset(bs[last]);
    hide Content;
    assert UnfoldOnce(c, bs) == (front + [near]) + [far];
    ContentSnoc(front + [near], far);
    ContentSnoc(front, near);
    SumIsAssociative(Content(front), multiset(near), multiset(far));
  }

  /** A wildcard that still holds a peer can be split: bit `last` exists. */
  lemma WildcardCanSplit(c: Config, bs: Buckets)
    requires WellPlaced(c, bs) && bs[|bs| - 1] != []
    ensures |bs| < MAX_BUCKETS
  {
    var last := |bs| - 1;
    assert GoodBucket(c, bs[last], last, |bs|);
    assert InPlace(c, bs[last][0], last, |bs|);
  }

  /** nextBucket loses no peer, leaves the other buckets alone, overfills none, stays within
      the bound on the number of buckets, and ends with a wildcard that has room. */
  lemma {:induction false} NextBucketKeeps(c: Config, bs: Buckets)
    requires WellPlaced(c, bs) && bs[|bs| - 1] != []
    ensures var r := NextBucket(c, bs);
            && WellPlaced(c, r) && Content(r) == Content(bs)
            && |r[|r| - 1]| < c.bucketSize
            && (forall i :: 0 <= i < |bs| - 1 ==> r[i] == bs[i])
            && (forall i :: |bs| - 1 <= i < |r| ==> |r[i]| <= |bs[|bs| - 1]|)
    decreases MAX_BUCKETS - |bs|
  {
    hide Staying, Leaving, GoodBucket, Content;
    var last := |bs| - 1;
    WildcardCanSplit(c, bs);
    UnfoldOncePlaces(c, bs);
    UnfoldOnceConserves(c, bs);
    SplitLengths(c, bs[last], last);
    if |Leaving(c, bs[last], last)| >= c.bucketSize {
      NextBucketKeeps(c, UnfoldOnce(c, bs));
    }
  }

  /** The two halves of a non-empty wildcard, and where a newcomer of the wildcard would go. */
  lemma SplitOfWildcard(c: Config, b: seq<Peer>, last: nat, z: nat)
    requires GoodBucket(c, b, last, last + 1) && z >= last
    ensures var near, far := Staying(c, b, last), Leaving(c, b, last);
            && (z == last ==> (far != [] <==> exists p :: p in b && Cpl(c, p.dhtId) != z))
            && (z > last && near != [] ==> exists p :: p in b && Cpl(c, p.dhtId) != z)
            && (near == [] ==> far == b) && (far == [] ==> near == b)
  {
    hide Cpl, Staying, Leaving;
    var near, far := Staying(c, b, last), Leaving(c, b, last);
    SplitMembers(c, b, last);
    SplitTrivial(c, b, last);
    assert forall p :: p in b ==> InPlace(c, p, last, last + 1);
    if near != [] {
      assert near[0] in near;
    }
    if far != [] {
      assert far[0] in far;
    }
  }

  /** When the wildcard is exactly full, unfolding makes room for a newcomer if and only if
      some peer of the wildcard shares a different number of bits; else they all end together. */
  lemma {:induction false} NextBucketMakesRoom(c: Config, bs: Buckets, d: Digest)
    requires WellPlaced(c, bs) && |bs[|bs| - 1]| == c.bucketSize && Cpl(c, d) + 1 >= |bs|
    ensures var r := NextBucket(c, bs);
            var target := r[BucketIndex(c, |r|, d)];
            && (|target| < c.bucketSize <==> exists p :: p in bs[|bs| - 1] && Cpl(c, p.dhtId) != Cpl(c, d))
            && (|target| >= c.bucketSize ==> target == bs[|bs| - 1] && r[|r| - 1] == [])
    decreases MAX_BUCKETS - |bs|
  {
    hide Cpl, Staying, Leaving, GoodBucket;
    var last := |bs| - 1;
    var wild := bs[last];
    assert GoodBucket(c, wild, last, |bs|);
    WildcardCanSplit(c, bs);
    UnfoldOncePlaces(c, bs);
    SplitLengths(c, wild, last);
    SplitOfWildcard(c, wild, last, Cpl(c, d));
    if |Leaving(c, wild, last)| >= c.bucketSize {
      if Cpl(c, d) > last {
        NextBucketMakesRoom(c, UnfoldOnce(c, bs), d);
      } else {
        NextBucketKeeps(c, UnfoldOnce(c, bs));
      }
    }
  }

  /** nextBucket unfolds no further than it must: the table grows to the least size at which fewer
      than bucketSize peers of the old wildcard are left over, and each of the others stands, in
      the old order, in the bucket of its own prefix length. */
  lemma {:induction false} NextBucketIsLeast(c: Config, bs: Buckets, m: nat)
    requires WellPlaced(c, bs) && bs[|bs| - 1] != []
    ensures var r, wild := NextBucket(c, bs), bs[|bs| - 1];
            && r[|r| - 1] == Leaving(c, wild, |r| - 2) && |Leaving(c, wild, |r| - 2)| < c.bucketSize
            && (|bs| < m < |r| ==> |Leaving(c, wild, m - 2)| >= c.bucketSize)
            && (|bs| <= m < |r| ==> r[m - 1] == Exactly(c, wild, m - 1))
            && r[..|bs| - 1] == bs[..|bs| - 1]
    decreases MAX_BUCKETS - |bs|
  {
    hide Cpl, Staying, Leaving, Exactly, GoodBucket;
    var last := |bs| - 1;
    var wild := bs[last];
    var next := UnfoldOnce(c, bs);
    assert GoodBucket(c, wild, last, |bs|);
    WildcardPrefixes(c, wild, last);
    StayingIsExactly(c, wild, last);
    WildcardCanSplit(c, bs);
    UnfoldOncePlaces(c, bs);
    var r := NextBucket(c, bs);
    if |Leaving(c, wild, last)| >= c.bucketSize {
      NextBucketIsLeast(c, next, m);
      LeavingTwice(c, wild, last, |r| - 2);
      if |bs| < m {
        LeavingTwice(c, wild, last, m - 2);
      }
      assert r[..|bs| - 1] == r[..|bs|][..|bs| - 1];
      assert r[last] == r[..|bs|][last] == next[last];
    }
  }

  lemma WildcardPrefixes(c: Config, b: seq<Peer>, last: nat)
    requires GoodBucket(c, b, last, last + 1)
    ensures forall p :: p in b ==> Cpl(c, p.dhtId) >= last
  {
    hide Cpl;
    assert forall p :: p in b ==> InPlace(c, p, last, last + 1);
  }

  // ------------------------------------------------------------------ collapsing

  lemma WildcardMovesDown(c: Config, b: seq<Peer>, last: nat)
    requires GoodBucket(c, b, last, last + 1) && last > 0
    ensures GoodBucket(c, b, last - 1, last)
  {
  }

  lemma DropWildcard(c: Config, bs: Buckets)
    requires WellPlaced(c, bs) && |bs| > 1 && bs[|bs| - 1] == []
    ensures WellPlaced(c, bs[..|bs| - 1]) && Content(bs[..|bs| - 1]) == Content(bs)
  {
  }

  lemma SwallowNeighbour(c: Config, bs: Buckets)
    requires WellPlaced(c, bs) && |bs| > 1 && bs[|bs| - 2] == []
    ensures var bs' := bs[..|bs| - 2] + [bs[|bs| - 1]];
            WellPlaced(c, bs') && Content(bs') == Content(bs)
  {
    hide GoodBucket;
    var last := |bs| - 1;
    var front := bs[..last - 1];
    var bs' := front + [bs[last]];
    forall i | 0 <= i < |bs'|
      ensures GoodBucket(c, bs'[i], i, |bs'|)
    {
      if i < last - 1 {
        assert GoodBucket(c, bs[i], i, |bs|);
        DedicatedStaysGood(c, bs[i], i, |bs|, |bs'|);
      } else {
        assert GoodBucket(c, bs[last], last, |bs|);
        WildcardMovesDown(c, bs[last], last);
      }
    }
    ContentSnoc(front, bs[last]);
    assert bs[..last] == front + [[]];
    ContentSnoc(front, []);
  }

  /** The clean-up loses no peer and leaves every peer where bucketIdForPeer looks for it. */
  lemma {:induction false} CollapseKeeps(c: Config, bs: Buckets)
    requires WellPlaced(c, bs)
    ensures WellPlaced(c, Collapse(bs)) && Content(Collapse(bs)) == Content(bs)
    ensures WithinCapacity(c, bs) ==> WithinCapacity(c, Collapse(bs))
    decreases |bs|
  {
    hide WellPlaced, Content;
    var last := |bs| - 1;
    if |bs| > 1 && bs[last] == [] {
      DropWildcard(c, bs);
      CollapseKeeps(c, bs[..last]);
    } else if |bs| > 1 && bs[last - 1] == [] {
      SwallowNeighbour(c, bs);
      CollapseKeeps(c, bs[..last - 1] + [bs[last]]);
    }
  }

  /** `r` is `bs` without some empty buckets at its end, the wildcard having moved down. */
  ghost predicate OnlyEmptyDropped(bs: Buckets, r: Buckets)
  {
    && 1 <= |r| <= |bs| && r[..|r| - 1] == bs[..|r| - 1]
    && exists j :: IsRest(bs, |r| - 1, j) && r[|r| - 1] == bs[j]
  }

  /** From bucket `n` on, everything but bucket `j` is empty. */
  ghost predicate IsRest(bs: Buckets, n: nat, j: int)
  {
    n <= j < |bs| && forall i :: n <= i < |bs| && i != j ==> bs[i] == []
  }

  /** One bucket, or a wildcard and a neighbour that both hold somebody. */
  ghost predicate Tidy(bs: Buckets)
  {
    |bs| == 1 || (|bs| > 1 && bs[|bs| - 1] != [] && bs[|bs| - 2] != [])
  }

  lemma DroppedBelowWildcard(bs: Buckets, r: Buckets)
    requires |bs| > 1 && bs[|bs| - 1] == [] && OnlyEmptyDropped(bs[..|bs| - 1], r)
    ensures OnlyEmptyDropped(bs, r)
  {
    var shorter := bs[..|bs| - 1];
    var j :| IsRest(shorter, |r| - 1, j) && r[|r| - 1] == shorter[j];
    assert IsRest(bs, |r| - 1, j) && bs[j] == shorter[j];
    assert bs[..|r| - 1] == shorter[..|r| - 1];
  }

  lemma DroppedAfterSwallow(bs: Buckets, r: Buckets)
    requires |bs| > 1 && bs[|bs| - 2] == [] && OnlyEmptyDropped(bs[..|bs| - 2] + [bs[|bs| - 1]], r)
    ensures OnlyEmptyDropped(bs, r)
  {
    var last := |bs| - 1;
    var shorter := bs[..last - 1] + [bs[last]];
    var j :| IsRest(shorter, |r| - 1, j) && r[|r| - 1] == shorter[j];
    var k := if j == last - 1 then last else j;
    forall i | |r| - 1 <= i < |bs| && i != k
      ensures bs[i] == []
    {
      if i < last - 1 {
        assert shorter[i] == bs[i];
      } else if i == last {
        assert shorter[last - 1] == bs[last];
      }
    }
    assert IsRest(bs, |r| - 1, k) && bs[k] == shorter[j];
    assert bs[..|r| - 1] == shorter[..|r| - 1];
  }

  /** The clean-up drops empty buckets only, and no bucket that is not at the end. */
  lemma {:induction false} CollapseDropsOnlyEmpty(bs: Buckets)
    requires |bs| >= 1
    ensures Tidy(Collapse(bs)) && OnlyEmptyDropped(bs, Collapse(bs))
    decreases |bs|
  {
    hide OnlyEmptyDropped;
    var last := |bs| - 1;
    if |bs| > 1 && bs[last] == [] {
      CollapseDropsOnlyEmpty(bs[..last]);
      DroppedBelowWildcard(bs, Collapse(bs));
    } else if |bs| > 1 && bs[last - 1] == [] {
      CollapseDropsOnlyEmpty(bs[..last - 1] + [bs[last]]);
      DroppedAfterSwallow(bs, Collapse(bs));
    } else {
      NothingDropped(bs);
    }
  }

  lemma NothingDropped(bs: Buckets)
    requires |bs| >= 1
    ensures OnlyEmptyDropped(bs, bs)
  {
    var r, j := bs, |bs| - 1;
    assert IsRest(bs, |r| - 1, j) && r[|r| - 1] == bs[j];
  }

  /** There is only one tidy table that can come of dropping empty buckets at the end. */
  lemma TidyIsUnique(bs: Buckets, r: Buckets, s: Buckets)
    requires OnlyEmptyDropped(bs, r) && OnlyEmptyDropped(bs, s) && Tidy(r) && Tidy(s)
    ensures r == s
  {
    if |r| < |s| {
      NoLongerTidy(bs, r, s);
    } else if |s| < |r| {
      NoLongerTidy(bs, s, r);
    } else {
      var j :| IsRest(bs, |r| - 1, j) && r[|r| - 1] == bs[j];
      var k :| IsRest(bs, |s| - 1, k) && s[|s| - 1] == bs[k];
      assert r == r[..|r| - 1] + [bs[j]] && s == s[..|s| - 1] + [bs[k]];
    }
  }

  lemma NoLongerTidy(bs: Buckets, r: Buckets, s: Buckets)
    requires OnlyEmptyDropped(bs, r) && OnlyEmptyDropped(bs, s) && |r| < |s|
    ensures !Tidy(s)
  {
    var j :| IsRest(bs, |r| - 1, j) && r[|r| - 1] == bs[j];
    var k :| IsRest(bs, |s| - 1, k) && s[|s| - 1] == bs[k];
    assert s[|s| - 2] == s[..|s| - 1][|s| - 2] == bs[|s| - 2];
  }

  // ------------------------------------------------------------------ removing

  lemma WithoutStaysGood(c: Config, b: seq<Peer>, id: PeerID, i: nat, n: nat)
    requires GoodBucket(c, b, i, n)
    ensures GoodBucket(c, Without(b, id), i, n) && !Holds(Without(b, id), id)
  {
    hide Cpl, InPlace, IndexOf;
    var r, k := Without(b, id), IndexOf(b, id);
    if k < |b| {
      assert forall j :: 0 <= j < |r| ==> r[j] == if j < k then b[j] else b[j + 1];
    }
    HoldsIsMembership(r, id);
  }

  /** `bs'` is `bs` without one record of this id; every other record stands where it stood. */
  ghost predicate TakenOut(bs: Buckets, bs': Buckets, id: PeerID)
  {
    exists i, k :: 0 <= i < |bs| && 0 <= k < |bs[i]| && bs[i][k].id == id && bs' == bs[i := bs[i][..k] + bs[i][k + 1..]]
  }

  /** What a removal does to the bucket array: one record is taken out, then the end is tidied. */
  ghost predicate TakenOutAndTidied(bs: Buckets, r: Buckets, id: PeerID)
  {
    Tidy(r) && exists bs' :: TakenOut(bs, bs', id) && OnlyEmptyDropped(bs', r)
  }

  lemma RemoveLayout(c: Config, bs: Buckets, id: PeerID)
    requires |bs| >= 1 && Resides(c, bs, id)
    ensures TakenOutAndTidied(bs, RemoveFrom(c, bs, id), id)
  {
    hide Cpl, IndexOf, Collapse, OnlyEmptyDropped, Tidy;
    var i := BucketIndex(c, |bs|, c.hash(id));
    var k := IndexOf(bs[i], id);
    var bs' := bs[i := Without(bs[i], id)];
    assert bs[i][k].id == id && bs' == bs[i := bs[i][..k] + bs[i][k + 1..]];
    CollapseDropsOnlyEmpty(bs');
  }

  /** Removing takes away one record and nothing else; it works on a bucket that an eviction
      has just overfilled, too, and brings it back within the capacity. */
  lemma RemoveKeeps(c: Config, bs: Buckets, id: PeerID)
    requires WellPlaced(c, bs) && Resides(c, bs, id)
    ensures var r := RemoveFrom(c, bs, id);
            && WellPlaced(c, r) && Content(bs) == Content(r) + multiset{Found(c, bs, id)}
            && !Resides(c, r, id)
            && ((forall i :: 0 <= i < |bs| ==>
                   |bs[i]| <= c.bucketSize + if i == BucketIndex(c, |bs|, c.hash(id)) then 1 else 0)
                ==> WithinCapacity(c, r))
  {
    hide Cpl, GoodBucket, Content, Without, ResidentIds;
    var i := BucketIndex(c, |bs|, c.hash(id));
    var b := Without(bs[i], id);
    var bs' := bs[i := b];
    assert GoodBucket(c, bs[i], i, |bs|);
    WithoutStaysGood(c, bs[i], id, i, |bs|);
    ReplaceKeeps(c, bs, i, b);
    WithoutRemovesOne(bs[i], id);
    ContentUpdate(bs, i, b);
    RemoveOneFromSum(Content(bs'), Content(bs), multiset(bs[i]), multiset(b), Found(c, bs, id));
    CollapseKeeps(c, bs');
    LookupIsComplete(c, bs', id);
    SameContentSameIds(bs', Collapse(bs'));
    LookupIsComplete(c, Collapse(bs'), id);
  }

  lemma RemoveOneFromSum(r: multiset<Peer>, s: multiset<Peer>, old_: multiset<Peer>, new_: multiset<Peer>, p: Peer)
    requires r + old_ == s + new_ && old_ == new_ + multiset{p}
    ensures s == r + multiset{p}
  {
    calc {
      s;
      (s + new_) - new_;
      (r + (new_ + multiset{p})) - new_;
      r + multiset{p};
    }
  }

  lemma SameContentSameIds(bs: Buckets, bs': Buckets)
    requires Content(bs) == Content(bs')
    ensures ResidentIds(bs) == ResidentIds(bs')
  {
  }
}
