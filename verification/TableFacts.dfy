/**
  What the table invariant means for callers: nobody is listed twice, sizes are bounded,
  and the queries that look at one bucket answer for the whole table.
 */
module TableFacts {
  import opened Peers
  import opened BucketSpec
  import opened TableSpec
  import opened TableProofs
  import opened GoSort

  lemma {:induction false} MultiplicityInBucket(b: seq<Peer>, p: Peer)
    requires DistinctIds(b)
    ensures multiset(b)[p] <= 1
  {
    if b == [] {
    } else {
      var front := b[..|b| - 1];
      MultiplicityInBucket(front, p);
      assert b == front + [b[|b| - 1]];
      forall k | 0 <= k < |front|
        ensures front[k] != b[|b| - 1]
      {
        assert b[k].id != b[|b| - 1].id;
      }
    }
  }

  lemma {:induction false} MultiplicityInTable(c: Config, bs: Buckets, n: nat, p: Peer)
    requires WellPlaced(c, bs) && n <= |bs| && p.dhtId == c.hash(p.id)
    ensures Content(bs[..n])[p] <= 1
    ensures BucketIndex(c, |bs|, p.dhtId) >= n ==> Content(bs[..n])[p] == 0
  {
    hide Cpl, DistinctIds;
    if n == 0 {
    } else {
      MultiplicityInTable(c, bs, n - 1, p);
      assert bs[..n][..n - 1] == bs[..n - 1];
      assert GoodBucket(c, bs[n - 1], n - 1, |bs|);
      PlaceIsUnique(c, p, n - 1, |bs|);
      MultiplicityInBucket(bs[n - 1], p);
    }
  }

  /** No peer id occurs twice in the whole table, neither in one bucket nor across buckets. */
  lemma NoPeerTwice(c: Config, bs: Buckets, p: Peer, q: Peer)
    requires WellPlaced(c, bs) && p in Content(bs) && q in Content(bs) && p.id == q.id
    ensures p == q && Content(bs)[p] == 1
  {
    hide Cpl;
    ContentMember(bs, p);
    ContentMember(bs, q);
    var i :| 0 <= i < |bs| && p in bs[i];
    var j :| 0 <= j < |bs| && q in bs[j];
    assert GoodBucket(c, bs[i], i, |bs|) && GoodBucket(c, bs[j], j, |bs|);
    assert InPlace(c, p, i, |bs|) && InPlace(c, q, j, |bs|);
    PlaceIsUnique(c, p, i, |bs|);
    PlaceIsUnique(c, q, j, |bs|);
    MultiplicityInTable(c, bs, |bs|, p);
    assert bs[..|bs|] == bs;
  }

  // ------------------------------------------------------------------ sizes

  function Total(bs: Buckets): nat
  {
    if bs == [] then 0 else Total(bs[..|bs| - 1]) + |bs[|bs| - 1]|
  }

  lemma {:induction false} TotalIsContentSize(bs: Buckets)
    ensures Total(bs) == |Content(bs)|
  {
    if bs == [] {
    } else {
      TotalIsContentSize(bs[..|bs| - 1]);
    }
  }

  lemma {:induction false} TotalBound(bs: Buckets, n: nat, k: nat)
    requires n <= |bs| && forall i :: 0 <= i < n ==> |bs[i]| <= k
    ensures Total(bs[..n]) <= k * n
  {
    if n == 0 {
    } else {
      TotalBound(bs, n - 1, k);
      assert bs[..n][..n - 1] == bs[..n - 1];
      assert k * n == k * (n - 1) + k;
    }
  }

  /** A table never has more than 258 buckets of 256-bit identifiers, and never more peers
      than one full bucket for each of the 257 possible prefix lengths. */
  lemma SizeIsBounded(c: Config, bs: Buckets)
    requires Inv(c, bs)
    ensures |bs| <= 258
    ensures |Content(bs)| <= c.bucketSize * 257
  {
    hide Cpl;
    TotalIsContentSize(bs);
    assert bs[..|bs|] == bs;
    var last := |bs| - 1;
    TotalBound(bs, last, c.bucketSize);
    if bs[last] != [] {
      WildcardCanSplit(c, bs);
      TotalBound(bs, |bs|, c.bucketSize);
      ProductMonotone(c.bucketSize, |bs|, DIGEST_BITS + 1);
    } else {
      ProductMonotone(c.bucketSize, last, DIGEST_BITS + 1);
    }
  }

  lemma ProductMonotone(k: nat, m: nat, n: nat)
    requires m <= n
    ensures k * m <= k * n
  {
  }

  // ------------------------------------------------------------------ counting by prefix length

  /** How many of these peers share exactly `z` bits with the local identifier. */
  function CountAt(c: Config, b: seq<Peer>, z: nat): (n: nat)
    ensures n <= |b|
  {
    if b == [] then 0
    else CountAt(c, b[..|b| - 1], z) + if Cpl(c, b[|b| - 1].dhtId) == z then 1 else 0
  }

  function CountInTable(c: Config, bs: Buckets, z: nat): nat
  {
    if bs == [] then 0 else CountInTable(c, bs[..|bs| - 1], z) + CountAt(c, bs[|bs| - 1], z)
  }

  lemma {:induction false} CountAtUniform(c: Config, b: seq<Peer>, z: nat)
    ensures (forall p :: p in b ==> Cpl(c, p.dhtId) == z) ==> CountAt(c, b, z) == |b|
    ensures (forall p :: p in b ==> Cpl(c, p.dhtId) != z) ==> CountAt(c, b, z) == 0
  {
    hide Cpl;
    if b == [] {
    } else {
      CountAtUniform(c, b[..|b| - 1], z);
    }
  }

  /** NPeersForCpl on the buckets: the whole of a dedicated bucket, or a count in the wildcard. */
  function PeersForCpl(c: Config, bs: Buckets, z: nat): nat
    requires |bs| >= 1
  {
    if z >= |bs| - 1 then CountAt(c, bs[|bs| - 1], z) else |bs[z]|
  }

  lemma {:induction false} CountUpTo(c: Config, bs: Buckets, n: nat, z: nat)
    requires WellPlaced(c, bs) && n <= |bs|
    ensures CountInTable(c, bs[..n], z) ==
            (if z < |bs| - 1 then (if z < n then |bs[z]| else 0)
             else if n == |bs| then CountAt(c, bs[|bs| - 1], z) else 0)
  {
    hide Cpl, DistinctIds, CountAt;
    if n == 0 {
    } else {
      CountUpTo(c, bs, n - 1, z);
      assert bs[..n][..n - 1] == bs[..n - 1];
      assert GoodBucket(c, bs[n - 1], n - 1, |bs|);
      var b := bs[n - 1];
      assert forall p :: p in b ==> InPlace(c, p, n - 1, |bs|);
      CountAtUniform(c, b, z);
    }
  }

  /** Looking at one bucket counts the peers of a prefix length in the whole table, and there
      are never more of them than a bucket holds. */
  lemma PeersForCplIsExact(c: Config, bs: Buckets, z: nat)
    requires Inv(c, bs)
    ensures PeersForCpl(c, bs, z) == CountInTable(c, bs, z) <= c.bucketSize
  {
    hide Cpl, CountAt, GoodBucket;
    CountUpTo(c, bs, |bs|, z);
    assert bs[..|bs|] == bs;
    assert |bs[|bs| - 1]| <= c.bucketSize;
  }

  // ------------------------------------------------------------------ counts depend on contents only

  function Flat(bs: Buckets): seq<Peer>
  {
    if bs == [] then [] else Flat(bs[..|bs| - 1]) + bs[|bs| - 1]
  }

  lemma {:induction false} CountAtConcat(c: Config, a: seq<Peer>, b: seq<Peer>, z: nat)
    ensures CountAt(c, a + b, z) == CountAt(c, a, z) + CountAt(c, b, z)
  {
    hide Cpl;
    if b == [] {
      assert a + b == a;
    } else {
      CountAtConcat(c, a, b[..|b| - 1], z);
      assert (a + b)[..|a + b| - 1] == a + b[..|b| - 1];
    }
  }

  lemma {:induction false} FlatIsTable(c: Config, bs: Buckets, z: nat)
    ensures multiset(Flat(bs)) == Content(bs)
    ensures CountAt(c, Flat(bs), z) == CountInTable(c, bs, z)
  {
    hide Cpl, CountAt;
    if bs == [] {
      CountAtNobody(c, z);
    } else {
      FlatIsTable(c, bs[..|bs| - 1], z);
      CountAtConcat(c, Flat(bs[..|bs| - 1]), bs[|bs| - 1], z);
    }
  }

  lemma CountAtNobody(c: Config, z: nat)
    ensures CountAt(c, [], z) == 0
  {
  }

  lemma CountAtDropped(c: Config, s: seq<Peer>, k: nat, z: nat)
    requires k < |s|
    ensures CountAt(c, s, z) == CountAt(c, Dropped(s, k), z) + CountAt(c, [s[k]], z)
  {
    hide Cpl, CountAt;
    var front, back := s[..k], s[k + 1..];
    assert s == (front + [s[k]]) + back;
    CountAtConcat(c, front + [s[k]], back, z);
    CountAtConcat(c, front, [s[k]], z);
    CountAtConcat(c, front, back, z);
  }

  /** Counting does not depend on the order. */
  lemma {:induction false} CountAtPermuted(c: Config, s: seq<Peer>, t: seq<Peer>, z: nat)
    requires multiset(s) == multiset(t)
    ensures CountAt(c, s, z) == CountAt(c, t, z)
    decreases |s|
  {
    hide Cpl, CountAt, Dropped;
    assert |multiset(s)| == |s| && |multiset(t)| == |t|;
    if s == [] {
    } else {
      assert s[0] in multiset(t);
      var k :| 0 <= k < |t| && t[k] == s[0];
      DroppedMultiset(s, 0);
      DroppedMultiset(t, k);
      CancelOne(multiset(Dropped(s, 0)), multiset(Dropped(t, k)), s[0]);
      CountAtDropped(c, s, 0, z);
      CountAtDropped(c, t, k, z);
      DroppedLength(s, 0);
      CountAtPermuted(c, Dropped(s, 0), Dropped(t, k), z);
    }
  }

  lemma DroppedLength(s: seq<Peer>, k: nat)
    requires k < |s|
    ensures |Dropped(s, k)| == |s| - 1
  {
  }

  lemma CountIsByContent(c: Config, bs: Buckets, bs': Buckets, z: nat)
    requires Content(bs') == Content(bs)
    ensures CountInTable(c, bs', z) == CountInTable(c, bs, z)
  {
    hide Cpl, CountAt, CountInTable, Content;
    FlatIsTable(c, bs, z);
    FlatIsTable(c, bs', z);
    CountAtPermuted(c, Flat(bs), Flat(bs'), z);
  }

  lemma CountAtOne(c: Config, p: Peer, z: nat)
    ensures CountAt(c, [p], z) == if Cpl(c, p.dhtId) == z then 1 else 0
  {
    hide Cpl;
    assert [p][..0] == [];
  }

  lemma CountAfterJoin(c: Config, bs: Buckets, bs': Buckets, p: Peer, z: nat)
    requires Content(bs') == Content(bs) + multiset{p}
    ensures CountInTable(c, bs', z) == CountInTable(c, bs, z) + if Cpl(c, p.dhtId) == z then 1 else 0
  {
    hide Cpl, CountAt, CountInTable, Content;
    FlatIsTable(c, bs, z);
    FlatIsTable(c, bs', z);
    CountAtPermuted(c, Flat(bs) + [p], Flat(bs'), z);
    CountAtConcat(c, Flat(bs), [p], z);
    CountAtOne(c, p, z);
  }

  /** Exchanging a peer for one with the same prefix length changes no count. */
  lemma CountAfterExchange(c: Config, bs: Buckets, bs': Buckets, q: Peer, q': Peer, z: nat)
    requires Content(bs') + multiset{q} == Content(bs) + multiset{q'} && Cpl(c, q.dhtId) == Cpl(c, q'.dhtId)
    ensures CountInTable(c, bs', z) == CountInTable(c, bs, z)
  {
    hide Cpl, CountAt, CountInTable, Content;
    FlatIsTable(c, bs, z);
    FlatIsTable(c, bs', z);
    CountAtPermuted(c, Flat(bs) + [q'], Flat(bs') + [q], z);
    CountAtConcat(c, Flat(bs), [q'], z);
    CountAtConcat(c, Flat(bs'), [q], z);
    CountAtOne(c, q, z);
    CountAtOne(c, q', z);
  }

  // ------------------------------------------------------------------ the longest prefix

  /** maxCommonPrefix on the buckets: the answer of the last bucket that is not empty. */
  function LongestPrefix(c: Config, bs: Buckets): nat
  {
    if bs == [] then 0
    else if bs[|bs| - 1] != [] then LongestIn(c, bs[|bs| - 1])
    else LongestPrefix(c, bs[..|bs| - 1])
  }

  /** `bs[..n]` is all of the table that is not empty. */
  lemma {:induction false} LongestPrefixUpTo(c: Config, bs: Buckets, n: nat)
    requires WellPlaced(c, bs) && n <= |bs| && forall i :: n <= i < |bs| ==> bs[i] == []
    ensures forall p :: p in Content(bs) ==> Cpl(c, p.dhtId) <= LongestPrefix(c, bs[..n])
    ensures Content(bs) != multiset{} ==> exists p :: p in Content(bs) && Cpl(c, p.dhtId) == LongestPrefix(c, bs[..n])
    ensures Content(bs) == multiset{} ==> LongestPrefix(c, bs[..n]) == 0
  {
    hide Cpl, Content, LongestIn;
    forall p
      ensures p in Content(bs) <==> exists i :: 0 <= i < n && p in bs[i]
    {
      ContentMember(bs, p);
    }
    if n > 0 && bs[n - 1] == [] {
      assert bs[..n][..n - 1] == bs[..n - 1];
      LongestPrefixUpTo(c, bs, n - 1);
    } else if n > 0 {
      var b := bs[n - 1];
      LongestInIsMax(c, b);
      var top :| top in b && Cpl(c, top.dhtId) == LongestIn(c, b);
      assert top in Content(bs);
      assert GoodBucket(c, b, n - 1, |bs|);
      assert InPlace(c, top, n - 1, |bs|);
      forall p | p in Content(bs)
        ensures Cpl(c, p.dhtId) <= LongestIn(c, b)
      {
        var i :| 0 <= i < n && p in bs[i];
        assert GoodBucket(c, bs[i], i, |bs|);
        assert InPlace(c, p, i, |bs|);
      }
    } else {
      assert forall p :: p !in Content(bs);
    }
  }

  /** The answer of one bucket is the longest prefix of any resident; 0 in an empty table. */
  lemma LongestPrefixIsMax(c: Config, bs: Buckets)
    requires WellPlaced(c, bs)
    ensures forall p :: p in Content(bs) ==> Cpl(c, p.dhtId) <= LongestPrefix(c, bs)
    ensures Content(bs) != multiset{} ==> exists p :: p in Content(bs) && Cpl(c, p.dhtId) == LongestPrefix(c, bs)
    ensures Content(bs) == multiset{} ==> LongestPrefix(c, bs) == 0
  {
    LongestPrefixUpTo(c, bs, |bs|);
    assert bs[..|bs|] == bs;
  }
}
