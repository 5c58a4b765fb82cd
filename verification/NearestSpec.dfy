/**
  What NearestPeers must answer, and why looking at some of the buckets is enough.
 */
module NearestSpec {
  import opened XorKeySpace
  import opened XorGeometry
  import opened Peers
  import opened TableSpec
  import opened TableProofs
  import opened GoSort

  /** A key to search for. It may be shorter than a digest; distances then compare prefixes. */
  type Target = t: Bytes | |t| <= 32 witness []

  function Far(id: Target, p: Peer): nat
  {
    Distance(id, p.dhtId)
  }

  function Measure(id: Target): Peer -> nat
  {
    p => Far(id, p)
  }

  /** `chosen` lists `count` members of `all` (or all of them, if there are fewer) in ascending
      distance, and nobody left out is strictly nearer than anybody chosen. */
  ghost predicate Nearest(id: Target, all: multiset<Peer>, count: nat, chosen: seq<Peer>)
  {
    && |chosen| == (if count < |all| then count else |all|)
    && multiset(chosen) <= all
    && Ascending(Measure(id), chosen)
    && forall p, q :: p in chosen && q in all - multiset(chosen) ==> Far(id, p) <= Far(id, q)
  }

  function Ids(ps: seq<Peer>): (ids: seq<PeerID>)
    ensures |ids| == |ps|
  {
    seq(|ps|, i requires 0 <= i < |ps| => ps[i].id)
  }

  /** The answer of NearestPeers. */
  ghost predicate NearestAnswer(id: Target, all: multiset<Peer>, count: nat, out: seq<PeerID>)
  {
    exists chosen :: Nearest(id, all, count, chosen) && out == Ids(chosen)
  }

  // ------------------------------------------------------------------ the answer is determined

  /** In an ascending list, everything nearer than the i-th entry stands before it. */
  lemma NearerStandBefore(f: Peer -> nat, a: seq<Peer>, i: nat, y: Peer)
    requires Ascending(f, a) && i < |a| && f(y) < f(a[i])
    ensures multiset(a)[y] == multiset(a[..i])[y]
  {
    var low, high := a[..i], a[i..];
    assert a == low + high;
    forall m | 0 <= m < |high|
      ensures high[m] != y
    {
      assert high[m] == a[i + m];
      assert m > 0 ==> f(a[i]) <= f(a[i + m]);
    }
    assert y !in high;
  }

  lemma PrefixCountsNoMore(b: seq<Peer>, n: nat, y: Peer)
    requires n <= |b|
    ensures multiset(b[..n])[y] <= multiset(b)[y]
  {
    assert b == b[..n] + b[n..];
  }

  /** Whatever is nearer than an entry of an answer is in the answer, with all its copies. */
  lemma NearerAreChosen(id: Target, all: multiset<Peer>, count: nat, a: seq<Peer>, i: nat, y: Peer)
    requires Nearest(id, all, count, a) && i < |a| && Far(id, y) < Far(id, a[i])
    ensures all[y] <= multiset(a[..i])[y]
  {
    hide Far;
    NearerStandBefore(Measure(id), a, i, y);
    assert a[i] in a;
    assert y !in all - multiset(a);
  }

  lemma EntryIsChosen(id: Target, all: multiset<Peer>, count: nat, b: seq<Peer>, i: nat, k: nat)
    requires Nearest(id, all, count, b) && k <= i < |b|
    ensures Far(id, b[k]) <= Far(id, b[i]) && multiset(b)[b[k]] <= all[b[k]]
  {
  }

  /** The i-th entry of an answer is no farther than the i-th entry of any other. */
  lemma RankAtMost(id: Target, all: multiset<Peer>, count: nat, a: seq<Peer>, b: seq<Peer>, i: nat)
    requires Nearest(id, all, count, a) && Nearest(id, all, count, b) && i < |a| && i < |b|
    ensures Far(id, a[i]) <= Far(id, b[i])
  {
    hide Far, Nearest;
    var mine := b[..i + 1];
    if Far(id, a[i]) > Far(id, b[i]) {
      forall y | y in mine
        ensures multiset(mine)[y] <= multiset(a[..i])[y]
      {
        var k :| 0 <= k <= i && b[k] == y;
        EntryIsChosen(id, all, count, b, i, k);
        NearerAreChosen(id, all, count, a, i, y);
        PrefixCountsNoMore(b, i + 1, y);
      }
      SubMultisetSize(multiset(mine), multiset(a[..i]));
    }
  }

  /** Any two answers have the same distances; when no two peers are equally far, they are the
      same sequence. */
  lemma NearestIsDetermined(id: Target, all: multiset<Peer>, count: nat, a: seq<Peer>, b: seq<Peer>)
    requires Nearest(id, all, count, a) && Nearest(id, all, count, b)
    ensures |a| == |b| && forall i :: 0 <= i < |a| ==> Far(id, a[i]) == Far(id, b[i])
    ensures (forall p, q :: p in all && q in all && Far(id, p) == Far(id, q) ==> p == q) ==> a == b
  {
    hide Far;
    forall i | 0 <= i < |a|
      ensures Far(id, a[i]) == Far(id, b[i])
      ensures a[i] in all && b[i] in all
    {
      RankAtMost(id, all, count, a, b, i);
      RankAtMost(id, all, count, b, a, i);
      assert a[i] in multiset(a) && b[i] in multiset(b);
    }
  }

  /** For a full-length key, peers with different DHT identifiers are at different distances. */
  lemma DistinctDigestsAreDistinctDistances(id: Digest, p: Peer, q: Peer)
    requires Far(id, p) == Far(id, q)
    ensures p.dhtId == q.dhtId
  {
    DistanceIsMetric(id, p.dhtId, q.dhtId);
  }

  /** Closer compares exactly the integer distances from the hash of the key. */
  lemma CloserIsNearer(c: Config, a: PeerID, b: PeerID, key: PeerID)
    ensures Closer(c, a, b, key) <==> Distance(c.hash(key), c.hash(a)) < Distance(c.hash(key), c.hash(b))
  {
    hide BytesLess, BigEndian;
    var x, y, t := c.hash(a), c.hash(b), c.hash(key);
    assert Xored(x, t) == Xored(t, x) && Xored(y, t) == Xored(t, y);
    BytesLessIsIntegerLess(Xored(x, t), Xored(y, t));
  }

  // ------------------------------------------------------------------ a pool that is large enough

  /** A part of the peers that may stand for all of them in a search for the nearest `count`. */
  ghost predicate Sufficient(id: Target, all: multiset<Peer>, count: nat, pool: multiset<Peer>)
  {
    && pool <= all
    && (|pool| >= count || pool == all)
    && forall p, q :: p in pool && q in all - pool ==> Far(id, p) <= Far(id, q)
  }

  lemma FrontIsNearest(f: Peer -> nat, sorted: seq<Peer>, n: nat, p: Peer, q: Peer)
    requires Ascending(f, sorted) && n <= |sorted| && p in sorted[..n] && q in sorted[n..]
    ensures f(p) <= f(q)
  {
  }

  lemma LeftOutIsFarther(id: Target, all: multiset<Peer>, count: nat, sorted: seq<Peer>, n: nat, p: Peer, q: Peer)
    requires Sufficient(id, all, count, multiset(sorted)) && Ascending(Measure(id), sorted) && n <= |sorted|
    requires p in sorted[..n] && q in all - multiset(sorted[..n])
    ensures Far(id, p) <= Far(id, q)
  {
    hide Far;
    var chosen, rest := sorted[..n], sorted[n..];
    assert sorted == chosen + rest;
    if q in rest {
      FrontIsNearest(Measure(id), sorted, n, p, q);
    } else {
      assert multiset(sorted)[q] == multiset(chosen)[q];
      assert p in multiset(sorted) && q in all - multiset(sorted);
    }
  }

  lemma CutOfPool(id: Target, all: multiset<Peer>, count: nat, sorted: seq<Peer>, n: nat)
    requires Sufficient(id, all, count, multiset(sorted))
    requires n == if count < |sorted| then count else |sorted|
    ensures n == (if count < |all| then count else |all|) && multiset(sorted[..n]) <= all
  {
    hide Far;
    SubMultisetSize(multiset(sorted), all);
    assert |multiset(sorted)| == |sorted|;
    forall y
      ensures multiset(sorted[..n])[y] <= all[y]
    {
      PrefixCountsNoMore(sorted, n, y);
    }
  }

  /** Sorting a sufficient pool and cutting it to `count` answers the search. */
  lemma SortedPoolAnswers(id: Target, all: multiset<Peer>, count: nat, sorted: seq<Peer>)
    requires Sufficient(id, all, count, multiset(sorted)) && Ascending(Measure(id), sorted)
    ensures Nearest(id, all, count, if count < |sorted| then sorted[..count] else sorted)
  {
    hide Far, Sufficient;
    var n := if count < |sorted| then count else |sorted|;
    var chosen := sorted[..n];
    assert n == |sorted| ==> chosen == sorted;
    CutOfPool(id, all, count, sorted, n);
    forall p, q | p in chosen && q in all - multiset(chosen)
      ensures Far(id, p) <= Far(id, q)
    {
      LeftOutIsFarther(id, all, count, sorted, n, p, q);
    }
  }

  lemma SubMultisetSize(a: multiset<Peer>, b: multiset<Peer>)
    requires a <= b
    ensures |a| <= |b|
    ensures |a| == |b| ==> a == b
  {
    assert b == a + (b - a);
  }

  /** In particular the full sort of all residents, cut to `count`, is an answer: the reference. */
  lemma FullSortAnswers(id: Target, all: multiset<Peer>, count: nat, sorted: seq<Peer>)
    requires multiset(sorted) == all && Ascending(Measure(id), sorted)
    ensures Nearest(id, all, count, if count < |sorted| then sorted[..count] else sorted)
  {
    SortedPoolAnswers(id, all, count, sorted);
  }

  // ------------------------------------------------------------------ the order of the buckets

  /** The bucket NearestPeers starts from. */
  function StartBucket(c: Config, n: nat, id: Target): (i: nat)
    requires n >= 1
    ensures i < n
  {
    var z := SharedBits(id, c.local);
    if z >= n then n - 1 else z
  }

  /** How near a peer is to a key, when both are seen from the local identifier. */
  lemma SeenFromLocal(c: Config, id: Target, d: Digest)
    ensures var z, zl, m := SharedBits(id, d), SharedBits(id, c.local), 8 * |id|;
            var zd := if Cpl(c, d) < m then Cpl(c, d) else m;
            && (zl < zd ==> z == zl) && (zd < zl ==> z == zd)
            && (zl == zd < m ==> z > zl) && (zl == zd == m ==> z == m)
  {
    hide SharedBits;
    var n := |id|;
    assert id == id[..n];
    CutIsEnough(id, d);
    CutIsEnough(id, c.local);
    SharedBitsOfCut(d, c.local, n);
    SharedBitsSymmetric(d[..n], c.local[..n]);
    SharedBitsUltrametric(id, c.local[..n], d[..n]);
  }

  lemma CutIsEnough(id: Target, d: Digest)
    ensures SharedBits(id, d) == SharedBits(id, d[..|id|])
  {
    assert Xored(id, d) == Xored(id, d[..|id|]);
  }

  /** Peers of the start bucket are no farther than any others, and peers of a bucket are no
      farther than those of any earlier bucket before the start. */
  lemma BucketOrder(c: Config, bs: Buckets, id: Target, i: nat, j: nat, p: Peer, q: Peer)
    requires WellPlaced(c, bs) && i < |bs| && j < |bs| && p in bs[i] && q in bs[j]
    requires var k := StartBucket(c, |bs|, id); (i == k && j != k) || (j < k && j < i)
    ensures Far(id, p) <= Far(id, q)
  {
    hide SharedBits, Distance;
    assert GoodBucket(c, bs[i], i, |bs|) && GoodBucket(c, bs[j], j, |bs|);
    assert InPlace(c, p, i, |bs|) && InPlace(c, q, j, |bs|);
    SeenFromLocal(c, id, p.dhtId);
    SeenFromLocal(c, id, q.dhtId);
    if SharedBits(id, p.dhtId) == 8 * |id| {
      NoFartherThanZero(id, p.dhtId);
    } else {
      MoreSharedBitsIsNearer(id, p.dhtId, q.dhtId);
    }
  }

  lemma NoFartherThanZero(id: Target, d: Digest)
    requires SharedBits(id, d) == 8 * |id|
    ensures Distance(id, d) == 0
  {
    ZeroBitsBracket(Xored(id, d));
  }

  // ------------------------------------------------------------------ the walk over the buckets

  lemma {:induction false} ContentConcat(a: Buckets, b: Buckets)
    ensures Content(a + b) == Content(a) + Content(b)
  {
    if b == [] {
      assert a + b == a;
    } else {
      var front := b[..|b| - 1];
      ContentConcat(a, front);
      assert (a + b)[..|a + b| - 1] == a + front;
    }
  }

  /** The start bucket alone is sufficient when it holds `count` peers. */
  lemma StartBucketSuffices(c: Config, bs: Buckets, id: Target, count: nat)
    requires WellPlaced(c, bs)
    requires |bs[StartBucket(c, |bs|, id)]| >= count
    ensures Sufficient(id, Content(bs), count, multiset(bs[StartBucket(c, |bs|, id)]))
  {
    hide Far, StartBucket;
    var k := StartBucket(c, |bs|, id);
    var others := bs[k := []];
    ContentUpdate(bs, k, []);
    assert Content(bs) == Content(others) + multiset(bs[k]);
    forall p, q | p in bs[k] && q in Content(bs) - multiset(bs[k])
      ensures Far(id, p) <= Far(id, q)
    {
      assert q in Content(others);
      ContentMember(others, q);
      var j :| 0 <= j < |others| && q in others[j];
      assert j != k && q in bs[j];
      BucketOrder(c, bs, id, k, j, p, q);
    }
  }

  lemma SuffixIsNearer(c: Config, bs: Buckets, id: Target, j: nat, p: Peer, q: Peer)
    requires WellPlaced(c, bs) && j <= StartBucket(c, |bs|, id)
    requires p in Content(bs[j..]) && q in Content(bs[..j])
    ensures Far(id, p) <= Far(id, q)
  {
    hide Far, StartBucket, Content;
    ContentMember(bs[j..], p);
    ContentMember(bs[..j], q);
    var x :| 0 <= x < |bs[j..]| && p in bs[j..][x];
    var y :| 0 <= y < |bs[..j]| && q in bs[..j][y];
    BucketOrder(c, bs, id, j + x, y, p, q);
  }

  /** So is everything from some bucket at or before the start to the end, when it holds
      `count` peers or nothing precedes it. */
  lemma SuffixSuffices(c: Config, bs: Buckets, id: Target, count: nat, j: nat)
    requires WellPlaced(c, bs)
    requires j <= StartBucket(c, |bs|, id) && (j == 0 || |Content(bs[j..])| >= count)
    ensures Sufficient(id, Content(bs), count, Content(bs[j..]))
  {
    hide Far, StartBucket, Content, WellPlaced;
    var before, after := bs[..j], bs[j..];
    assert bs == before + after;
    ContentConcat(before, after);
    if j == 0 {
      assert after == bs;
    }
    forall p, q | p in Content(after) && q in Content(bs) - Content(after)
      ensures Far(id, p) <= Far(id, q)
    {
      SuffixIsNearer(c, bs, id, j, p, q);
    }
  }
}
