/**
  Lemmas that connect the loops of the queries of table.go with what they are asked for.
 */
module QueryProofs {
  import opened Peers
  import opened BucketSpec
  import opened TableSpec
  import opened TableProofs
  import opened NearestSpec
  import opened TableFacts
  import opened GoSort
  import opened XorKeySpace
  import XorGeometry

  /** The ids of all buckets in order. */
  ghost function ListedIds(bs: Buckets): seq<PeerID>
  {
    if bs == [] then [] else ListedIds(bs[..|bs| - 1]) + Ids(bs[|bs| - 1])
  }

  ghost function IdSet(b: seq<Peer>): set<PeerID>
  {
    set p | p in b :: p.id
  }

  lemma IdSetMembers(b: seq<Peer>)
    ensures forall id :: id in Ids(b) <==> id in IdSet(b)
  {
    forall p | p in b
      ensures p.id in Ids(b)
    {
      var k :| 0 <= k < |b| && b[k] == p;
      assert Ids(b)[k] == p.id;
    }
    forall i | 0 <= i < |b|
      ensures Ids(b)[i] in IdSet(b)
    {
      assert b[i] in b;
    }
  }

  lemma {:induction false} IdSetSize(b: seq<Peer>)
    requires DistinctIds(b)
    ensures |IdSet(b)| == |b|
  {
    if b == [] {
    } else {
      var front, last := b[..|b| - 1], b[|b| - 1];
      IdSetSize(front);
      assert b == front + [last];
      assert IdSet(b) == IdSet(front) + {last.id};
      IdSetMembers(front);
      assert forall k :: 0 <= k < |front| ==> Ids(front)[k] != last.id;
    }
  }

  /** All the ids of a bucket belong there and nowhere else. */
  lemma IdsOfBucket(c: Config, bs: Buckets, i: nat)
    requires WellPlaced(c, bs) && i < |bs|
    ensures forall id :: id in IdSet(bs[i]) ==> BucketIndex(c, |bs|, c.hash(id)) == i
    ensures |IdSet(bs[i])| == |bs[i]|
  {
    hide Cpl;
    assert GoodBucket(c, bs[i], i, |bs|);
    forall p | p in bs[i]
      ensures BucketIndex(c, |bs|, c.hash(p.id)) == i
    {
      assert InPlace(c, p, i, |bs|);
      PlaceIsUnique(c, p, i, |bs|);
    }
    IdSetSize(bs[i]);
  }

  lemma ResidentIdsSnoc(bs: Buckets, b: seq<Peer>)
    ensures ResidentIds(bs + [b]) == ResidentIds(bs) + IdSet(b)
  {
  }

  /** The residents of the first n buckets. */
  lemma {:induction false} ListedIdsUpTo(c: Config, bs: Buckets, n: nat)
    requires WellPlaced(c, bs) && n <= |bs|
    ensures var ids := ListedIds(bs[..n]);
            && (forall id :: id in ids <==> id in ResidentIds(bs[..n]))
            && |ids| == |ResidentIds(bs[..n])|
            && (forall id :: id in ids ==> BucketIndex(c, |bs|, c.hash(id)) < n)
  {
    hide Cpl, WellPlaced, IdSet, Ids, ResidentIds;
    if n == 0 {
      EmptyHasNoIds();
    } else {
      var front, b := bs[..n - 1], bs[n - 1];
      ListedIdsUpTo(c, bs, n - 1);
      assert bs[..n][..n - 1] == front && bs[..n] == front + [b];
      IdsOfBucket(c, bs, n - 1);
      IdSetMembers(b);
      ResidentIdsSnoc(front, b);
      assert ResidentIds(front) !! IdSet(b);
    }
  }

  lemma EmptyHasNoIds()
    ensures ResidentIds([]) == {}
  {
  }

  lemma ListedIdsAreResidents(c: Config, bs: Buckets)
    requires WellPlaced(c, bs)
    ensures forall id :: id in ListedIds(bs) <==> id in ResidentIds(bs)
    ensures |ListedIds(bs)| == |ResidentIds(bs)|
  {
    ListedIdsUpTo(c, bs, |bs|);
    assert bs[..|bs|] == bs;
  }

  lemma SuffixOfOne(bs: Buckets, k: nat)
    requires k < |bs|
    ensures Content(bs[k..k + 1]) == multiset(bs[k])
  {
  }

  lemma SuffixSnoc(bs: Buckets, k: nat, i: nat, pool: seq<Peer>)
    requires k <= i < |bs| && multiset(pool) == Content(bs[k..i])
    ensures multiset(pool + bs[i]) == Content(bs[k..i + 1])
  {
    hide Content;
    ContentSnoc(bs[k..i], bs[i]);
    assert bs[k..i + 1] == bs[k..i] + [bs[i]];
  }

  lemma SuffixCons(bs: Buckets, i: nat, pool: seq<Peer>)
    requires i < |bs| && multiset(pool) == Content(bs[i + 1..])
    ensures multiset(pool + bs[i]) == Content(bs[i..])
  {
    assert bs[i..] == [bs[i]] + bs[i + 1..];
    ContentConcat([bs[i]], bs[i + 1..]);
    assert [bs[i]][..0] == [];
  }

  /** Nobody is nearer than the one chosen. */
  ghost predicate IsNearest(id: Target, all: multiset<Peer>, q: Peer)
  {
    q in all && forall x :: x in all ==> Far(id, q) <= Far(id, x)
  }

  lemma FirstOfOneIsNearest(id: Target, all: multiset<Peer>, chosen: seq<Peer>)
    requires Nearest(id, all, 1, chosen) && |chosen| == 1
    ensures IsNearest(id, all, chosen[0])
  {
  }

  /** What an answer of length one says. */
  lemma NearestOne(id: Target, all: multiset<Peer>, out: seq<PeerID>)
    requires NearestAnswer(id, all, 1, out)
    ensures all == multiset{} ==> out == []
    ensures all != multiset{} ==> |out| == 1 && exists q :: IsNearest(id, all, q) && q.id == out[0]
  {
    hide Far, IsNearest;
    var chosen :| Nearest(id, all, 1, chosen) && out == Ids(chosen);
    if all != multiset{} {
      assert |all| > 0;
      FirstOfOneIsNearest(id, all, chosen);
    }
  }

  /** No other resident has the same hash. */
  ghost predicate OnlyOneHashes(c: Config, bs: Buckets, id: PeerID)
  {
    forall q :: q in Content(bs) && c.hash(q.id) == c.hash(id) ==> q.id == id
  }

  /** A resident is at distance zero from its own hash; so is nobody with another hash. */
  lemma NearestToOwnHash(c: Config, bs: Buckets, id: PeerID)
    requires WellPlaced(c, bs)
    ensures forall q :: q in Content(bs) ==> q.dhtId == c.hash(q.id) && (Far(c.hash(id), q) == 0 <==> c.hash(q.id) == c.hash(id))
  {
    hide Cpl, Distance;
    forall q | q in Content(bs)
      ensures q.dhtId == c.hash(q.id) && (Far(c.hash(id), q) == 0 <==> c.hash(q.id) == c.hash(id))
    {
      ContentMember(bs, q);
      var i :| 0 <= i < |bs| && q in bs[i];
      assert GoodBucket(c, bs[i], i, |bs|);
      assert InPlace(c, q, i, |bs|);
      XorGeometry.DistanceIsMetric(c.hash(id), q.dhtId, q.dhtId);
    }
  }

  // ------------------------------------------------------------------ what an answer is

  lemma ChosenAreResidents(c: Config, bs: Buckets, id: Target, count: nat, chosen: seq<Peer>)
    requires WellPlaced(c, bs) && Nearest(id, Content(bs), count, chosen)
    ensures forall i :: 0 <= i < |chosen| ==> chosen[i] in Content(bs)
    ensures forall i, j :: 0 <= i < j < |chosen| ==> chosen[i].id != chosen[j].id
  {
    hide Far, GoodBucket, Content;
    forall i | 0 <= i < |chosen|
      ensures chosen[i] in Content(bs)
    {
      assert chosen[i] in multiset(chosen);
    }
    forall i, j | 0 <= i < j < |chosen|
      ensures chosen[i].id != chosen[j].id
    {
      if chosen[i].id == chosen[j].id {
        NoPeerTwice(c, bs, chosen[i], chosen[j]);
        TwiceInSequence(chosen, i, j);
      }
    }
  }

  lemma TwiceInSequence(s: seq<Peer>, i: nat, j: nat)
    requires i < j < |s| && s[i] == s[j]
    ensures multiset(s)[s[i]] >= 2
  {
    assert s == s[..j] + s[j..] && s[..j][i] == s[i] && s[j..][0] == s[j];
  }

  /** NearestPeers answers with min(count, Size) different residents. */
  lemma AnswerListsResidentsOnce(c: Config, bs: Buckets, id: Target, count: nat, out: seq<PeerID>)
    requires WellPlaced(c, bs) && NearestAnswer(id, Content(bs), count, out)
    ensures |out| == if count < |Content(bs)| then count else |Content(bs)|
    ensures forall i :: 0 <= i < |out| ==> out[i] in ResidentIds(bs)
    ensures forall i, j :: 0 <= i < j < |out| ==> out[i] != out[j]
  {
    hide Far, GoodBucket, Content;
    var chosen :| Nearest(id, Content(bs), count, chosen) && out == Ids(chosen);
    ChosenAreResidents(c, bs, id, count, chosen);
  }

  /** The partial walk over the buckets is as good as sorting everybody: when no two residents
      have the same DHT identifier, NearestPeers for a full-length key is the full sort of all
      residents by distance, cut to `count`. */
  lemma WalkEqualsFullSort(c: Config, bs: Buckets, id: Digest, count: nat, out: seq<PeerID>, sorted: seq<Peer>)
    requires NearestAnswer(id, Content(bs), count, out)
    requires multiset(sorted) == Content(bs) && Ascending(Measure(id), sorted)
    requires forall p, q :: p in Content(bs) && q in Content(bs) && p.dhtId == q.dhtId ==> p == q
    ensures out == Ids(if count < |sorted| then sorted[..count] else sorted)
  {
    hide Far, Content, Nearest;
    var chosen :| Nearest(id, Content(bs), count, chosen) && out == Ids(chosen);
    FullSortAnswers(id, Content(bs), count, sorted);
    forall p, q | p in Content(bs) && q in Content(bs) && Far(id, p) == Far(id, q)
      ensures p == q
    {
      DistinctDigestsAreDistinctDistances(id, p, q);
    }
    NearestIsDetermined(id, Content(bs), count, chosen, if count < |sorted| then sorted[..count] else sorted);
  }
}
