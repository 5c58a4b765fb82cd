/**
  sorting.go: collecting peers with their distance from a target, and sorting them with the
  fast byte-wise order.
 */
module Sorting {
  import opened XorKeySpace
  import opened XorGeometry
  import opened Peers
  import opened Bucket
  import opened GoSort
  import opened NearestSpec

  datatype PeerDistance = PeerDistance(p: PeerID, distance: Bytes)

  function Entry(target: Target): Peer -> PeerDistance
  {
    (p: Peer) => PeerDistance(p.id, Xored(target, p.dhtId))
  }

  function DistanceKey(): PeerDistance -> nat
  {
    (pd: PeerDistance) => BigEndian(pd.distance)
  }

  class PeerDistanceSorter {
    var peers: seq<PeerDistance>
    const target: Target

    ghost predicate Valid()
      reads this
    {
      forall pd :: pd in peers ==> |pd.distance| == |target|
    }

    constructor (target: Target)
      ensures Valid() && peers == [] && this.target == target
    {
      this.target := target;
      peers := [];
    }

    method AppendPeer(p: PeerID, dhtId: Digest)
      requires Valid()
      modifies this
      ensures Valid() && peers == old(peers) + [PeerDistance(p, Xored(target, dhtId))]
    {
      var distance := Xor(target, dhtId);
      peers := peers + [PeerDistance(p, distance)];
    }

    method AppendPeersFromList(b: Bucket)
      requires Valid()
      modifies this
      ensures Valid() && peers == old(peers) + Mapped(Entry(target), b.Peers())
    {
      for i := 0 to |b.list|
        invariant Valid() && peers == old(peers) + Mapped(Entry(target), b.Peers()[..i])
        invariant b.Peers() == old(b.Peers())
      {
        AppendPeer(b.list[i].id, b.list[i].dhtId);
        assert b.Peers()[..i + 1] == b.Peers()[..i] + [b.Peers()[i]];
      }
      assert b.Peers()[..|b.list|] == b.Peers();
    }

    /** sort.Sort with Less and Swap of the sorter. */
    method Sort()
      requires Valid()
      modifies this
      ensures Valid() && Ascending(DistanceKey(), peers)
      ensures multiset(peers) == multiset(old(peers))
    {
      var a := new PeerDistance[|peers|](i requires 0 <= i < |peers| reads this => peers[i]);
      assert a[..] == peers;
      var less := (x: PeerDistance, y: PeerDistance) => IdLess(x.distance, y.distance);
      LessComparesDistances(less, peers, |target|);
      GoSort.Sort(a, less, DistanceKey());
      peers := a[..];
      forall pd | pd in peers
        ensures |pd.distance| == |target|
      {
        assert pd in multiset(peers);
        assert pd in old(peers);
      }
    }
  }

  lemma LessComparesDistances(less: (PeerDistance, PeerDistance) -> bool, s: seq<PeerDistance>, n: nat)
    requires forall x, y :: less(x, y) <==> IdLess(x.distance, y.distance)
    requires forall pd :: pd in s ==> |pd.distance| == n
    ensures ComparesBy(less, DistanceKey(), s)
  {
    hide BytesLess, BigEndian;
    forall x, y | x in s && y in s
      ensures less(x, y) <==> DistanceKey()(x) < DistanceKey()(y)
    {
      BytesLessIsIntegerLess(x.distance, y.distance);
    }
  }

  /** Sorted entries are the entries of the same peers in ascending distance. */
  lemma SortedEntriesAreSortedPeers(target: Target, pool: seq<Peer>, entries: seq<PeerDistance>) returns (sorted: seq<Peer>)
    requires multiset(entries) == multiset(Mapped(Entry(target), pool)) && Ascending(DistanceKey(), entries)
    ensures multiset(sorted) == multiset(pool) && Mapped(Entry(target), sorted) == entries
    ensures Ascending(Measure(target), sorted)
  {
    hide Xored, BigEndian;
    sorted := LiftPermutation(Entry(target), pool, entries);
    forall i | 0 <= i < |sorted|
      ensures DistanceKey()(entries[i]) == Measure(target)(sorted[i])
    {
      assert entries[i] == Entry(target)(sorted[i]);
    }
  }

  /** The output loop of NearestPeers. */
  method IdsOfEntries(target: Target, entries: seq<PeerDistance>, ghost ps: seq<Peer>) returns (out: seq<PeerID>)
    requires entries == Mapped(Entry(target), ps)
    ensures out == Ids(ps)
  {
    out := [];
    for i := 0 to |entries|
      invariant out == Ids(ps[..i])
    {
      assert entries[i].p == ps[i].id;
      assert Ids(ps[..i + 1]) == Ids(ps[..i]) + [ps[i].id];
      out := out + [entries[i].p];
    }
    assert ps[..|entries|] == ps;
  }

  // ------------------------------------------------------------------ SortClosestPeers

  function HashDistance(hash: PeerID -> Digest, target: Target): PeerID -> nat
  {
    p => Distance(target, hash(p))
  }

  function HashEntry(hash: PeerID -> Digest, target: Target): PeerID -> PeerDistance
  {
    p => PeerDistance(p, Xored(target, hash(p)))
  }

  /** A new list with the same peers in ascending distance from the target. */
  method SortClosestPeers(hash: PeerID -> Digest, peers: seq<PeerID>, target: Target) returns (out: seq<PeerID>)
    ensures multiset(out) == multiset(peers)
    ensures Ascending(HashDistance(hash, target), out)
  {
    var sorter := new PeerDistanceSorter(target);
    for i := 0 to |peers|
      invariant fresh(sorter) && sorter.Valid() && sorter.target == target
      invariant sorter.peers == Mapped(HashEntry(hash, target), peers[..i])
    {
      sorter.AppendPeer(peers[i], hash(peers[i]));
      assert peers[..i + 1] == peers[..i] + [peers[i]];
    }
    assert peers[..|peers|] == peers;
    sorter.Sort();
    ghost var sorted := LiftPermutation(HashEntry(hash, target), peers, sorter.peers);
    out := [];
    for i := 0 to |sorter.peers|
      invariant out == sorted[..i]
    {
      assert sorter.peers[i] == HashEntry(hash, target)(sorted[i]);
      out := out + [sorter.peers[i].p];
    }
    assert out == sorted;
    forall i | 0 <= i < |sorted|
      ensures DistanceKey()(sorter.peers[i]) == HashDistance(hash, target)(sorted[i])
    {
      assert sorter.peers[i] == HashEntry(hash, target)(sorted[i]);
    }
  }
}
