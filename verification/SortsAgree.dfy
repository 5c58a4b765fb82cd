/**
  The two sorts by distance, SortClosestPeers of sorting.go and SortByDistance of
  keyspace/keyspace.go, put the same identifiers into the same order.
 */
module SortsAgree {
  import opened XorKeySpace
  import opened Peers
  import opened GoSort
  import opened Sorting
  import opened KeySort

  function KeyBytes(): Key -> Bytes
  {
    (k: Key) => k.bytes
  }

  function DistanceFrom(center: Digest): Bytes -> nat
  {
    (d: Bytes) => if |d| == 32 then Distance(center, d) else 0
  }

  /** The images of a permutation are a permutation of the images. */
  lemma {:induction false} MappedPermutation<A, B>(f: A -> B, s: seq<A>, t: seq<A>)
    requires multiset(s) == multiset(t)
    ensures multiset(Mapped(f, s)) == multiset(Mapped(f, t))
    decreases |s|
  {
    if s == [] {
      assert |multiset(t)| == 0;
    } else {
      assert s[0] in multiset(t);
      var k :| 0 <= k < |t| && t[k] == s[0];
      DroppedMultiset(s, 0);
      DroppedMultiset(t, k);
      CancelOne(multiset(Dropped(s, 0)), multiset(Dropped(t, k)), s[0]);
      MappedPermutation(f, Dropped(s, 0), Dropped(t, k));
      MappedDropped(f, s, 0);
      MappedDropped(f, t, k);
    }
  }

  lemma MappedDropped<A, B>(f: A -> B, s: seq<A>, k: nat)
    requires k < |s|
    ensures multiset(Mapped(f, s)) == multiset(Mapped(f, Dropped(s, k))) + multiset{f(s[k])}
  {
    DroppedMultiset(Mapped(f, s), k);
    assert Mapped(f, Dropped(s, k)) == Dropped(Mapped(f, s), k);
  }

  /** Whatever the two sorts return for peers and for keys with the same identifiers, the
      identifiers come out in one and the same order. */
  lemma TwoSortsAgree(hash: PeerID -> Digest, peers: seq<PeerID>, out: seq<PeerID>,
                      center: Key, toSort: seq<Key>, sorted: seq<Key>)
    requires |center.bytes| == 32 && forall k :: k in toSort ==> Comparable(center, k) && |k.bytes| == 32
    requires multiset(Mapped(hash, peers)) == multiset(Mapped(KeyBytes(), toSort))
    requires multiset(out) == multiset(peers) && Ascending(HashDistance(hash, center.bytes), out)
    requires multiset(sorted) == multiset(toSort) && Ascending(KeyDistance(center), sorted)
    ensures Mapped(hash, out) == Mapped(KeyBytes(), sorted)
  {
    hide Distance;
    var byHash, byKey := Mapped(hash, out), Mapped(KeyBytes(), sorted);
    MappedPermutation(hash, out, peers);
    MappedPermutation(KeyBytes(), sorted, toSort);
    forall i | 0 <= i < |sorted|
      ensures KeyDistance(center)(sorted[i]) == DistanceFrom(center.bytes)(byKey[i])
    {
      assert sorted[i] in multiset(sorted);
      assert sorted[i] in toSort;
    }
    AscendingByDistanceIsUnique(center.bytes, DistanceFrom(center.bytes), byHash, byKey);
  }
}
