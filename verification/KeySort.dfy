/**
  keyspace/keyspace.go: keys, and sorting them by their integer distance from a center.
 */
module KeySort {
  import opened XorKeySpace
  import opened XorGeometry
  import opened Peers
  import opened GoSort

  /** A key, with the identity of its key space. */
  datatype Key = Key(space: nat, original: Bytes, bytes: Bytes)

  /** The keys that Center.Distance accepts: of the same space, and no shorter. */
  predicate Comparable(center: Key, k: Key)
  {
    k.space == center.space && |center.bytes| <= |k.bytes|
  }

  /** Key.Distance; the source panics where the keys are not comparable. */
  function KeyDistance(center: Key): Key -> nat
  {
    (k: Key) => if Comparable(center, k) then Distance(center.bytes, k.bytes) else 0
  }

  /** SortByDistance: a copy is sorted in place and returned. A single key is not compared. */
  method SortByDistance(center: Key, toSort: seq<Key>) returns (sorted: seq<Key>)
    requires |toSort| > 1 ==> forall k :: k in toSort ==> Comparable(center, k)
    ensures multiset(sorted) == multiset(toSort)
    ensures Ascending(KeyDistance(center), sorted)
  {
    var copy := new Key[|toSort|](i requires 0 <= i < |toSort| => toSort[i]);
    assert copy[..] == toSort;
    var distance := KeyDistance(center);
    GoSort.Sort(copy, (a, b) => distance(a) < distance(b), distance);
    sorted := copy[..];
  }

  lemma LeastComesFirst(key: Bytes -> nat, a: seq<Bytes>, b: seq<Bytes>)
    requires Ascending(key, a) && a != [] && b != [] && multiset(a) == multiset(b)
    ensures key(a[0]) <= key(b[0]) && b[0] in a
  {
    assert b[0] in multiset(a);
    var k :| 0 <= k < |a| && a[k] == b[0];
    assert k > 0 ==> key(a[0]) <= key(a[k]);
  }

  /** Identifiers with their distance from a full-length center. */
  ghost predicate MeasuredFrom(center: Digest, key: Bytes -> nat, s: seq<Bytes>)
  {
    forall d :: d in s ==> |d| == 32 && key(d) == Distance(center, d)
  }

  lemma SameFirst(center: Digest, key: Bytes -> nat, a: seq<Bytes>, b: seq<Bytes>)
    requires multiset(a) == multiset(b) && Ascending(key, a) && Ascending(key, b) && a != [] && b != []
    requires MeasuredFrom(center, key, a)
    ensures a[0] == b[0]
  {
    hide Distance;
    LeastComesFirst(key, a, b);
    LeastComesFirst(key, b, a);
    assert a[0] in a;
    DistanceIsMetric(center, a[0], b[0]);
  }

  lemma SameRest(a: seq<Bytes>, b: seq<Bytes>)
    requires multiset(a) == multiset(b) && a != [] && b != [] && a[0] == b[0]
    ensures multiset(a[1..]) == multiset(b[1..])
  {
    DroppedMultiset(a, 0);
    DroppedMultiset(b, 0);
    assert Dropped(a, 0) == a[1..] && Dropped(b, 0) == b[1..];
    CancelOne(multiset(a[1..]), multiset(b[1..]), a[0]);
  }

  /** An ascending order by distance from a full-length center is unique, because no two
      identifiers are equally far from it. */
  lemma {:induction false} AscendingByDistanceIsUnique(center: Digest, key: Bytes -> nat, a: seq<Bytes>, b: seq<Bytes>)
    requires multiset(a) == multiset(b) && Ascending(key, a) && Ascending(key, b)
    requires MeasuredFrom(center, key, a)
    ensures a == b
    decreases |a|
  {
    hide Distance;
    assert |multiset(a)| == |a| && |multiset(b)| == |b|;
    if a == [] {
    } else {
      SameFirst(center, key, a, b);
      SameRest(a, b);
      AscendingByDistanceIsUnique(center, key, a[1..], b[1..]);
      assert a == [a[0]] + a[1..] && b == [b[0]] + b[1..];
    }
  }
}
