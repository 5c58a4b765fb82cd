/**
  The list operations of bucket.go, as functions on the contents of a bucket.
 */
module BucketSpec {
  import opened Peers

  datatype Option<+T> = None | Some(value: T)

  /** Position of the first peer with this id; the length of the bucket if there is none. */
  function IndexOf(b: seq<Peer>, id: PeerID): (i: nat)
    ensures i <= |b|
    ensures i < |b| ==> b[i].id == id
    ensures forall j :: 0 <= j < i ==> b[j].id != id
  {
    if b == [] then 0 else if b[0].id == id then 0 else 1 + IndexOf(b[1..], id)
  }

  predicate Holds(b: seq<Peer>, id: PeerID)
  {
    IndexOf(b, id) < |b|
  }

  function Without(b: seq<Peer>, id: PeerID): seq<Peer>
  {
    var i := IndexOf(b, id);
    if i < |b| then b[..i] + b[i + 1..] else b
  }

  /** The peers that stay in a bucket split at `k`. */
  function Staying(c: Config, b: seq<Peer>, k: nat): seq<Peer>
  {
    if b == [] then []
    else
      var n := |b| - 1;
      Staying(c, b[..n], k) + if Cpl(c, b[n].dhtId) > k then [] else [b[n]]
  }

  /** The peers that leave a bucket split at `k`: those that share more than k bits. */
  function Leaving(c: Config, b: seq<Peer>, k: nat): seq<Peer>
  {
    if b == [] then []
    else
      var n := |b| - 1;
      Leaving(c, b[..n], k) + if Cpl(c, b[n].dhtId) > k then [b[n]] else []
  }

  /** The peer that a full bucket gives up: its last replaceable one. */
  function Victim(b: seq<Peer>): (v: Option<Peer>)
    ensures v.Some? ==> v.value in b && v.value.isReplaceable
    ensures v.Some? ==> exists k :: 0 <= k < |b| && b[k] == v.value && forall j :: k < j < |b| ==> !b[j].isReplaceable
    ensures v.None? ==> forall p :: p in b ==> !p.isReplaceable
  {
    if b == [] then None
    else if b[|b| - 1].isReplaceable then Some(b[|b| - 1])
    else Victim(b[..|b| - 1])
  }

  function Max(a: nat, b: nat): nat
  {
    if a >= b then a else b
  }

  /** The longest prefix that a peer of the bucket shares with the local identifier; 0 if none. */
  function LongestIn(c: Config, b: seq<Peer>): nat
  {
    if b == [] then 0 else Max(LongestIn(c, b[..|b| - 1]), Cpl(c, b[|b| - 1].dhtId))
  }

  ghost predicate DistinctIds(b: seq<Peer>)
  {
    forall i, j :: 0 <= i < j < |b| ==> b[i].id != b[j].id
  }

  // ------------------------------------------------------------------ properties

  lemma HoldsIsMembership(b: seq<Peer>, id: PeerID)
    ensures Holds(b, id) <==> exists p :: p in b && p.id == id
  {
  }

  lemma WithoutRemovesOne(b: seq<Peer>, id: PeerID)
    requires Holds(b, id)
    ensures multiset(b) == multiset(Without(b, id)) + multiset{b[IndexOf(b, id)]}
    ensures |Without(b, id)| == |b| - 1
  {
    hide IndexOf;
    var i := IndexOf(b, id);
    var front, back := b[..i], b[i + 1..];
    calc {
      multiset(b);
      { assert b == (front + [b[i]]) + back; }
      multiset((front + [b[i]]) + back);
      multiset(front + [b[i]]) + multiset(back);
      multiset(front) + multiset{b[i]} + multiset(back);
      { assert Without(b, id) == front + back; }
      multiset(Without(b, id)) + multiset{b[i]};
    }
  }

  lemma SplitSnoc(c: Config, b: seq<Peer>, k: nat)
    requires b != []
    ensures var front, last := b[..|b| - 1], b[|b| - 1];
            && b == front + [last]
            && Staying(c, b, k) == Staying(c, front, k) + (if Cpl(c, last.dhtId) > k then [] else [last])
            && Leaving(c, b, k) == Leaving(c, front, k) + if Cpl(c, last.dhtId) > k then [last] else []
  {
    hide Cpl;
  }

  lemma {:induction false} SplitPartition(c: Config, b: seq<Peer>, k: nat)
    ensures multiset(Staying(c, b, k)) + multiset(Leaving(c, b, k)) == multiset(b)
  {
    if b == [] {
    } else {
      hide Cpl, Staying, Leaving;
      var n := |b| - 1;
      SplitPartition(c, b[..n], k);
      SplitSnoc(c, b, k);
      assert multiset(b) == multiset(b[..n]) + multiset{b[n]};
    }
  }

  lemma {:induction false} SplitMembers(c: Config, b: seq<Peer>, k: nat)
    ensures forall p :: p in Staying(c, b, k) <==> p in b && Cpl(c, p.dhtId) <= k
    ensures forall p :: p in Leaving(c, b, k) <==> p in b && Cpl(c, p.dhtId) > k
  {
    hide Cpl;
    if b == [] {
    } else {
      var n := |b| - 1;
      SplitMembers(c, b[..n], k);
      assert b == b[..n] + [b[n]];
    }
  }

  lemma {:induction false} SplitLengths(c: Config, b: seq<Peer>, k: nat)
    ensures |Staying(c, b, k)| + |Leaving(c, b, k)| == |b|
  {
    hide Cpl;
    if b == [] {
    } else {
      SplitLengths(c, b[..|b| - 1], k);
    }
  }

  lemma {:induction false} SplitDistinct(c: Config, b: seq<Peer>, k: nat)
    requires DistinctIds(b)
    ensures DistinctIds(Staying(c, b, k)) && DistinctIds(Leaving(c, b, k))
  {
    if b == [] {
    } else {
      hide Cpl, Staying, Leaving;
      var n := |b| - 1;
      SplitDistinct(c, b[..n], k);
      SplitMembers(c, b[..n], k);
      SplitSnoc(c, b, k);
      assert forall p :: p in b[..n] ==> p.id != b[n].id;
      assert forall p :: p in Staying(c, b[..n], k) ==> p in b[..n];
      assert forall p :: p in Leaving(c, b[..n], k) ==> p in b[..n];
    }
  }

  /** Splitting off nothing, or everything, leaves the order of the rest alone. */
  lemma {:induction false} SplitTrivial(c: Config, b: seq<Peer>, k: nat)
    ensures (forall p :: p in b ==> Cpl(c, p.dhtId) <= k) ==> Staying(c, b, k) == b
    ensures (forall p :: p in b ==> Cpl(c, p.dhtId) > k) ==> Leaving(c, b, k) == b
  {
    if b == [] {
    } else {
      hide Cpl, Staying, Leaving;
      var n := |b| - 1;
      SplitTrivial(c, b[..n], k);
      SplitSnoc(c, b, k);
      assert forall p :: p in b[..n] ==> p in b;
      assert b[n] in b;
    }
  }

  lemma {:induction false} LongestInIsMax(c: Config, b: seq<Peer>)
    ensures forall p :: p in b ==> Cpl(c, p.dhtId) <= LongestIn(c, b)
    ensures b != [] ==> exists p :: p in b && Cpl(c, p.dhtId) == LongestIn(c, b)
  {
    hide Cpl;
    if b == [] {
    } else {
      var front, last := b[..|b| - 1], b[|b| - 1];
      LongestInIsMax(c, front);
      if Cpl(c, last.dhtId) >= LongestIn(c, front) {
        assert last in b;
      } else {
        var p :| p in front && Cpl(c, p.dhtId) == LongestIn(c, front);
        assert p in b;
      }
    }
  }

  // ------------------------------------------------------------------ splitting again

  /** The peers of a bucket that share exactly `z` bits with the local identifier, in order. */
  function Exactly(c: Config, b: seq<Peer>, z: nat): seq<Peer>
  {
    if b == [] then []
    else
      var n := |b| - 1;
      Exactly(c, b[..n], z) + if Cpl(c, b[n].dhtId) == z then [b[n]] else []
  }

  /** A split at the least prefix length of a bucket leaves exactly the peers of that length. */
  lemma {:induction false} StayingIsExactly(c: Config, b: seq<Peer>, k: nat)
    requires forall p :: p in b ==> Cpl(c, p.dhtId) >= k
    ensures Staying(c, b, k) == Exactly(c, b, k)
  {
    hide Cpl;
    if b == [] {
    } else {
      StayingIsExactly(c, b[..|b| - 1], k);
      assert b[|b| - 1] in b;
    }
  }

  /** Splitting off twice is splitting off once, at the longer prefix. */
  lemma {:induction false} LeavingTwice(c: Config, b: seq<Peer>, k: nat, m: nat)
    requires k <= m
    ensures Leaving(c, Leaving(c, b, k), m) == Leaving(c, b, m)
    ensures Exactly(c, Leaving(c, b, k), m + 1) == Exactly(c, b, m + 1)
  {
    hide Cpl;
    if b == [] {
    } else {
      var n := |b| - 1;
      LeavingTwice(c, b[..n], k, m);
      var far := Leaving(c, b[..n], k);
      if Cpl(c, b[n].dhtId) > k {
        assert Leaving(c, b, k) == far + [b[n]] && (far + [b[n]])[..|far|] == far;
      } else {
        assert Leaving(c, b, k) == far;
      }
    }
  }
}
