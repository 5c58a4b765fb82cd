/**
  PeerInfo and bucket of bucket.go as objects. A bucket holds references to its peers; the
  table updates a peer in place through them. BucketSpec says what the list operations mean.
 */
module Bucket {
  import opened Peers
  import opened BucketSpec

  class PeerInfo {
    var id: PeerID
    var lastUsefulAt: Time
    var lastQueryAt: Time
    var addedAt: Time
    var dhtId: Digest
    var isReplaceable: bool

    function Value(): Peer
      reads this
    {
      Peer(id, lastUsefulAt, lastQueryAt, addedAt, dhtId, isReplaceable)
    }

    constructor (p: Peer)
      ensures Value() == p
    {
      id, lastUsefulAt, lastQueryAt := p.id, p.lastUsefulAt, p.lastQueryAt;
      addedAt, dhtId, isReplaceable := p.addedAt, p.dhtId, p.isReplaceable;
    }

    method Set(p: Peer)
      modifies this
      ensures Value() == p
    {
      id, lastUsefulAt, lastQueryAt := p.id, p.lastUsefulAt, p.lastQueryAt;
      addedAt, dhtId, isReplaceable := p.addedAt, p.dhtId, p.isReplaceable;
    }
  }

  function Values(infos: seq<PeerInfo>): (ps: seq<Peer>)
    reads infos
    ensures |ps| == |infos|
    ensures forall i :: 0 <= i < |infos| ==> ps[i] == infos[i].Value()
  {
    seq(|infos|, i requires 0 <= i < |infos| reads infos => infos[i].Value())
  }

  ghost predicate NoAlias(infos: seq<PeerInfo>)
  {
    forall i, j :: 0 <= i < j < |infos| ==> infos[i] != infos[j]
  }

  /** The result of the scan of `min`: each later peer that is less than the best so far wins. */
  function Best(less: (Peer, Peer) -> bool, b: seq<Peer>): (p: Peer)
    requires b != []
    ensures p in b
  {
    if |b| == 1 then b[0]
    else
      var best := Best(less, b[..|b| - 1]);
      if less(b[|b| - 1], best) then b[|b| - 1] else best
  }

  class Bucket {
    var list: seq<PeerInfo>

    constructor ()
      ensures list == []
    {
      list := [];
    }

    /** peers: a copy of the records. */
    function Peers(): seq<Peer>
      reads this, list
    {
      Values(list)
    }

    function Len(): (n: nat)
      reads this, list
      ensures n == |Peers()|
    {
      |list|
    }

    method PushFront(p: PeerInfo)
      modifies this
      ensures list == [p] + old(list)
    {
      list := [p] + list;
    }

    method GetPeer(id: PeerID) returns (p: PeerInfo?)
      ensures p == null <==> !Holds(Peers(), id)
      ensures p != null ==> IndexOf(Peers(), id) < |list| && p == list[IndexOf(Peers(), id)]
    {
      for i := 0 to |list|
        invariant forall j :: 0 <= j < i ==> Peers()[j].id != id
      {
        if list[i].id == id {
          FirstIndex(Peers(), id, i);
          return list[i];
        }
      }
      return null;
    }

    method Remove(id: PeerID) returns (removed: bool)
      modifies this
      ensures removed == Holds(old(Peers()), id)
      ensures Peers() == Without(old(Peers()), id)
      ensures forall p :: p in list ==> p in old(list)
    {
      ghost var before := Peers();
      for i := 0 to |list|
        invariant list == old(list) && Peers() == before
        invariant forall j :: 0 <= j < i ==> Peers()[j].id != id
      {
        if list[i].id == id {
          FirstIndex(before, id, i);
          list := list[..i] + list[i + 1..];
          assert Peers() == before[..i] + before[i + 1..];
          return true;
        }
      }
      return false;
    }

    /** updateAllWith, for an update that computes the new record from the old one. */
    method UpdateAllWith(update: Peer -> Peer)
      requires NoAlias(list)
      modifies list
      ensures |Peers()| == |old(Peers())|
      ensures forall i :: 0 <= i < |list| ==> list[i].Value() == update(old(list[i].Value()))
    {
      for i := 0 to |list|
        invariant forall j :: 0 <= j < i ==> list[j].Value() == update(old(list[j].Value()))
        invariant forall j :: i <= j < |list| ==> list[j].Value() == old(list[j].Value())
      {
        list[i].Set(update(list[i].Value()));
      }
    }

    method PeerIds() returns (ids: seq<PeerID>)
      ensures |ids| == |Peers()| && forall i :: 0 <= i < |ids| ==> ids[i] == Peers()[i].id
    {
      ids := [];
      for i := 0 to |list|
        invariant |ids| == i && forall j :: 0 <= j < i ==> ids[j] == list[j].id
      {
        ids := ids + [list[i].id];
      }
    }

    method Min(less: (Peer, Peer) -> bool) returns (p: PeerInfo?)
      ensures p == null <==> list == []
      ensures p != null ==> p in list && p.Value() == Best(less, Peers())
    {
      if |list| == 0 {
        return null;
      }
      var minVal := list[0];
      for i := 1 to |list|
        invariant minVal in list && minVal.Value() == Best(less, Peers()[..i])
      {
        assert Peers()[..i + 1][..i] == Peers()[..i];
        if less(list[i].Value(), minVal.Value()) {
          minVal := list[i];
        }
      }
      assert Peers()[..|list|] == Peers();
      return minVal;
    }

    /** Peers that share more than `cpl` bits with the local identifier move to a new bucket. */
    method Split(c: Config, cpl: nat) returns (out: Bucket)
      modifies this
      ensures fresh(out)
      ensures Peers() == Staying(c, old(Peers()), cpl)
      ensures out.Peers() == Leaving(c, old(Peers()), cpl)
      ensures forall p :: p in list || p in out.list ==> p in old(list)
    {
      hide Cpl, Picked;
      out := new Bucket();
      ghost var all, before, k := list, Peers(), 0;
      PickedNothing(c, all, before, cpl);
      var i := 0;
      while i < |list|
        invariant k <= |all| && i <= |list| && fresh(out)
        invariant before == Values(all)
        invariant list[..i] == Picked(c, all[..k], before[..k], cpl, false) && list[i..] == all[k..]
        invariant out.list == Picked(c, all[..k], before[..k], cpl, true)
        decreases |list| - i
      {
        PickedStep(c, all, before, k, cpl);
        assert list[i] == all[k] && list[i + 1..] == all[k + 1..];
        if Cpl(c, list[i].dhtId) > cpl {
          MoveTo(out, i);
        } else {
          assert list[..i + 1] == list[..i] + [list[i]];
          i := i + 1;
        }
        k := k + 1;
      }
      assert all[..k] == all && before[..k] == before && list[..i] == list;
      PickedValues(c, all, cpl);
    }

    /** out.PushBack(e.Value), then b.list.Remove(e). */
    method MoveTo(out: Bucket, i: nat)
      requires i < |list| && out != this
      modifies this, out
      ensures i <= |list| && list[..i] == old(list[..i]) && list[i..] == old(list[i + 1..])
      ensures out.list == old(out.list) + [old(list[i])]
    {
      out.list := out.list + [list[i]];
      list := list[..i] + list[i + 1..];
    }

    method MaxCommonPrefix(c: Config) returns (maxCpl: nat)
      ensures maxCpl == LongestIn(c, Peers())
    {
      hide Cpl;
      maxCpl := 0;
      for i := 0 to |list|
        invariant maxCpl == LongestIn(c, Peers()[..i])
      {
        assert Peers()[..i + 1][..i] == Peers()[..i];
        var cpl := Cpl(c, list[i].dhtId);
        if cpl > maxCpl {
          maxCpl := cpl;
        }
      }
      assert Peers()[..|list|] == Peers();
    }
  }

  /** The objects that a split moves (`far`) or keeps, given the records they hold. */
  ghost function Picked(c: Config, infos: seq<PeerInfo>, vals: seq<Peer>, cpl: nat, far: bool): (r: seq<PeerInfo>)
    requires |infos| == |vals|
    ensures forall p :: p in r ==> p in infos
  {
    if infos == [] then []
    else
      var n := |infos| - 1;
      Picked(c, infos[..n], vals[..n], cpl, far) + if (Cpl(c, vals[n].dhtId) > cpl) == far then [infos[n]] else []
  }

  lemma PickedNothing(c: Config, infos: seq<PeerInfo>, vals: seq<Peer>, cpl: nat)
    requires |infos| == |vals|
    ensures forall far :: Picked(c, infos[..0], vals[..0], cpl, far) == []
  {
  }

  lemma PickedStep(c: Config, infos: seq<PeerInfo>, vals: seq<Peer>, k: nat, cpl: nat)
    requires k < |infos| == |vals|
    ensures forall far ::
              Picked(c, infos[..k + 1], vals[..k + 1], cpl, far) ==
              Picked(c, infos[..k], vals[..k], cpl, far) + if (Cpl(c, vals[k].dhtId) > cpl) == far then [infos[k]] else []
  {
    hide Cpl;
    assert infos[..k + 1][..k] == infos[..k] && vals[..k + 1][..k] == vals[..k];
  }

  lemma {:induction false} PickedValues(c: Config, infos: seq<PeerInfo>, cpl: nat)
    ensures Values(Picked(c, infos, Values(infos), cpl, false)) == Staying(c, Values(infos), cpl)
    ensures Values(Picked(c, infos, Values(infos), cpl, true)) == Leaving(c, Values(infos), cpl)
  {
    hide Cpl;
    if infos == [] {
    } else {
      var n := |infos| - 1;
      PickedValues(c, infos[..n], cpl);
      assert Values(infos)[..n] == Values(infos[..n]);
    }
  }

  lemma {:induction false} FirstIndex(b: seq<Peer>, id: PeerID, i: nat)
    requires i < |b| && b[i].id == id && forall j :: 0 <= j < i ==> b[j].id != id
    ensures IndexOf(b, id) == i
  {
  }

  // ------------------------------------------------------------------ the two uses of min

  /** With the comparison of addPeer, which is no order at all, `min` finds the last replaceable
      peer, if there is any: exactly the one to evict. */
  lemma {:induction false} BestIsVictim(less: (Peer, Peer) -> bool, b: seq<Peer>)
    requires b != [] && forall p, q :: less(p, q) <==> p.isReplaceable
    ensures Victim(b) == if Best(less, b).isReplaceable then Some(Best(less, b)) else None
  {
    if |b| > 1 {
      BestIsVictim(less, b[..|b| - 1]);
    } else {
      assert b[..0] == [];
    }
  }

  /** With a comparison by a key, `min` finds a peer with the least key. */
  lemma {:induction false} BestIsLeast(less: (Peer, Peer) -> bool, key: Peer -> int, b: seq<Peer>, p: Peer)
    requires b != [] && p in b && forall q, r :: less(q, r) <==> key(q) < key(r)
    ensures key(Best(less, b)) <= key(p)
  {
    if |b| <= 1 {
    } else {
      var front := b[..|b| - 1];
      if p in front {
        BestIsLeast(less, key, front, p);
      } else {
        assert front[0] in front;
        assert p == b[|b| - 1];
      }
    }
  }
}
