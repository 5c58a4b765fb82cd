/**
  The age of the peers: buckets list the newest first, so a full bucket gives up the replaceable
  peer that was added first.
 */
module AgeProofs {
  import opened Peers
  import opened BucketSpec
  import opened TableSpec
  import opened TableProofs
  import opened AddProofs
  import opened CapacityProofs
  import opened TableFacts
  import opened TableMachine
  import opened MachineProofs

  /** Nobody was added after `now`, nor after anybody who stands before. */
  ghost predicate NewestFirst(b: seq<Peer>, now: Time)
  {
    && (forall i :: 0 <= i < |b| ==> b[i].addedAt <= now)
    && (forall i, j :: 0 <= i < j < |b| ==> b[i].addedAt >= b[j].addedAt)
  }

  ghost predicate Aged(bs: Buckets, now: Time)
  {
    forall i :: 0 <= i < |bs| ==> NewestFirst(bs[i], now)
  }

  // ------------------------------------------------------------------ one bucket

  lemma SnocKeepsAge(b: seq<Peer>, p: Peer, now: Time)
    requires NewestFirst(b, now) && p.addedAt <= now && forall q :: q in b ==> q.addedAt >= p.addedAt
    ensures NewestFirst(b + [p], now)
  {
  }

  lemma {:induction false} SplitKeepsAge(c: Config, b: seq<Peer>, k: nat, now: Time)
    requires NewestFirst(b, now)
    ensures NewestFirst(Staying(c, b, k), now) && NewestFirst(Leaving(c, b, k), now)
  {
    if b == [] {
    } else {
      hide Cpl, Staying, Leaving, NewestFirst;
      var front, last := b[..|b| - 1], b[|b| - 1];
      OlderThanFront(b, now);
      SplitKeepsAge(c, front, k, now);
      SplitMembers(c, front, k);
      SplitSnoc(c, b, k);
      SnocKeepsAge(if Cpl(c, last.dhtId) > k then Leaving(c, front, k) else Staying(c, front, k), last, now);
    }
  }

  lemma OlderThanFront(b: seq<Peer>, now: Time)
    requires b != [] && NewestFirst(b, now)
    ensures NewestFirst(b[..|b| - 1], now) && b[|b| - 1].addedAt <= now
    ensures forall q :: q in b[..|b| - 1] ==> q.addedAt >= b[|b| - 1].addedAt
  {
  }

  lemma PushKeepsAge(b: seq<Peer>, p: Peer, before: Time)
    requires NewestFirst(b, before) && before <= p.addedAt
    ensures NewestFirst([p] + b, p.addedAt)
  {
  }

  /** The peer that a bucket gives up is the oldest of those it may give up. */
  lemma {:induction false} VictimIsOldest(b: seq<Peer>, now: Time, q: Peer)
    requires NewestFirst(b, now) && q in b && q.isReplaceable
    ensures Victim(b).Some? && Victim(b).value.addedAt <= q.addedAt
  {
    if b[|b| - 1].isReplaceable {
    } else {
      assert q in b[..|b| - 1];
      VictimIsOldest(b[..|b| - 1], now, q);
    }
  }

  // ------------------------------------------------------------------ the whole table

  lemma {:induction false} UnfoldingKeepsAge(c: Config, bs: Buckets, now: Time)
    requires |bs| >= 1 && Aged(bs, now)
    ensures Aged(NextBucket(c, bs), now)
    decreases MAX_BUCKETS - |bs|
  {
    hide Cpl, NewestFirst, Staying, Leaving;
    var last := |bs| - 1;
    SplitKeepsAge(c, bs[last], last, now);
    assert Aged(UnfoldOnce(c, bs), now);
    if |Leaving(c, bs[last], last)| < c.bucketSize {
    } else {
      SplitMembers(c, bs[last], last);
      assert Leaving(c, bs[last], last)[0] in Leaving(c, bs[last], last);
      UnfoldingKeepsAge(c, UnfoldOnce(c, bs), now);
    }
  }

  lemma JoiningKeepsAge(bs: Buckets, i: nat, p: Peer, before: Time)
    requires i < |bs| && Aged(bs, before) && before <= p.addedAt
    ensures Aged(bs[i := [p] + bs[i]], p.addedAt)
  {
    PushKeepsAge(bs[i], p, before);
  }

  lemma RemovingKeepsAge(bs: Buckets, r: Buckets, id: PeerID, now: Time)
    requires Aged(bs, now) && TakenOutAndTidied(bs, r, id)
    ensures Aged(r, now)
  {
    hide Aged, TakenOut, OnlyEmptyDropped, Tidy;
    var bs' :| TakenOut(bs, bs', id) && OnlyEmptyDropped(bs', r);
    TakingOutKeepsAge(bs, bs', id, now);
    DroppingKeepsAge(bs', r, now);
  }

  lemma TakingOutKeepsAge(bs: Buckets, bs': Buckets, id: PeerID, now: Time)
    requires Aged(bs, now) && TakenOut(bs, bs', id)
    ensures Aged(bs', now)
  {
    var i, k :| 0 <= i < |bs| && 0 <= k < |bs[i]| && bs[i][k].id == id && bs' == bs[i := bs[i][..k] + bs[i][k + 1..]];
    WithoutOneKeepsAge(bs[i], k, now);
  }

  lemma WithoutOneKeepsAge(b: seq<Peer>, k: nat, now: Time)
    requires NewestFirst(b, now) && k < |b|
    ensures NewestFirst(b[..k] + b[k + 1..], now)
  {
    var r := b[..k] + b[k + 1..];
    assert forall j :: 0 <= j < |r| ==> r[j] == if j < k then b[j] else b[j + 1];
  }

  lemma NoNewBucket(bs: Buckets, r: Buckets)
    requires OnlyEmptyDropped(bs, r)
    ensures forall b :: b in r ==> b in bs
  {
    var j :| IsRest(bs, |r| - 1, j) && r[|r| - 1] == bs[j];
    assert r == r[..|r| - 1] + [bs[j]];
    assert forall i :: 0 <= i < |r| - 1 ==> r[i] == r[..|r| - 1][i] == bs[i];
  }

  lemma DroppingKeepsAge(bs: Buckets, r: Buckets, now: Time)
    requires Aged(bs, now) && OnlyEmptyDropped(bs, r)
    ensures Aged(r, now)
  {
    hide NewestFirst, OnlyEmptyDropped;
    NoNewBucket(bs, r);
    forall i | 0 <= i < |r|
      ensures NewestFirst(r[i], now)
    {
      assert r[i] in bs;
    }
  }

  lemma PlacingKeepsAge(c: Config, bs: Buckets, p: Peer, before: Time)
    requires Inv(c, bs) && p.dhtId == c.hash(p.id) && !Resides(c, bs, p.id)
    requires Aged(bs, before) && before <= p.addedAt
    ensures Aged(Place(c, bs, p).buckets, p.addedAt)
  {
    hide Cpl, GoodBucket, Resides, Place, NextBucket, NewestFirst, TakenOutAndTidied;
    var base := Unfolded(c, bs, p);
    UnfoldingKeepsAge(c, bs, before);
    PlaceLayout(c, bs, p);
    var i := BucketIndex(c, |base|, p.dhtId);
    JoiningKeepsAge(base, i, p, before);
    match Place(c, bs, p) {
      case Fits(_) =>
      case Replaces(r, v) => RemovingKeepsAge(base[i := [p] + base[i]], r, v.id, p.addedAt);
      case NoRoom(_) => TimePasses(base, before, p.addedAt);
    }
  }

  lemma TimePasses(bs: Buckets, before: Time, now: Time)
    requires Aged(bs, before) && before <= now
    ensures Aged(bs, now)
  {
  }

  /** Updates of records in place do not touch the time at which a peer was added. */
  lemma SameTimesSameAge(bs: Buckets, bs': Buckets, now: Time)
    requires Aged(bs, now) && SameShape(bs, bs')
    requires forall i, k :: 0 <= i < |bs| && 0 <= k < |bs[i]| ==> bs'[i][k].addedAt == bs[i][k].addedAt
    ensures Aged(bs', now)
  {
    forall i | 0 <= i < |bs'|
      ensures NewestFirst(bs'[i], now)
    {
      assert NewestFirst(bs[i], now);
    }
  }

  // ------------------------------------------------------------------ steps and runs

  lemma StepKeepsAge(c: Config, t: Table, op: Op, before: Time, now: Time)
    requires Sound(c, t) && Aged(t.buckets, before) && before <= now
    requires op.TryAdd? ==> before <= op.request.now <= now
    ensures Aged(Step(c, t, op).buckets, now)
  {
    hide Cpl, GoodBucket, WithinCapacity, Content, Resides, Place, Found, Rewrite;
    hide FilterAdmits, ResidentIds, RemoveFrom, NewestFirst;
    var bs := t.buckets;
    TimePasses(bs, before, now);
    match op {
      case TryAdd(r) =>
        if Resides(c, bs, r.id) {
          RewriteKeepsAge(c, bs, r.id, Bumped(Found(c, bs, r.id), r), now);
        } else {
          PlacingKeepsAge(c, bs, NewPeer(c, r), before);
          TimePasses(Place(c, bs, NewPeer(c, r)).buckets, r.now, now);
        }
      case Remove(id) =>
        if Resides(c, bs, id) {
          RemoveLayout(c, bs, id);
          RemovingKeepsAge(bs, RemoveFrom(c, bs, id), id, now);
        }
      case MarkAll =>
        MarkAllChanges(t);
        SameTimesSameAge(bs, MarkAllIrreplaceable(t).buckets, now);
      case UpdateUseful(id, at) =>
        if Resides(c, bs, id) {
          RewriteKeepsAge(c, bs, id, Found(c, bs, id).(lastUsefulAt := at), now);
        }
      case UpdateQuery(id, at) =>
        if Resides(c, bs, id) {
          RewriteKeepsAge(c, bs, id, Found(c, bs, id).(lastQueryAt := at), now);
        }
      case Whitelist(ids) =>
    }
  }

  lemma RewriteKeepsAge(c: Config, bs: Buckets, id: PeerID, p: Peer, now: Time)
    requires Inv(c, bs) && Aged(bs, now) && Resides(c, bs, id) && p.addedAt == Found(c, bs, id).addedAt
    ensures Aged(Rewrite(c, bs, id, p), now)
  {
    hide Cpl, GoodBucket, WithinCapacity, Resides, Found, Rewrite, NewestFirst;
    RewriteAt(c, bs, id, p);
    forall i, k | 0 <= i < |bs| && 0 <= k < |bs[i]|
      ensures Rewrite(c, bs, id, p)[i][k].addedAt == bs[i][k].addedAt
    {
      if bs[i][k].id == id {
        FoundAt(c, bs, id, i, k);
      }
    }
    SameTimesSameAge(bs, Rewrite(c, bs, id, p), now);
  }

  /** The clock never goes back from one TryAddPeer to a later one, nor beyond `now`. */
  ghost predicate Chronological(ops: seq<Op>, now: Time)
  {
    && (forall i :: 0 <= i < |ops| && ops[i].TryAdd? ==> ops[i].request.now <= now)
    && (forall i, j :: 0 <= i < j < |ops| && ops[i].TryAdd? && ops[j].TryAdd? ==> ops[i].request.now <= ops[j].request.now)
  }

  /** After every run of a new table under such a clock, every bucket lists its peers from the
      newest to the oldest. */
  lemma {:induction false} RunListsNewestFirst(c: Config, t: Table, ops: seq<Op>, now: Time)
    requires t.buckets == [[]] && t.events == [] && Chronological(ops, now)
    ensures Sound(c, Run(c, t, ops)) && Aged(Run(c, t, ops).buckets, now)
  {
    hide Sound, Step;
    NewIsSound(c, t);
    RunIsGood(c, t, ops);
    if ops == [] {
    } else {
      var front, op := ops[..|ops| - 1], ops[|ops| - 1];
      var before := if op.TryAdd? then op.request.now else now;
      assert Chronological(front, before);
      RunListsNewestFirst(c, t, front, before);
      StepKeepsAge(c, Run(c, t, front), op, before, now);
    }
  }

  /** No replaceable resident that shares as many bits as `v` was added before it. */
  ghost predicate IsOldest(c: Config, bs: Buckets, v: Peer)
  {
    forall q :: q in Content(bs) && q.isReplaceable && Cpl(c, q.dhtId) == Cpl(c, v.dhtId) ==> v.addedAt <= q.addedAt
  }

  /** Whoever is evicted is the oldest of the replaceable residents with the prefix length of the
      newcomer. */
  lemma EvictionTakesOldest(c: Config, t: Table, r: AddRequest, now: Time)
    requires Sound(c, t) && Aged(t.buckets, now)
    requires var (t', outcome) := AddPeer(c, t, r); outcome == Added && Rivals(c, t, r) >= c.bucketSize
    ensures exists v :: Replaced(c, t, r, AddPeer(c, t, r).0, v) && IsOldest(c, t.buckets, v)
  {
    hide Cpl, GoodBucket, WithinCapacity, Content, NextBucket, NewestFirst, Replaced, CountInTable, ResidentIds, RemoveFrom;
    var p, bs := NewPeer(c, r), t.buckets;
    var base := Unfolded(c, bs, p);
    var z := Cpl(c, p.dhtId);
    AddToNonResident(c, t, r);
    PlacementIsByCount(c, bs, p);
    RoomInUnfolded(c, bs, p);
    UnfoldingKeepsAge(c, bs, now);
    DedicatedMembers(c, base, z);
    var v := Place(c, bs, p).evicted;
    assert v == Victim(base[z]).value;
    ReplacedSharesBits(c, t, r, AddPeer(c, t, r).0, v);
    forall q | q in Content(bs) && q.isReplaceable && Cpl(c, q.dhtId) == z
      ensures v.addedAt <= q.addedAt
    {
      VictimIsOldest(base[z], now, q);
    }
  }

  lemma ReplacedSharesBits(c: Config, t: Table, r: AddRequest, t': Table, v: Peer)
    requires Replaced(c, t, r, t', v)
    ensures Cpl(c, v.dhtId) == Cpl(c, c.hash(r.id))
  {
  }

  /** So it is in every table that a run under such a clock can reach. */
  lemma RunEvictsOldest(c: Config, start: Table, ops: seq<Op>, r: AddRequest)
    requires start.buckets == [[]] && start.events == [] && Chronological(ops + [TryAdd(r)], r.now)
    requires var t := Run(c, start, ops); AddPeer(c, t, r).1 == Added && Rivals(c, t, r) >= c.bucketSize
    ensures var t := Run(c, start, ops);
            exists v :: Replaced(c, t, r, AddPeer(c, t, r).0, v) && IsOldest(c, t.buckets, v)
  {
    hide Sound, Run, AddPeer, Aged, Replaced, IsOldest, Rivals;
    var all := ops + [TryAdd(r)];
    assert forall i :: 0 <= i < |ops| ==> ops[i] == all[i];
    assert Chronological(ops, r.now);
    RunListsNewestFirst(c, start, ops, r.now);
    EvictionTakesOldest(c, Run(c, start, ops), r, r.now);
  }
}
