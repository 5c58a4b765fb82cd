/**
  RoutingTable of table.go as an object over its buckets. Every method is proved against the
  state machine of TableMachine, or against the meaning of the query it answers.
 */
module RoutingTable {
  import opened Peers
  import opened BucketSpec
  import opened TableSpec
  import opened TableProofs
  import opened AddProofs
  import opened CapacityProofs
  import opened TableMachine
  import opened MachineProofs
  import opened TableFacts
  import opened XorKeySpace
  import opened GoSort
  import opened NearestSpec
  import opened QueryProofs
  import opened RefreshSpec
  import opened Preimage
  import opened Sorting
  import opened Bucket
  import F = FilterSpec
  import DF = DiversityFilter

  class RoutingTable {
    const config: Config
    const df: DF.Filter?
    var buckets: seq<Bucket>
    /** The PeerAdded and PeerRemoved callbacks made so far. */
    var events: seq<Event>
    var cplRefreshedAt: map<nat, Time>
    /** Every record this table has ever made. */
    ghost var records: set<PeerInfo>

    /** The buckets are different objects, and hold only records of this table. */
    ghost predicate Shape(): (shaped: bool)
      reads this, buckets
      ensures shaped ==> |buckets| >= 1
    {
      && |buckets| >= 1
      && (forall i, j :: 0 <= i < j < |buckets| ==> buckets[i] != buckets[j])
      && (forall i, p :: 0 <= i < |buckets| && p in buckets[i].list ==> p in records)
    }

    ghost function Contents(): (bs: Buckets)
      requires Shape()
      reads this, buckets, records
      ensures |bs| == |buckets|
      ensures forall i :: 0 <= i < |bs| ==> bs[i] == buckets[i].Peers()
    {
      seq(|buckets|, i requires 0 <= i < |buckets| && Shape() reads this, buckets, records => buckets[i].Peers())
    }

    ghost function View(): (t: Table)
      requires Shape()
      reads this, buckets, records, df
      ensures t.buckets == Contents() && t.events == events
    {
      Table(Contents(), if df == null then None else Some(df.State()), events)
    }

    ghost predicate Valid()
      reads this, buckets, records, df
    {
      Shape() && Sound(config, View())
    }

    /** NewRoutingTable. The filter is in step with the table from the beginning if it has nobody
        on record. */
    constructor (config: Config, df: DF.Filter?)
      ensures Valid() && this.config == config && this.df == df
      ensures View().buckets == [[]] && View().events == []
      ensures (df == null || Unused(Some(df.State()))) ==> Fresh(View()) && InStep(View())
      ensures fresh(buckets) && records == {} && cplRefreshedAt == map[]
    {
      var b := new Bucket();
      this.config, this.df, buckets, events, cplRefreshedAt, records := config, df, [b], [], map[], {};
      new;
      NewIsSound(config, View());
    }

    /** bucketIdForPeer */
    function BucketIdForPeer(p: PeerID): (i: nat)
      requires |buckets| >= 1
      reads this
      ensures i < |buckets|
    {
      BucketIndex(config, |buckets|, config.hash(p))
    }

    /** Make a callback. */
    method Notify(e: Event)
      requires Shape()
      modifies this`events
      ensures Shape() && View() == old(View()).(events := old(events) + [e])
    {
      events := events + [e];
    }

    /** bucket.pushFront on bucket `i`. */
    method Attach(i: nat, info: PeerInfo)
      requires Shape() && i < |buckets| && info in records
      modifies buckets[i]
      ensures Shape() && View() == old(View()).(buckets := Push(old(Contents()), i, info.Value()))
    {
      ghost var before := Contents();
      var bucket := buckets[i];
      bucket.PushFront(info);
      assert bucket.Peers() == [info.Value()] + before[i];
      assert forall j :: 0 <= j < |buckets| && j != i ==> buckets[j] != bucket && buckets[j].Peers() == before[j];
    }

    /** Make a record of this table. */
    method NewRecord(p: Peer) returns (info: PeerInfo)
      requires Shape()
      modifies this`records
      ensures Shape() && View() == old(View())
      ensures fresh(info) && info.Value() == p && records == old(records) + {info}
    {
      info := new PeerInfo(p);
      records := records + {info};
    }

    /** Put a new record at the front of bucket `i`, and report the addition. */
    method AddTo(i: nat, p: Peer)
      requires Shape() && i < |buckets|
      modifies buckets[i], this`records, this`events
      ensures Shape() && View() == old(View()).(buckets := Push(old(Contents()), i, p), events := old(events) + [PeerAdded(p.id)])
      ensures fresh(records - old(records)) && old(records) <= records
    {
      hide Shape, View, Contents, PeerInfo.Value;
      var info := NewRecord(p);
      Attach(i, info);
      Notify(PeerAdded(p.id));
    }

    /** The wildcard keeps the peers that share exactly `last` bits; a new one gets the rest. */
    method SplitLast()
      requires Shape()
      modifies this`buckets, buckets
      ensures Shape() && View() == old(View()).(buckets := UnfoldOnce(config, old(Contents())))
      ensures |buckets| == old(|buckets|) + 1
      ensures forall b :: b in buckets ==> b in old(buckets) || fresh(b)
    {
      hide Cpl, Staying, Leaving;
      var last := |buckets| - 1;
      ghost var before := Contents();
      var newBucket := buckets[last].Split(config, last);
      assert forall i :: 0 <= i < last ==> buckets[i].Peers() == before[i];
      buckets := buckets + [newBucket];
    }

    /** nextBucket */
    method NextBucket()
      requires Shape()
      modifies this`buckets, buckets
      ensures Shape() && View() == old(View()).(buckets := TableSpec.NextBucket(config, old(Contents())))
      ensures forall b :: b in buckets ==> b in old(buckets) || fresh(b)
      decreases MAX_BUCKETS - |buckets|
    {
      hide Cpl, Staying, Leaving;
      ghost var bs, last := Contents(), |buckets| - 1;
      SplitLast();
      if buckets[|buckets| - 1].Len() >= config.bucketSize {
        SplitMembers(config, bs[last], last);
        assert Leaving(config, bs[last], last)[0] in Leaving(config, bs[last], last);
        assert forall i :: 0 <= i < |buckets| ==> buckets[i] in old(buckets) || fresh(buckets[i]);
        NextBucket();
      }
    }

    // ---------------------------------------------------------------- removing

    /** Truncate the bucket array by one. */
    method Truncate()
      requires Shape() && |buckets| > 1
      modifies this`buckets
      ensures Shape() && View() == old(View()).(buckets := old(Contents())[..old(|buckets|) - 1])
      ensures buckets == old(buckets)[..old(|buckets|) - 1]
    {
      ghost var bs := Contents();
      buckets := buckets[..|buckets| - 1];
      assert forall i :: 0 <= i < |buckets| ==> buckets[i].Peers() == bs[i];
    }

    /** Put the last bucket into the slot before it, then truncate. */
    method MoveLastDown()
      requires Shape() && |buckets| > 1
      modifies this`buckets
      ensures Shape() && |buckets| == old(|buckets|) - 1
      ensures var n := old(|buckets|);
              View() == old(View()).(buckets := old(Contents())[..n - 2] + [old(Contents())[n - 1]])
      ensures forall b :: b in buckets ==> b in old(buckets)
    {
      ghost var bs := Contents();
      var last := |buckets| - 1;
      buckets := buckets[last - 1 := buckets[last]];
      buckets := buckets[..last];
      assert forall i :: 0 <= i < last - 1 ==> buckets[i].Peers() == bs[i];
      assert buckets[last - 1].Peers() == bs[last];
    }

    /** The clean-up loop of removePeer. */
    method CollapseBuckets()
      requires Shape()
      modifies this`buckets
      ensures Shape() && View() == old(View()).(buckets := Collapse(old(Contents())))
      ensures forall b :: b in buckets ==> b in old(buckets)
    {
      hide Shape, View, Contents;
      while true
        invariant Shape() && View() == old(View()).(buckets := Contents())
        invariant Collapse(Contents()) == Collapse(old(Contents()))
        invariant forall b :: b in buckets ==> b in old(buckets)
        decreases |buckets|
      {
        var last := |buckets| - 1;
        if |buckets| > 1 && buckets[last].Len() == 0 {
          Truncate();
        } else if |buckets| >= 2 && buckets[last - 1].Len() == 0 {
          MoveLastDown();
        } else {
          break;
        }
      }
    }

    /** Take a peer out of its bucket. */
    method TakeOut(p: PeerID) returns (removed: bool)
      requires Shape()
      modifies buckets
      ensures Shape() && removed == Resides(config, old(Contents()), p)
      ensures var i := BucketIndex(config, |buckets|, config.hash(p));
              View() == old(View()).(buckets := old(Contents())[i := Without(old(Contents())[i], p)])
    {
      hide Cpl;
      ghost var before := Contents();
      var i := BucketIdForPeer(p);
      var bucket := buckets[i];
      removed := bucket.Remove(p);
      assert forall j :: 0 <= j < |buckets| && j != i ==> buckets[j] != bucket && buckets[j].Peers() == before[j];
    }

    method ForgetInFilter(p: PeerID)
      requires Shape()
      modifies df
      ensures Shape() && View() == old(View()).(df := FilterRemove(old(View()).df, p))
    {
      if df != null {
        df.Remove(p);
      }
    }

    /** removePeer */
    method DoRemovePeer(p: PeerID) returns (removed: bool)
      requires Shape()
      modifies this`buckets, this`events, buckets, df
      ensures Shape() && removed == Resides(config, old(Contents()), p)
      ensures View() == TableMachine.RemovePeer(config, old(View()), p)
      ensures forall b :: b in buckets ==> b in old(buckets)
    {
      hide Cpl, IndexOf, Collapse, F.Remove, Without, Shape, View, Contents;
      ghost var before := Contents();
      removed := TakeOut(p);
      if removed {
        ForgetInFilter(p);
        CollapseBuckets();
        Notify(PeerRemoved(p));
      } else {
        NothingTaken(before, BucketIndex(config, |before|, config.hash(p)), p);
      }
    }

    method RemovePeer(p: PeerID)
      requires Valid()
      modifies this`buckets, this`events, buckets, df
      ensures Valid() && View() == TableMachine.RemovePeer(config, old(View()), p)
      ensures if Resides(config, old(Contents()), p) then TakenOutAndTidied(old(Contents()), Contents(), p)
              else View() == old(View())
      ensures InStep(old(View())) ==> InStep(View())
      ensures forall b :: b in buckets ==> b in old(buckets)
    {
      hide Cpl, GoodBucket, WithinCapacity, Replay, Matches, ResidentIds, TakenOutAndTidied, RemoveFrom;
      RemovePeerMeetsContract(config, View(), p);
      var removed := DoRemovePeer(p);
    }

    // ---------------------------------------------------------------- updating in place

    /** `info` is the record of the resident `id`. */
    ghost predicate Refers(info: PeerInfo, id: PeerID)
      requires Shape()
      reads this, buckets, records
    {
      var b := buckets[BucketIndex(config, |buckets|, config.hash(id))];
      var k := IndexOf(b.Peers(), id);
      k < |b.list| && info == b.list[k]
    }

    /** getPeer on the bucket of the peer. */
    method Lookup(id: PeerID) returns (info: PeerInfo?)
      requires Shape()
      ensures info == null <==> !Resides(config, Contents(), id)
      ensures info != null ==> Refers(info, id) && info in records && info.Value() == Found(config, Contents(), id)
    {
      hide Cpl, IndexOf;
      info := buckets[BucketIdForPeer(id)].GetPeer(id);
    }

    /** Change the record of a resident through the reference that getPeer returned. */
    method RewriteRecord(info: PeerInfo, id: PeerID, p: Peer)
      requires Shape() && Inv(config, Contents()) && Refers(info, id)
      modifies info
      ensures Shape() && View() == old(View()).(buckets := Rewrite(config, old(Contents()), id, p))
    {
      hide Cpl, GoodBucket, WithinCapacity;
      ghost var bs := Contents();
      ghost var i := BucketIndex(config, |buckets|, config.hash(id));
      ghost var k := IndexOf(bs[i], id);
      forall j, m | 0 <= j < |buckets| && 0 <= m < |buckets[j].list| && (j != i || m != k)
        ensures buckets[j].list[m] != info
      {
        IdsAreDistinct(config, bs, i, k, j, m);
      }
      info.Set(p);
      assert forall j :: 0 <= j < |buckets| && j != i ==> buckets[j].Peers() == bs[j];
      assert buckets[i].Peers() == bs[i][k := p];
    }

    // ---------------------------------------------------------------- adding

    /** The usefulness bump of a resident; it happens at most once. */
    method Bump(info: PeerInfo, r: AddRequest)
      requires Shape() && Inv(config, Contents()) && Refers(info, r.id)
      modifies info
      ensures Shape()
      ensures var bs := old(Contents());
              View() == old(View()).(buckets := Rewrite(config, bs, r.id, Bumped(Found(config, bs, r.id), r)))
    {
      hide Cpl, Inv, View, IndexOf;
      if info.lastUsefulAt == NEVER && r.queryPeer {
        RewriteRecord(info, r.id, info.Value().(lastUsefulAt := r.now));
      } else {
        RewriteSame(config, Contents(), r.id);
      }
    }

    /** Add the new peer first, then remove the one it replaces. */
    method Exchange(i: nat, r: AddRequest, victim: PeerInfo)
      requires Shape() && WellPlaced(config, Contents()) && !Resides(config, Contents(), r.id)
      requires i == BucketIndex(config, |buckets|, config.hash(r.id)) && victim in buckets[i].list
      requires Victim(buckets[i].Peers()) == Some(victim.Value())
      modifies this`buckets, this`events, this`records, buckets, df
      ensures Shape()
      ensures (View(), Added) == Conclude(old(View()), r, Evict(config, old(Contents()), NewPeer(config, r)))
      ensures forall b :: b in buckets ==> b in old(buckets)
      ensures fresh(records - old(records)) && old(records) <= records
    {
      hide Cpl, Shape, View, Contents, GoodBucket, RemoveFrom, F.Remove, IndexOf, Victim;
      VictimResides(config, Contents(), NewPeer(config, r), victim.Value());
      var id := victim.id;
      AddTo(i, NewPeer(config, r));
      var removed := DoRemovePeer(id);
    }

    /** The replaceable peer that `min` finds with the comparison of addPeer, if it is one. */
    method FindVictim(bucket: Bucket) returns (victim: PeerInfo?)
      ensures victim == null ==> Victim(bucket.Peers()) == None
      ensures victim != null ==> victim in bucket.list && Victim(bucket.Peers()) == Some(victim.Value())
    {
      hide Best, Victim;
      var less := (p: Peer, q: Peer) => p.isReplaceable;
      victim := bucket.Min(less);
      if victim == null {
        EmptyHasNoVictim();
      } else {
        BestIsVictim(less, bucket.Peers());
        if !victim.isReplaceable {
          victim := null;
        }
      }
    }

    /** The last resort of addPeer: replace a peer of the bucket, or give up. */
    method EvictFor(r: AddRequest) returns (outcome: AddOutcome)
      requires Shape() && WellPlaced(config, Contents()) && !Resides(config, Contents(), r.id)
      modifies this`buckets, this`events, this`records, buckets, df
      ensures Shape()
      ensures (View(), outcome) == Conclude(old(View()), r, Evict(config, old(Contents()), NewPeer(config, r)))
      ensures forall b :: b in buckets ==> b in old(buckets)
      ensures fresh(records - old(records)) && old(records) <= records
    {
      hide Cpl, Shape, View, Contents, WellPlaced, Resides, RemoveFrom, F.Remove, Victim;
      var i := BucketIdForPeer(r.id);
      var victim := FindVictim(buckets[i]);
      if victim != null {
        Exchange(i, r, victim);
        return Added;
      }
      ForgetInFilter(r.id);
      return NoCapacity;
    }

    /** Push the peer only if its bucket is not full. */
    method FillElseEvict(r: AddRequest) returns (outcome: AddOutcome)
      requires Shape() && WellPlaced(config, Contents()) && !Resides(config, Contents(), r.id)
      modifies this`buckets, this`events, this`records, buckets, df
      ensures Shape()
      ensures (View(), outcome) == Conclude(old(View()), r, FillOrEvict(config, old(Contents()), NewPeer(config, r)))
      ensures forall b :: b in buckets ==> b in old(buckets)
      ensures fresh(records - old(records)) && old(records) <= records
    {
      hide Cpl, Shape, View, Contents, WellPlaced, Resides, Evict;
      var i := BucketIdForPeer(r.id);
      if buckets[i].Len() < config.bucketSize {
        AddTo(i, NewPeer(config, r));
        return Added;
      }
      outcome := EvictFor(r);
    }

    /** addPeer, once nothing speaks against the peer: fill, unfold, evict, or give up. */
    method SeekRoom(r: AddRequest) returns (outcome: AddOutcome)
      requires Shape() && Inv(config, Contents()) && !Resides(config, Contents(), r.id)
      modifies this`buckets, this`events, this`records, buckets, df
      ensures Shape()
      ensures (View(), outcome) == Conclude(old(View()), r, Place(config, old(Contents()), NewPeer(config, r)))
      ensures forall b :: b in buckets ==> b in old(buckets) || fresh(b)
      ensures fresh(records - old(records)) && old(records) <= records
    {
      hide Cpl, Shape, View, Contents, GoodBucket, WithinCapacity, Resides, Evict, FillOrEvict, Conclude, TableSpec.NextBucket;
      var i := BucketIdForPeer(r.id);
      if buckets[i].Len() < config.bucketSize || i < |buckets| - 1 {
        FillIsFirstChoice(config, Contents(), NewPeer(config, r));
        outcome := FillElseEvict(r);
      } else {
        UnfoldingKeeps(config, Contents(), r.id);
        UnfoldIsSecondChoice(config, Contents(), NewPeer(config, r));
        ghost var t := View();
        NextBucket();
        ConcludeIgnoresBuckets(t, Contents(), r, FillOrEvict(config, Contents(), NewPeer(config, r)));
        assert forall j :: 0 <= j < |buckets| ==> buckets[j] in old(buckets) || fresh(buckets[j]);
        outcome := FillElseEvict(r);
      }
    }

    /** Ask the diversity filter, if there is one, and record the peer in it if it agrees. */
    method AdmitToFilter(r: AddRequest) returns (ok: bool)
      requires Shape()
      modifies df
      ensures Shape() && ok == FilterAdmits(old(View()).df, r.id, r.addrs)
      ensures View() == old(View()).(df := if ok then FilterAdd(old(View()).df, r.id, r.addrs) else old(View()).df)
    {
      ok := true;
      if df != null {
        ok := df.TryAdd(r.id, r.addrs);
      }
    }

    /** addPeer for a peer that is not in the table. */
    method AddStranger(r: AddRequest) returns (outcome: AddOutcome)
      requires Shape() && Inv(config, Contents()) && !Resides(config, Contents(), r.id)
      modifies this`buckets, this`events, this`records, buckets, df
      ensures Shape() && (View(), outcome) == AddPeer(config, old(View()), r)
      ensures forall b :: b in buckets ==> b in old(buckets) || fresh(b)
      ensures fresh(records - old(records)) && old(records) <= records
    {
      hide Cpl, Shape, View, Contents, GoodBucket, WithinCapacity, Place, Conclude, FilterAdmits, FilterAdd, Resides;
      if !r.latencyOk {
        return LatencyTooHigh;
      }
      var ok := AdmitToFilter(r);
      if !ok {
        return RejectedByFilter;
      }
      outcome := SeekRoom(r);
    }

    /** addPeer */
    method DoAddPeer(r: AddRequest) returns (outcome: AddOutcome)
      requires Shape() && Inv(config, Contents())
      modifies this`buckets, this`events, this`records, buckets, records, df
      ensures Shape() && (View(), outcome) == AddPeer(config, old(View()), r)
      ensures forall b :: b in buckets ==> b in old(buckets) || fresh(b)
      ensures fresh(records - old(records)) && old(records) <= records
    {
      hide Cpl, Shape, View, Contents, GoodBucket, WithinCapacity, Place, Conclude, Rewrite, Found;
      hide FilterAdmits, FilterAdd, Refers, Resides;
      var info := Lookup(r.id);
      if info == null {
        outcome := AddStranger(r);
      } else {
        Bump(info, r);
        outcome := AlreadyPresent;
      }
    }

    method TryAddPeer(r: AddRequest) returns (outcome: AddOutcome)
      requires Valid()
      modifies this`buckets, this`events, this`records, buckets, records, df
      ensures Valid() && (View(), outcome) == AddPeer(config, old(View()), r)
      ensures AddEffect(config, old(View()), r, View(), outcome)
      ensures InStep(old(View())) ==> InStep(View())
      ensures forall b :: b in buckets ==> b in old(buckets) || fresh(b)
      ensures fresh(records - old(records)) && old(records) <= records
    {
      hide Cpl, Shape, View, Contents, GoodBucket, WithinCapacity, Replay, Matches, AddPeer, AddEffect;
      AddPeerMeetsContract(config, View(), r);
      outcome := DoAddPeer(r);
    }

    // ---------------------------------------------------------------- marking and updating

    /** No record stands in two places. */
    ghost predicate Disjoint()
      reads this, buckets
    {
      && (forall i :: 0 <= i < |buckets| ==> NoAlias(buckets[i].list))
      && (forall i, j, p :: 0 <= i < |buckets| && 0 <= j < |buckets| && p in buckets[i].list && p in buckets[j].list ==> i == j)
    }

    lemma RecordsAreDisjoint()
      requires Shape() && Inv(config, Contents())
      ensures Disjoint()
    {
      hide Cpl, GoodBucket, WithinCapacity;
      ghost var bs := Contents();
      forall i, k, j, m | 0 <= i < |bs| && 0 <= k < |bs[i]| && 0 <= j < |bs| && 0 <= m < |bs[j]| && (i != j || k != m)
        ensures buckets[i].list[k] != buckets[j].list[m]
      {
        IdsAreDistinct(config, bs, i, k, j, m);
      }
    }

    method MarkAllPeersIrreplaceable()
      requires Valid()
      modifies records
      ensures Valid() && View() == MarkAllIrreplaceable(old(View()))
      ensures events == old(events) && SameShape(old(Contents()), Contents())
      ensures forall i, k :: 0 <= i < |Contents()| && 0 <= k < |Contents()[i]| ==>
                               Contents()[i][k] == old(Contents())[i][k].(isReplaceable := false)
    {
      hide Cpl, Shape, View, Contents, GoodBucket, WithinCapacity, Replay, Matches, MarkAllIrreplaceable;
      StepKeepsGood(config, View(), MarkAll);
      MarkAllChanges(View());
      DoMarkAll();
    }

    method DoMarkAll()
      requires Shape() && Inv(config, Contents())
      modifies records
      ensures Shape() && View() == MarkAllIrreplaceable(old(View()))
    {
      hide Cpl, GoodBucket, WithinCapacity, Inv;
      RecordsAreDisjoint();
      ghost var bs := Contents();
      for i := 0 to |buckets|
        invariant forall j :: 0 <= j < |buckets| ==> |buckets[j].Peers()| == |bs[j]|
        invariant forall j :: 0 <= j < i ==> buckets[j].Peers() == Pinned(bs[j])
        invariant forall j :: i <= j < |buckets| ==> buckets[j].Peers() == bs[j]
      {
        MarkBucket(i);
      }
    }

    method MarkBucket(i: nat)
      requires Shape() && Disjoint() && i < |buckets|
      modifies buckets[i].list
      ensures buckets[i].Peers() == Pinned(old(buckets[i].Peers()))
      ensures forall j :: 0 <= j < |buckets| && j != i ==> buckets[j].Peers() == old(buckets[j].Peers())
    {
      forall j, m | 0 <= j < |buckets| && j != i && 0 <= m < |buckets[j].list|
        ensures buckets[j].list[m] !in buckets[i].list
      {
        assert buckets[j].list[m] in buckets[j].list;
      }
      buckets[i].UpdateAllWith(Pin);
    }

    /** UpdateLastUsefulAt */
    method UpdateLastUsefulAt(p: PeerID, t: Time) returns (updated: bool)
      requires Valid()
      modifies records
      ensures Valid() && updated == Resides(config, old(Contents()), p)
      ensures View() == SetLastUseful(config, old(View()), p, t)
      ensures events == old(events) && SameShape(old(Contents()), Contents())
      ensures forall i, k :: 0 <= i < |Contents()| && 0 <= k < |Contents()[i]| ==>
                               var q := old(Contents())[i][k];
                               Contents()[i][k] == if q.id == p then q.(lastUsefulAt := t) else q
    {
      hide Cpl, Shape, View, Contents, GoodBucket, WithinCapacity, Replay, Matches;
      hide Found, Rewrite, Refers, Resides, ResidentIds;
      SettersChange(config, View(), p, t);
      var pc := Lookup(p);
      if pc == null {
        return false;
      }
      SetterKeeps(config, View(), p, pc.Value().(lastUsefulAt := t));
      RewriteRecord(pc, p, pc.Value().(lastUsefulAt := t));
      return true;
    }

    /** UpdateLastSuccessfulOutboundQueryAt */
    method UpdateLastSuccessfulOutboundQueryAt(p: PeerID, t: Time) returns (updated: bool)
      requires Valid()
      modifies records
      ensures Valid() && updated == Resides(config, old(Contents()), p)
      ensures View() == SetLastQuery(config, old(View()), p, t)
      ensures events == old(events) && SameShape(old(Contents()), Contents())
      ensures forall i, k :: 0 <= i < |Contents()| && 0 <= k < |Contents()[i]| ==>
                               var q := old(Contents())[i][k];
                               Contents()[i][k] == if q.id == p then q.(lastQueryAt := t) else q
    {
      hide Cpl, Shape, View, Contents, GoodBucket, WithinCapacity, Replay, Matches;
      hide Found, Rewrite, Refers, Resides, ResidentIds;
      SettersChange(config, View(), p, t);
      var pc := Lookup(p);
      if pc == null {
        return false;
      }
      SetterKeeps(config, View(), p, pc.Value().(lastQueryAt := t));
      RewriteRecord(pc, p, pc.Value().(lastQueryAt := t));
      return true;
    }

    // ---------------------------------------------------------------- queries

    /** UsefulNewPeer. Its answer is that of addPeer, for any request that the latency and the
        filter do not stop. */
    method UsefulNewPeer(p: PeerID) returns (useful: bool)
      requires Valid()
      ensures useful == Useful(config, Contents(), p)
      ensures forall r: AddRequest :: r.id == p && r.latencyOk && FilterAdmits(View().df, r.id, r.addrs) ==>
                                        (useful <==> AddPeer(config, View(), r).1 == Added)
      ensures var z := Cpl(config, config.hash(p));
              useful <==> p !in ResidentIds(Contents()) &&
                          (CountInTable(config, Contents(), z) < config.bucketSize || ReplaceableAt(config, Contents(), z))
    {
      hide ReplaceableAt, CountInTable, Content, Useful;
      hide Cpl, Shape, View, Contents, GoodBucket, WithinCapacity, Replay, Matches, AddPeer, AddEffect, FilterAdmits;
      useful := DoUsefulNewPeer(p);
      UsefulIsByCount(config, Contents(), p);
      forall r: AddRequest | r.id == p && r.latencyOk && FilterAdmits(View().df, r.id, r.addrs)
        ensures useful <==> AddPeer(config, View(), r).1 == Added
      {
        AddPeerMeetsContract(config, View(), r);
      }
    }

    method DoUsefulNewPeer(p: PeerID) returns (useful: bool)
      requires Shape()
      ensures useful == Useful(config, Contents(), p)
    {
      hide Cpl, Shape;
      var bucketID := BucketIdForPeer(p);
      var bucket := buckets[bucketID];
      var resident := bucket.GetPeer(p);
      if resident != null {
        return false;
      }
      if bucket.Len() < config.bucketSize {
        return true;
      }
      var hasReplaceable := SomeReplaceable(bucket);
      if hasReplaceable {
        return true;
      }
      if bucketID == |buckets| - 1 {
        useful := SomeOtherCpl(bucket, Cpl(config, config.hash(p)));
        return useful;
      }
      return false;
    }

    method SomeReplaceable(bucket: Bucket) returns (found: bool)
      ensures found <==> exists q :: q in bucket.Peers() && q.isReplaceable
    {
      for i := 0 to |bucket.list|
        invariant forall j :: 0 <= j < i ==> !bucket.Peers()[j].isReplaceable
      {
        if bucket.list[i].isReplaceable {
          assert bucket.Peers()[i] in bucket.Peers();
          return true;
        }
      }
      return false;
    }

    method SomeOtherCpl(bucket: Bucket, cpl: nat) returns (found: bool)
      ensures found <==> exists q :: q in bucket.Peers() && Cpl(config, q.dhtId) != cpl
    {
      hide Cpl;
      for i := 0 to |bucket.list|
        invariant forall j :: 0 <= j < i ==> Cpl(config, bucket.Peers()[j].dhtId) == cpl
      {
        if Cpl(config, bucket.list[i].dhtId) != cpl {
          assert bucket.Peers()[i] in bucket.Peers();
          return true;
        }
      }
      return false;
    }

    /** Size: the number of residents. */
    method Size() returns (tot: nat)
      requires Valid()
      ensures tot == |Content(Contents())| <= config.bucketSize * 257
    {
      hide Cpl, GoodBucket, WithinCapacity, View, Replay, Matches;
      ghost var bs := Contents();
      tot := 0;
      for i := 0 to |buckets|
        invariant tot == Total(bs[..i])
      {
        assert bs[..i + 1][..i] == bs[..i];
        tot := tot + buckets[i].Len();
      }
      assert bs[..|buckets|] == bs;
      TotalIsContentSize(bs);
      SizeIsBounded(config, bs);
    }

    /** ListPeers: every resident once. */
    method ListPeers() returns (peers: seq<PeerID>)
      requires Valid()
      ensures forall id :: id in peers <==> id in ResidentIds(Contents())
      ensures |peers| == |ResidentIds(Contents())|
    {
      hide Cpl, GoodBucket, WithinCapacity, View, Replay, Matches;
      ghost var bs := Contents();
      peers := [];
      for i := 0 to |buckets|
        invariant peers == ListedIds(bs[..i])
      {
        assert bs[..i + 1][..i] == bs[..i];
        var ids := buckets[i].PeerIds();
        assert ids == Ids(bs[i]);
        peers := peers + ids;
      }
      assert bs[..|buckets|] == bs;
      ListedIdsAreResidents(config, bs);
    }

    /** GetPeerInfos: a copy of every record, and each of them once. */
    method GetPeerInfos() returns (pis: seq<Peer>)
      requires Valid()
      ensures multiset(pis) == Content(Contents())
    {
      hide Cpl, GoodBucket, WithinCapacity, View, Replay, Matches;
      ghost var bs := Contents();
      pis := [];
      assert bs[..0] == [];
      for i := 0 to |buckets|
        invariant multiset(pis) == Content(bs[..i])
      {
        assert bs[..i + 1][..i] == bs[..i];
        pis := pis + buckets[i].Peers();
      }
      assert bs[..|buckets|] == bs;
    }

    /** NPeersForCpl, for a prefix length that the conversion to int keeps: how many residents
        share exactly `cpl` bits with the local identifier. */
    method NPeersForCpl(cpl: nat) returns (count: nat)
      requires Valid() && cpl < 0x8000_0000_0000_0000
      ensures count == CountInTable(config, Contents(), cpl) <= config.bucketSize
    {
      hide Cpl, GoodBucket, WithinCapacity, View, Replay, Matches;
      PeersForCplIsExact(config, Contents(), cpl);
      if cpl >= |buckets| - 1 {
        count := 0;
        var peers := buckets[|buckets| - 1].Peers();
        for i := 0 to |peers|
          invariant count == CountAt(config, peers[..i], cpl)
        {
          assert peers[..i + 1][..i] == peers[..i];
          if Cpl(config, peers[i].dhtId) == cpl {
            count := count + 1;
          }
        }
        assert peers[..|peers|] == peers;
      } else {
        count := buckets[cpl].Len();
      }
    }

    /** maxCommonPrefix: the longest prefix any resident shares with the local identifier. */
    method MaxCommonPrefix() returns (m: nat)
      requires Valid()
      ensures forall p :: p in Content(Contents()) ==> Cpl(config, p.dhtId) <= m
      ensures Content(Contents()) != multiset{} ==> exists p :: p in Content(Contents()) && Cpl(config, p.dhtId) == m
      ensures Content(Contents()) == multiset{} ==> m == 0
      ensures m == LongestPrefix(config, Contents())
    {
      hide Cpl, GoodBucket, WithinCapacity, View, Replay, Matches, Content, LongestIn;
      ghost var bs := Contents();
      LongestPrefixIsMax(config, bs);
      var i := |buckets|;
      assert bs[..i] == bs;
      while i > 0
        invariant 0 <= i <= |buckets| && LongestPrefix(config, bs[..i]) == LongestPrefix(config, bs)
      {
        i := i - 1;
        assert bs[..i + 1][..i] == bs[..i];
        if buckets[i].Len() > 0 {
          m := buckets[i].MaxCommonPrefix(config);
          return;
        }
      }
      return 0;
    }

    /** GetTrackedCplsForRefresh: a slot for every prefix length up to the longest of any
        resident, but no more than can be generated for. */
    method GetTrackedCplsForRefresh() returns (cpls: seq<Time>)
      requires Valid()
      ensures var longest := LongestPrefix(config, Contents());
              |cpls| == 1 + if longest < 15 then longest else 15
      ensures forall z :: 0 <= z < |cpls| ==> cpls[z] == if z in cplRefreshedAt then cplRefreshedAt[z] else NEVER
    {
      hide Cpl, Valid, Shape, View, Contents, LongestPrefix, Content;
      var maxCommonPrefix := MaxCommonPrefix();
      if maxCommonPrefix > MAX_CPL {
        maxCommonPrefix := MAX_CPL;
      }
      cpls := [];
      for i := 0 to maxCommonPrefix + 1
        invariant |cpls| == i && forall z :: 0 <= z < i ==> cpls[z] == if z in cplRefreshedAt then cplRefreshedAt[z] else NEVER
      {
        cpls := cpls + [if i in cplRefreshedAt then cplRefreshedAt[i] else NEVER];
      }
    }

    method ResetCplRefreshedAtForID(id: Target, newTime: Time)
      requires Valid()
      modifies this`cplRefreshedAt
      ensures Valid() && View() == old(View())
      ensures cplRefreshedAt == ResetOne(config, old(cplRefreshedAt), Reset(id, newTime))
      ensures var z := SharedBits(id, config.local);
              cplRefreshedAt == if z <= 15 then old(cplRefreshedAt)[z := newTime] else old(cplRefreshedAt)
    {
      hide Sound, Shape, View;
      var cpl := SharedBits(id, config.local);
      if cpl > MAX_CPL {
        return;
      }
      SetRefreshedAt(cpl, newTime);
    }

    method SetRefreshedAt(cpl: nat, newTime: Time)
      requires Shape()
      modifies this`cplRefreshedAt
      ensures Shape() && View() == old(View())
      ensures cplRefreshedAt == old(cplRefreshedAt)[cpl := newTime]
    {
      cplRefreshedAt := cplRefreshedAt[cpl := newTime];
    }

    // ---------------------------------------------------------------- the nearest peers

    /** Append one bucket to the candidates. */
    method AppendBucket(pds: PeerDistanceSorter, i: nat, ghost pool: seq<Peer>) returns (ghost larger: seq<Peer>)
      requires Shape() && i < |buckets| && pds.Valid() && pds.peers == Mapped(Entry(pds.target), pool)
      modifies pds
      ensures Shape() && Contents() == old(Contents()) && pds.Valid()
      ensures larger == pool + Contents()[i] && pds.peers == Mapped(Entry(pds.target), larger)
    {
      pds.AppendPeersFromList(buckets[i]);
      larger := pool + Contents()[i];
      MappedConcat(Entry(pds.target), pool, Contents()[i]);
    }

    /** Append all buckets to the right of `cpl`. */
    method AppendRight(pds: PeerDistanceSorter, cpl: nat, ghost pool: seq<Peer>) returns (ghost larger: seq<Peer>)
      requires Shape() && cpl < |buckets| && pds.Valid() && pds.peers == Mapped(Entry(pds.target), pool)
      requires pool == Contents()[cpl]
      modifies pds
      ensures Shape() && Contents() == old(Contents()) && pds.Valid() && pds.peers == Mapped(Entry(pds.target), larger)
      ensures multiset(larger) == Content(Contents()[cpl..])
    {
      hide Shape, Contents, Content, Entry;
      ghost var bs := Contents();
      larger := pool;
      SuffixOfOne(bs, cpl);
      for i := cpl + 1 to |buckets|
        invariant Shape() && Contents() == bs && pds.Valid() && pds.peers == Mapped(Entry(pds.target), larger)
        invariant multiset(larger) == Content(bs[cpl..i])
      {
        SuffixSnoc(bs, cpl, i, larger);
        larger := AppendBucket(pds, i, larger);
      }
      assert bs[cpl..|buckets|] == bs[cpl..];
    }

    /** Append buckets to the left of `cpl`, one by one, while there are too few candidates. */
    method AppendLeft(pds: PeerDistanceSorter, cpl: nat, count: nat, ghost pool: seq<Peer>)
      returns (ghost i: nat, ghost larger: seq<Peer>)
      requires Shape() && cpl < |buckets| && pds.Valid() && pds.peers == Mapped(Entry(pds.target), pool)
      requires multiset(pool) == Content(Contents()[cpl..])
      modifies pds
      ensures Shape() && Contents() == old(Contents()) && pds.Valid() && pds.peers == Mapped(Entry(pds.target), larger)
      ensures i <= cpl && multiset(larger) == Content(Contents()[i..]) && (i == 0 || |larger| >= count)
    {
      hide Shape, Contents, Content, Entry;
      ghost var bs := Contents();
      larger := pool;
      var j := cpl;
      while j > 0 && |pds.peers| < count
        invariant 0 <= j <= cpl
        invariant Shape() && Contents() == bs && pds.Valid() && pds.peers == Mapped(Entry(pds.target), larger)
        invariant multiset(larger) == Content(bs[j..])
      {
        j := j - 1;
        SuffixCons(bs, j, larger);
        larger := AppendBucket(pds, j, larger);
      }
      i := j;
    }

    /** The part of NearestPeers that collects candidates, bucket by bucket, until there are
        enough of them. */
    method CollectNearest(id: Target, count: nat) returns (pds: PeerDistanceSorter, ghost pool: seq<Peer>)
      requires Shape() && WellPlaced(config, Contents())
      ensures fresh(pds) && pds.Valid() && pds.target == id
      ensures pds.peers == Mapped(Entry(id), pool)
      ensures Sufficient(id, Content(Contents()), count, multiset(pool))
    {
      hide Cpl, Shape, Contents, WellPlaced, Sufficient, Entry, Content;
      ghost var bs := Contents();
      var cpl := SharedBits(id, config.local);
      if cpl >= |buckets| {
        cpl := |buckets| - 1;
      }
      pds := new PeerDistanceSorter(id);
      pool := AppendBucket(pds, cpl, []);
      assert pool == bs[cpl];
      if |pds.peers| < count {
        pool := AppendRight(pds, cpl, pool);
        ghost var i;
        i, pool := AppendLeft(pds, cpl, count, pool);
        assert |Content(bs[i..])| == |pool|;
        SuffixSuffices(config, bs, id, count, i);
      } else {
        StartBucketSuffices(config, bs, id, count);
      }
    }

    /** NearestPeers: the `count` residents nearest to the key, in ascending distance. */
    method NearestPeers(id: Target, count: nat) returns (out: seq<PeerID>)
      requires Valid()
      ensures NearestAnswer(id, Content(Contents()), count, out)
    {
      hide Cpl, Shape, View, Contents, GoodBucket, WithinCapacity, Replay, Matches, Sufficient, Nearest, Entry, Content;
      var pds; ghost var pool;
      pds, pool := CollectNearest(id, count);
      pds.Sort();
      ghost var sorted := SortedEntriesAreSortedPeers(id, pool, pds.peers);
      SortedPoolAnswers(id, Content(Contents()), count, sorted);
      var peers := pds.peers;
      if count < |peers| {
        peers := peers[..count];
      }
      ghost var chosen := if count < |sorted| then sorted[..count] else sorted;
      MappedCut(Entry(id), sorted, count);
      out := IdsOfEntries(id, peers, chosen);
    }

    /** NearestPeer: the empty id if the table is empty. */
    method NearestPeer(id: Target) returns (p: PeerID)
      requires Valid()
      ensures Content(Contents()) == multiset{} ==> p == []
      ensures Content(Contents()) != multiset{} ==>
                exists q :: IsNearest(id, Content(Contents()), q) && q.id == p
    {
      hide Cpl, Shape, View, Contents, GoodBucket, WithinCapacity, Replay, Matches, Nearest, Content;
      var peers := NearestPeers(id, 1);
      NearestOne(id, Content(Contents()), peers);
      if |peers| > 0 {
        return peers[0];
      }
      return [];
    }

    /** Find: the id itself if it is found, else the empty id. A resident can be missed only if
        another resident has the same hash. */
    method Find(id: PeerID) returns (p: PeerID)
      requires Valid()
      ensures p == [] || (p == id && id in ResidentIds(Contents()))
      ensures id in ResidentIds(Contents()) && OnlyOneHashes(config, Contents(), id) ==> p == id
    {
      hide Cpl, Shape, View, Contents, GoodBucket, WithinCapacity, Replay, Matches, Nearest, Content;
      var srch := NearestPeers(config.hash(id), 1);
      NearestOne(config.hash(id), Content(Contents()), srch);
      NearestToOwnHash(config, Contents(), id);
      if |srch| == 0 || srch[0] != id {
        return [];
      }
      return srch[0];
    }
  }

  /** Unless the peer belongs in a full wildcard, nothing has to be unfolded. */
  lemma FillIsFirstChoice(c: Config, bs: Buckets, p: Peer)
    requires |bs| >= 1
    requires |bs[BucketIndex(c, |bs|, p.dhtId)]| < c.bucketSize || BucketIndex(c, |bs|, p.dhtId) < |bs| - 1
    ensures Place(c, bs, p) == FillOrEvict(c, bs, p)
  {
  }

  lemma UnfoldIsSecondChoice(c: Config, bs: Buckets, p: Peer)
    requires |bs| >= 1 && |bs[|bs| - 1]| >= c.bucketSize && BucketIndex(c, |bs|, p.dhtId) == |bs| - 1
    ensures Place(c, bs, p) == FillOrEvict(c, TableSpec.NextBucket(c, bs), p)
  {
  }

  lemma EmptyHasNoVictim()
    ensures Victim([]) == None
  {
  }

  lemma ConcludeIgnoresBuckets(t: Table, bs: Buckets, r: AddRequest, placement: Placement)
    ensures Conclude(t.(buckets := bs), r, placement) == Conclude(t, r, placement)
  {
  }

  lemma RewriteSame(c: Config, bs: Buckets, id: PeerID)
    requires |bs| >= 1 && Resides(c, bs, id)
    ensures Rewrite(c, bs, id, Found(c, bs, id)) == bs
  {
    hide Cpl, IndexOf;
    var i := BucketIndex(c, |bs|, c.hash(id));
    var k := IndexOf(bs[i], id);
    assert bs[i][k := bs[i][k]] == bs[i];
  }

  /** A peer of the bucket is still found there after a newcomer has been pushed. */
  lemma VictimResides(c: Config, bs: Buckets, p: Peer, v: Peer)
    requires WellPlaced(c, bs) && p.dhtId == c.hash(p.id) && !Resides(c, bs, p.id)
    requires v in bs[BucketIndex(c, |bs|, p.dhtId)]
    ensures Resides(c, Push(bs, BucketIndex(c, |bs|, p.dhtId), p), v.id)
  {
  }

  lemma NothingTaken(bs: Buckets, i: nat, id: PeerID)
    requires i < |bs| && !Holds(bs[i], id)
    ensures bs[i := Without(bs[i], id)] == bs
  {
  }
}
