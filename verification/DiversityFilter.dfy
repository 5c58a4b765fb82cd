/**
  The Filter of peerdiversity/filter.go as an object. Its methods change the maps entry by
  entry, as the source does; FilterSpec says what they add up to.
 */
module DiversityFilter {
  import opened Peers
  import opened FilterSpec

  datatype CplDiversityStats = CplDiversityStats(cpl: int, peers: map<PeerID, seq<GroupKey>>)

  class Filter {
    const cplOf: PeerID -> int
    var peerGroups: map<PeerID, seq<GroupInfo>>
    var wlpeers: set<PeerID>
    var cplPeerGroups: CplGroups
    /** The calls made to the caller's PeerIPGroupFilter so far. */
    var calls: seq<PgmCall>

    function State(): FilterState
      reads this
    {
      FilterState(cplOf, peerGroups, cplPeerGroups, wlpeers, calls)
    }

    /** NewFilter */
    constructor (cplOf: PeerID -> int)
      ensures State() == EmptyFilter(cplOf) && this.cplOf == cplOf
      ensures peerGroups == map[] && wlpeers == {} && cplPeerGroups == map[] && calls == []
    {
      this.cplOf := cplOf;
      peerGroups, wlpeers, cplPeerGroups, calls := map[], {}, map[], [];
    }

    method Remove(p: PeerID)
      modifies this
      ensures State() == FilterSpec.Remove(old(State()), p)
      ensures peerGroups == old(peerGroups) - {p} && wlpeers == old(wlpeers)
      ensures var groups := GetOr(old(peerGroups), p, []);
              calls == old(calls) + seq(|groups|, i requires 0 <= i < |groups| => Decrement(groups[i]))
    {
      var cpl := cplOf(p);
      var groups := GetOr(peerGroups, p, []);
      for i := 0 to |groups|
        invariant State() == old(State()).(calls := old(calls) + Decrements(groups[..i]))
      {
        calls := calls + [Decrement(groups[i])];
        assert Decrements(groups[..i + 1]) == Decrements(groups[..i]) + [Decrement(groups[i])];
      }
      assert groups[..|groups|] == groups;
      peerGroups := peerGroups - {p};
      if cpl in cplPeerGroups {
        cplPeerGroups := cplPeerGroups[cpl := cplPeerGroups[cpl] - {p}];
      }
      if cpl !in cplPeerGroups || cplPeerGroups[cpl] == map[] {
        cplPeerGroups := cplPeerGroups - {cpl};
      }
    }

    method TryAdd(p: PeerID, addrs: seq<Address>) returns (ok: bool)
      modifies this
      ensures ok <==> p in old(wlpeers) || (addrs != [] && forall i :: 0 <= i < |addrs| ==>
                                                                  addrs[i].InGroup? && addrs[i].key != [] && addrs[i].allowed)
      ensures ok == Admits(old(State()), p, addrs) && State() == FilterSpec.TryAdd(old(State()), p, addrs)
      ensures !ok || p in old(wlpeers) ==> State() == old(State())
      ensures ok && p !in old(wlpeers) ==> Recorded(old(State()), State(), p, addrs)
    {
      hide Recorded, FilterSpec.RecordAll, GroupsOf;
      TryAddRecords(State(), p, addrs);
      if p in wlpeers {
        return true;
      }
      if |addrs| == 0 {
        return false;
      }
      var groups;
      ok, groups := CollectGroups(p, addrs);
      if ok {
        AddGroups(p, cplOf(p), groups);
      }
    }

    /** The first loop of TryAdd: give up at the first address that does not count. */
    method CollectGroups(p: PeerID, addrs: seq<Address>) returns (ok: bool, groups: seq<GroupInfo>)
      ensures ok <==> forall i :: 0 <= i < |addrs| ==> Countable(addrs[i])
      ensures ok ==> groups == GroupsOf(State(), p, addrs)
    {
      var cpl := cplOf(p);
      groups := [];
      for i := 0 to |addrs|
        invariant forall j :: 0 <= j < i ==> Countable(addrs[j])
        invariant groups == GroupsOf(State(), p, addrs[..i])
      {
        if addrs[i].NoIP? || |addrs[i].key| == 0 {
          return false, [];
        }
        if !addrs[i].allowed {
          return false, [];
        }
        groups := groups + [GroupInfo(p, cpl, addrs[i].key)];
      }
      assert addrs[..|addrs|] == addrs;
      return true, groups;
    }

    /** The second loop of TryAdd. */
    method AddGroups(p: PeerID, cpl: int, groups: seq<GroupInfo>)
      requires groups != [] && forall g :: g in groups ==> g.id == p && g.cpl == cpl
      modifies this
      ensures State() == RecordAll(old(State()), groups)
    {
      if cpl !in cplPeerGroups {
        cplPeerGroups := cplPeerGroups[cpl := map[]];
      }
      AddGroup(p, cpl, groups[0]);
      ghost var before := old(State());
      assert groups[..1][..0] == [] && groups[..1][0] == groups[0];
      for i := 1 to |groups|
        invariant cpl in cplPeerGroups
        invariant State() == RecordAll(before, groups[..i])
      {
        assert groups[..i + 1][..i] == groups[..i];
        AddGroup(p, cpl, groups[i]);
      }
      assert groups[..|groups|] == groups;
    }

    /** One round of the recording loop: count the group, and list it in both maps. */
    method AddGroup(p: PeerID, cpl: int, g: GroupInfo)
      requires g.id == p && g.cpl == cpl && cpl in cplPeerGroups
      modifies this
      ensures State() == Record(old(State()), g)
    {
      calls := calls + [Increment(g)];
      peerGroups := peerGroups[p := GetOr(peerGroups, p, []) + [g]];
      var slot := cplPeerGroups[cpl];
      cplPeerGroups := cplPeerGroups[cpl := slot[p := GetOr(slot, p, []) + [g.key]]];
    }

    method WhitelistPeers(peers: seq<PeerID>)
      modifies this
      ensures State() == Whitelist(old(State()), set p | p in peers)
      ensures State() == old(State()).(whitelisted := old(wlpeers) + set p | p in peers)
    {
      for i := 0 to |peers|
        invariant State() == Whitelist(old(State()), set p | p in peers[..i])
      {
        wlpeers := wlpeers + {peers[i]};
        assert peers[..i + 1] == peers[..i] + [peers[i]];
      }
      assert peers[..|peers|] == peers;
    }

    method GetDiversityStats() returns (stats: seq<CplDiversityStats>)
      ensures Ascend(stats)
      ensures forall z :: z in cplPeerGroups <==> exists s :: s in stats && s.cpl == z
      ensures forall s :: s in stats ==> s.cpl in cplPeerGroups && s.peers == cplPeerGroups[s.cpl]
    {
      var sortedCpls := SortedKeys(cplPeerGroups);
      stats := [];
      for i := 0 to |sortedCpls|
        invariant |stats| == i
        invariant forall j :: 0 <= j < i ==> stats[j] == CplDiversityStats(sortedCpls[j], cplPeerGroups[sortedCpls[j]])
      {
        var ps := CopyOf(cplPeerGroups[sortedCpls[i]]);
        stats := stats + [CplDiversityStats(sortedCpls[i], ps)];
      }
      forall z | z in cplPeerGroups
        ensures exists s :: s in stats && s.cpl == z
      {
        var j :| 0 <= j < |sortedCpls| && sortedCpls[j] == z;
        assert stats[j] in stats;
      }
    }
  }

  ghost predicate Ascend(stats: seq<CplDiversityStats>)
  {
    forall i, j :: 0 <= i < j < |stats| ==> stats[i].cpl < stats[j].cpl
  }

  /** The copy loop over a map, in whatever order its entries come. */
  method CopyOf(m: map<PeerID, seq<GroupKey>>) returns (copy: map<PeerID, seq<GroupKey>>)
    ensures copy == m
  {
    copy := map[];
    var rest := m.Keys;
    while rest != {}
      invariant rest <= m.Keys && copy.Keys == m.Keys - rest
      invariant forall p :: p in copy ==> copy[p] == m[p]
      decreases rest
    {
      var p :| p in rest;
      copy := copy[p := m[p]];
      rest := rest - {p};
    }
  }

  ghost predicate StrictlyAscending(s: seq<int>)
  {
    forall i, j :: 0 <= i < j < |s| ==> s[i] < s[j]
  }

  /** The part of `s` below `z`, and the part above it. */
  method SplitAt(s: seq<int>, z: int) returns (i: nat)
    requires StrictlyAscending(s) && z !in s
    ensures i <= |s| && (forall j :: 0 <= j < i ==> s[j] < z) && (forall j :: i <= j < |s| ==> z < s[j])
  {
    i := 0;
    while i < |s| && s[i] < z
      invariant i <= |s|
      invariant forall j :: 0 <= j < i ==> s[j] < z
    {
      i := i + 1;
    }
    if i < |s| {
      assert s[i] != z;
    }
  }

  method InsertAscending(s: seq<int>, z: int) returns (r: seq<int>)
    requires StrictlyAscending(s) && z !in s
    ensures StrictlyAscending(r)
    ensures forall x :: x in r <==> x in s || x == z
  {
    var i := SplitAt(s, z);
    var low, high := s[..i], s[i..];
    r := low + [z] + high;
    assert s == low + high;
    assert forall x :: x in s <==> x in low || x in high;
  }

  lemma SomeMember<T>(s: set<T>) returns (x: T)
    requires s != {}
    ensures x in s
  {
    x :| x in s;
  }

  /** The keys of the map, collected in whatever order they come, then sort.Ints. */
  method SortedKeys(m: CplGroups) returns (keys: seq<int>)
    ensures StrictlyAscending(keys)
    ensures forall i :: 0 <= i < |keys| ==> keys[i] in m
    ensures forall z :: z in m ==> z in keys
  {
    keys := [];
    var rest: set<int> := m.Keys;
    while rest != {}
      invariant rest <= m.Keys
      invariant StrictlyAscending(keys)
      invariant forall z :: z in keys <==> z in m.Keys - rest
      decreases rest
    {
      ghost var member := SomeMember(rest);
      var z: int :| z in rest;
      keys := InsertAscending(keys, z);
      rest := rest - {z};
    }
    assert forall i :: 0 <= i < |keys| ==> keys[i] in keys;
  }

  // ------------------------------------------------------------------ runs of the filter alone

  datatype FilterOp =
    | Admit(id: PeerID, addrs: seq<Address>)
    | Drop(id: PeerID)
    | AlwaysAllow(ids: set<PeerID>)

  function FilterStep(f: FilterState, op: FilterOp): FilterState
  {
    match op
    case Admit(id, addrs) => FilterSpec.TryAdd(f, id, addrs)
    case Drop(id) => FilterSpec.Remove(f, id)
    case AlwaysAllow(ids) => Whitelist(f, ids)
  }

  function FilterRun(f: FilterState, ops: seq<FilterOp>): FilterState
  {
    if ops == [] then f else FilterStep(FilterRun(f, ops[..|ops| - 1]), ops[|ops| - 1])
  }

  lemma EmptyFilterIsBalanced(cplOf: PeerID -> int)
    ensures FilterInv(EmptyFilter(cplOf))
  {
  }

  /** Over any run of additions, removals and whitelistings, in any order and with peers added
      twice, the counters match the records and the two maps agree. */
  lemma {:induction false} FilterRunIsBalanced(cplOf: PeerID -> int, ops: seq<FilterOp>)
    ensures FilterInv(FilterRun(EmptyFilter(cplOf), ops))
  {
    hide FilterInv, FilterSpec.TryAdd, FilterSpec.Remove, Whitelist;
    if ops == [] {
      EmptyFilterIsBalanced(cplOf);
    } else {
      var front := ops[..|ops| - 1];
      FilterRunIsBalanced(cplOf, front);
      var f := FilterRun(EmptyFilter(cplOf), front);
      match ops[|ops| - 1] {
        case Admit(id, addrs) => TryAddKeeps(f, id, addrs);
        case Drop(id) => RemoveKeeps(f, id);
        case AlwaysAllow(ids) => WhitelistKeeps(f, ids);
      }
    }
  }

  /** What the statistics list: every recorded peer once, under its own prefix length. */
  lemma StatsListRecords(f: FilterState, stats: seq<CplDiversityStats>, id: PeerID)
    requires FilterInv(f) && Ascend(stats)
    requires forall z :: z in f.cplPeerGroups <==> exists s :: s in stats && s.cpl == z
    requires forall s :: s in stats ==> s.cpl in f.cplPeerGroups && s.peers == f.cplPeerGroups[s.cpl]
    ensures id in f.peerGroups <==> exists s :: s in stats && id in s.peers
    ensures forall s :: s in stats && id in s.peers ==> s.cpl == f.cplOf(id) && s.peers[id] == Keys(f.peerGroups[id])
  {
    forall s | s in stats && id in s.peers
      ensures s.cpl == f.cplOf(id) && id in f.peerGroups && s.peers[id] == Keys(f.peerGroups[id])
    {
      assert Listed(f.cplPeerGroups, s.cpl, id) == s.peers[id] != [];
      assert Listed(f.cplPeerGroups, s.cpl, id) == ExpectedListing(f, s.cpl, id);
    }
    if id in f.peerGroups {
      var z := f.cplOf(id);
      assert Listed(f.cplPeerGroups, z, id) == ExpectedListing(f, z, id) == Keys(f.peerGroups[id]);
      assert |Keys(f.peerGroups[id])| > 0;
      var s :| s in stats && s.cpl == z;
    }
  }
}
