/**
  The bookkeeping of peerdiversity/filter.go as a value: two redundant maps, the whitelist,
  and the calls made to the caller's PeerIPGroupFilter.
 */
module FilterSpec {
  import opened Peers

  /** PeerIPGroupKey, a string of bytes. */
  type GroupKey = seq<bv8>

  datatype GroupInfo = GroupInfo(id: PeerID, cpl: int, key: GroupKey)

  /** One address of a peer, as a call of TryAdd finds it: no IP can be read from it, or it has
      an IP group (empty if none can be determined) that the caller's Allow accepts or not. */
  datatype Address = NoIP | InGroup(key: GroupKey, allowed: bool)

  datatype PgmCall = Increment(info: GroupInfo) | Decrement(info: GroupInfo)

  type CplGroups = map<int, map<PeerID, seq<GroupKey>>>

  datatype FilterState = FilterState(
    cplOf: PeerID -> int,
    peerGroups: map<PeerID, seq<GroupInfo>>,
    cplPeerGroups: CplGroups,
    whitelisted: set<PeerID>,
    calls: seq<PgmCall>)

  predicate Countable(a: Address)
  {
    a.InGroup? && a.key != [] && a.allowed
  }

  /** At least one address, and all of them have a group that Allow accepts. */
  predicate AllCount(addrs: seq<Address>)
  {
    addrs != [] && forall i :: 0 <= i < |addrs| ==> Countable(addrs[i])
  }

  /** Does TryAdd return true? */
  predicate Admits(f: FilterState, id: PeerID, addrs: seq<Address>)
  {
    id in f.whitelisted || AllCount(addrs)
  }

  function GroupsOf(f: FilterState, id: PeerID, addrs: seq<Address>): (gs: seq<GroupInfo>)
    ensures |gs| == |addrs|
    ensures forall g :: g in gs ==> g.id == id && g.cpl == f.cplOf(id)
  {
    seq(|addrs|, i requires 0 <= i < |addrs| =>
          GroupInfo(id, f.cplOf(id), if addrs[i].InGroup? then addrs[i].key else []))
  }

  function Keys(gs: seq<GroupInfo>): (ks: seq<GroupKey>)
    ensures |ks| == |gs|
  {
    seq(|gs|, i requires 0 <= i < |gs| => gs[i].key)
  }

  function GetOr<K, V>(m: map<K, V>, k: K, v: V): V
  {
    if k in m then m[k] else v
  }

  /** One round of the recording loop of TryAdd. */
  function Record(f: FilterState, g: GroupInfo): FilterState
  {
    var slot := GetOr(f.cplPeerGroups, g.cpl, map[]);
    f.(peerGroups := f.peerGroups[g.id := GetOr(f.peerGroups, g.id, []) + [g]],
    cplPeerGroups := f.cplPeerGroups[g.cpl := slot[g.id := GetOr(slot, g.id, []) + [g.key]]],
    calls := f.calls + [Increment(g)])
  }

  function RecordAll(f: FilterState, gs: seq<GroupInfo>): FilterState
  {
    if gs == [] then f else Record(RecordAll(f, gs[..|gs| - 1]), gs[|gs| - 1])
  }

  function TryAdd(f: FilterState, id: PeerID, addrs: seq<Address>): FilterState
  {
    if id in f.whitelisted || !Admits(f, id, addrs) then f
    else RecordAll(f, GroupsOf(f, id, addrs))
  }

  function Decrements(gs: seq<GroupInfo>): (cs: seq<PgmCall>)
    ensures |cs| == |gs|
  {
    seq(|gs|, i requires 0 <= i < |gs| => Decrement(gs[i]))
  }

  function DropFromSlot(m: CplGroups, cpl: int, id: PeerID)
    : CplGroups
  {
    var slot := GetOr(m, cpl, map[]) - {id};
    if slot == map[] then m - {cpl} else m[cpl := slot]
  }

  /** Filter.Remove */
  function Remove(f: FilterState, id: PeerID): FilterState
  {
    f.(peerGroups := f.peerGroups - {id},
    cplPeerGroups := DropFromSlot(f.cplPeerGroups, f.cplOf(id), id),
    calls := f.calls + Decrements(GetOr(f.peerGroups, id, [])))
  }

  function Whitelist(f: FilterState, ids: set<PeerID>): FilterState
  {
    f.(whitelisted := f.whitelisted + ids)
  }

  // ------------------------------------------------------------------ the invariant

  /** Increments minus decrements of one group. */
  function Net(calls: seq<PgmCall>, g: GroupInfo): int
  {
    if calls == [] then 0
    else
      Net(calls[..|calls| - 1], g)
      + if calls[|calls| - 1] == Increment(g) then 1
        else if calls[|calls| - 1] == Decrement(g) then -1
        else 0
  }

  function Count(gs: seq<GroupInfo>, g: GroupInfo): nat
  {
    multiset(gs)[g]
  }

  /** Every record stands under its own peer and the prefix length of that peer. */
  ghost predicate Labelled(f: FilterState)
  {
    forall id :: id in f.peerGroups ==>
                   && f.peerGroups[id] != []
                   && forall g :: g in f.peerGroups[id] ==> g.id == id && g.cpl == f.cplOf(id)
  }

  /** The groups listed for a peer under a prefix length; none if it is not listed there. */
  function Listed(m: CplGroups, z: int, id: PeerID): seq<GroupKey>
  {
    GetOr(GetOr(m, z, map[]), id, [])
  }

  function ExpectedListing(f: FilterState, z: int, id: PeerID): seq<GroupKey>
  {
    if f.cplOf(id) == z then Keys(GetOr(f.peerGroups, id, [])) else []
  }

  /** No prefix length and no peer is listed without groups. */
  ghost predicate Tight(m: CplGroups)
  {
    forall z :: z in m ==> m[z] != map[] && forall id :: id in m[z] ==> m[z][id] != []
  }

  /** cplPeerGroups is peerGroups regrouped by prefix length, without empty slots. */
  ghost predicate Regrouped(f: FilterState)
  {
    && Tight(f.cplPeerGroups)
    && forall z, id :: Listed(f.cplPeerGroups, z, id) == ExpectedListing(f, z, id)
  }

  /** The caller's counters agree with what is recorded. */
  ghost predicate Balanced(f: FilterState)
  {
    forall g :: Net(f.calls, g) == Count(GetOr(f.peerGroups, g.id, []), g)
  }

  ghost predicate FilterInv(f: FilterState)
  {
    Labelled(f) && Regrouped(f) && Balanced(f)
  }

  function EmptyFilter(cplOf: PeerID -> int): FilterState
  {
    FilterState(cplOf, map[], map[], {}, [])
  }

  // ------------------------------------------------------------------ proofs

  lemma RecordKeepsRegrouped(f: FilterState, g: GroupInfo)
    requires Regrouped(f) && g.cpl == f.cplOf(g.id)
    ensures Regrouped(Record(f, g))
  {
    var f' := Record(f, g);
    forall z, id
      ensures Listed(f'.cplPeerGroups, z, id) == ExpectedListing(f', z, id)
    {
      assert Listed(f.cplPeerGroups, z, id) == ExpectedListing(f, z, id);
      if id == g.id && z == g.cpl {
        assert Keys(f'.peerGroups[id]) == Keys(GetOr(f.peerGroups, id, [])) + [g.key];
      }
    }
  }

  lemma RecordKeepsBalanced(f: FilterState, g: GroupInfo)
    requires Balanced(f)
    ensures Balanced(Record(f, g))
  {
    var f' := Record(f, g);
    var before, after := GetOr(f.peerGroups, g.id, []), f'.peerGroups[g.id];
    assert f'.calls[..|f.calls|] == f.calls;
    forall h
      ensures Net(f'.calls, h) == Count(GetOr(f'.peerGroups, h.id, []), h)
    {
      assert Net(f.calls, h) == Count(GetOr(f.peerGroups, h.id, []), h);
      assert Count(before + [g], h) == Count(before, h) + if h == g then 1 else 0;
    }
  }

  lemma RecordKeeps(f: FilterState, g: GroupInfo)
    requires FilterInv(f) && g.cpl == f.cplOf(g.id)
    ensures var r := Record(f, g);
            && FilterInv(r) && r.cplOf == f.cplOf && r.whitelisted == f.whitelisted
            && r.peerGroups == f.peerGroups[g.id := GetOr(f.peerGroups, g.id, []) + [g]]
  {
    RecordKeepsRegrouped(f, g);
    RecordKeepsBalanced(f, g);
    hide Regrouped, Balanced;
  }

  lemma {:induction false} RecordAllKeeps(f: FilterState, id: PeerID, gs: seq<GroupInfo>)
    requires FilterInv(f)
    requires forall g :: g in gs ==> g.id == id && g.cpl == f.cplOf(id)
    ensures var r := RecordAll(f, gs);
            && FilterInv(r) && r.cplOf == f.cplOf && r.whitelisted == f.whitelisted
            && r.peerGroups == (if gs == [] then f.peerGroups else f.peerGroups[id := GetOr(f.peerGroups, id, []) + gs])
  {
    hide FilterInv, Record;
    if gs == [] {
    } else {
      var front, g, before := gs[..|gs| - 1], gs[|gs| - 1], GetOr(f.peerGroups, id, []);
      RecordAllKeeps(f, id, front);
      var r := RecordAll(f, front);
      RecordKeeps(r, g);
      assert before + gs == (before + front) + [g];
      assert GetOr(r.peerGroups, id, []) == before + front;
    }
  }

  lemma {:induction false} NetOfDecrements(calls: seq<PgmCall>, gs: seq<GroupInfo>, g: GroupInfo)
    ensures Net(calls + Decrements(gs), g) == Net(calls, g) - Count(gs, g)
  {
    if gs == [] {
      assert calls + Decrements(gs) == calls;
    } else {
      var front, last := gs[..|gs| - 1], gs[|gs| - 1];
      NetOfDecrements(calls, front, g);
      var all := calls + Decrements(gs);
      assert all[..|all| - 1] == calls + Decrements(front);
      assert gs == front + [last];
    }
  }

  lemma RemoveKeepsRegrouped(f: FilterState, id: PeerID)
    requires Regrouped(f)
    ensures Regrouped(Remove(f, id))
  {
    var f' := Remove(f, id);
    forall z, q
      ensures Listed(f'.cplPeerGroups, z, q) == ExpectedListing(f', z, q)
    {
      assert Listed(f.cplPeerGroups, z, q) == ExpectedListing(f, z, q);
    }
  }

  lemma RemoveKeepsBalanced(f: FilterState, id: PeerID)
    requires Labelled(f) && Balanced(f)
    ensures Balanced(Remove(f, id))
  {
    var f' := Remove(f, id);
    var gs := GetOr(f.peerGroups, id, []);
    forall h
      ensures Net(f'.calls, h) == Count(GetOr(f'.peerGroups, h.id, []), h)
    {
      NetOfDecrements(f.calls, gs, h);
      assert Net(f.calls, h) == Count(GetOr(f.peerGroups, h.id, []), h);
      if h.id != id {
        assert h !in gs;
      }
    }
  }

  /** Removing keeps the two maps in step and takes back exactly what was counted. */
  lemma RemoveKeeps(f: FilterState, id: PeerID)
    requires FilterInv(f)
    ensures FilterInv(Remove(f, id))
  {
    RemoveKeepsRegrouped(f, id);
    RemoveKeepsBalanced(f, id);
    hide Regrouped, Balanced;
  }

  /** A map without empty entries is determined by what it lists. */
  lemma ListingDetermines(m: CplGroups, m': CplGroups)
    requires Tight(m) && Tight(m')
    requires forall z, id :: Listed(m, z, id) == Listed(m', z, id)
    ensures m == m'
  {
    forall z
      ensures z in m <==> z in m'
    {
      if z in m {
        var id :| id in m[z];
        assert Listed(m', z, id) != [];
      }
      if z in m' {
        var id :| id in m'[z];
        assert Listed(m, z, id) != [];
      }
    }
    forall z | z in m
      ensures m[z] == m'[z]
    {
      forall id
        ensures id in m[z] <==> id in m'[z]
        ensures id in m[z] ==> m[z][id] == m'[z][id]
      {
        assert Listed(m, z, id) == Listed(m', z, id);
      }
    }
  }

  lemma WhitelistKeeps(f: FilterState, ids: set<PeerID>)
    requires FilterInv(f)
    ensures FilterInv(Whitelist(f, ids))
  {
  }

  lemma TryAddKeeps(f: FilterState, id: PeerID, addrs: seq<Address>)
    requires FilterInv(f)
    ensures var r := TryAdd(f, id, addrs);
            && FilterInv(r) && r.cplOf == f.cplOf && r.whitelisted == f.whitelisted
            && r.peerGroups.Keys == f.peerGroups.Keys + (if Admits(f, id, addrs) && id !in f.whitelisted then {id} else {})
            && (forall q :: q in f.peerGroups && q != id ==> r.peerGroups[q] == f.peerGroups[q])
  {
    hide FilterInv;
    RecordAllKeeps(f, id, GroupsOf(f, id, addrs));
  }

  /** Recording groups of one peer leaves the whitelist and everybody else alone. */
  lemma {:induction false} RecordAllFrame(f: FilterState, id: PeerID, gs: seq<GroupInfo>)
    requires forall g :: g in gs ==> g.id == id
    ensures var r := RecordAll(f, gs);
            && r.cplOf == f.cplOf && r.whitelisted == f.whitelisted
            && forall q :: q != id ==> GetOr(r.peerGroups, q, []) == GetOr(f.peerGroups, q, [])
  {
    if gs == [] {
    } else {
      RecordAllFrame(f, id, gs[..|gs| - 1]);
      assert gs[|gs| - 1] in gs;
    }
  }

  lemma TryAddFrame(f: FilterState, id: PeerID, addrs: seq<Address>)
    ensures var r := TryAdd(f, id, addrs);
            && r.cplOf == f.cplOf && r.whitelisted == f.whitelisted
            && forall q :: q != id ==> GetOr(r.peerGroups, q, []) == GetOr(f.peerGroups, q, [])
  {
    RecordAllFrame(f, id, GroupsOf(f, id, addrs));
  }

  /** Taking back an admission that found no room restores every map and every counter. */
  lemma RejectionRestores(f: FilterState, id: PeerID, addrs: seq<Address>)
    requires FilterInv(f) && id !in f.peerGroups
    ensures var r := Remove(TryAdd(f, id, addrs), id);
            && r == f.(calls := r.calls)
            && forall g :: Net(r.calls, g) == Net(f.calls, g)
  {
    hide Record, RecordAll, Net, Keys, Tight;
    var added := TryAdd(f, id, addrs);
    RecordAllKeeps(f, id, GroupsOf(f, id, addrs));
    RemoveKeeps(added, id);
    var r := Remove(added, id);
    assert r.peerGroups == f.peerGroups;
    forall z, q
      ensures Listed(r.cplPeerGroups, z, q) == Listed(f.cplPeerGroups, z, q)
    {
      assert ExpectedListing(r, z, q) == ExpectedListing(f, z, q);
    }
    ListingDetermines(f.cplPeerGroups, r.cplPeerGroups);
    forall g
      ensures Net(r.calls, g) == Net(f.calls, g)
    {
      assert Net(r.calls, g) == Count(GetOr(r.peerGroups, g.id, []), g);
      assert Net(f.calls, g) == Count(GetOr(f.peerGroups, g.id, []), g);
    }
  }

  // ------------------------------------------------------------------ what the calls do, entry by entry

  /** `f'` is `f` after a peer with these addresses has been recorded: each group is appended to
      both maps and reported to the caller, in the order of the addresses. */
  ghost predicate Recorded(f: FilterState, f': FilterState, id: PeerID, addrs: seq<Address>)
    requires forall i :: 0 <= i < |addrs| ==> addrs[i].InGroup?
  {
    var z, n := f.cplOf(id), |addrs|;
    var slot := GetOr(f.cplPeerGroups, z, map[]);
    var keys := seq(n, i requires 0 <= i < n => addrs[i].key);
    var groups := seq(n, i requires 0 <= i < n => GroupInfo(id, z, addrs[i].key));
    && f'.cplOf == f.cplOf && f'.whitelisted == f.whitelisted
    && f'.peerGroups == f.peerGroups[id := GetOr(f.peerGroups, id, []) + groups]
    && f'.cplPeerGroups == f.cplPeerGroups[z := slot[id := GetOr(slot, id, []) + keys]]
    && f'.calls == f.calls + seq(n, i requires 0 <= i < n => Increment(groups[i]))
  }

  lemma RecordedOne(f: FilterState, id: PeerID, a: Address)
    requires a.InGroup?
    ensures Recorded(f, Record(f, GroupInfo(id, f.cplOf(id), a.key)), id, [a])
  {
    var addrs, g := [a], GroupInfo(id, f.cplOf(id), a.key);
    assert seq(1, i requires 0 <= i < 1 => addrs[i].key) == [g.key];
    assert seq(1, i requires 0 <= i < 1 => GroupInfo(id, f.cplOf(id), addrs[i].key)) == [g];
    assert seq(1, i requires 0 <= i < 1 => Increment([g][i])) == [Increment(g)];
  }

  /** Two appends to the list of one key. */
  lemma AppendTwice<K, V>(m: map<K, seq<V>>, k: K, front: seq<V>, last: V)
    ensures var once := m[k := GetOr(m, k, []) + front];
            once[k := GetOr(once, k, []) + [last]] == m[k := GetOr(m, k, []) + (front + [last])]
  {
    assert GetOr(m, k, []) + (front + [last]) == (GetOr(m, k, []) + front) + [last];
  }

  lemma RecordedSnoc(f: FilterState, f': FilterState, id: PeerID, addrs: seq<Address>, a: Address)
    requires addrs != [] && a.InGroup? && forall i :: 0 <= i < |addrs| ==> addrs[i].InGroup?
    requires Recorded(f, f', id, addrs)
    ensures Recorded(f, Record(f', GroupInfo(id, f.cplOf(id), a.key)), id, addrs + [a])
  {
    var n, z, all, g := |addrs|, f.cplOf(id), addrs + [a], GroupInfo(id, f.cplOf(id), a.key);
    var slot := GetOr(f.cplPeerGroups, z, map[]);
    var keys := seq(n, i requires 0 <= i < n => addrs[i].key);
    var groups := seq(n, i requires 0 <= i < n => GroupInfo(id, z, addrs[i].key));
    var groups' := seq(n + 1, i requires 0 <= i < n + 1 => GroupInfo(id, z, all[i].key));
    assert seq(n + 1, i requires 0 <= i < n + 1 => all[i].key) == keys + [g.key];
    assert groups' == groups + [g];
    assert seq(n + 1, i requires 0 <= i < n + 1 => Increment(groups'[i]))
        == seq(n, i requires 0 <= i < n => Increment(groups[i])) + [Increment(g)];
    AppendTwice(f.peerGroups, id, groups, g);
    AppendTwice(slot, id, keys, g.key);
    hide GetOr;
    SlotOf(f.cplPeerGroups, z, slot[id := GetOr(slot, id, []) + keys]);
  }

  lemma SlotOf(m: CplGroups, z: int, slot: map<PeerID, seq<GroupKey>>)
    ensures GetOr(m[z := slot], z, map[]) == slot
  {
  }

  lemma {:induction false} RecordAllRecords(f: FilterState, id: PeerID, addrs: seq<Address>)
    requires addrs != [] && forall i :: 0 <= i < |addrs| ==> addrs[i].InGroup?
    ensures Recorded(f, RecordAll(f, GroupsOf(f, id, addrs)), id, addrs)
  {
    hide Recorded, Record;
    var front, last, gs := addrs[..|addrs| - 1], addrs[|addrs| - 1], GroupsOf(f, id, addrs);
    assert gs[..|gs| - 1] == GroupsOf(f, id, front);
    assert addrs == front + [last];
    if front == [] {
      assert RecordAll(f, gs[..|gs| - 1]) == f;
      RecordedOne(f, id, last);
    } else {
      RecordAllRecords(f, id, front);
      RecordedSnoc(f, RecordAll(f, gs[..|gs| - 1]), id, front, last);
    }
  }

  /** TryAdd: whitelisted peers pass without a record; others pass if all their addresses count,
      and are recorded; whoever does not pass leaves no trace. */
  lemma TryAddRecords(f: FilterState, id: PeerID, addrs: seq<Address>)
    ensures id in f.whitelisted || !AllCount(addrs) ==> TryAdd(f, id, addrs) == f
    ensures id !in f.whitelisted && AllCount(addrs) ==> Recorded(f, TryAdd(f, id, addrs), id, addrs)
  {
    hide Recorded, RecordAll, GroupsOf;
    if AllCount(addrs) {
      RecordAllRecords(f, id, addrs);
    }
  }
}
