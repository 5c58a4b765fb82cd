/**
  The refresh times of table_refresh.go: one slot per prefix length up to the largest one for
  which peer ids can be generated.
 */
module RefreshSpec {
  import opened XorKeySpace
  import opened Peers
  import opened NearestSpec
  import opened Preimage

  datatype Reset = Reset(id: Target, at: Time)

  type Times = map<nat, Time>

  function At(times: Times, z: nat): Time
  {
    if z in times then times[z] else NEVER
  }

  /** ResetCplRefreshedAtForID */
  function ResetOne(c: Config, times: Times, r: Reset): Times
  {
    var z := SharedBits(r.id, c.local);
    if z > MAX_CPL then times else times[z := r.at]
  }

  function ResetAll(c: Config, times: Times, rs: seq<Reset>): Times
  {
    if rs == [] then times else ResetOne(c, ResetAll(c, times, rs[..|rs| - 1]), rs[|rs| - 1])
  }

  /** `rs[k]` is the last reset for prefix length `z`. */
  ghost predicate LastFor(c: Config, rs: seq<Reset>, z: nat, k: nat)
    requires k < |rs|
  {
    && SharedBits(rs[k].id, c.local) == z
    && forall j :: k < j < |rs| ==> SharedBits(rs[j].id, c.local) != z
  }

  /** After any resets, a tracked slot holds the time of the last one for it, or its old time;
      slots beyond the limit are never touched. */
  lemma {:induction false} SlotHoldsLastReset(c: Config, times: Times, rs: seq<Reset>, z: nat)
    ensures z > 15 ==> At(ResetAll(c, times, rs), z) == At(times, z)
    ensures forall k :: 0 <= k < |rs| && z <= 15 && LastFor(c, rs, z, k) ==> At(ResetAll(c, times, rs), z) == rs[k].at
    ensures (forall k :: 0 <= k < |rs| ==> SharedBits(rs[k].id, c.local) != z) ==> At(ResetAll(c, times, rs), z) == At(times, z)
  {
    hide SharedBits;
    if rs == [] {
    } else {
      var front := rs[..|rs| - 1];
      SlotHoldsLastReset(c, times, front, z);
      forall k | 0 <= k < |rs| && z <= 15 && LastFor(c, rs, z, k)
        ensures At(ResetAll(c, times, rs), z) == rs[k].at
      {
        if k < |front| {
          assert LastFor(c, front, z, k);
        }
      }
    }
  }
}
