/**
  The preimage table: the search of generate/main.go that fills it, and GenRandPeerIDWithCPL
  of util.go that reads it. The hash is any function from byte strings to digests.
 */
module Preimage {
  import opened XorKeySpace
  import opened XorGeometry
  import opened Peers
  import opened RandomKey

  type Hash = PeerID -> Digest

  const TARGET := 0x1_0000
  const UINT32_LIMIT := 0x1_0000_0000
  const MAX_CPL := 15

  /** uint32 */
  type Counter = n: nat | n < UINT32_LIMIT

  /** The peer id for a counter: the SHA2-256 multihash header, then the counter big-endian in
      the first four bytes of an otherwise zero digest. */
  function PeerFor(n: Counter): (id: PeerID)
    ensures |id| == 34
  {
    [0x12, 0x20, ByteOf(n / 0x100_0000), ByteOf(n / 0x1_0000), ByteOf(n / 0x100), ByteOf(n)] + seq(28, i => 0)
  }

  function ByteOf(n: nat): bv8
  {
    (n % 256) as bv8
  }

  /** The constants are the widths they stand for. */
  lemma Widths()
    ensures TARGET == Pow2(16) && UINT32_LIMIT == Pow2(32) && UINT_LIMIT == Pow2(64)
  {
    Pow2Plus8(0);
    Pow2Plus8(8);
    Pow2Plus8(16);
    Pow2Plus8(24);
    Pow2Plus8(32);
    Pow2Plus8(40);
    Pow2Plus8(48);
    Pow2Plus8(56);
  }

  lemma ByteRoundTrip(x: nat)
    requires x < 256
    ensures ByteValue(x as bv8) == x
  {
  }

  lemma ByteOfValue(n: nat)
    ensures ByteValue(ByteOf(n)) == n % 256
  {
    hide ByteValue;
    ByteRoundTrip(n % 256);
  }

  lemma FourDigits(n: Counter)
    ensures n == 0x100_0000 * (n / 0x100_0000 % 256) + 0x1_0000 * (n / 0x1_0000 % 256) + 0x100 * (n / 0x100 % 256) + n % 256
  {
    assert n / 0x1_0000 / 256 == n / 0x100_0000;
    assert n / 0x100 / 256 == n / 0x1_0000;
    assert n / 0x100_0000 < 256;
  }

  lemma BigEndianOfFour(s: Bytes)
    requires |s| == 4
    ensures BigEndian(s) == 0x100_0000 * ByteValue(s[0]) + 0x1_0000 * ByteValue(s[1]) + 0x100 * ByteValue(s[2]) + ByteValue(s[3])
  {
    hide ByteValue;
    assert s[..3][..2] == s[..2] && s[..2][..1] == s[..1] && s[..1][..0] == [];
    assert BigEndian(s[..1]) == ByteValue(s[0]);
    assert BigEndian(s[..2]) == 256 * BigEndian(s[..1]) + ByteValue(s[1]);
    assert BigEndian(s[..3]) == 256 * BigEndian(s[..2]) + ByteValue(s[2]);
  }

  /** A peer id is the SHA2-256 multihash (code 0x12, 32 bytes) of a digest that begins with the
      big-endian counter and is zero from there on. */
  lemma PeerForIsMultihash(n: Counter)
    ensures var id := PeerFor(n);
            && |id| == 34 && id[..2] == [0x12, 32]
            && BigEndian(id[2..6]) == n
            && forall i :: 6 <= i < 34 ==> id[i] == 0
  {
    hide ByteOf, ByteValue;
    var digits := [ByteOf(n / 0x100_0000), ByteOf(n / 0x1_0000), ByteOf(n / 0x100), ByteOf(n)];
    assert PeerFor(n)[2..6] == digits;
    CounterOfDigits(n, digits);
  }

  lemma CounterOfDigits(n: Counter, digits: Bytes)
    requires digits == [ByteOf(n / 0x100_0000), ByteOf(n / 0x1_0000), ByteOf(n / 0x100), ByteOf(n)]
    ensures BigEndian(digits) == n
  {
    hide ByteOf, ByteValue, BigEndian;
    ByteOfValue(n / 0x100_0000);
    ByteOfValue(n / 0x1_0000);
    ByteOfValue(n / 0x100);
    ByteOfValue(n);
    BigEndianOfFour(digits);
    FourDigits(n);
  }

  /** Every four bytes are those of some counter. */
  lemma CountersAreFourBytes(d: Bytes)
    requires |d| == 4
    ensures BigEndian(d) < UINT32_LIMIT && PeerFor(BigEndian(d))[2..6] == d
  {
    hide PeerFor, ByteValue;
    BigEndianOfFour(d);
    ByteValues(d[0], d[1]);
    ByteValues(d[2], d[3]);
    var n: Counter := BigEndian(d);
    PeerForIsMultihash(n);
    BigEndianInjective(PeerFor(n)[2..6], d);
  }

  function Uint16(a: bv8, b: bv8): bv16
  {
    (a as bv16 << 8) | b as bv16
  }

  function Uint32(a: bv8, b: bv8, c: bv8, d: bv8): bv32
  {
    (a as bv32 << 24) | (b as bv32 << 16) | (c as bv32 << 8) | d as bv32
  }

  /** The value of a uint16, by which the tables are indexed. */
  function Index(w: bv16): (i: nat)
    ensures i < TARGET
  {
    w as nat
  }

  /** The first 16 bits of a digest. */
  function Prefix(d: Digest): bv16
  {
    Uint16(d[0], d[1])
  }

  /** The generator reads 32 bits and drops the last 16 of them. */
  lemma PrefixIsShifted(d: Digest)
    ensures Uint32(d[0], d[1], d[2], d[3]) >> 16 == Prefix(d) as bv32
  {
  }

  lemma IndexRoundTrip(w: bv16)
    ensures Index(w) as bv16 == w
  {
  }

  lemma IndexInjective(v: bv16, w: bv16)
    requires Index(v) == Index(w)
    ensures v == w
  {
    hide Index;
    IndexRoundTrip(v);
    IndexRoundTrip(w);
  }

  // ------------------------------------------------------------------ the search

  /** The table slot that a counter can fill. */
  function Slot(h: Hash, n: Counter): (i: nat)
    ensures i < TARGET
  {
    Index(Prefix(h(PeerFor(n))))
  }

  /** The variables of the search loop, without its counter. */
  datatype Search = Search(ids: seq<Counter>, found: seq<bool>, count: nat)

  predicate Sized(s: Search)
  {
    |s.ids| == TARGET && |s.found| == TARGET
  }

  /** One round of the loop. */
  function Visit(h: Hash, s: Search, n: Counter): (r: Search)
    requires Sized(s)
    ensures Sized(r)
  {
    var i := Slot(h, n);
    if s.found[i] then s else Search(s.ids[i := n], s.found[i := true], s.count + 1)
  }

  /** The loop after k rounds; its counter is a uint32 and wraps around. */
  function After(h: Hash, k: nat): (s: Search)
    ensures Sized(s)
  {
    if k == 0 then Search(seq(TARGET, i => 0), seq(TARGET, i => false), 0)
    else Visit(h, After(h, k - 1), (k - 1) % UINT32_LIMIT)
  }

  function CountTrue(s: seq<bool>): (n: nat)
    ensures n <= |s|
  {
    if s == [] then 0 else CountTrue(s[..|s| - 1]) + if s[|s| - 1] then 1 else 0
  }

  lemma {:induction false} CountTrueUpdate(s: seq<bool>, i: nat)
    requires i < |s| && !s[i]
    ensures CountTrue(s[i := true]) == CountTrue(s) + 1
  {
    var n := |s| - 1;
    if i < n {
      CountTrueUpdate(s[..n], i);
      assert s[i := true][..n] == s[..n][i := true];
    } else {
      assert s[i := true][..n] == s[..n];
    }
  }

  lemma {:induction false} CountTrueFull(s: seq<bool>)
    ensures CountTrue(s) == |s| <==> forall i :: 0 <= i < |s| ==> s[i]
  {
    if s == [] {
    } else {
      CountTrueFull(s[..|s| - 1]);
    }
  }

  lemma {:induction false} CountTrueNone(s: seq<bool>)
    requires forall i :: 0 <= i < |s| ==> !s[i]
    ensures CountTrue(s) == 0
  {
    if s == [] {
    } else {
      CountTrueNone(s[..|s| - 1]);
    }
  }

  /** `n` is the smallest counter for the slot. */
  ghost predicate IsFirst(h: Hash, i: nat, n: Counter)
  {
    Slot(h, n) == i && forall m: Counter :: m < n ==> Slot(h, m) != i
  }

  /** While the counter has not wrapped: the slots found are those of the counters visited, each
      with its smallest one, and `count` counts them. */
  ghost predicate SearchInv(h: Hash, s: Search, k: nat)
  {
    && Sized(s) && s.count == CountTrue(s.found)
    && (forall i :: 0 <= i < TARGET && s.found[i] ==> IsFirst(h, i, s.ids[i]) && s.ids[i] < k)
    && (forall m: Counter :: m < k ==> s.found[Slot(h, m)])
  }

  lemma VisitKeeps(h: Hash, s: Search, k: Counter)
    requires SearchInv(h, s, k)
    ensures SearchInv(h, Visit(h, s, k), k + 1)
  {
    hide Slot;
    var i := Slot(h, k);
    if !s.found[i] {
      CountTrueUpdate(s.found, i);
    }
  }

  lemma {:induction false} AfterKeeps(h: Hash, k: nat)
    requires k <= UINT32_LIMIT
    ensures SearchInv(h, After(h, k), k)
  {
    hide Slot, CountTrue, Visit, IsFirst;
    if k == 0 {
      CountTrueNone(After(h, 0).found);
    } else {
      AfterKeeps(h, k - 1);
      VisitKeeps(h, After(h, k - 1), k - 1);
    }
  }

  ghost predicate HasPreimage(h: Hash, i: nat)
  {
    exists n: Counter :: Slot(h, n) == i
  }

  /** Every 16-bit prefix has a preimage among the uint32 counters. */
  ghost predicate Covers(h: Hash)
  {
    forall i :: 0 <= i < TARGET ==> HasPreimage(h, i)
  }

  lemma VisitFinds(h: Hash, s: Search, n: Counter, i: nat)
    requires Sized(s) && i < TARGET && Visit(h, s, n).found[i]
    ensures s.found[i] || Slot(h, n) == i
  {
  }

  /** Nothing is ever found that has no preimage, wrapped counter or not. */
  lemma {:induction false} FoundHasPreimage(h: Hash, k: nat, i: nat)
    requires i < TARGET && After(h, k).found[i]
    ensures HasPreimage(h, i)
  {
    hide Slot, Visit;
    assert k > 0;
    VisitFinds(h, After(h, k - 1), (k - 1) % UINT32_LIMIT, i);
    if After(h, k - 1).found[i] {
      FoundHasPreimage(h, k - 1, i);
    }
  }

  lemma VisitCounts(h: Hash, s: Search, n: Counter)
    requires Sized(s) && s.count == CountTrue(s.found)
    ensures Visit(h, s, n).count == CountTrue(Visit(h, s, n).found)
  {
    hide Slot, CountTrue;
    if !s.found[Slot(h, n)] {
      CountTrueUpdate(s.found, Slot(h, n));
    }
  }

  lemma {:induction false} CountIsTrues(h: Hash, k: nat)
    ensures After(h, k).count == CountTrue(After(h, k).found)
  {
    hide Slot, CountTrue, Visit;
    if k == 0 {
      CountTrueNone(After(h, 0).found);
    } else {
      CountIsTrues(h, k - 1);
      VisitCounts(h, After(h, k - 1), (k - 1) % UINT32_LIMIT);
    }
  }

  /** The search comes to an end if and only if every prefix has a preimage. */
  lemma SearchStopsIffCovered(h: Hash)
    ensures (exists k :: After(h, k).count == TARGET) <==> Covers(h)
  {
    hide Slot, CountTrue, After;
    if k :| After(h, k).count == TARGET {
      CountIsTrues(h, k);
      CountTrueFull(After(h, k).found);
      forall i | 0 <= i < TARGET
        ensures HasPreimage(h, i)
      {
        FoundHasPreimage(h, k, i);
      }
    }
    if Covers(h) {
      var s := After(h, UINT32_LIMIT);
      AfterKeeps(h, UINT32_LIMIT);
      forall i | 0 <= i < TARGET
        ensures s.found[i]
      {
        assert HasPreimage(h, i);
        var n: Counter :| Slot(h, n) == i;
        assert s.found[Slot(h, n)];
      }
      CountTrueFull(s.found);
    }
  }

  /** The finished table: the smallest preimage of every prefix. */
  ghost predicate IsPreimageTable(h: Hash, table: seq<Counter>)
  {
    |table| == TARGET && forall i :: 0 <= i < TARGET ==> IsFirst(h, i, table[i])
  }

  /** The search of the generator. */
  method FillTable(h: Hash) returns (table: seq<Counter>)
    requires Covers(h)
    ensures IsPreimageTable(h, table)
  {
    hide Slot, CountTrue, After, IsFirst, Covers;
    var ids := new Counter[TARGET](i => 0);
    var found := new bool[TARGET](i => false);
    var count, i: Counter := 0, 0;
    ghost var k := 0;
    CountTrueNone(found[..]);
    while count < TARGET
      invariant k <= UINT32_LIMIT && i == k % UINT32_LIMIT
      invariant SearchInv(h, Search(ids[..], found[..], count), k)
      decreases UINT32_LIMIT - k
    {
      NotWrapped(h, Search(ids[..], found[..], count), k);
      VisitKeeps(h, Search(ids[..], found[..], count), i);
      var prefix := Slot(h, i);
      if !found[prefix] {
        found[prefix] := true;
        ids[prefix] := i;
        count := count + 1;
      }
      i := (i + 1) % UINT32_LIMIT;
      k := k + 1;
    }
    CountTrueFull(found[..]);
    return ids[..];
  }

  /** As long as a prefix is missing, its preimage lies ahead. */
  lemma NotWrapped(h: Hash, s: Search, k: nat)
    requires Covers(h) && SearchInv(h, s, k) && s.count < TARGET
    ensures k < UINT32_LIMIT
  {
    hide Slot, CountTrue;
    CountTrueFull(s.found);
    var i :| 0 <= i < TARGET && !s.found[i];
    assert HasPreimage(h, i);
    var n: Counter :| Slot(h, n) == i;
  }

  // ------------------------------------------------------------------ random peer ids

  datatype PeerResult = PeerId(id: PeerID) | CplUnsupported | NoRandomness

  function FlippedBit(cpl: nat): bv16
    requires cpl <= MAX_CPL
  {
    0x8000 >> cpl
  }

  function FixedBits(cpl: nat): bv16
    requires cpl <= MAX_CPL
  {
    0xFFFF << (16 - (cpl + 1))
  }

  function Combined(local: bv16, random: bv16, flip: bv16, mask: bv16): bv16
  {
    ((local ^ flip) & mask) | (random & !mask)
  }

  /** The prefix to look up: the bits of `local` up to the flipped one, then random bits. */
  function TargetPrefix(local: bv16, cpl: nat, random: bv16): bv16
    requires cpl <= MAX_CPL
  {
    Combined(local, random, FlippedBit(cpl), FixedBits(cpl))
  }

  /** The entry of the table for a prefix. */
  function Lookup(table: seq<Counter>, prefix: bv16): Counter
    requires |table| == TARGET
  {
    table[Index(prefix)]
  }

  /** GenRandPeerIDWithCPL; the source panics for targets of less than two bytes. */
  method GenRandPeerIDWithCPL(table: seq<Counter>, target: Bytes, cpl: Uint, random: bv16, readOk: bool, ghost h: Hash)
    returns (r: PeerResult)
    requires |table| == TARGET && |target| >= 2
    ensures r == CplUnsupported <==> cpl >= 16
    ensures r == NoRandomness <==> cpl < 16 && !readOk
    ensures cpl < 16 && readOk ==>
              r == PeerId(PeerFor(Lookup(table, TargetPrefix(Uint16(target[0], target[1]), cpl, random))))
    ensures IsPreimageTable(h, table) && cpl < 16 && readOk && |target| <= 32 ==>
              r.PeerId? && SharedBits(target, h(r.id)) == cpl
  {
    hide Index, SharedBits, IsPreimageTable, TargetPrefix, Uint16, PeerFor;
    if cpl > MAX_CPL {
      return CplUnsupported;
    }
    var localPrefix := Uint16(target[0], target[1]);
    if !readOk {
      return NoRandomness;
    }
    var key := table[Index(TargetPrefix(localPrefix, cpl, random))];
    if IsPreimageTable(h, table) && |target| <= 32 {
      GeneratedPeerHasCpl(h, table, target, cpl, random);
    }
    return PeerId(PeerFor(key));
  }

  lemma FlippedBitIsFixed(cpl: nat)
    requires cpl <= MAX_CPL
    ensures FlippedBit(cpl) & FixedBits(cpl) == FlippedBit(cpl)
  {
  }

  /** Under the mask, `x` differs from `local` in exactly the bits of `flip`. */
  predicate Flips(x: bv16, local: bv16, flip: bv16, mask: bv16)
  {
    (x ^ local) & mask == flip
  }

  lemma CombinedFlips(local: bv16, random: bv16, flip: bv16, mask: bv16)
    requires flip & mask == flip
    ensures Flips(Combined(local, random, flip, mask), local, flip, mask)
    ensures Flips(random, local, flip, mask) ==> Combined(local, random, flip, mask) == random
  {
  }

  /** The target prefix keeps the bits before the flipped one, whatever the random bits are, and
      a prefix that already does so is drawn by itself. */
  lemma TargetPrefixFlips(local: bv16, cpl: nat, random: bv16)
    requires cpl <= MAX_CPL
    ensures Flips(TargetPrefix(local, cpl, random), local, FlippedBit(cpl), FixedBits(cpl))
    ensures Flips(random, local, FlippedBit(cpl), FixedBits(cpl)) ==> TargetPrefix(local, cpl, random) == random
  {
    hide Combined, FixedBits, FlippedBit, Flips;
    FlippedBitIsFixed(cpl);
    CombinedFlips(local, random, FlippedBit(cpl), FixedBits(cpl));
  }

  /** The first one of sixteen bits is at position `cpl`. */
  predicate Leads(x0: bv8, x1: bv8, cpl: nat)
    requires cpl <= MAX_CPL
  {
    if cpl < 8 then LeadingZeros8(x0) == cpl else x0 == 0 && LeadingZeros8(x1) == cpl - 8
  }

  /** Two 16-bit prefixes first differ at bit `cpl`. */
  predicate DifferAt(t0: bv8, t1: bv8, p0: bv8, p1: bv8, cpl: nat)
    requires cpl <= MAX_CPL
  {
    Leads(t0 ^ p0, t1 ^ p1, cpl)
  }

  lemma FlipsOfXor(t0: bv8, t1: bv8, p0: bv8, p1: bv8, flip: bv16, mask: bv16)
    ensures Flips(Uint16(p0, p1), Uint16(t0, t1), flip, mask) <==> Flips(Uint16(t0 ^ p0, t1 ^ p1), 0, flip, mask)
  {
  }

  /** The masked bits of a difference say where its first one is, and the other way round. */
  lemma FlipLocatesHigh(x0: bv8, x1: bv8, cpl: nat)
    requires cpl < 8 && Flips(Uint16(x0, x1), 0, FlippedBit(cpl), FixedBits(cpl))
    ensures LeadingZeros8(x0) == cpl
  {
  }

  lemma FlipLocatedHigh(x0: bv8, x1: bv8, cpl: nat)
    requires cpl < 8 && LeadingZeros8(x0) == cpl
    ensures Flips(Uint16(x0, x1), 0, FlippedBit(cpl), FixedBits(cpl))
  {
  }

  lemma FlipLocatesLow(x0: bv8, x1: bv8, cpl: nat)
    requires 8 <= cpl <= MAX_CPL && Flips(Uint16(x0, x1), 0, FlippedBit(cpl), FixedBits(cpl))
    ensures x0 == 0 && LeadingZeros8(x1) == cpl - 8
  {
  }

  lemma FlipLocatedLow(x1: bv8, cpl: nat)
    requires 8 <= cpl <= MAX_CPL && LeadingZeros8(x1) == cpl - 8
    ensures Flips(Uint16(0, x1), 0, FlippedBit(cpl), FixedBits(cpl))
  {
  }

  lemma FlipsIffLeads(x0: bv8, x1: bv8, cpl: nat)
    requires cpl <= MAX_CPL
    ensures Flips(Uint16(x0, x1), 0, FlippedBit(cpl), FixedBits(cpl)) <==> Leads(x0, x1, cpl)
  {
    hide Flips, Uint16, FlippedBit, FixedBits, LeadingZeros8;
    if Flips(Uint16(x0, x1), 0, FlippedBit(cpl), FixedBits(cpl)) {
      if cpl < 8 {
        FlipLocatesHigh(x0, x1, cpl);
      } else {
        FlipLocatesLow(x0, x1, cpl);
      }
    }
    if Leads(x0, x1, cpl) {
      if cpl < 8 {
        FlipLocatedHigh(x0, x1, cpl);
      } else {
        FlipLocatedLow(x1, cpl);
      }
    }
  }

  lemma FlipsIffDifferAt(t0: bv8, t1: bv8, p0: bv8, p1: bv8, cpl: nat)
    requires cpl <= MAX_CPL
    ensures Flips(Uint16(p0, p1), Uint16(t0, t1), FlippedBit(cpl), FixedBits(cpl)) <==> DifferAt(t0, t1, p0, p1, cpl)
  {
    hide Flips, Uint16, FlippedBit, FixedBits, Leads;
    FlipsOfXor(t0, t1, p0, p1, FlippedBit(cpl), FixedBits(cpl));
    FlipsIffLeads(t0 ^ p0, t1 ^ p1, cpl);
  }

  /** A prefix can be drawn exactly if it leaves the local one at the requested bit. */
  lemma DrawnIffDifferAt(t0: bv8, t1: bv8, p0: bv8, p1: bv8, cpl: nat)
    requires cpl < 16
    ensures DifferAt(t0, t1, p0, p1, cpl) <==> exists random :: TargetPrefix(Uint16(t0, t1), cpl, random) == Uint16(p0, p1)
  {
    hide DifferAt, Uint16, Flips, TargetPrefix, FixedBits, FlippedBit;
    FlipsIffDifferAt(t0, t1, p0, p1, cpl);
    TargetPrefixFlips(Uint16(t0, t1), cpl, Uint16(p0, p1));
    if random :| TargetPrefix(Uint16(t0, t1), cpl, random) == Uint16(p0, p1) {
      TargetPrefixFlips(Uint16(t0, t1), cpl, random);
    }
  }

  /** The bits after the flipped one are those of the random draw. */
  lemma TargetPrefixKeepsRandomBits(local: bv16, cpl: nat, random: bv16)
    requires cpl < 16
    ensures (TargetPrefix(local, cpl, random) ^ random) & (0x7FFF >> cpl) == 0
  {
    hide Combined, FixedBits, FlippedBit;
    CombinedKeeps(local, random, FlippedBit(cpl), FixedBits(cpl));
    FixedOrRandom(cpl);
  }

  lemma CombinedKeeps(local: bv16, random: bv16, flip: bv16, mask: bv16)
    ensures (Combined(local, random, flip, mask) ^ random) & !mask == 0
  {
  }

  lemma FixedOrRandom(cpl: nat)
    requires cpl <= MAX_CPL
    ensures !FixedBits(cpl) == 0x7FFF >> cpl
  {
  }

  /** Two byte strings whose first two bytes differ at bit `cpl` share exactly `cpl` bits. */
  lemma DifferAtIsSharedBits(a: Bytes, b: Bytes, cpl: nat)
    requires 2 <= |a| <= |b| && cpl <= MAX_CPL && DifferAt(a[0], a[1], b[0], b[1], cpl)
    ensures SharedBits(a, b) == cpl
  {
    hide Leads;
    LeadsIsZeroBits(Xored(a, b), cpl);
  }

  lemma LeadsIsZeroBits(x: Bytes, cpl: nat)
    requires |x| >= 2 && cpl <= MAX_CPL && Leads(x[0], x[1], cpl)
    ensures ZeroBits(x) == cpl
  {
  }

  /** With a finished table, every supported prefix length and every random draw give a peer id
      whose hash shares exactly that many bits with the target. */
  lemma GeneratedPeerHasCpl(h: Hash, table: seq<Counter>, target: Bytes, cpl: nat, random: bv16)
    requires IsPreimageTable(h, table) && 2 <= |target| <= 32 && cpl < 16
    ensures var id := PeerFor(Lookup(table, TargetPrefix(Uint16(target[0], target[1]), cpl, random)));
            SharedBits(target, h(id)) == cpl
  {
    hide Index, TargetPrefix, PeerFor, Uint16, DifferAt, SharedBits;
    var w := TargetPrefix(Uint16(target[0], target[1]), cpl, random);
    var n := Lookup(table, w);
    var d := h(PeerFor(n));
    assert IsFirst(h, Index(w), n);
    IndexInjective(Prefix(d), w);
    DrawnIffDifferAt(target[0], target[1], d[0], d[1], cpl);
    DifferAtIsSharedBits(target, d, cpl);
  }
}
