/**
  GenRandomKey of table_refresh.go: a random key that shares an exact number of leading bits
  with the local identifier.
 */
module RandomKey {
  import opened XorKeySpace

  const UINT_LIMIT := 0x1_0000_0000_0000_0000

  const INT_MAX := 0x7FFF_FFFF_FFFF_FFFF

  /** Keys below this many bytes have a bit length that is an int. */
  const MAX_LENGTH := 0x1000_0000_0000_0000

  /** Go's uint on a 64-bit platform. */
  type Uint = n: nat | n < UINT_LIMIT

  /** The conversion int(n). */
  function ToInt(n: Uint): int
  {
    if n < UINT_LIMIT / 2 then n else n - UINT_LIMIT
  }

  datatype GenResult = Generated(key: Bytes) | CplTooLarge | ReadFailed | OutOfRange

  /** The byte where the key leaves the local identifier: `r` bits kept, one flipped, the rest
      taken from `random`. */
  function MixedByte(orig: bv8, random: bv8, r: nat): bv8
    requires r < 8
  {
    var remainingBits := 8 - r;
    var origMask: bv8 := 0xFF << remainingBits;
    var randMask: bv8 := !origMask >> 1;
    var flippedBitMask: bv8 := 1 << (remainingBits - 1);
    (((orig & origMask) | (orig & flippedBitMask)) ^ flippedBitMask) | (random & randMask)
  }

  /** The key for a prefix length and a buffer of random bytes, of which only those from the
      byte of the flipped bit on are used. */
  function KeyFor(local: Bytes, cpl: nat, random: Bytes): (key: Bytes)
    requires |random| == |local| && cpl < 8 * |local|
    ensures |key| == |local|
  {
    local[..cpl / 8] + [MixedByte(local[cpl / 8], random[cpl / 8], cpl % 8)] + random[cpl / 8 + 1..]
  }

  /** The guard as written: the sum wraps around, and the conversion may turn it negative. */
  predicate Refused(local: Bytes, targetCpl: Uint)
  {
    ToInt((targetCpl + 1) % UINT_LIMIT) >= 8 * |local|
  }

  method GenRandomKey(local: Bytes, targetCpl: Uint, random: Bytes, readOk: bool) returns (r: GenResult)
    requires |random| == |local|
    ensures r == if Refused(local, targetCpl) then CplTooLarge
                 else if targetCpl >= 8 * |local| then OutOfRange
                 else if !readOk then ReadFailed
                 else Generated(KeyFor(local, targetCpl, random))
    ensures r.Generated? ==> |r.key| == |local| && SharedBits(r.key, local) == targetCpl
    ensures r.Generated? ==> forall i :: targetCpl < i < 8 * |local| ==> BitAt(r.key, i) == BitAt(random, i)
    ensures 0 < |local| < MAX_LENGTH ==> (r.OutOfRange? <==> targetCpl >= 0x7FFF_FFFF_FFFF_FFFF)
  {
    hide MixedByte, SharedBits, BitAt;
    if 0 < |local| < MAX_LENGTH {
      WhenOutOfRange(local, targetCpl);
    }
    if ToInt((targetCpl + 1) % UINT_LIMIT) >= |local| * 8 {
      return CplTooLarge;
    }
    var partialOffset := targetCpl / 8;
    if partialOffset >= |local| {
      return OutOfRange;
    }
    var output := new bv8[|local|](i => 0);
    CopyInto(output, local, 0, partialOffset);
    if !readOk {
      return ReadFailed;
    }
    CopyInto(output, random, partialOffset, |local|);
    output[partialOffset] := MixedByte(local[partialOffset], output[partialOffset], targetCpl % 8);
    assert output[..] == KeyFor(local, targetCpl, random);
    KeyForHasCpl(local, targetCpl, random);
    KeyForKeepsRandomBits(local, targetCpl, random);
    return Generated(output[..]);
  }

  /** Overwrite a range of the buffer, as copy and rand.Read do. */
  method CopyInto(output: array<bv8>, bytes: Bytes, from: nat, to: nat)
    requires from <= to <= output.Length == |bytes|
    modifies output
    ensures forall j :: 0 <= j < output.Length ==> output[j] == if from <= j < to then bytes[j] else old(output[j])
  {
    for i := from to to
      invariant forall j :: 0 <= j < output.Length ==> output[j] == if from <= j < i then bytes[j] else old(output[j])
    {
      output[i] := bytes[i];
    }
  }

  // ------------------------------------------------------------------ one byte

  lemma MixedByteDiffersAt(orig: bv8, random: bv8, r: nat)
    requires r < 8
    ensures LeadingZeros8(MixedByte(orig, random, r) ^ orig) == r
  {
    if r == 0 {} else if r == 1 {} else if r == 2 {} else if r == 3 {}
    else if r == 4 {} else if r == 5 {} else if r == 6 {} else {}
  }

  /** A byte that differs from `orig` at bit r is the one that mixing itself in yields. */
  lemma MixedByteIsIdentity(orig: bv8, b: bv8, r: nat)
    requires r < 8 && LeadingZeros8(b ^ orig) == r
    ensures MixedByte(orig, b, r) == b
  {
    if r == 0 {} else if r == 1 {} else if r == 2 {} else if r == 3 {}
    else if r == 4 {} else if r == 5 {} else if r == 6 {} else {}
  }

  // ------------------------------------------------------------------ the first byte that is not zero

  lemma {:induction false} FirstByteDecides(s: Bytes, i: nat)
    requires i < |s| && s[i] != 0 && forall j :: 0 <= j < i ==> s[j] == 0
    ensures ZeroBits(s) == 8 * i + LeadingZeros8(s[i])
  {
    hide LeadingZeros8;
    var t := s[..i + 1];
    ZeroBitsFull(s[..i]);
    assert t[..i] == s[..i];
    ZeroBitsOfPrefix(s, i + 1);
  }

  lemma ZeroBitsLocatesByte(s: Bytes)
    requires ZeroBits(s) < 8 * |s|
    ensures var i := ZeroBits(s) / 8;
            && s[i] != 0 && LeadingZeros8(s[i]) == ZeroBits(s) % 8
            && forall j :: 0 <= j < i ==> s[j] == 0
  {
    hide LeadingZeros8, ZeroBits, FirstNonZero;
    ZeroBitsFull(s);
    var k := FirstNonZero(s);
    FirstByteDecides(s, k);
    assert LeadingZeros8(s[k]) < 8;
  }

  function FirstNonZero(s: Bytes): (k: nat)
    requires exists i :: 0 <= i < |s| && s[i] != 0
    ensures k < |s| && s[k] != 0 && forall j :: 0 <= j < k ==> s[j] == 0
  {
    if s[0] != 0 then 0 else assert exists i :: 0 <= i < |s[1..]| && s[1..][i] != 0; 1 + FirstNonZero(s[1..])
  }

  // ------------------------------------------------------------------ the generator is exact

  /** Every generated key shares exactly the requested number of bits. */
  lemma KeyForHasCpl(local: Bytes, cpl: nat, random: Bytes)
    requires |random| == |local| && cpl < 8 * |local|
    ensures SharedBits(KeyFor(local, cpl, random), local) == cpl
  {
    hide MixedByte, LeadingZeros8;
    var key, i := KeyFor(local, cpl, random), cpl / 8;
    var x := Xored(key, local);
    MixedByteDiffersAt(local[i], random[i], cpl % 8);
    forall j | 0 <= j < i
      ensures x[j] == 0
    {
      assert key[j] == local[j];
    }
    assert key[i] == MixedByte(local[i], random[i], cpl % 8);
    FirstByteDecides(x, i);
  }

  /** Every key that shares exactly that many bits is generated by some random bytes: its own. */
  lemma EveryKeyIsGenerated(local: Bytes, key: Bytes)
    requires |key| == |local| && SharedBits(key, local) < 8 * |local|
    ensures KeyFor(local, SharedBits(key, local), key) == key
  {
    hide MixedByte, LeadingZeros8;
    var x := Xored(key, local);
    var i := ZeroBits(x) / 8;
    ZeroBitsLocatesByte(x);
    forall j | 0 <= j < i
      ensures local[j] == key[j]
    {
      assert x[j] == key[j] ^ local[j] == 0;
    }
    MixedByteIsIdentity(local[i], key[i], ZeroBits(x) % 8);
    assert local[..i] == key[..i];
  }

  /** The bits after `r`, as a mask. */
  function TailMask(r: nat): bv8
    requires r < 8
  {
    0x7F >> r
  }

  lemma MixedByteTail(orig: bv8, random: bv8, r: nat)
    requires r < 8
    ensures (MixedByte(orig, random, r) ^ random) & TailMask(r) == 0
  {
    if r == 0 {} else if r == 1 {} else if r == 2 {} else if r == 3 {}
    else if r == 4 {} else if r == 5 {} else if r == 6 {} else {}
  }

  lemma TailHoldsLaterBits(r: nat, k: nat)
    requires r < k < 8
    ensures MaskAt(k) & TailMask(r) == MaskAt(k)
  {
    if r == 0 {} else if r == 1 {} else if r == 2 {} else if r == 3 {}
    else if r == 4 {} else if r == 5 {} else {}
  }

  lemma EqualUnderMask(x: bv8, y: bv8, bit: bv8, mask: bv8)
    requires (x ^ y) & mask == 0 && bit & mask == bit
    ensures x & bit == y & bit
  {
  }

  lemma MixedByteLaterBit(orig: bv8, random: bv8, r: nat, k: nat)
    requires r < k < 8
    ensures BitOf(MixedByte(orig, random, r), k) == BitOf(random, k)
  {
    hide MixedByte, MaskAt, TailMask;
    MixedByteTail(orig, random, r);
    TailHoldsLaterBits(r, k);
    EqualUnderMask(MixedByte(orig, random, r), random, MaskAt(k), TailMask(r));
  }

  /** After the bit where it leaves the local identifier, a generated key is random. */
  lemma KeyForKeepsRandomBits(local: Bytes, cpl: nat, random: Bytes)
    requires |random| == |local| && cpl < 8 * |local|
    ensures forall i :: cpl < i < 8 * |local| ==> BitAt(KeyFor(local, cpl, random), i) == BitAt(random, i)
  {
    hide MixedByte, BitOf;
    forall i | cpl < i < 8 * |local|
      ensures BitAt(KeyFor(local, cpl, random), i) == BitAt(random, i)
    {
      if i / 8 == cpl / 8 {
        MixedByteLaterBit(local[cpl / 8], random[cpl / 8], cpl % 8, i % 8);
      }
    }
  }

  /** The keys that GenRandomKey can return for `cpl` are exactly those with that prefix length. */
  lemma GeneratorIsExact(local: Bytes, cpl: nat, key: Bytes)
    requires |key| == |local| && cpl < 8 * |local|
    ensures SharedBits(key, local) == cpl <==> exists random :: |random| == |local| && KeyFor(local, cpl, random) == key
  {
    hide KeyFor;
    if SharedBits(key, local) == cpl {
      EveryKeyIsGenerated(local, key);
    }
    if random :| |random| == |local| && KeyFor(local, cpl, random) == key {
      KeyForHasCpl(local, cpl, random);
    }
  }

  /** When the guard lets a request through: for prefix lengths below the last bit of the key, as
      intended, and for those so large that adding one overflows int, which then fall out of
      the range of the key. The last bit itself is refused although keys for it exist. */
  lemma WhenRefused(local: Bytes, targetCpl: Uint)
    requires |local| < MAX_LENGTH
    ensures Refused(local, targetCpl) <==>
            8 * |local| <= targetCpl + 1 < UINT_LIMIT / 2 || (|local| == 0 && targetCpl + 1 == UINT_LIMIT)
  {
  }
  /** What the guard fails to stop: exactly the prefix lengths for which the sum overflows. */
  lemma WhenOutOfRange(local: Bytes, targetCpl: Uint)
    requires 0 < |local| < MAX_LENGTH
    ensures !Refused(local, targetCpl) && targetCpl >= 8 * |local| <==> targetCpl >= INT_MAX
  {
    WhenRefused(local, targetCpl);
  }

  /** What it stops without need: among the prefix lengths for which keys exist, the last one only. */
  lemma WhenRefusedInVain(local: Bytes, targetCpl: Uint)
    requires |local| < MAX_LENGTH
    ensures Refused(local, targetCpl) && (exists key :: |key| == |local| && SharedBits(key, local) == targetCpl < 8 * |local|)
            <==> targetCpl == 8 * |local| - 1
  {
    hide SharedBits, KeyFor;
    WhenRefused(local, targetCpl);
    if targetCpl == 8 * |local| - 1 {
      KeyForHasCpl(local, targetCpl, local);
    }
  }

  /** The last bit of the one-byte identifier 0 is refused, although the key 1 shares exactly 7 bits. */
  lemma LastBitIsRefused()
    ensures Refused([0], 7) && SharedBits([1], [0]) == 7
  {
    WhenRefused([0], 7);
    FirstByteDecides(Xored([1], [0]), 0);
  }

  /** The largest int is let through for that identifier, and is out of its range. */
  lemma LargestIntIsLetThrough()
    ensures !Refused([0], 0x7FFF_FFFF_FFFF_FFFF) && 0x7FFF_FFFF_FFFF_FFFF / 8 >= |[0]|
  {
    WhenRefused([0], INT_MAX);
  }
}
