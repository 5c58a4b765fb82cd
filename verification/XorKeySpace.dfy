/**
  The XOR key space of keyspace/xor.go: byte-wise XOR, the length of the zero prefix,
  the byte-wise order, and the distance read as a big-endian integer.
 */
module XorKeySpace {

  type Bytes = seq<bv8>

  /** bits.LeadingZeros8 of the Go standard library. */
  function LeadingZeros8(b: bv8): (z: nat)
    ensures z <= 8
    ensures z == 8 <==> b == 0
  {
    if b & 0x80 != 0 then 0
    else if b & 0x40 != 0 then 1
    else if b & 0x20 != 0 then 2
    else if b & 0x10 != 0 then 3
    else if b & 0x08 != 0 then 4
    else if b & 0x04 != 0 then 5
    else if b & 0x02 != 0 then 6
    else if b & 0x01 != 0 then 7
    else 8
  }

  /** The XOR of two byte strings, as long as the first. */
  function Xored(a: Bytes, b: Bytes): (x: Bytes)
    requires |a| <= |b|
    ensures |x| == |a|
  {
    seq(|a|, i requires 0 <= i < |a| => a[i] ^ b[i])
  }

  /** How many leading bits of `s` are zero. */
  function ZeroBits(s: Bytes): (z: nat)
    ensures z <= 8 * |s|
  {
    if s == [] then 0
    else
      var z := ZeroBits(s[..|s| - 1]);
      if z < 8 * (|s| - 1) then z else z + LeadingZeros8(s[|s| - 1])
  }

  /** The byte with a single one, at position `k`. */
  function MaskAt(k: nat): bv8
    requires k < 8
  {
    0x80 >> k
  }

  /** The bit of a byte at position `k`. */
  predicate BitOf(b: bv8, k: nat)
    requires k < 8
  {
    b & MaskAt(k) != 0
  }

  /** The bit at position `i`, counted from the most significant one. */
  predicate BitAt(s: Bytes, i: nat)
    requires i < 8 * |s|
  {
    BitOf(s[i / 8], i % 8)
  }

  function ByteValue(b: bv8): nat {
    b as nat
  }

  /** big.Int.SetBytes: the bytes read as a big-endian unsigned integer. */
  function BigEndian(s: Bytes): nat
  {
    if s == [] then 0 else 256 * BigEndian(s[..|s| - 1]) + ByteValue(s[|s| - 1])
  }

  /** bytes.Compare(a, b) < 0. */
  predicate BytesLess(a: Bytes, b: Bytes)
  {
    b != [] && (a == [] || a[0] < b[0] || (a[0] == b[0] && BytesLess(a[1..], b[1..])))
  }

  /** The number of leading bits two identifiers share; `a` is the shorter one. */
  function SharedBits(a: Bytes, b: Bytes): (z: nat)
    requires |a| <= |b|
    ensures z <= 8 * |a|
  {
    ZeroBits(Xored(a, b))
  }

  /** xorKeySpace.Distance on the bytes of two keys. */
  function Distance(a: Bytes, b: Bytes): nat
    requires |a| <= |b|
  {
    BigEndian(Xored(a, b))
  }

  function Pow2(k: nat): (p: nat)
    ensures p > 0
  {
    if k == 0 then 1 else 2 * Pow2(k - 1)
  }

  // ------------------------------------------------------------------ the loops of the source

  method Xor(a: Bytes, b: Bytes) returns (out: Bytes)
    requires |a| <= |b|
    ensures out == Xored(a, b)
  {
    var buffer := new bv8[|a|];
    for i := 0 to |a|
      invariant forall j :: 0 <= j < i ==> buffer[j] == a[j] ^ b[j]
    {
      buffer[i] := a[i] ^ b[i];
    }
    out := buffer[..];
  }

  method ZeroPrefixLen(id: Bytes) returns (z: nat)
    ensures z == ZeroBits(id)
    ensures forall i :: 0 <= i < z ==> !BitAt(id, i)
    ensures z < 8 * |id| ==> BitAt(id, z)
  {
    ZeroBitsIsFirstOne(id);
    for i := 0 to |id|
      invariant ZeroBits(id[..i]) == 8 * i
    {
      assert id[..i + 1][..i] == id[..i];
      if id[i] != 0 {
        ZeroBitsOfPrefix(id, i + 1);
        return 8 * i + LeadingZeros8(id[i]);
      }
    }
    assert id[..|id|] == id;
    return 8 * |id|;
  }

  method CommonPrefixLen(a: Bytes, b: Bytes) returns (z: nat)
    requires |a| <= |b|
    ensures z == SharedBits(a, b)
    ensures forall i :: 0 <= i < z ==> BitAt(a, i) == BitAt(b, i)
    ensures z < 8 * |a| ==> BitAt(a, z) != BitAt(b, z)
  {
    hide BitAt;
    SharedBitsAgree(a, b);
    var x := Xor(a, b);
    z := ZeroPrefixLen(x);
  }

  // ------------------------------------------------------------------ the zero prefix, bit by bit

  /** A prefix that holds a one already decides the zero prefix of the whole. */
  lemma {:induction false} ZeroBitsOfPrefix(s: Bytes, n: nat)
    requires n <= |s| && ZeroBits(s[..n]) < 8 * n
    ensures ZeroBits(s) == ZeroBits(s[..n])
    decreases |s|
  {
    if n < |s| {
      var t := s[..|s| - 1];
      assert t[..n] == s[..n];
      ZeroBitsOfPrefix(t, n);
    } else {
      assert s[..n] == s;
    }
  }

  /** The bits of a string are those of its front, then those of its last byte. */
  lemma BitOfFrontOrLast(s: Bytes, i: nat)
    requires s != [] && i < 8 * |s|
    ensures i < 8 * (|s| - 1) ==> BitAt(s, i) == BitAt(s[..|s| - 1], i)
    ensures i >= 8 * (|s| - 1) && i - 8 * (|s| - 1) < LeadingZeros8(s[|s| - 1]) ==> !BitAt(s, i)
    ensures i >= 8 * (|s| - 1) && i - 8 * (|s| - 1) == LeadingZeros8(s[|s| - 1]) ==> BitAt(s, i)
  {
  }

  /** ZeroBits is the position of the first one: every earlier bit is zero, and that bit is set. */
  lemma {:induction false} ZeroBitsIsFirstOne(s: Bytes)
    ensures forall i :: 0 <= i < ZeroBits(s) ==> !BitAt(s, i)
    ensures ZeroBits(s) < 8 * |s| ==> BitAt(s, ZeroBits(s))
  {
    if s == [] {
    } else {
      ZeroBitsIsFirstOne(s[..|s| - 1]);
      forall i | 0 <= i < ZeroBits(s)
        ensures !BitAt(s, i)
      {
        BitOfFrontOrLast(s, i);
      }
      if ZeroBits(s) < 8 * |s| {
        BitOfFrontOrLast(s, ZeroBits(s));
      }
    }
  }

  /** Every bit is zero exactly when every byte is. */
  lemma {:induction false} ZeroBitsFull(s: Bytes)
    ensures ZeroBits(s) == 8 * |s| <==> (forall i :: 0 <= i < |s| ==> s[i] == 0)
  {
    if s == [] {
    } else {
      var t := s[..|s| - 1];
      ZeroBitsFull(t);
      forall i | 0 <= i < |t|
        ensures t[i] == s[i]
      {
      }
    }
  }

  // ------------------------------------------------------------------ the shared bits of two identifiers

  lemma MaskIsOneBit(k: nat)
    requires k < 8
    ensures MaskAt(k) != 0 && MaskAt(k) & (MaskAt(k) - 1) == 0
  {
    if k == 0 {} else if k == 1 {} else if k == 2 {} else if k == 3 {}
    else if k == 4 {} else if k == 5 {} else if k == 6 {} else {}
  }

  lemma MaskedXor(x: bv8, y: bv8, mask: bv8)
    requires mask != 0 && mask & (mask - 1) == 0
    ensures (x ^ y) & mask != 0 <==> ((x & mask != 0) != (y & mask != 0))
  {
  }

  lemma BitOfXor(x: bv8, y: bv8, k: nat)
    requires k < 8
    ensures BitOf(x ^ y, k) <==> BitOf(x, k) != BitOf(y, k)
  {
    hide MaskAt;
    MaskIsOneBit(k);
    MaskedXor(x, y, MaskAt(k));
  }

  /** A bit of the XOR is set exactly where the two bits differ. */
  lemma BitOfXored(a: Bytes, b: Bytes, i: nat)
    requires i < 8 * |a| <= 8 * |b|
    ensures BitAt(Xored(a, b), i) <==> BitAt(a, i) != BitAt(b, i)
  {
    hide BitOf, MaskAt;
    BitOfXor(a[i / 8], b[i / 8], i % 8);
  }

  /** Two identifiers agree in every bit before the end of their shared prefix, and not there. */
  lemma SharedBitsAgree(a: Bytes, b: Bytes)
    requires |a| <= |b|
    ensures forall i :: 0 <= i < SharedBits(a, b) ==> BitAt(a, i) == BitAt(b, i)
    ensures SharedBits(a, b) < 8 * |a| ==> BitAt(a, SharedBits(a, b)) != BitAt(b, SharedBits(a, b))
  {
    hide BitAt, Xored, ZeroBits;
    var z := SharedBits(a, b);
    ZeroBitsIsFirstOne(Xored(a, b));
    forall i | 0 <= i <= z && i < 8 * |a|
      ensures BitAt(Xored(a, b), i) <==> BitAt(a, i) != BitAt(b, i)
    {
      BitOfXored(a, b, i);
    }
  }
}
