/**
  What the XOR metric promises: the prefix length is an ultrametric, the integer distance
  is a metric that the prefix length brackets between two powers of two, and the fast
  byte-wise order is the order of the integers.
 */
module XorGeometry {
  import opened XorKeySpace

  // ------------------------------------------------------------------ shared prefixes

  lemma XoredFront(a: Bytes, b: Bytes)
    requires 0 < |a| <= |b|
    ensures Xored(a, b)[..|a| - 1] == Xored(a[..|a| - 1], b[..|a| - 1])
  {
  }

  lemma XoredThroughThird(a: Bytes, b: Bytes, c: Bytes)
    requires |a| == |b| == |c|
    ensures Xored(Xored(a, b), Xored(b, c)) == Xored(a, c)
  {
  }

  lemma LeadingZeros8OfXor(x: bv8, y: bv8)
    ensures LeadingZeros8(x) < LeadingZeros8(y) ==> LeadingZeros8(x ^ y) == LeadingZeros8(x)
    ensures LeadingZeros8(x) > LeadingZeros8(y) ==> LeadingZeros8(x ^ y) == LeadingZeros8(y)
    ensures LeadingZeros8(x) == LeadingZeros8(y) < 8 ==> LeadingZeros8(x ^ y) > LeadingZeros8(x)
    ensures LeadingZeros8(x) == LeadingZeros8(y) == 8 ==> LeadingZeros8(x ^ y) == 8
  {
  }

  /** One byte more, in the front-and-last-byte reading of ZeroBits. */
  lemma XoredSnoc(x: Bytes, y: Bytes)
    requires 0 < |x| == |y|
    ensures var n := |x| - 1;
            var l, lx, ly := LeadingZeros8(Xored(x, y)[n]), LeadingZeros8(x[n]), LeadingZeros8(y[n]);
            && (lx < ly ==> l == lx) && (lx > ly ==> l == ly)
            && (lx == ly < 8 ==> l > lx) && (lx == ly == 8 ==> l == 8)
  {
    hide LeadingZeros8;
    LeadingZeros8OfXor(x[|x| - 1], y[|x| - 1]);
  }

  lemma {:induction false} ZeroBitsOfXor(x: Bytes, y: Bytes)
    requires |x| == |y|
    ensures ZeroBits(x) < ZeroBits(y) ==> ZeroBits(Xored(x, y)) == ZeroBits(x)
    ensures ZeroBits(x) > ZeroBits(y) ==> ZeroBits(Xored(x, y)) == ZeroBits(y)
    ensures ZeroBits(x) == ZeroBits(y) < 8 * |x| ==> ZeroBits(Xored(x, y)) > ZeroBits(x)
    ensures ZeroBits(x) == ZeroBits(y) == 8 * |x| ==> ZeroBits(Xored(x, y)) == 8 * |x|
  {
    hide LeadingZeros8, Xored;
    if x == [] {
    } else {
      XoredFront(x, y);
      XoredSnoc(x, y);
      ZeroBitsOfXor(x[..|x| - 1], y[..|x| - 1]);
    }
  }

  /** Two of three identifiers share at least as much as the lesser of the other two pairs,
      exactly as much when those differ, and strictly more when both pairs stop at one bit. */
  lemma SharedBitsUltrametric(a: Bytes, b: Bytes, c: Bytes)
    requires |a| == |b| == |c|
    ensures SharedBits(a, b) < SharedBits(b, c) ==> SharedBits(a, c) == SharedBits(a, b)
    ensures SharedBits(a, b) > SharedBits(b, c) ==> SharedBits(a, c) == SharedBits(b, c)
    ensures SharedBits(a, b) == SharedBits(b, c) < 8 * |a| ==> SharedBits(a, c) > SharedBits(a, b)
    ensures SharedBits(a, b) == SharedBits(b, c) == 8 * |a| ==> SharedBits(a, c) == 8 * |a|
  {
    XoredThroughThird(a, b, c);
    ZeroBitsOfXor(Xored(a, b), Xored(b, c));
  }

  lemma SharedBitsSymmetric(a: Bytes, b: Bytes)
    requires |a| == |b|
    ensures SharedBits(a, b) == SharedBits(b, a)
  {
    assert Xored(a, b) == Xored(b, a);
  }

  /** Cutting identifiers to their first `n` bytes caps the shared prefix at 8n bits. */
  lemma {:induction false} SharedBitsOfCut(a: Bytes, b: Bytes, n: nat)
    requires n <= |a| == |b|
    ensures SharedBits(a[..n], b) == SharedBits(a[..n], b[..n])
    ensures SharedBits(a[..n], b[..n]) == if SharedBits(a, b) < 8 * n then SharedBits(a, b) else 8 * n
    decreases |a|
  {
    assert Xored(a[..n], b) == Xored(a[..n], b[..n]);
    if n < |a| {
      var m := |a| - 1;
      XoredFront(a, b);
      assert a[..m][..n] == a[..n] && b[..m][..n] == b[..n];
      SharedBitsOfCut(a[..m], b[..m], n);
    } else {
      assert a[..n] == a && b[..n] == b;
    }
  }

  /** Sharing every bit is being equal. */
  lemma SharedBitsIdentity(a: Bytes, b: Bytes)
    requires |a| == |b|
    ensures SharedBits(a, b) == 8 * |a| <==> a == b
  {
    var x := Xored(a, b);
    ZeroBitsFull(x);
    forall i | 0 <= i < |a|
      ensures x[i] == 0 <==> a[i] == b[i]
    {
    }
  }

  // ------------------------------------------------------------------ the integer distance

  lemma ByteValues(x: bv8, y: bv8)
    ensures ByteValue(0) == 0 && ByteValue(x) < 256 && ByteValue(y) < 256
    ensures x < y <==> ByteValue(x) < ByteValue(y)
    ensures x == y <==> ByteValue(x) == ByteValue(y)
  {
  }

  function Weight(b: bv8, mask: bv8, w: nat): nat {
    if b & mask != 0 then w else 0
  }

  function BitSum(b: bv8): nat {
    Weight(b, 0x80, 128) + Weight(b, 0x40, 64) + Weight(b, 0x20, 32) + Weight(b, 0x10, 16)
    + Weight(b, 0x08, 8) + Weight(b, 0x04, 4) + Weight(b, 0x02, 2) + Weight(b, 0x01, 1)
  }

  lemma ByteValueIsBitSum(b: bv8)
    ensures ByteValue(b) == BitSum(b)
  {
  }

  lemma WeightOfXor(x: bv8, y: bv8, mask: bv8, w: nat)
    ensures Weight(x ^ y, mask, w) <= Weight(x, mask, w) + Weight(y, mask, w)
  {
  }

  lemma BitSumOfXor(x: bv8, y: bv8)
    ensures BitSum(x ^ y) <= BitSum(x) + BitSum(y)
  {
    hide Weight;
    WeightOfXor(x, y, 0x80, 128);
    WeightOfXor(x, y, 0x40, 64);
    WeightOfXor(x, y, 0x20, 32);
    WeightOfXor(x, y, 0x10, 16);
    WeightOfXor(x, y, 0x08, 8);
    WeightOfXor(x, y, 0x04, 4);
    WeightOfXor(x, y, 0x02, 2);
    WeightOfXor(x, y, 0x01, 1);
  }

  lemma LastByteOfXor(x: Bytes, y: Bytes)
    requires 0 < |x| == |y|
    ensures ByteValue(Xored(x, y)[|x| - 1]) <= ByteValue(x[|x| - 1]) + ByteValue(y[|x| - 1])
  {
    hide ByteValue, BitSum;
    var a, b := x[|x| - 1], y[|x| - 1];
    ByteValueIsBitSum(a);
    ByteValueIsBitSum(b);
    ByteValueIsBitSum(a ^ b);
    BitSumOfXor(a, b);
  }

  lemma {:induction false} BigEndianInjective(a: Bytes, b: Bytes)
    requires |a| == |b| && BigEndian(a) == BigEndian(b)
    ensures a == b
  {
    hide ByteValue;
    if a == [] {
    } else {
      var n := |a| - 1;
      ByteValues(a[n], b[n]);
      BigEndianInjective(a[..n], b[..n]);
      assert a == a[..n] + [a[n]] && b == b[..n] + [b[n]];
    }
  }

  /** Byte-wise comparison reads from the front; a last byte decides only between equal fronts. */
  lemma {:induction false} BytesLessSnoc(a: Bytes, b: Bytes, x: bv8, y: bv8)
    requires |a| == |b|
    ensures BytesLess(a + [x], b + [y]) <==> BytesLess(a, b) || (a == b && x < y)
  {
    if a == [] {
    } else {
      assert (a + [x])[1..] == a[1..] + [x] && (b + [y])[1..] == b[1..] + [y];
      BytesLessSnoc(a[1..], b[1..], x, y);
      assert a == [a[0]] + a[1..] && b == [b[0]] + b[1..];
    }
  }

  /** The fast order on bytes is the order of the big-endian integers. */
  lemma {:induction false} BytesLessIsIntegerLess(a: Bytes, b: Bytes)
    requires |a| == |b|
    ensures BytesLess(a, b) <==> BigEndian(a) < BigEndian(b)
  {
    hide ByteValue;
    if a == [] {
    } else {
      var n := |a| - 1;
      assert a == a[..n] + [a[n]] && b == b[..n] + [b[n]];
      BytesLessSnoc(a[..n], b[..n], a[n], b[n]);
      BytesLessIsIntegerLess(a[..n], b[..n]);
      ByteValues(a[n], b[n]);
      if BigEndian(a[..n]) == BigEndian(b[..n]) {
        BigEndianInjective(a[..n], b[..n]);
      }
    }
  }

  lemma Pow2Plus8(k: nat)
    ensures Pow2(k + 8) == 256 * Pow2(k)
  {
    assert Pow2(k + 8) == 2 * Pow2(k + 7) == 4 * Pow2(k + 6) == 8 * Pow2(k + 5) == 16 * Pow2(k + 4);
    assert Pow2(k + 4) == 2 * Pow2(k + 3) == 4 * Pow2(k + 2) == 8 * Pow2(k + 1) == 16 * Pow2(k);
  }

  lemma {:induction false} Pow2Monotone(j: nat, k: nat)
    requires j <= k
    ensures Pow2(j) <= Pow2(k)
  {
    if j == k {
    } else {
      Pow2Monotone(j, k - 1);
    }
  }

  lemma ByteRange(b: bv8)
    requires b != 0
    ensures Pow2(7 - LeadingZeros8(b)) <= ByteValue(b) < Pow2(8 - LeadingZeros8(b))
  {
    assert Pow2(2) == 4 && Pow2(4) == 16 && Pow2(6) == 64 && Pow2(8) == 256;
  }

  /** A non-zero string with z leading zero bits is an integer in [2^(8n-z-1), 2^(8n-z)). */
  lemma {:induction false} ZeroBitsBracket(s: Bytes)
    ensures ZeroBits(s) < 8 * |s| ==>
              Pow2(8 * |s| - ZeroBits(s) - 1) <= BigEndian(s) < Pow2(8 * |s| - ZeroBits(s))
    ensures ZeroBits(s) == 8 * |s| <==> BigEndian(s) == 0
  {
    hide LeadingZeros8, ByteValue;
    if s == [] {
    } else {
      var n := |s| - 1;
      var t := s[..n];
      ZeroBitsBracket(t);
      ByteValues(s[n], 0);
      if ZeroBits(t) < 8 * n {
        Pow2Plus8(8 * n - ZeroBits(t) - 1);
        Pow2Plus8(8 * n - ZeroBits(t));
      } else if s[n] != 0 {
        ByteRange(s[n]);
      }
    }
  }

  /** The integer distance of two identifiers that first differ at bit z. */
  lemma DistanceBracket(a: Bytes, b: Bytes)
    requires |a| == |b|
    ensures a == b <==> Distance(a, b) == 0
    ensures a != b ==>
              var z := SharedBits(a, b);
              z < 8 * |a| && Pow2(8 * |a| - z - 1) <= Distance(a, b) < Pow2(8 * |a| - z)
  {
    SharedBitsIdentity(a, b);
    ZeroBitsBracket(Xored(a, b));
  }

  /** Whoever shares more bits with a key is strictly nearer to it. */
  lemma MoreSharedBitsIsNearer(key: Bytes, a: Bytes, b: Bytes)
    requires |key| <= |a| && |key| <= |b|
    requires SharedBits(key, a) > SharedBits(key, b)
    ensures Distance(key, a) < Distance(key, b)
  {
    var x, y := Xored(key, a), Xored(key, b);
    ZeroBitsBracket(x);
    ZeroBitsBracket(y);
    if ZeroBits(x) < 8 * |key| {
      Pow2Monotone(8 * |key| - ZeroBits(x), 8 * |key| - ZeroBits(y) - 1);
    }
  }

  lemma {:induction false} BigEndianOfXor(x: Bytes, y: Bytes)
    requires |x| == |y|
    ensures BigEndian(Xored(x, y)) <= BigEndian(x) + BigEndian(y)
  {
    hide Xored, ByteValue;
    if x == [] {
    } else {
      XoredFront(x, y);
      BigEndianOfXor(x[..|x| - 1], y[..|x| - 1]);
      LastByteOfXor(x, y);
    }
  }

  /** The distance is a metric, and it is unidirectional: no two identifiers are at the same
      distance from a third. */
  lemma DistanceIsMetric(a: Bytes, b: Bytes, c: Bytes)
    requires |a| == |b| == |c|
    ensures Distance(a, b) == 0 <==> a == b
    ensures Distance(a, b) == Distance(b, a)
    ensures Distance(a, c) <= Distance(a, b) + Distance(b, c)
    ensures Distance(a, b) == Distance(a, c) ==> b == c
  {
    DistanceBracket(a, b);
    assert Xored(a, b) == Xored(b, a);
    XoredThroughThird(a, b, c);
    BigEndianOfXor(Xored(a, b), Xored(b, c));
    if Distance(a, b) == Distance(a, c) {
      BigEndianInjective(Xored(a, b), Xored(a, c));
      forall i | 0 <= i < |a|
        ensures b[i] == c[i]
      {
        assert Xored(a, b)[i] == Xored(a, c)[i];
      }
    }
  }
}
