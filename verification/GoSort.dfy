/**
  sort.Sort of the Go standard library, as far as its callers may rely on it: an in-place
  permutation into ascending order, driven by comparisons and swaps. Not stable.
 */
module GoSort {

  ghost predicate Ascending<T>(key: T -> nat, s: seq<T>)
  {
    forall i, j :: 0 <= i < j < |s| ==> key(s[i]) <= key(s[j])
  }

  /** `less` compares the elements of `s` by their keys. */
  ghost predicate ComparesBy<T(!new)>(less: (T, T) -> bool, key: T -> nat, s: seq<T>)
  {
    forall x, y :: x in s && y in s ==> (less(x, y) <==> key(x) < key(y))
  }

  method Swap<T>(a: array<T>, i: nat, j: nat)
    requires i < a.Length && j < a.Length
    modifies a
    ensures a[..] == old(a[..])[i := old(a[j])][j := old(a[i])]
    ensures multiset(a[..]) == multiset(old(a[..]))
  {
    a[i], a[j] := a[j], a[i];
  }

  lemma StillCompares<T(!new)>(less: (T, T) -> bool, key: T -> nat, s: seq<T>, t: seq<T>)
    requires ComparesBy(less, key, s) && multiset(s) == multiset(t)
    ensures ComparesBy(less, key, t)
  {
    forall x | x in t
      ensures x in s
    {
      assert x in multiset(t);
    }
  }

  lemma ComparedAt<T(!new)>(less: (T, T) -> bool, key: T -> nat, s: seq<T>, i: nat, j: nat)
    requires ComparesBy(less, key, s) && i < |s| && j < |s|
    ensures less(s[i], s[j]) <==> key(s[i]) < key(s[j])
  {
  }

  /** The first i + 1 elements are ascending, but for the one at `j` that is still too far back. */
  ghost predicate AscendingBut<T>(key: T -> nat, s: seq<T>, i: nat, j: nat)
  {
    j <= i < |s| && forall x, y :: 0 <= x < y <= i && y != j ==> key(s[x]) <= key(s[y])
  }

  lemma SinkStarts<T>(key: T -> nat, s: seq<T>, i: nat)
    requires i < |s| && Ascending(key, s[..i])
    ensures AscendingBut(key, s, i, i)
  {
  }

  lemma SinkStep<T>(key: T -> nat, s: seq<T>, i: nat, j: nat)
    requires AscendingBut(key, s, i, j) && j > 0 && key(s[j]) < key(s[j - 1])
    ensures AscendingBut(key, s[j - 1 := s[j]][j := s[j - 1]], i, j - 1)
  {
  }

  lemma SinkEnds<T>(key: T -> nat, s: seq<T>, i: nat, j: nat)
    requires AscendingBut(key, s, i, j) && (j > 0 ==> key(s[j - 1]) <= key(s[j]))
    ensures Ascending(key, s[..i + 1])
  {
  }

  /** Let the element at `i` sink to its place among the ascending elements before it. */
  method Sink<T(!new)>(a: array<T>, i: nat, less: (T, T) -> bool, ghost key: T -> nat)
    requires i < a.Length && ComparesBy(less, key, a[..]) && Ascending(key, a[..i])
    modifies a
    ensures Ascending(key, a[..i + 1])
    ensures multiset(a[..]) == multiset(old(a[..]))
  {
    hide ComparesBy, AscendingBut, Ascending;
    var j := i;
    assert a[..][..i] == a[..i];
    SinkStarts(key, a[..], i);
    while j > 0 && less(a[j], a[j - 1])
      invariant 0 <= j <= i && AscendingBut(key, a[..], i, j)
      invariant ComparesBy(less, key, a[..]) && multiset(a[..]) == multiset(old(a[..]))
    {
      ghost var before := a[..];
      ComparedAt(less, key, before, j, j - 1);
      SinkStep(key, before, i, j);
      Swap(a, j - 1, j);
      StillCompares(less, key, before, a[..]);
      j := j - 1;
    }
    if j > 0 {
      ComparedAt(less, key, a[..], j, j - 1);
    }
    SinkEnds(key, a[..], i, j);
    assert a[..][..i + 1] == a[..i + 1];
  }

  method Sort<T(!new)>(a: array<T>, less: (T, T) -> bool, ghost key: T -> nat)
    requires ComparesBy(less, key, a[..])
    modifies a
    ensures Ascending(key, a[..])
    ensures multiset(a[..]) == multiset(old(a[..]))
  {
    for i := 0 to a.Length
      invariant multiset(a[..]) == multiset(old(a[..]))
      invariant Ascending(key, a[..i])
    {
      StillCompares(less, key, old(a[..]), a[..]);
      Sink(a, i, less, key);
    }
    assert a[..a.Length] == a[..];
  }

  // ------------------------------------------------------------------ sorting images

  function Mapped<A, B>(f: A -> B, s: seq<A>): (t: seq<B>)
    ensures |t| == |s|
  {
    seq(|s|, i requires 0 <= i < |s| => f(s[i]))
  }

  lemma MappedConcat<A, B>(f: A -> B, s: seq<A>, t: seq<A>)
    ensures Mapped(f, s + t) == Mapped(f, s) + Mapped(f, t)
  {
  }

  lemma MappedCut<A, B>(f: A -> B, s: seq<A>, n: nat)
    ensures n < |s| ==> Mapped(f, s[..n]) == Mapped(f, s)[..n]
  {
  }

  function Dropped<T>(s: seq<T>, k: nat): seq<T>
    requires k < |s|
  {
    s[..k] + s[k + 1..]
  }

  lemma DroppedMultiset<T>(s: seq<T>, k: nat)
    requires k < |s|
    ensures multiset(s) == multiset(Dropped(s, k)) + multiset{s[k]}
  {
    var front, back := s[..k], s[k + 1..];
    calc {
      multiset(s);
      { assert s == (front + [s[k]]) + back; }
      multiset((front + [s[k]]) + back);
      multiset(front) + multiset{s[k]} + multiset(back);
    }
  }

  /** A permutation of the images of some elements is the image of a permutation of them. */
  lemma {:induction false} LiftPermutation<A, B>(f: A -> B, s: seq<A>, t: seq<B>) returns (s': seq<A>)
    requires multiset(t) == multiset(Mapped(f, s))
    ensures multiset(s') == multiset(s) && Mapped(f, s') == t
    decreases |t|
  {
    if t == [] {
      assert |multiset(Mapped(f, s))| == |s|;
      s' := [];
    } else {
      var m := Mapped(f, s);
      assert t[0] in multiset(m);
      var k :| 0 <= k < |m| && m[k] == t[0];
      DroppedMultiset(s, k);
      DroppedMultiset(m, k);
      DroppedMultiset(t, 0);
      assert Dropped(t, 0) == t[1..];
      assert Mapped(f, Dropped(s, k)) == Dropped(m, k);
      CancelOne(multiset(t[1..]), multiset(Dropped(m, k)), t[0]);
      s' := LiftPermutation(f, Dropped(s, k), t[1..]);
      PrependImage(f, s[k], s', t);
      s' := [s[k]] + s';
    }
  }

  lemma CancelOne<T>(r: multiset<T>, s: multiset<T>, x: T)
    requires r + multiset{x} == s + multiset{x}
    ensures r == s
  {
    assert r == (r + multiset{x}) - multiset{x};
  }

  lemma PrependImage<A, B>(f: A -> B, x: A, s: seq<A>, t: seq<B>)
    requires t != [] && f(x) == t[0] && Mapped(f, s) == t[1..]
    ensures Mapped(f, [x] + s) == t
  {
  }
}
