/**
 * Single-point crossover (org.jenetics.SinglePointCrossover): the two
 * parent gene sequences exchange their tails [index, length) in place.
 * A gene sequence (MSeq) is an array; the random cut point is a parameter.
 */
module Crossover {

  /** The pair of sequences that crossover at `index` produces from `a` and `b`. */
  function Cross<T>(a: seq<T>, b: seq<T>, index: nat): (r: (seq<T>, seq<T>))
    requires |a| == |b| && index <= |a|
  {
    (a[..index] + b[index..], b[..index] + a[index..])
  }

  /** Position by position: prefixes stay, tails are exchanged, lengths are kept. */
  lemma CrossAt<T>(a: seq<T>, b: seq<T>, index: nat)
    requires |a| == |b| && index <= |a|
    ensures |Cross(a, b, index).0| == |a| && |Cross(a, b, index).1| == |b|
    ensures forall i :: 0 <= i < index ==> Cross(a, b, index).0[i] == a[i] && Cross(a, b, index).1[i] == b[i]
    ensures forall i :: index <= i < |a| ==> Cross(a, b, index).0[i] == b[i] && Cross(a, b, index).1[i] == a[i]
  {
  }

  /** No gene is lost or duplicated: the pair keeps its multiset of genes. */
  lemma CrossPreservesGenes<T>(a: seq<T>, b: seq<T>, index: nat)
    requires |a| == |b| && index <= |a|
    ensures multiset(Cross(a, b, index).0) + multiset(Cross(a, b, index).1) == multiset(a) + multiset(b)
  {
    assert a == a[..index] + a[index..];
    assert b == b[..index] + b[index..];
  }

  /** Crossing the children at the same point gives back the parents. */
  lemma CrossInvolution<T>(a: seq<T>, b: seq<T>, index: nat)
    requires |a| == |b| && index <= |a|
    ensures var (c, d) := Cross(a, b, index); Cross(c, d, index) == (a, b)
  {
    var (c, d) := Cross(a, b, index);
    assert c[..index] == a[..index] && c[index..] == b[index..];
    assert d[..index] == b[..index] && d[index..] == a[index..];
    assert a == a[..index] + a[index..];
    assert b == b[..index] + b[index..];
  }

  /** Cutting at 0 swaps the parents; cutting at the length changes nothing. */
  lemma CrossAtEnds<T>(a: seq<T>, b: seq<T>)
    requires |a| == |b|
    ensures Cross(a, b, 0) == (b, a)
    ensures Cross(a, b, |a|) == (a, b)
  {
    assert a[..0] + b[0..] == b && b[..0] + a[0..] == a;
    assert a[..|a|] + b[|a|..] == a && b[..|b|] + a[|a|..] == b;
  }

  /**
   * MSeq.swap(start, end, other, otherStart) with otherStart == start:
   * exchanges the elements of [start, end) between two distinct sequences.
   */
  method SwapRange<T>(that: array<T>, start: nat, end: nat, other: array<T>)
    requires that != other
    requires start <= end <= that.Length <= other.Length
    modifies that, other
    ensures forall i :: 0 <= i < that.Length ==>
      that[i] == if start <= i < end then old(other[i]) else old(that[i])
    ensures forall i :: 0 <= i < other.Length ==>
      other[i] == if start <= i < end then old(that[i]) else old(other[i])
  {
    var i := start;
    while i < end
      invariant start <= i <= end
      invariant forall k :: 0 <= k < that.Length ==>
        that[k] == if start <= k < i then old(other[k]) else old(that[k])
      invariant forall k :: 0 <= k < other.Length ==>
        other[k] == if start <= k < i then old(that[k]) else old(other[k])
    {
      that[i], other[i] := other[i], that[i];
      i := i + 1;
    }
  }

  /**
   * The static crossover(that, other, index): swaps [index, length) between
   * `that` and `other`. The two sequences must be distinct buffers.
   */
  method CrossoverAt<T>(that: array<T>, other: array<T>, index: nat)
    requires that != other
    requires that.Length == other.Length && index <= that.Length
    modifies that, other
    ensures (that[..], other[..]) == Cross(old(that[..]), old(other[..]), index)
    ensures multiset(that[..]) + multiset(other[..]) == old(multiset(that[..]) + multiset(other[..]))
  {
    SwapRange(that, index, that.Length, other);
    ghost var (c, d) := Cross(old(that[..]), old(other[..]), index);
    CrossAt(old(that[..]), old(other[..]), index);
    assert that[..] == c;
    assert other[..] == d;
    CrossPreservesGenes(old(that[..]), old(other[..]), index);
  }

  /**
   * The protected crossover(that, other): cuts at the drawn point `draw`,
   * which the random source picks from [0, length), and reports the two
   * children it produced.
   */
  method CrossoverPair<T>(that: array<T>, other: array<T>, draw: nat) returns (children: int)
    requires that != other
    requires that.Length == other.Length && draw < that.Length
    modifies that, other
    ensures children == 2
    ensures (that[..], other[..]) == Cross(old(that[..]), old(other[..]), draw)
  {
    CrossoverAt(that, other, draw);
    children := 2;
  }

  /** The worked example: [1,2,3,4,5] and [6,7,8,9,10] cut at 2. */
  lemma CrossExample()
    ensures Cross([1, 2, 3, 4, 5], [6, 7, 8, 9, 10], 2) == ([1, 2, 8, 9, 10], [6, 7, 3, 4, 5])
  {
    var a, b := [1, 2, 3, 4, 5], [6, 7, 8, 9, 10];
    assert a[..2] == [1, 2] && b[2..] == [8, 9, 10];
    assert b[..2] == [6, 7] && a[2..] == [3, 4, 5];
    assert [1, 2] + [8, 9, 10] == [1, 2, 8, 9, 10];
    assert [6, 7] + [3, 4, 5] == [6, 7, 3, 4, 5];
  }
}
