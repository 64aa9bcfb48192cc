/** Small shared vocabulary: failure-carrying datatypes, distinctness of
    sequences, integer ranges and the scaling of a uniform draw in [0,1)
    to an index, plus the counting facts the other modules rely on. */
module Common {

  datatype Option<+T> = None | Some(value: T)

  datatype Result<+T, +E> = Ok(value: T) | Err(error: E)

  /** No element occurs twice. */
  predicate NoDup<T(==)>(s: seq<T>) {
    forall i, j :: 0 <= i < j < |s| ==> s[i] != s[j]
  }

  /** The elements of a sequence, as a set. */
  function Elems<T>(s: seq<T>): set<T> {
    set x | x in s
  }

  /** Appending x adds x to the elements. */
  lemma ElemsSnoc<T>(xs: seq<T>, x: T)
    ensures Elems(xs + [x]) == Elems(xs) + {x}
  {
  }

  /** The integers lo, lo+1, ..., hi-1 in increasing order (Python's range(lo, hi)). */
  function Range(lo: int, hi: int): (r: seq<int>)
    ensures |r| == if lo <= hi then hi - lo else 0
    ensures forall i :: 0 <= i < |r| ==> r[i] == lo + i
    decreases hi - lo
  {
    if lo >= hi then [] else [lo] + Range(lo + 1, hi)
  }

  lemma RangeMembers(lo: int, hi: int)
    ensures forall x :: x in Range(lo, hi) <==> lo <= x < hi
  {
    var r := Range(lo, hi);
    forall x | lo <= x < hi
      ensures x in r
    {
      assert r[x - lo] == x;
    }
  }

  /** The set {0, ..., n-1}. */
  function Below(n: int): (r: set<int>)
    ensures forall i :: i in r <==> 0 <= i < n
  {
    RangeMembers(0, n);
    set x | x in Range(0, n)
  }

  /** A uniform draw u in [0,1) turned into an index in [0,k) by truncation,
      the way a C++ cast (int)(u * k) does for non-negative values. Every
      index in [0,k) is the image of some draw (ScaleOnto). */
  function Scale(u: real, k: nat): (j: nat)
    requires 0.0 <= u < 1.0 && k > 0
    ensures j < k
  {
    ScaleBounds(u, k);
    (u * k as real).Floor
  }

  lemma ScaleBounds(u: real, k: nat)
    requires 0.0 <= u < 1.0 && k > 0
    ensures 0.0 <= u * k as real < k as real
  {
  }

  lemma ScaleOnto(j: nat, k: nat)
    requires j < k
    ensures 0.0 <= j as real / k as real < 1.0
    ensures Scale(j as real / k as real, k) == j
  {
    assert (j as real / k as real) * k as real == j as real;
  }

  lemma {:induction false} NoDupCard<T>(s: seq<T>)
    requires NoDup(s)
    ensures |Elems(s)| == |s|
  {
    if s != [] {
      var t := s[1..];
      assert NoDup(t);
      NoDupCard(t);
      assert Elems(s) == Elems(t) + {s[0]};
      assert s[0] !in Elems(t);
    }
  }

  lemma BelowCard(n: nat)
    ensures |Below(n)| == n
  {
    NoDupCard(Range(0, n));
  }

  /** A subset of a finite set with the same size is the whole set. */
  lemma SubsetSameCard<T>(a: set<T>, b: set<T>)
    requires a <= b && |a| == |b|
    ensures a == b
  {
    assert |b - a| == |b| - |a|;
  }
}
