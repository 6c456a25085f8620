/** Sequence helpers shared by the estimator and the report job: filtering (the
    pandas boolean masks), SQL OFFSET/LIMIT paging, DISTINCT, and fixed-size batches. */
module Seqs {

  function Min(a: int, b: int): int { if a <= b then a else b }

  /** The elements of `s` satisfying `p`, in their original order. */
  function Filter<T(!new)>(p: T -> bool, s: seq<T>): (r: seq<T>)
    ensures |r| <= |s|
    ensures forall x :: x in r <==> x in s && p(x)
  {
    if s == [] then []
    else if p(s[0]) then [s[0]] + Filter(p, s[1..])
    else Filter(p, s[1..])
  }

  /** Filtering distributes over concatenation: the order of the kept elements is the input order. */
  lemma {:induction false} FilterConcat<T(!new)>(p: T -> bool, a: seq<T>, b: seq<T>)
    ensures Filter(p, a + b) == Filter(p, a) + Filter(p, b)
  {
    if a == [] {
      assert a + b == b;
    } else {
      assert (a + b)[0] == a[0];
      assert (a + b)[1..] == a[1..] + b;
      FilterConcat(p, a[1..], b);
    }
  }

  /** Filtering by a stronger predicate after a weaker one is filtering by the stronger one. */
  lemma {:induction false} FilterNested<T(!new)>(p: T -> bool, q: T -> bool, s: seq<T>)
    requires forall x :: p(x) ==> q(x)
    ensures Filter(p, Filter(q, s)) == Filter(p, s)
  {
    if s != [] {
      FilterNested(p, q, s[1..]);
    }
  }

  /** A filter that every element passes keeps the whole sequence. */
  lemma {:induction false} FilterAll<T(!new)>(p: T -> bool, s: seq<T>)
    requires forall i :: 0 <= i < |s| ==> p(s[i])
    ensures Filter(p, s) == s
  {
    if s != [] {
      FilterAll(p, s[1..]);
    }
  }

  /** SQL `OFFSET offset LIMIT limit` over an ordered result. */
  function Page<T>(s: seq<T>, offset: nat, limit: nat): (r: seq<T>)
    ensures |r| <= limit
    ensures offset <= |s| ==> r == s[offset..Min(offset + limit, |s|)]
    ensures offset >= |s| ==> r == []
  {
    s[Min(offset, |s|)..Min(offset + limit, |s|)]
  }

  /** The distinct elements of `s`, in order of first occurrence. */
  function Distinct<T(==,!new)>(s: seq<T>): (r: seq<T>)
    ensures forall x :: x in r <==> x in s
    ensures forall i, j :: 0 <= i < j < |r| ==> r[i] != r[j]
  {
    if s == [] then []
    else
      var d := Distinct(s[..|s| - 1]);
      assert s == s[..|s| - 1] + [s[|s| - 1]];
      if s[|s| - 1] in d then d else d + [s[|s| - 1]]
  }

  /** `s` cut into consecutive batches of `size` elements (the last one may be shorter). */
  function Batches<T>(s: seq<T>, size: nat): (r: seq<seq<T>>)
    requires size > 0
    decreases |s|
  {
    if |s| <= size then (if s == [] then [] else [s])
    else [s[..size]] + Batches(s[size..], size)
  }

  function Flatten<T>(ss: seq<seq<T>>): seq<T>
  {
    if ss == [] then [] else ss[0] + Flatten(ss[1..])
  }

  /** Concatenating the batches gives back the sequence; every batch is non-empty and at most `size` long. */
  lemma {:induction false} BatchesPartition<T>(s: seq<T>, size: nat)
    requires size > 0
    ensures Flatten(Batches(s, size)) == s
    ensures forall k :: 0 <= k < |Batches(s, size)| ==> 0 < |Batches(s, size)[k]| <= size
    decreases |s|
  {
    if |s| <= size {
      if s != [] {
        assert Flatten([s]) == s + Flatten([]);
      }
    } else {
      var rest := Batches(s[size..], size);
      BatchesPartition(s[size..], size);
      assert Batches(s, size) == [s[..size]] + rest;
      assert ([s[..size]] + rest)[1..] == rest;
      assert s[..size] + s[size..] == s;
    }
  }

  /** Batch k is the slice `[k * size, min(k * size + size, |s|))`: this is what
      slicing `s[i:i + size]` for `i` in `range(0, len(s), size)` visits. */
  lemma {:induction false} BatchAt<T>(s: seq<T>, size: nat, k: nat)
    requires size > 0
    requires k * size < |s|
    ensures k < |Batches(s, size)|
    ensures Batches(s, size)[k] == s[k * size..Min(k * size + size, |s|)]
    decreases k
  {
    if k > 0 {
      var lo := (k - 1) * size;
      assert k * size == lo + size;
      var tail := s[size..];
      BatchAt(tail, size, k - 1);
      assert Batches(s, size) == [s[..size]] + Batches(tail, size);
      var hi := Min(lo + size, |tail|);
      if lo + size <= |tail| {
        assert size + hi == k * size + size;
      } else {
        assert size + hi == |s|;
      }
      assert size + hi == Min(k * size + size, |s|);
      assert tail[lo..hi] == s[size + lo..size + hi];
    }
  }
}
