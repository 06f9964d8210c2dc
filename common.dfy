/** Small shared vocabulary: an optional value and order-preserving filtering,
    the shape of Python's `[x for x in xs if p(x)]`. */
module Common {

  datatype Option<T> = None | Some(value: T)

  /** The elements of xs that satisfy p, in their original order. */
  function Filter<T(==)>(p: T -> bool, xs: seq<T>): (r: seq<T>)
    ensures |r| <= |xs|
    ensures forall i :: 0 <= i < |r| ==> p(r[i])
  {
    if xs == [] then []
    else
      var n := |xs| - 1;
      Filter(p, xs[..n]) + (if p(xs[n]) then [xs[n]] else [])
  }

  /** Every kept element comes from the list, and every element that passes
      the test is kept. */
  lemma {:induction false} FilterMembers<T>(p: T -> bool, xs: seq<T>)
    ensures forall i :: 0 <= i < |Filter(p, xs)| ==> Filter(p, xs)[i] in xs
    ensures forall i :: 0 <= i < |xs| && p(xs[i]) ==> xs[i] in Filter(p, xs)
    decreases |xs|
  {
    if xs != [] {
      var n := |xs| - 1;
      var front := Filter(p, xs[..n]);
      FilterMembers(p, xs[..n]);
      assert forall i :: 0 <= i < n ==> xs[..n][i] == xs[i];
      assert Filter(p, xs) == front + (if p(xs[n]) then [xs[n]] else []);
      assert xs == xs[..n] + [xs[n]];
    }
  }

  /** The positions in xs of the elements Filter keeps: the witness that the
      filtered list is an in-order subsequence of xs. */
  function FilterIndices<T(==)>(p: T -> bool, xs: seq<T>): (ix: seq<nat>)
    ensures |ix| == |Filter(p, xs)|
    ensures forall j :: 0 <= j < |ix| ==> ix[j] < |xs| && xs[ix[j]] == Filter(p, xs)[j]
    ensures forall j, k :: 0 <= j < k < |ix| ==> ix[j] < ix[k]
  {
    if xs == [] then []
    else
      var n := |xs| - 1;
      var front := FilterIndices(p, xs[..n]);
      var tail: seq<nat> := if p(xs[n]) then [n] else [];
      var kept := Filter(p, xs[..n]);
      assert Filter(p, xs) == kept + (if p(xs[n]) then [xs[n]] else []);
      assert forall j :: 0 <= j < |front| ==> front[j] < n && xs[front[j]] == kept[j];
      assert forall i :: 0 <= i < n ==> xs[..n][i] == xs[i];
      front + tail
  }

  /** FilterIndices lists exactly the positions whose element passes the test. */
  lemma {:induction false} FilterIndicesComplete<T>(p: T -> bool, xs: seq<T>, i: nat)
    requires i < |xs|
    ensures i in FilterIndices(p, xs) <==> p(xs[i])
    decreases |xs|
  {
    var n := |xs| - 1;
    var front := FilterIndices(p, xs[..n]);
    assert FilterIndices(p, xs) == front + (if p(xs[n]) then [n] else []);
    if i < n {
      FilterIndicesComplete(p, xs[..n], i);
      assert xs[..n][i] == xs[i];
    } else {
      assert n !in front;
    }
  }

  /** Filtering one more element of a prefix. */
  lemma FilterStep<T>(p: T -> bool, xs: seq<T>, i: nat)
    requires i < |xs|
    ensures Filter(p, xs[..i + 1]) == Filter(p, xs[..i]) + (if p(xs[i]) then [xs[i]] else [])
  {
    assert xs[..i + 1][..i] == xs[..i];
  }

  /** Filtering distributes over concatenation, so the kept elements of a
      prefix come first and keep their order. */
  lemma {:induction false} FilterAppend<T>(p: T -> bool, a: seq<T>, b: seq<T>)
    ensures Filter(p, a + b) == Filter(p, a) + Filter(p, b)
    decreases |b|
  {
    if b == [] {
      assert a + b == a;
    } else {
      var n := |b| - 1;
      assert (a + b)[..|a + b| - 1] == a + b[..n];
      assert (a + b)[|a + b| - 1] == b[n];
      FilterAppend(p, a, b[..n]);
    }
  }

  /** Filtering a list whose only failing element is the one at position i
      drops exactly that element. */
  lemma FilterDropsOne<T>(p: T -> bool, xs: seq<T>, i: nat)
    requires i < |xs| && !p(xs[i])
    requires Filter(p, xs[..i]) == xs[..i] && Filter(p, xs[i + 1..]) == xs[i + 1..]
    ensures Filter(p, xs) == xs[..i] + xs[i + 1..]
  {
    var front, back := xs[..i + 1], xs[i + 1..];
    FilterStep(p, xs, i);
    assert Filter(p, front) == xs[..i];
    FilterAppend(p, front, back);
    assert front + back == xs;
  }

  /** A list every element of which passes the test is kept whole. */
  lemma {:induction false} FilterKeepsAll<T>(p: T -> bool, xs: seq<T>)
    requires forall i :: 0 <= i < |xs| ==> p(xs[i])
    ensures Filter(p, xs) == xs
    decreases |xs|
  {
    if xs != [] {
      var n := |xs| - 1;
      FilterKeepsAll(p, xs[..n]);
      assert xs == xs[..n] + [xs[n]];
    }
  }

  /** A list no element of which passes the test filters to nothing. */
  lemma {:induction false} FilterKeepsNone<T>(p: T -> bool, xs: seq<T>)
    requires forall i :: 0 <= i < |xs| ==> !p(xs[i])
    ensures Filter(p, xs) == []
    decreases |xs|
  {
    if xs != [] {
      var n := |xs| - 1;
      FilterKeepsNone(p, xs[..n]);
    }
  }

  /** Filtering keeps the length exactly when every element passes. */
  lemma {:induction false} FilterSameLength<T>(p: T -> bool, xs: seq<T>)
    ensures |Filter(p, xs)| == |xs| <==> forall i :: 0 <= i < |xs| ==> p(xs[i])
    decreases |xs|
  {
    if xs != [] {
      var n := |xs| - 1;
      FilterSameLength(p, xs[..n]);
      assert forall i :: 0 <= i < n ==> xs[..n][i] == xs[i];
    }
  }

  /** Filtering twice by the same test changes nothing the second time. */
  lemma FilterIdempotent<T>(p: T -> bool, xs: seq<T>)
    ensures Filter(p, Filter(p, xs)) == Filter(p, xs)
  {
    var r := Filter(p, xs);
    FilterKeepsAll(p, r);
  }

  /** Removing a key undoes any update of it. */
  lemma MapUpdateRemove<K, V>(m: map<K, V>, k: K, v: V)
    ensures m[k := v] - {k} == m - {k}
  {
  }

  /** Position of the first element of xs that satisfies p, if any: Python's
      `next((i for i, x in enumerate(xs) if p(x)), None)`. */
  function FirstWhere<T>(xs: seq<T>, p: T -> bool): (r: Option<nat>)
    ensures r.Some? ==> r.value < |xs| && p(xs[r.value])
    ensures r.Some? ==> forall j :: 0 <= j < r.value ==> !p(xs[j])
    ensures r.None? ==> forall j :: 0 <= j < |xs| ==> !p(xs[j])
  {
    if xs == [] then None
    else if p(xs[0]) then Some(0)
    else match FirstWhere(xs[1..], p)
      case None => None
      case Some(i) => Some(i + 1)
  }
}
