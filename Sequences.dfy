/** The array helpers the source relies on: `filter`, `find`, and a
    no-duplicates predicate used by the selection invariants. */
module Sequences {
  import opened Wrappers

  /** `xs.filter(keep)`: the elements satisfying `keep`, in their original order. */
  function Filter<T>(xs: seq<T>, keep: T -> bool): (r: seq<T>)
    ensures |r| <= |xs|
    ensures forall i :: 0 <= i < |r| ==> r[i] in xs && keep(r[i])
  {
    if xs == [] then []
    else (if keep(xs[0]) then [xs[0]] else []) + Filter(xs[1..], keep)
  }

  /** Every element satisfying `keep` survives the filter. */
  lemma {:induction false} FilterKeepsSatisfying<T>(xs: seq<T>, keep: T -> bool, i: nat)
    requires i < |xs| && keep(xs[i])
    ensures xs[i] in Filter(xs, keep)
  {
    if i > 0 {
      FilterKeepsSatisfying(xs[1..], keep, i - 1);
      assert xs[1..][i - 1] == xs[i];
    }
  }

  /** Filtering a concatenation filters each part: the kept elements stay in order. */
  lemma {:induction false} FilterAppend<T>(xs: seq<T>, ys: seq<T>, keep: T -> bool)
    ensures Filter(xs + ys, keep) == Filter(xs, keep) + Filter(ys, keep)
  {
    if xs == [] {
      assert xs + ys == ys;
    } else {
      var zs := xs + ys;
      assert zs != [] && zs[0] == xs[0] && zs[1..] == xs[1..] + ys;
      FilterAppend(xs[1..], ys, keep);
      var head := if keep(xs[0]) then [xs[0]] else [];
      SeqAssoc(head, Filter(xs[1..], keep), Filter(ys, keep));
    }
  }

  /** Concatenation is associative. */
  lemma SeqAssoc<T>(a: seq<T>, b: seq<T>, c: seq<T>)
    ensures a + (b + c) == (a + b) + c
  {
  }

  /** A filter that rejects nothing returns its input. */
  lemma {:induction false} FilterKeepsAll<T>(xs: seq<T>, keep: T -> bool)
    requires forall i :: 0 <= i < |xs| ==> keep(xs[i])
    ensures Filter(xs, keep) == xs
  {
    if xs != [] {
      FilterKeepsAll(xs[1..], keep);
    }
  }

  /** Filtering out a single rejected element between kept ones removes
      exactly that element. */
  lemma FilterDropsOne<T>(a: seq<T>, x: T, b: seq<T>, keep: T -> bool)
    requires forall i :: 0 <= i < |a| ==> keep(a[i])
    requires !keep(x)
    requires forall i :: 0 <= i < |b| ==> keep(b[i])
    ensures Filter(a + [x] + b, keep) == a + b
  {
    assert Filter([x], keep) == [] by {
      assert [x][1..] == [];
    }
    FilterKeepsAll(a, keep);
    FilterKeepsAll(b, keep);
    FilterAppend(a, [x], keep);
    assert Filter(a + [x], keep) == a;
    FilterAppend(a + [x], b, keep);
  }

  /** The index `xs.findIndex(p)` finds: the first element satisfying `p`. */
  function FindIndex<T>(xs: seq<T>, p: T -> bool): (r: Option<nat>)
    ensures r.None? <==> forall i :: 0 <= i < |xs| ==> !p(xs[i])
    ensures r.Some? ==> r.value < |xs| && p(xs[r.value])
    ensures r.Some? ==> forall j :: 0 <= j < r.value ==> !p(xs[j])
  {
    if xs == [] then None
    else if p(xs[0]) then Some(0)
    else
      match FindIndex(xs[1..], p)
      case None => None
      case Some(i) => Some(i + 1)
  }

  /** The first index in `[p, end)` passing `ok`: the scan a regular
      expression search makes over candidate start positions. */
  function FirstFrom(p: nat, end: nat, ok: nat -> bool): (r: Option<nat>)
    ensures r.Some? ==> p <= r.value < end && ok(r.value)
    decreases end - p
  {
    if p >= end then None
    else if ok(p) then Some(p)
    else FirstFrom(p + 1, end, ok)
  }

  /** The scan finds an index exactly when one passes, and none before the
      one it finds passes. */
  lemma {:induction false} FirstFromIsFirst(p: nat, end: nat, ok: nat -> bool)
    ensures FirstFrom(p, end, ok).None? <==> forall q :: p <= q < end ==> !ok(q)
    ensures FirstFrom(p, end, ok).Some? ==> forall q :: p <= q < FirstFrom(p, end, ok).value ==> !ok(q)
    decreases end - p
  {
    if p < end && !ok(p) {
      FirstFromIsFirst(p + 1, end, ok);
    }
  }

  /** An index that passes, with none passing before it, is the one the
      scan finds. */
  lemma {:induction false} FirstFromAt(p: nat, end: nat, ok: nat -> bool, k: nat)
    requires p <= k < end && ok(k)
    requires forall q :: p <= q < k ==> !ok(q)
    ensures FirstFrom(p, end, ok) == Some(k)
    decreases k - p
  {
    if p < k {
      FirstFromAt(p + 1, end, ok, k);
    }
  }

  /** No element occurs twice. */
  predicate NoDuplicates<T(==)>(xs: seq<T>) {
    forall i, j :: 0 <= i < j < |xs| ==> xs[i] != xs[j]
  }

  /** No two elements share a key. */
  predicate DistinctBy<T, K(==)>(xs: seq<T>, key: T -> K) {
    forall i, j :: 0 <= i < j < |xs| ==> key(xs[i]) != key(xs[j])
  }

  /** Filtering keeps elements unique. */
  lemma {:induction false} FilterKeepsNoDuplicates<T>(xs: seq<T>, keep: T -> bool)
    requires NoDuplicates(xs)
    ensures NoDuplicates(Filter(xs, keep))
  {
    if xs != [] {
      var tail := xs[1..];
      FilterKeepsNoDuplicates(tail, keep);
      var rest := Filter(tail, keep);
      forall j | 0 <= j < |rest|
        ensures xs[0] != rest[j]
      {
        var k :| 0 <= k < |tail| && tail[k] == rest[j];
        assert xs[k + 1] == tail[k];
      }
    }
  }

  /** Filtering keeps keys unique. */
  lemma {:induction false} FilterKeepsDistinctBy<T, K>(xs: seq<T>, keep: T -> bool, key: T -> K)
    requires DistinctBy(xs, key)
    ensures DistinctBy(Filter(xs, keep), key)
  {
    if xs != [] {
      var tail := xs[1..];
      FilterKeepsDistinctBy(tail, keep, key);
      var rest := Filter(tail, keep);
      forall j | 0 <= j < |rest|
        ensures key(xs[0]) != key(rest[j])
      {
        var k :| 0 <= k < |tail| && tail[k] == rest[j];
        assert xs[k + 1] == tail[k];
      }
    }
  }
}
