/**
 * Splicing one element into a sequence and cutting one out: what happens to
 * the level-0 order of a skip list when `set` inserts a node and `remove`
 * unlinks one.
 */
module Splices {
  /** `s` with `x` spliced in at position `p`. */
  function Insert<T>(s: seq<T>, p: nat, x: T): (r: seq<T>)
    requires p <= |s|
    ensures |r| == |s| + 1 && r[p] == x
    ensures forall q :: 0 <= q < p ==> r[q] == s[q]
    ensures forall q :: p < q <= |s| ==> r[q] == s[q - 1]
  {
    seq(|s| + 1, q requires 0 <= q <= |s| => if q < p then s[q] else if q == p then x else s[q - 1])
  }

  /** `s` with position `p` cut out: the inverse of Insert. */
  function Cut<T>(s: seq<T>, p: nat): (r: seq<T>)
    requires p < |s|
    ensures |r| == |s| - 1
    ensures forall q :: 0 <= q < p ==> r[q] == s[q]
    ensures forall q :: p <= q < |r| ==> r[q] == s[q + 1]
    ensures Insert(r, p, s[p]) == s
  {
    seq(|s| - 1, q requires 0 <= q < |s| - 1 => if q < p then s[q] else s[q + 1])
  }

  /** Cutting out what was spliced in gives back the original sequence. */
  lemma CutInsert<T>(s: seq<T>, p: nat, x: T)
    requires p <= |s|
    ensures Cut(Insert(s, p, x), p) == s
  {
    assert Insert(s, p, x)[..p] == s[..p];
    assert Insert(s, p, x)[p + 1..] == s[p..];
  }

  /** Splicing behind a first element is splicing one place further into the whole. */
  lemma InsertCons<T>(y: T, s: seq<T>, p: nat, x: T)
    requires p <= |s|
    ensures [y] + Insert(s, p, x) == Insert([y] + s, p + 1, x)
  {
    var a, b := [y] + Insert(s, p, x), Insert([y] + s, p + 1, x);
    forall q | 0 <= q < |a| ensures a[q] == b[q] {
      if q > 0 { assert a[q] == Insert(s, p, x)[q - 1]; }
    }
  }

  /** Updating behind a first element is updating one place further into the whole. */
  lemma UpdateCons<T>(y: T, s: seq<T>, p: nat, x: T)
    requires p < |s|
    ensures [y] + s[p := x] == ([y] + s)[p + 1 := x]
  {
    var a, b := [y] + s[p := x], ([y] + s)[p + 1 := x];
    forall q | 0 <= q < |a| ensures a[q] == b[q] {
      if q > 0 { assert a[q] == s[p := x][q - 1]; }
    }
  }

  /** Cutting behind a first element is cutting one place further into the whole. */
  lemma CutCons<T>(y: T, s: seq<T>, p: nat)
    requires p < |s|
    ensures [y] + Cut(s, p) == Cut([y] + s, p + 1)
  {
    var a, b := [y] + Cut(s, p), Cut([y] + s, p + 1);
    forall q | 0 <= q < |a| ensures a[q] == b[q] {
      if q > 0 { assert a[q] == Cut(s, p)[q - 1]; }
    }
  }
}
