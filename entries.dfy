/** Option and Result, used for Java's null returns and thrown exceptions. */
module Wrappers {
  datatype Option<T> = None | Some(value: T)

  datatype Result<T, E> = Ok(value: T) | Err(error: E)
}

/**
 * The abstract view of a skip list: the sequence of its entries in level-0
 * order, each entry carrying the height of its node's tower.  The functions
 * here are reference definitions of the map operations, written by
 * recursion over the sequence, independently of any tower or link.
 */
module SortedEntries {
  import opened Wrappers
  import opened Splices

  /** One key/value pair of the map and the height of the tower that holds it. */
  datatype Entry<V> = Entry(key: int, value: V, height: nat)

  /** Keys strictly increase along the sequence (so no key occurs twice). */
  ghost predicate StrictlySorted<V>(s: seq<Entry<V>>)
  {
    forall a, b :: 0 <= a < b < |s| ==> s[a].key < s[b].key
  }

  /** The value of the first entry whose key is `k`. */
  function Find<V>(s: seq<Entry<V>>, k: int): Option<V>
  {
    if s == [] then None
    else if s[0].key == k then Some(s[0].value)
    else Find(s[1..], k)
  }

  /** The number of leading entries whose key is below `k`: where `k` belongs. */
  function Rank<V>(s: seq<Entry<V>>, k: int): (r: nat)
    ensures r <= |s|
    ensures forall q :: 0 <= q < r ==> s[q].key < k
    ensures r < |s| ==> s[r].key >= k
  {
    if s == [] || s[0].key >= k then 0 else 1 + Rank(s[1..], k)
  }

  /** Insert-or-update: replace the value of key `k`, or add `k` with a tower of height `h`. */
  function Put<V>(s: seq<Entry<V>>, k: int, v: V, h: nat): seq<Entry<V>>
  {
    if s == [] then [Entry(k, v, h)]
    else if s[0].key == k then [s[0].(value := v)] + s[1..]
    else if k < s[0].key then [Entry(k, v, h)] + s
    else [s[0]] + Put(s[1..], k, v, h)
  }

  /** Drop every entry whose key is `k`. */
  function Delete<V>(s: seq<Entry<V>>, k: int): seq<Entry<V>>
  {
    if s == [] then []
    else if s[0].key == k then Delete(s[1..], k)
    else [s[0]] + Delete(s[1..], k)
  }

  /** The entries that appear on level `i`: those whose tower is taller than `i`. */
  function Level<V>(s: seq<Entry<V>>, i: nat): seq<Entry<V>>
  {
    if s == [] then []
    else if s[0].height > i then [s[0]] + Level(s[1..], i)
    else Level(s[1..], i)
  }

  /** The tallest tower, 0 for no entries. */
  function MaxHeight<V>(s: seq<Entry<V>>): (m: nat)
    ensures forall q :: 0 <= q < |s| ==> s[q].height <= m
    ensures s == [] ==> m == 0
    ensures s != [] ==> exists q :: 0 <= q < |s| && s[q].height == m
  {
    if s == [] then 0
    else
      var m := MaxHeight(s[1..]);
      if s[0].height >= m then s[0].height else m
  }

  /** `a` can be obtained from `b` by deleting elements. */
  ghost predicate IsSubseq<T>(a: seq<T>, b: seq<T>)
    decreases |b|
  {
    if a == [] then true
    else if b == [] then false
    else if a[0] == b[0] then IsSubseq(a[1..], b[1..])
    else IsSubseq(a, b[1..])
  }

  // ---------------------------------------------------------------------
  // Lemmas connecting the recursive definitions with the position Rank
  // ---------------------------------------------------------------------

  /** On a sorted sequence, the entries before Rank are exactly those below `k`. */
  lemma RankSplit<V>(s: seq<Entry<V>>, k: int)
    requires StrictlySorted(s)
    ensures forall q :: 0 <= q < |s| ==> (q < Rank(s, k) <==> s[q].key < k)
  {
    var r := Rank(s, k);
    forall q | r <= q < |s| ensures s[q].key >= k {
      if q > r { assert s[r].key < s[q].key; }
    }
  }

  /** Lookup on a sorted sequence inspects only the entry at Rank. */
  lemma {:induction false} FindAtRank<V>(s: seq<Entry<V>>, k: int)
    requires StrictlySorted(s)
    ensures var r := Rank(s, k);
      Find(s, k) == if r < |s| && s[r].key == k then Some(s[r].value) else None
  {
    if s != [] {
      assert StrictlySorted(s[1..]);
      FindAtRank(s[1..], k);
      if s[0].key > k && |s| > 1 {
        assert s[1].key > k;
      }
    }
  }

  /** Put on a sorted sequence updates in place at Rank, or splices a new entry in there. */
  lemma {:induction false} PutAtRank<V>(s: seq<Entry<V>>, k: int, v: V, h: nat)
    requires StrictlySorted(s)
    ensures var r := Rank(s, k);
      Put(s, k, v, h) ==
        if r < |s| && s[r].key == k then s[r := s[r].(value := v)]
        else Insert(s, r, Entry(k, v, h))
  {
    if s == [] || k <= s[0].key {
      PutAtFront(s, k, v, h);
    } else {
      assert StrictlySorted(s[1..]);
      PutAtRank(s[1..], k, v, h);
      PutBehind(s, k, v, h);
    }
  }

  /** Put at the front: `k` is the first key or goes before it. */
  lemma PutAtFront<V>(s: seq<Entry<V>>, k: int, v: V, h: nat)
    requires s == [] || k <= s[0].key
    ensures Put(s, k, v, h) ==
      if s != [] && s[0].key == k then s[0 := s[0].(value := v)] else Insert(s, 0, Entry(k, v, h))
  {
    var e := Entry(k, v, h);
    if s == [] {
      assert Put(s, k, v, h) == [e] == Insert(s, 0, e);
    } else if s[0].key == k {
      assert Put(s, k, v, h) == [s[0].(value := v)] + s[1..] == s[0 := s[0].(value := v)];
    } else {
      assert Put(s, k, v, h) == [e] + s == Insert(s, 0, e);
    }
  }

  /** Put behind a first key below `k` happens one place further into the tail. */
  lemma PutBehind<V>(s: seq<Entry<V>>, k: int, v: V, h: nat)
    requires s != [] && s[0].key < k
    requires var r := Rank(s[1..], k);
      Put(s[1..], k, v, h) ==
        if r < |s[1..]| && s[1..][r].key == k then s[1..][r := s[1..][r].(value := v)]
        else Insert(s[1..], r, Entry(k, v, h))
    ensures var r := Rank(s, k);
      Put(s, k, v, h) ==
        if r < |s| && s[r].key == k then s[r := s[r].(value := v)]
        else Insert(s, r, Entry(k, v, h))
  {
    var tail, e := s[1..], Entry(k, v, h);
    var r := Rank(tail, k);
    assert Rank(s, k) == r + 1;
    assert [s[0]] + tail == s;
    if r < |tail| && tail[r].key == k {
      calc {
        Put(s, k, v, h);
        [s[0]] + tail[r := tail[r].(value := v)];
        { UpdateCons(s[0], tail, r, tail[r].(value := v)); }
        s[r + 1 := s[r + 1].(value := v)];
      }
    } else {
      calc {
        Put(s, k, v, h);
        [s[0]] + Insert(tail, r, e);
        { InsertCons(s[0], tail, r, e); }
        Insert(s, r + 1, e);
      }
    }
  }

  /** Delete on a sorted sequence cuts out at most the one entry at Rank. */
  lemma {:induction false} DeleteAtRank<V>(s: seq<Entry<V>>, k: int)
    requires StrictlySorted(s)
    ensures var r := Rank(s, k);
      Delete(s, k) == if r < |s| && s[r].key == k then Cut(s, r) else s
  {
    if s == [] {
    } else if k <= s[0].key {
      var tail := s[1..];
      assert StrictlySorted(tail);
      DeleteAbove(tail, k);
      assert [s[0]] + tail == s;
      if s[0].key == k {
        assert Delete(s, k) == tail == Cut(s, 0);
      } else {
        assert Delete(s, k) == [s[0]] + tail;
      }
    } else {
      assert StrictlySorted(s[1..]);
      DeleteAtRank(s[1..], k);
      DeleteBehind(s, k);
    }
  }

  /** Deleting a key below every key changes nothing. */
  lemma {:induction false} DeleteAbove<V>(s: seq<Entry<V>>, k: int)
    requires StrictlySorted(s) && (s != [] ==> k < s[0].key)
    ensures Delete(s, k) == s
  {
    if s != [] {
      assert StrictlySorted(s[1..]);
      if |s| > 1 { assert s[0].key < s[1].key; }
      DeleteAbove(s[1..], k);
      assert [s[0]] + s[1..] == s;
    }
  }

  /** Delete behind a first key below `k` happens one place further into the tail. */
  lemma DeleteBehind<V>(s: seq<Entry<V>>, k: int)
    requires s != [] && s[0].key < k
    requires var r := Rank(s[1..], k);
      Delete(s[1..], k) == if r < |s[1..]| && s[1..][r].key == k then Cut(s[1..], r) else s[1..]
    ensures var r := Rank(s, k);
      Delete(s, k) == if r < |s| && s[r].key == k then Cut(s, r) else s
  {
    var tail := s[1..];
    var r := Rank(tail, k);
    assert Rank(s, k) == r + 1;
    assert [s[0]] + tail == s;
    if r < |tail| && tail[r].key == k {
      calc {
        Delete(s, k);
        [s[0]] + Cut(tail, r);
        { CutCons(s[0], tail, r); }
        Cut(s, r + 1);
      }
    } else {
      assert Delete(s, k) == [s[0]] + tail;
    }
  }

  // ---------------------------------------------------------------------
  // Properties of the map operations
  // ---------------------------------------------------------------------

  /** Put keeps the keys strictly increasing. */
  lemma PutSorted<V>(s: seq<Entry<V>>, k: int, v: V, h: nat)
    requires StrictlySorted(s)
    ensures StrictlySorted(Put(s, k, v, h))
  {
    PutAtRank(s, k, v, h);
    RankSplit(s, k);
    var r := Rank(s, k);
    if !(r < |s| && s[r].key == k) {
      var t := Insert(s, r, Entry(k, v, h));
      forall a, b | 0 <= a < b < |t| ensures t[a].key < t[b].key {
        var a' := if a <= r then a else a - 1;
        var b' := if b <= r then b else b - 1;
        if a != r && b != r {
          assert t[a] == s[a'] && t[b] == s[b'];
        } else if a == r {
          assert t[b] == s[b'];
        } else {
          assert t[a] == s[a'];
        }
      }
    }
  }

  /** After Put, `k` finds the new value and every other key finds what it found before. */
  lemma {:induction false} FindPut<V>(s: seq<Entry<V>>, k: int, v: V, h: nat, k': int)
    ensures Find(Put(s, k, v, h), k') == if k' == k then Some(v) else Find(s, k')
  {
    if s != [] && s[0].key != k && k >= s[0].key {
      FindPut(s[1..], k, v, h, k');
    }
  }

  /** Put grows a sorted sequence by one exactly when the key was absent. */
  lemma PutSize<V>(s: seq<Entry<V>>, k: int, v: V, h: nat)
    requires StrictlySorted(s)
    ensures |Put(s, k, v, h)| == if Find(s, k).None? then |s| + 1 else |s|
  {
    PutAtRank(s, k, v, h);
    FindAtRank(s, k);
  }

  /** Cutting an entry out of a sorted sequence keeps it sorted. */
  lemma CutSorted<V>(s: seq<Entry<V>>, p: nat)
    requires StrictlySorted(s) && p < |s|
    ensures StrictlySorted(Cut(s, p))
  {
    var t := Cut(s, p);
    forall a, b | 0 <= a < b < |t| ensures t[a].key < t[b].key {
      var a', b' := if a < p then a else a + 1, if b < p then b else b + 1;
      assert t[a] == s[a'] && t[b] == s[b'];
    }
  }

  /** Delete keeps the keys strictly increasing. */
  lemma DeleteSorted<V>(s: seq<Entry<V>>, k: int)
    requires StrictlySorted(s)
    ensures StrictlySorted(Delete(s, k))
  {
    DeleteAtRank(s, k);
    var r := Rank(s, k);
    if r < |s| && s[r].key == k {
      CutSorted(s, r);
    }
  }

  /** After Delete, `k` is not found and every other key finds what it found before. */
  lemma {:induction false} FindDelete<V>(s: seq<Entry<V>>, k: int, k': int)
    ensures Find(Delete(s, k), k') == if k' == k then None else Find(s, k')
  {
    if s != [] {
      FindDelete(s[1..], k, k');
    }
  }

  /** Delete shrinks a sorted sequence by one exactly when the key was present. */
  lemma DeleteSize<V>(s: seq<Entry<V>>, k: int)
    requires StrictlySorted(s)
    ensures |Delete(s, k)| == if Find(s, k).Some? then |s| - 1 else |s|
  {
    DeleteAtRank(s, k);
    FindAtRank(s, k);
  }

  /** Removing a key twice is the same as removing it once. */
  lemma {:induction false} DeleteIdempotent<V>(s: seq<Entry<V>>, k: int)
    ensures Delete(Delete(s, k), k) == Delete(s, k)
  {
    if s != [] {
      DeleteIdempotent(s[1..], k);
    }
  }

  /** Deleting an absent key changes nothing. */
  lemma {:induction false} DeleteAbsent<V>(s: seq<Entry<V>>, k: int)
    requires Find(s, k).None?
    ensures Delete(s, k) == s
  {
    if s != [] {
      DeleteAbsent(s[1..], k);
      assert [s[0]] + s[1..] == s;
    }
  }

  /** Inserting an absent key and then removing it gives back the original entries. */
  lemma {:induction false} DeletePutRoundTrip<V>(s: seq<Entry<V>>, k: int, v: V, h: nat)
    requires Find(s, k).None?
    ensures Delete(Put(s, k, v, h), k) == s
  {
    if s == [] {
    } else if k < s[0].key {
      DeleteAbsent(s, k);
    } else {
      DeletePutRoundTrip(s[1..], k, v, h);
      assert [s[0]] + s[1..] == s;
    }
  }

  // ---------------------------------------------------------------------
  // Levels
  // ---------------------------------------------------------------------

  /** Every level is a subsequence of the level below it. */
  lemma {:induction false} LevelSubseq<V>(s: seq<Entry<V>>, i: nat)
    ensures IsSubseq(Level(s, i + 1), Level(s, i))
  {
    if s != [] {
      LevelSubseq(s[1..], i);
      if s[0].height > i + 1 {
        assert ([s[0]] + Level(s[1..], i + 1))[1..] == Level(s[1..], i + 1);
        assert ([s[0]] + Level(s[1..], i))[1..] == Level(s[1..], i);
      } else if s[0].height > i {
        SubseqDropHead(Level(s[1..], i + 1), s[0], Level(s[1..], i));
      }
    }
  }

  /** A subsequence of `b` is a subsequence of `[x] + b`. */
  lemma SubseqDropHead<T>(a: seq<T>, x: T, b: seq<T>)
    requires IsSubseq(a, b)
    ensures IsSubseq(a, [x] + b)
    decreases |b|, 1
  {
    if a != [] && a[0] == x {
      SubseqTail(a, b);
      assert ([x] + b)[1..] == b;
    } else {
      assert ([x] + b)[1..] == b;
    }
  }

  /** Dropping the head of a subsequence keeps it a subsequence. */
  lemma {:induction false} SubseqTail<T>(a: seq<T>, b: seq<T>)
    requires a != [] && IsSubseq(a, b)
    ensures IsSubseq(a[1..], b)
    decreases |b|, 0
  {
    if b != [] {
      if a[0] == b[0] {
        if a[1..] != [] {
          SubseqTail(a[1..], b[1..]);
          SubseqDropHead(a[1..], b[0], b[1..]);
          assert [b[0]] + b[1..] == b;
        }
      } else {
        SubseqTail(a, b[1..]);
        SubseqDropHead(a[1..], b[0], b[1..]);
        assert [b[0]] + b[1..] == b;
      }
    }
  }

  /** Every entry on a level is an entry of the map. */
  lemma {:induction false} LevelMembers<V>(s: seq<Entry<V>>, i: nat)
    ensures forall e :: e in Level(s, i) ==> e in s && e.height > i
  {
    if s != [] {
      LevelMembers(s[1..], i);
    }
  }

  /** Each level of a sorted map is itself sorted. */
  lemma {:induction false} LevelSorted<V>(s: seq<Entry<V>>, i: nat)
    requires StrictlySorted(s)
    ensures StrictlySorted(Level(s, i))
  {
    if s != [] {
      assert StrictlySorted(s[1..]);
      LevelSorted(s[1..], i);
      if s[0].height > i {
        var l := Level(s[1..], i);
        LevelMembers(s[1..], i);
        forall b | 0 <= b < |l| ensures s[0].key < l[b].key {
          assert l[b] in s[1..];
        }
        var t := [s[0]] + l;
        forall a, b | 0 <= a < b < |t| ensures t[a].key < t[b].key {
          assert t[b] == l[b - 1];
          if a > 0 { assert t[a] == l[a - 1]; }
        }
      }
    }
  }

  /** Level 0 holds every entry, since every tower has height at least 1. */
  lemma {:induction false} LevelZero<V>(s: seq<Entry<V>>)
    requires forall q :: 0 <= q < |s| ==> s[q].height >= 1
    ensures Level(s, 0) == s
  {
    if s != [] {
      LevelZero(s[1..]);
      assert [s[0]] + s[1..] == s;
    }
  }

  /** Levels at or above the tallest tower are empty. */
  lemma {:induction false} LevelAbove<V>(s: seq<Entry<V>>, i: nat)
    requires MaxHeight(s) <= i
    ensures Level(s, i) == []
  {
    if s != [] {
      assert s[0].height <= i;
      LevelAbove(s[1..], i);
    }
  }

  /** The entries from position `q` on that appear on level `i`. */
  function LevelFrom<V>(s: seq<Entry<V>>, q: nat, i: nat): seq<Entry<V>>
    requires q <= |s|
    decreases |s| - q
  {
    if q == |s| then []
    else if s[q].height > i then [s[q]] + LevelFrom(s, q + 1, i)
    else LevelFrom(s, q + 1, i)
  }

  /** `LevelFrom` is `Level` of the suffix. */
  lemma {:induction false} LevelFromSuffix<V>(s: seq<Entry<V>>, q: nat, i: nat)
    requires q <= |s|
    ensures LevelFrom(s, q, i) == Level(s[q..], i)
    decreases |s| - q
  {
    if q < |s| {
      LevelFromSuffix(s, q + 1, i);
      assert s[q..][0] == s[q];
      assert s[q..][1..] == s[q + 1..];
    }
  }

  /** Entries whose towers stay below level `i` do not show on level `i`. */
  lemma {:induction false} LevelSkip<V>(s: seq<Entry<V>>, q: nat, r: nat, i: nat)
    requires q <= r <= |s|
    requires forall k :: q <= k < r ==> s[k].height <= i
    ensures LevelFrom(s, q, i) == LevelFrom(s, r, i)
    decreases r - q
  {
    if q < r {
      LevelSkip(s, q + 1, r, i);
    }
  }

  /** A height bounding every tower and reached by one of them (or 0 when empty) is the maximum. */
  lemma MaxHeightIs<V>(s: seq<Entry<V>>, m: nat)
    requires forall q :: 0 <= q < |s| ==> s[q].height <= m
    requires m == 0 || exists q :: 0 <= q < |s| && s[q].height >= m
    ensures MaxHeight(s) == m
  {
    if m > 0 {
      var q :| 0 <= q < |s| && s[q].height >= m;
      assert MaxHeight(s) >= s[q].height;
    } else if s != [] {
      assert s[0].height <= 0;
    }
  }
}
