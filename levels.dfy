/**
 * Where the level links of a skip list point.  A node list is described by
 * the tower heights of its nodes in level-0 order; on level `j` the link
 * leaving position `q - 1` (or the front slot, for `q == 0`) must reach the
 * first position at or after `q` whose tower is taller than `j`.  NextIdx
 * computes that position, |t| standing for "no node" (a null link).
 */
module Levels {
  import opened Wrappers
  import opened Splices

  /** The first position at or after `q` whose tower reaches level `j`, or |t|. */
  function NextIdx(t: seq<nat>, q: nat, j: nat): (r: nat)
    requires q <= |t|
    ensures q <= r <= |t|
    ensures r < |t| ==> t[r] > j
    ensures forall k :: q <= k < r ==> t[k] <= j
    decreases |t| - q
  {
    if q == |t| then q
    else if t[q] > j then q
    else NextIdx(t, q + 1, j)
  }

  /** The three properties in NextIdx's contract determine it. */
  lemma NextIdxUnique(t: seq<nat>, q: nat, j: nat, r: nat)
    requires q <= r <= |t|
    requires r < |t| ==> t[r] > j
    requires forall k :: q <= k < r ==> t[k] <= j
    ensures NextIdx(t, q, j) == r
  {
  }

  /** On a level no tower reaches, every link is null. */
  lemma NextIdxNone(t: seq<nat>, q: nat, j: nat)
    requires q <= |t|
    requires forall k :: 0 <= k < |t| ==> t[k] <= j
    ensures NextIdx(t, q, j) == |t|
  {
    NextIdxUnique(t, q, j, |t|);
  }

  /** On level 0, where every tower reaches, the link from `q - 1` goes to `q`. */
  lemma NextIdxBottom(t: seq<nat>, q: nat)
    requires q <= |t|
    requires forall k :: 0 <= k < |t| ==> t[k] >= 1
    ensures NextIdx(t, q, 0) == q
  {
    NextIdxUnique(t, q, 0, q);
  }

  /**
   * How links move when a tower of height `h` is spliced in at position `p`:
   * a link that stops before `p` is unchanged, a link that would pass `p`
   * stops at the new tower if it reaches level `j` and otherwise moves one
   * place to the right, and links that start after `p` move one place right.
   */
  lemma NextIdxInsert(t: seq<nat>, p: nat, h: nat, q: nat, j: nat)
    requires p <= |t| && q <= |t|
    ensures q <= p && NextIdx(t, q, j) < p ==> NextIdx(Insert(t, p, h), q, j) == NextIdx(t, q, j)
    ensures q <= p && NextIdx(t, q, j) >= p && h > j ==> NextIdx(Insert(t, p, h), q, j) == p
    ensures q <= p && NextIdx(t, q, j) >= p && h <= j ==> NextIdx(Insert(t, p, h), q, j) == NextIdx(t, q, j) + 1
    ensures p <= q ==> NextIdx(Insert(t, p, h), q + 1, j) == NextIdx(t, q, j) + 1
  {
    var t' := Insert(t, p, h);
    var r := NextIdx(t, q, j);
    if q <= p {
      if r < p {
        NextIdxUnique(t', q, j, r);
      } else if h > j {
        NextIdxUnique(t', q, j, p);
      } else {
        forall k | q <= k < r + 1 ensures t'[k] <= j {
          if k > p { assert t'[k] == t[k - 1]; }
        }
        NextIdxUnique(t', q, j, r + 1);
      }
    }
    if p <= q {
      forall k | q + 1 <= k < r + 1 ensures t'[k] <= j {
        assert t'[k] == t[k - 1];
      }
      NextIdxUnique(t', q + 1, j, r + 1);
    }
  }

  /** The link to position `r` of the chain `c`; past the end it is null. */
  function Link(c: seq<nat>, r: nat): Option<nat>
  {
    if r < |c| then Some(c[r]) else None
  }

  /**
   * One level of a skip list is linked along the chain `c`, whose towers
   * have heights `t`: the front slot `f` and the level-`j` link `row[p]` of
   * every tower that reaches level `j` go to the next such tower.
   */
  ghost predicate RowOK(t: seq<nat>, c: seq<nat>, f: Option<nat>, row: seq<Option<nat>>, j: nat)
    requires |t| == |c| && |row| == |c|
  {
    f == Link(c, NextIdx(t, 0, j))
    && forall p :: 0 <= p < |c| ==> LinkedAt(t, c, row, p, j)
  }

  /** The level-`j` link of the tower at position `p`, if it reaches level `j`, goes to the next such tower. */
  ghost predicate LinkedAt(t: seq<nat>, c: seq<nat>, row: seq<Option<nat>>, p: nat, j: nat)
    requires |t| == |c| && |row| == |c| && p < |c|
  {
    t[p] > j ==> row[p] == Link(c, NextIdx(t, p + 1, j))
  }

  /** `p` (-1: the front) is the last position before `pos` whose tower reaches level `i`. */
  ghost predicate IsPredAt(t: seq<nat>, pos: nat, p: int, i: nat)
    requires pos <= |t|
  {
    -1 <= p < pos && (p >= 0 ==> t[p] > i) && forall q :: p < q < pos ==> t[q] <= i
  }

  /** A predecessor before `pos` is one in the heights with position `pos` cut out. */
  lemma IsPredCut(t: seq<nat>, pos: nat, p: int, i: nat)
    requires pos < |t| && IsPredAt(t, pos, p, i)
    ensures IsPredAt(Cut(t, pos), pos, p, i)
  {
  }

  /** Moving a link past a spliced-in position. */
  lemma LinkInsert(c: seq<nat>, p: nat, x: nat, r: nat)
    requires p <= |c| && r <= |c|
    ensures r < p ==> Link(Insert(c, p, x), r) == Link(c, r)
    ensures p <= r ==> Link(Insert(c, p, x), r + 1) == Link(c, r)
  {
  }

  // Where the level-`i` links go once a tower taller than `i` is spliced in
  // at `p`: the predecessor's (or the front's) goes to the new tower, the new
  // tower's goes where the predecessor's went, and every other link goes
  // where it went before.

  lemma SpliceFront(t: seq<nat>, c: seq<nat>, p: nat, x: nat, h: nat, pred: int, i: nat)
    requires |t| == |c| && p <= |c| && h > i && IsPredAt(t, p, pred, i)
    ensures Link(Insert(c, p, x), NextIdx(Insert(t, p, h), 0, i))
         == if pred < 0 then Some(x) else Link(c, NextIdx(t, 0, i))
  {
    NextIdxInsert(t, p, h, 0, i);
    if pred < 0 {
      NextIdxUnique(t, 0, i, NextIdx(t, p, i));
    } else {
      assert NextIdx(t, 0, i) <= pred;
      LinkInsert(c, p, x, NextIdx(t, 0, i));
    }
  }

  lemma SpliceBefore(t: seq<nat>, c: seq<nat>, p: nat, x: nat, h: nat, pred: int, i: nat, q: nat)
    requires |t| == |c| && p <= |c| && IsPredAt(t, p, pred, i)
    requires q < p && q != pred && t[q] > i
    ensures Link(Insert(c, p, x), NextIdx(Insert(t, p, h), q + 1, i)) == Link(c, NextIdx(t, q + 1, i))
  {
    assert q < pred;
    assert NextIdx(t, q + 1, i) <= pred;
    NextIdxInsert(t, p, h, q + 1, i);
    LinkInsert(c, p, x, NextIdx(t, q + 1, i));
  }

  lemma SpliceAtPred(t: seq<nat>, c: seq<nat>, p: nat, x: nat, h: nat, pred: int, i: nat)
    requires |t| == |c| && p <= |c| && h > i && IsPredAt(t, p, pred, i) && pred >= 0
    ensures Link(Insert(c, p, x), NextIdx(Insert(t, p, h), pred + 1, i)) == Some(x)
  {
    assert NextIdx(t, pred + 1, i) >= p;
    NextIdxInsert(t, p, h, pred + 1, i);
  }

  lemma SpliceAtNew(t: seq<nat>, c: seq<nat>, p: nat, x: nat, h: nat, pred: int, i: nat)
    requires |t| == |c| && p <= |c| && IsPredAt(t, p, pred, i)
    ensures Link(Insert(c, p, x), NextIdx(Insert(t, p, h), p + 1, i)) == Link(c, NextIdx(t, pred + 1, i))
  {
    NextIdxUnique(t, pred + 1, i, NextIdx(t, p, i));
    NextIdxInsert(t, p, h, p, i);
    LinkInsert(c, p, x, NextIdx(t, p, i));
  }

  lemma SpliceAfter(t: seq<nat>, c: seq<nat>, p: nat, x: nat, h: nat, i: nat, q: nat)
    requires |t| == |c| && p <= q <= |c|
    ensures Link(Insert(c, p, x), NextIdx(Insert(t, p, h), q + 1, i)) == Link(c, NextIdx(t, q, i))
  {
    NextIdxInsert(t, p, h, q, i);
    LinkInsert(c, p, x, NextIdx(t, q, i));
  }

  /** The level-`i` links after a tower is spliced in at `p` behind `pred`, its own link being `l`. */
  function SplicedRow(row: seq<Option<nat>>, p: nat, x: nat, pred: int, l: Option<nat>): (r: seq<Option<nat>>)
    requires p <= |row| && pred < p
    ensures |r| == |row| + 1 && r[p] == l
    ensures forall q :: 0 <= q < p ==> r[q] == if q == pred then Some(x) else row[q]
    ensures forall q :: p < q <= |row| ==> r[q] == row[q - 1]
  {
    Insert(if pred < 0 then row else row[pred := Some(x)], p, l)
  }

  /** The level-`i` links after the tower at `p` is unlinked behind `pred`. */
  function UnsplicedRow(row: seq<Option<nat>>, p: nat, pred: int): (r: seq<Option<nat>>)
    requires p < |row| && pred < p
    ensures |r| == |row| - 1
    ensures forall q :: 0 <= q < p ==> r[q] == if q == pred then row[p] else row[q]
    ensures forall q :: p <= q < |r| ==> r[q] == row[q + 1]
  {
    if pred < 0 then Cut(row, p) else Cut(row, p)[pred := row[p]]
  }

  lemma RowSpliceAt(t: seq<nat>, c: seq<nat>, f: Option<nat>, row: seq<Option<nat>>,
                    p: nat, x: nat, h: nat, pred: int, i: nat, q': nat)
    requires |t| == |c| && |row| == |c| && p <= |c| && h > i && IsPredAt(t, p, pred, i)
    requires RowOK(t, c, f, row, i)
    requires q' <= |c|
    ensures LinkedAt(Insert(t, p, h), Insert(c, p, x),
                     SplicedRow(row, p, x, pred, Link(c, NextIdx(t, pred + 1, i))), q', i)
  {
    var t' := Insert(t, p, h);
    if t'[q'] > i {
      if q' == pred {
        SpliceAtPred(t, c, p, x, h, pred, i);
      } else if q' < p {
        assert LinkedAt(t, c, row, q', i);
        SpliceBefore(t, c, p, x, h, pred, i, q');
      } else if q' == p {
        SpliceAtNew(t, c, p, x, h, pred, i);
      } else {
        assert LinkedAt(t, c, row, q' - 1, i);
        SpliceAfter(t, c, p, x, h, i, q');
      }
    }
  }

  /**
   * Splicing a tower taller than `i` in at `p`: the new tower takes over the
   * predecessor's level-`i` link and the predecessor (or the front slot)
   * points at it.  The level stays linked.
   */
  lemma RowSplice(t: seq<nat>, c: seq<nat>, f: Option<nat>, row: seq<Option<nat>>,
                  p: nat, x: nat, h: nat, pred: int, i: nat)
    requires |t| == |c| && |row| == |c| && p <= |c| && h > i && IsPredAt(t, p, pred, i)
    requires RowOK(t, c, f, row, i)
    ensures RowOK(Insert(t, p, h), Insert(c, p, x), if pred < 0 then Some(x) else f,
                  SplicedRow(row, p, x, pred, Link(c, NextIdx(t, pred + 1, i))), i)
  {
    SpliceFront(t, c, p, x, h, pred, i);
    var t', c' := Insert(t, p, h), Insert(c, p, x);
    var row' := SplicedRow(row, p, x, pred, Link(c, NextIdx(t, pred + 1, i)));
    forall q' | 0 <= q' <= |c| ensures LinkedAt(t', c', row', q', i) {
      RowSpliceAt(t, c, f, row, p, x, h, pred, i, q');
    }
  }

  lemma RowUnspliceAt(t: seq<nat>, c: seq<nat>, f: Option<nat>, row: seq<Option<nat>>,
                      p: nat, x: nat, h: nat, pred: int, i: nat, q: nat)
    requires |t| == |c| && |row| == |c| + 1 && p <= |c| && h > i && IsPredAt(t, p, pred, i)
    requires RowOK(Insert(t, p, h), Insert(c, p, x), f, row, i)
    requires q < |c|
    ensures LinkedAt(t, c, UnsplicedRow(row, p, pred), q, i)
  {
    var t', c' := Insert(t, p, h), Insert(c, p, x);
    if q == pred {
      assert LinkedAt(t', c', row, p, i);
      UnspliceAtPred(t, c, row, p, x, h, pred, i);
    } else if q < p {
      assert LinkedAt(t', c', row, q, i);
      UnspliceBefore(t, c, row, p, x, h, pred, i, q);
    } else {
      assert LinkedAt(t', c', row, q + 1, i);
      UnspliceAfter(t, c, row, p, x, h, pred, i, q);
    }
  }

  /** The predecessor takes over the link of the unlinked tower. */
  lemma UnspliceAtPred(t: seq<nat>, c: seq<nat>, row: seq<Option<nat>>,
                       p: nat, x: nat, h: nat, pred: int, i: nat)
    requires |t| == |c| && |row| == |c| + 1 && p <= |c| && h > i && IsPredAt(t, p, pred, i) && 0 <= pred
    requires LinkedAt(Insert(t, p, h), Insert(c, p, x), row, p, i)
    ensures LinkedAt(t, c, UnsplicedRow(row, p, pred), pred, i)
  {
    SpliceAtNew(t, c, p, x, h, pred, i);
  }

  /** Links of towers before the predecessor are untouched by unlinking. */
  lemma UnspliceBefore(t: seq<nat>, c: seq<nat>, row: seq<Option<nat>>,
                       p: nat, x: nat, h: nat, pred: int, i: nat, q: nat)
    requires |t| == |c| && |row| == |c| + 1 && p <= |c| && IsPredAt(t, p, pred, i)
    requires q < p && q != pred
    requires LinkedAt(Insert(t, p, h), Insert(c, p, x), row, q, i)
    ensures LinkedAt(t, c, UnsplicedRow(row, p, pred), q, i)
  {
    if t[q] > i {
      SpliceBefore(t, c, p, x, h, pred, i, q);
    }
  }

  /** Links of towers after the unlinked one move one place left with them. */
  lemma UnspliceAfter(t: seq<nat>, c: seq<nat>, row: seq<Option<nat>>,
                      p: nat, x: nat, h: nat, pred: int, i: nat, q: nat)
    requires |t| == |c| && |row| == |c| + 1 && p <= q < |c| && pred < p
    requires LinkedAt(Insert(t, p, h), Insert(c, p, x), row, q + 1, i)
    ensures LinkedAt(t, c, UnsplicedRow(row, p, pred), q, i)
  {
    if t[q] > i {
      SpliceAfter(t, c, p, x, h, i, q + 1);
    }
  }

  /**
   * Unlinking the tower at `p`, taller than `i`: its predecessor (or the
   * front slot) takes over its level-`i` link.  The level stays linked along
   * the chain without it.
   */
  lemma RowUnsplice(t: seq<nat>, c: seq<nat>, f: Option<nat>, row: seq<Option<nat>>,
                    p: nat, x: nat, h: nat, pred: int, i: nat)
    requires |t| == |c| && |row| == |c| + 1 && p <= |c| && h > i && IsPredAt(t, p, pred, i)
    requires RowOK(Insert(t, p, h), Insert(c, p, x), f, row, i)
    ensures RowOK(t, c, if pred < 0 then row[p] else f, UnsplicedRow(row, p, pred), i)
  {
    UnspliceFront(t, c, f, row, p, x, h, pred, i);
    forall q | 0 <= q < |c|
      ensures LinkedAt(t, c, UnsplicedRow(row, p, pred), q, i)
    {
      RowUnspliceAt(t, c, f, row, p, x, h, pred, i, q);
    }
  }

  /** When the unlinked tower was first on its level, the front slot takes over its link. */
  lemma UnspliceFront(t: seq<nat>, c: seq<nat>, f: Option<nat>, row: seq<Option<nat>>,
                      p: nat, x: nat, h: nat, pred: int, i: nat)
    requires |t| == |c| && |row| == |c| + 1 && p <= |c| && h > i && IsPredAt(t, p, pred, i)
    requires f == Link(Insert(c, p, x), NextIdx(Insert(t, p, h), 0, i))
    requires LinkedAt(Insert(t, p, h), Insert(c, p, x), row, p, i)
    ensures (if pred < 0 then row[p] else f) == Link(c, NextIdx(t, 0, i))
  {
    if pred >= 0 {
      SpliceFront(t, c, p, x, h, pred, i);
    } else {
      SpliceAtNew(t, c, p, x, h, pred, i);
    }
  }

  lemma RowSkipAt(t: seq<nat>, c: seq<nat>, row: seq<Option<nat>>,
                  p: nat, x: nat, h: nat, v: Option<nat>, j: nat, q: nat)
    requires |t| == |c| && |row| == |c| && p <= |c| && h <= j && q < |c|
    ensures LinkedAt(t, c, row, q, j) <==> LinkedAt(Insert(t, p, h), Insert(c, p, x), Insert(row, p, v), if q < p then q else q + 1, j)
  {
    SkipLink(t, c, p, x, h, j, q);
  }

  /** A link on a level that the spliced-in tower does not reach still goes to the same node. */
  lemma SkipLink(t: seq<nat>, c: seq<nat>, p: nat, x: nat, h: nat, j: nat, q: nat)
    requires |t| == |c| && p <= |c| && h <= j && q < |c|
    ensures Link(Insert(c, p, x), NextIdx(Insert(t, p, h), (if q < p then q else q + 1) + 1, j))
         == Link(c, NextIdx(t, q + 1, j))
  {
    if q < p {
      SkipLinkBefore(t, c, p, x, h, j, q);
    } else {
      SkipLinkAfter(t, c, p, x, h, j, q);
    }
  }

  lemma SkipLinkBefore(t: seq<nat>, c: seq<nat>, p: nat, x: nat, h: nat, j: nat, q: nat)
    requires |t| == |c| && p <= |c| && h <= j && q < p
    ensures Link(Insert(c, p, x), NextIdx(Insert(t, p, h), q + 1, j)) == Link(c, NextIdx(t, q + 1, j))
  {
    NextIdxInsert(t, p, h, q + 1, j);
    LinkInsert(c, p, x, NextIdx(t, q + 1, j));
  }

  lemma SkipLinkAfter(t: seq<nat>, c: seq<nat>, p: nat, x: nat, h: nat, j: nat, q: nat)
    requires |t| == |c| && p <= q < |c| && h <= j
    ensures Link(Insert(c, p, x), NextIdx(Insert(t, p, h), q + 2, j)) == Link(c, NextIdx(t, q + 1, j))
  {
    NextIdxInsert(t, p, h, q + 1, j);
    LinkInsert(c, p, x, NextIdx(t, q + 1, j));
  }

  /** A level that a spliced-in tower does not reach is linked with it exactly when it is linked without it. */
  lemma RowSkip(t: seq<nat>, c: seq<nat>, f: Option<nat>, row: seq<Option<nat>>,
                p: nat, x: nat, h: nat, v: Option<nat>, j: nat)
    requires |t| == |c| && |row| == |c| && p <= |c| && h <= j
    ensures RowOK(t, c, f, row, j) <==> RowOK(Insert(t, p, h), Insert(c, p, x), f, Insert(row, p, v), j)
  {
    var t', c', row' := Insert(t, p, h), Insert(c, p, x), Insert(row, p, v);
    NextIdxInsert(t, p, h, 0, j);
    LinkInsert(c, p, x, NextIdx(t, 0, j));
    assert LinkedAt(t', c', row', p, j);
    forall q | 0 <= q < |c|
      ensures LinkedAt(t, c, row, q, j) <==> LinkedAt(t', c', row', if q < p then q else q + 1, j)
    {
      RowSkipAt(t, c, row, p, x, h, v, j, q);
    }
    if RowOK(t', c', f, row', j) {
      forall q | 0 <= q < |c| ensures LinkedAt(t, c, row, q, j) {
        assert LinkedAt(t', c', row', if q < p then q else q + 1, j);
      }
    }
    if RowOK(t, c, f, row, j) {
      forall q' | 0 <= q' < |c'| ensures LinkedAt(t', c', row', q', j) {
        if q' < p {
          assert LinkedAt(t, c, row, q', j);
        } else if q' > p {
          assert LinkedAt(t, c, row, q' - 1, j);
        }
      }
    }
  }
}
