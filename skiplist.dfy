/**
 * The skip-list map of src/SkipList.java, over an arena of nodes.
 *
 * Every node the list has ever allocated lives in `nodes` and is addressed by
 * its index there; a link is an `Option<nat>` (None is Java's null).  The
 * `front` list holds the entry link of every level.  Java walks from a dummy
 * node whose `next` IS `front`, so that writing through the dummy writes
 * `front`; here that dummy is the position `Head`.
 *
 * The ghost field `chain` lists the nodes of level 0 in order.  The object
 * invariant ties every link to `chain`: on level `j` a link goes to the next
 * node in `chain` whose tower is taller than `j` (module Levels).
 */
module SkipLists {
  import opened Wrappers
  import opened SortedEntries
  import opened Splices
  import opened Levels

  /** The number of front slots, and the height, of a new skip list. */
  const INITIAL_HEIGHT: nat := 16

  /** A node: its key, its value and its tower of forward links. */
  datatype SLNode<V> = SLNode(key: int, value: V, next: seq<Option<nat>>)

  /** Where a walk stands: on the dummy head (whose links are `front`) or on a node. */
  datatype Pos = Head | Node(index: nat)

  /** Java's exceptions: the null key, the missing key, an exhausted iterator. */
  datatype Error = NullKey | KeyNotFound | IllegalState

  /** A node of height `n` with every link null, as the SLNode constructor builds it. */
  method NewNode<V>(key: int, value: V, n: nat) returns (node: SLNode<V>)
    ensures node.key == key && node.value == value && |node.next| == n
    ensures forall i :: 0 <= i < n ==> node.next[i] == None
  {
    var next: seq<Option<nat>> := [];
    var i := 0;
    while i < n
      invariant 0 <= i <= n && |next| == i
      invariant forall j :: 0 <= j < i ==> next[j] == None
    {
      next := next + [None];
      i := i + 1;
    }
    node := SLNode(key, value, next);
  }

  // ---------------------------------------------------------------------
  // Links, positions and the level invariant
  // ---------------------------------------------------------------------

  /** The walk position for chain position `p`, -1 standing for the head. */
  function PosOf(c: seq<nat>, p: int): Pos
    requires -1 <= p < |c|
  {
    if p < 0 then Head else Node(c[p])
  }

  /** `pos` has a level-`i` link. */
  ghost predicate HasLevel<V>(nodes: seq<SLNode<V>>, front: seq<Option<nat>>, pos: Pos, i: nat)
  {
    match pos
    case Head => i < |front|
    case Node(n) => n < |nodes| && i < |nodes[n].next|
  }

  /** `node.next.get(i)`, where the dummy head's links are `front`. */
  function NextLink<V>(nodes: seq<SLNode<V>>, front: seq<Option<nat>>, pos: Pos, i: nat): Option<nat>
    requires HasLevel(nodes, front, pos, i)
  {
    match pos
    case Head => front[i]
    case Node(n) => nodes[n].next[i]
  }

  ghost predicate InArena<V>(nodes: seq<SLNode<V>>, c: seq<nat>)
  {
    forall p :: 0 <= p < |c| ==> c[p] < |nodes|
  }

  /** The tower heights along `c`. */
  ghost function Heights<V>(nodes: seq<SLNode<V>>, c: seq<nat>): (t: seq<nat>)
    requires InArena(nodes, c)
    ensures |t| == |c|
    ensures forall p :: 0 <= p < |c| ==> t[p] == |nodes[c[p]].next|
  {
    seq(|c|, p requires 0 <= p < |c| => |nodes[c[p]].next|)
  }

  /** The entries along `c`. */
  ghost function EntriesOf<V>(nodes: seq<SLNode<V>>, c: seq<nat>): (s: seq<Entry<V>>)
    requires InArena(nodes, c)
    ensures |s| == |c|
    ensures forall p :: 0 <= p < |c| ==>
      s[p] == Entry(nodes[c[p]].key, nodes[c[p]].value, |nodes[c[p]].next|)
  {
    seq(|c|, p requires 0 <= p < |c| => Entry(nodes[c[p]].key, nodes[c[p]].value, |nodes[c[p]].next|))
  }

  /**
   * Level `j` is linked along `c`: the front slot and every level-`j` link of
   * a node of `c` point at the next node of `c` whose tower reaches level `j`.
   */
  ghost predicate LevelOK<V>(nodes: seq<SLNode<V>>, front: seq<Option<nat>>, c: seq<nat>, j: nat)
    requires InArena(nodes, c) && j < |front|
  {
    RowOK(Heights(nodes, c), c, front[j], Row(nodes, c, j), j)
  }

  /** The level-`j` links of the nodes along `c`, null where a tower does not reach level `j`. */
  ghost function Row<V>(nodes: seq<SLNode<V>>, c: seq<nat>, j: nat): (row: seq<Option<nat>>)
    requires InArena(nodes, c)
    ensures |row| == |c|
    ensures forall p :: 0 <= p < |c| ==>
      row[p] == if j < |nodes[c[p]].next| then nodes[c[p]].next[j] else None
  {
    seq(|c|, p requires 0 <= p < |c| => if j < |nodes[c[p]].next| then nodes[c[p]].next[j] else None)
  }

  /** Two states of the arena and the front with the same level-`j` links and tower heights. */
  ghost predicate AgreeAt<V>(nodes0: seq<SLNode<V>>, front0: seq<Option<nat>>,
                             nodes1: seq<SLNode<V>>, front1: seq<Option<nat>>, j: nat)
  {
    |nodes0| <= |nodes1| && |front0| <= |front1|
    && (j < |front0| ==> front1[j] == front0[j])
    && forall n :: 0 <= n < |nodes0| ==>
         |nodes1[n].next| == |nodes0[n].next|
         && (j < |nodes0[n].next| ==> nodes1[n].next[j] == nodes0[n].next[j])
  }

  lemma AgreeTrans<V>(nodes0: seq<SLNode<V>>, front0: seq<Option<nat>>,
                      nodes1: seq<SLNode<V>>, front1: seq<Option<nat>>,
                      nodes2: seq<SLNode<V>>, front2: seq<Option<nat>>, j: nat)
    requires AgreeAt(nodes0, front0, nodes1, front1, j)
    requires AgreeAt(nodes1, front1, nodes2, front2, j)
    ensures AgreeAt(nodes0, front0, nodes2, front2, j)
  {
  }

  /** No node occurs twice in `c`. */
  ghost predicate Distinct(c: seq<nat>)
  {
    forall a, b :: 0 <= a < |c| && 0 <= b < |c| && a != b ==> c[a] != c[b]
  }

  /** Sorted keys make the chain's nodes distinct. */
  lemma SortedDistinct<V>(nodes: seq<SLNode<V>>, c: seq<nat>)
    requires InArena(nodes, c) && StrictlySorted(EntriesOf(nodes, c))
    ensures Distinct(c)
  {
    var s := EntriesOf(nodes, c);
    forall a, b | 0 <= a < |c| && 0 <= b < |c| && a != b ensures c[a] != c[b] {
      if a < b { assert s[a].key < s[b].key; } else { assert s[b].key < s[a].key; }
    }
  }

  /** Splicing a node into the chain splices its entry into the entries. */
  lemma EntriesInsert<V>(nodes: seq<SLNode<V>>, c: seq<nat>, p: nat, x: nat)
    requires InArena(nodes, c) && p <= |c| && x < |nodes|
    ensures InArena(nodes, Insert(c, p, x))
    ensures EntriesOf(nodes, Insert(c, p, x))
         == Insert(EntriesOf(nodes, c), p, Entry(nodes[x].key, nodes[x].value, |nodes[x].next|))
    ensures Heights(nodes, Insert(c, p, x)) == Insert<nat>(Heights(nodes, c), p, |nodes[x].next|)
  {
  }

  /** Cutting a node out of the chain cuts its entry out of the entries. */
  lemma EntriesCut<V>(nodes: seq<SLNode<V>>, c: seq<nat>, p: nat)
    requires InArena(nodes, c) && p < |c|
    ensures InArena(nodes, Cut(c, p))
    ensures EntriesOf(nodes, Cut(c, p)) == Cut(EntriesOf(nodes, c), p)
    ensures Heights(nodes, Cut(c, p)) == Cut(Heights(nodes, c), p)
  {
    var c0 := Cut(c, p);
    EntriesInsert(nodes, c0, p, c[p]);
    CutInsert(EntriesOf(nodes, c0), p, EntriesOf(nodes, c)[p]);
    CutInsert(Heights(nodes, c0), p, Heights(nodes, c)[p]);
  }

  /** The entries along a chain only depend on the keys, values and tower heights of its nodes. */
  lemma EntriesFrame<V>(nodes0: seq<SLNode<V>>, nodes1: seq<SLNode<V>>, c: seq<nat>)
    requires InArena(nodes0, c) && |nodes1| == |nodes0|
    requires forall n :: 0 <= n < |nodes0| ==>
      nodes1[n].key == nodes0[n].key && nodes1[n].value == nodes0[n].value
      && |nodes1[n].next| == |nodes0[n].next|
    ensures InArena(nodes1, c)
    ensures EntriesOf(nodes1, c) == EntriesOf(nodes0, c) && Heights(nodes1, c) == Heights(nodes0, c)
  {
  }

  /** A level's links only depend on the links of that level and the tower heights. */
  lemma LevelFrame<V>(nodes0: seq<SLNode<V>>, front0: seq<Option<nat>>,
                      nodes1: seq<SLNode<V>>, front1: seq<Option<nat>>, c: seq<nat>, j: nat)
    requires InArena(nodes0, c) && j < |front0|
    requires AgreeAt(nodes0, front0, nodes1, front1, j)
    requires LevelOK(nodes0, front0, c, j)
    ensures InArena(nodes1, c) && LevelOK(nodes1, front1, c, j)
  {
    assert Heights(nodes1, c) == Heights(nodes0, c);
    assert Row(nodes1, c, j) == Row(nodes0, c, j);
  }

  /** With no chain and all front slots null, every level is linked. */
  lemma EmptyLevels<V>(nodes: seq<SLNode<V>>, front: seq<Option<nat>>)
    requires forall j :: 0 <= j < |front| ==> front[j] == None
    ensures forall j :: 0 <= j < |front| ==> LevelOK(nodes, front, [], j)
  {
    forall j | 0 <= j < |front| ensures LevelOK(nodes, front, [], j) {
      EmptyLevel(nodes, front, [], j);
    }
  }

  /** A change confined to level `i` keeps every level of the range `lo..hi` that avoids `i`. */
  lemma LevelsFrame<V>(nodes0: seq<SLNode<V>>, front0: seq<Option<nat>>,
                       nodes1: seq<SLNode<V>>, front1: seq<Option<nat>>, c: seq<nat>, lo: nat, hi: nat, i: nat)
    requires InArena(nodes0, c) && hi <= |front0| == |front1| && (i < lo || hi <= i)
    requires forall j: nat :: j != i ==> AgreeAt(nodes0, front0, nodes1, front1, j)
    requires forall j :: lo <= j < hi ==> LevelOK(nodes0, front0, c, j)
    ensures InArena(nodes1, c) && Heights(nodes1, c) == Heights(nodes0, c)
    ensures forall j :: lo <= j < hi ==> LevelOK(nodes1, front1, c, j)
  {
    assert AgreeAt(nodes0, front0, nodes1, front1, i + 1);
    assert Heights(nodes1, c) == Heights(nodes0, c);
    forall j | lo <= j < hi ensures LevelOK(nodes1, front1, c, j) {
      LevelFrame(nodes0, front0, nodes1, front1, c, j);
    }
  }

  /**
   * One round of the linking and unlinking loops: levels below `i` are
   * linked along the new chain `c1`, level `i` has just moved from `c0` to
   * `c1`, and the levels above `i` are still linked along `c0`.
   */
  lemma StepFrame<V>(nodes0: seq<SLNode<V>>, front0: seq<Option<nat>>,
                     nodes1: seq<SLNode<V>>, front1: seq<Option<nat>>, c1: seq<nat>, c0: seq<nat>, i: nat)
    requires InArena(nodes0, c0) && InArena(nodes0, c1) && i < |front0| == |front1|
    requires forall j: nat :: j != i ==> AgreeAt(nodes0, front0, nodes1, front1, j)
    requires forall j :: 0 <= j < i ==> LevelOK(nodes0, front0, c1, j)
    requires forall j :: i < j < |front0| ==> LevelOK(nodes0, front0, c0, j)
    requires InArena(nodes1, c1) && LevelOK(nodes1, front1, c1, i)
    ensures InArena(nodes1, c0) && Heights(nodes1, c0) == Heights(nodes0, c0)
    ensures forall j :: 0 <= j < i + 1 ==> LevelOK(nodes1, front1, c1, j)
    ensures forall j :: i + 1 <= j < |front1| ==> LevelOK(nodes1, front1, c0, j)
  {
    LevelsFrame(nodes0, front0, nodes1, front1, c1, 0, i, i);
    LevelsFrame(nodes0, front0, nodes1, front1, c0, i + 1, |front0|, i);
  }

  /** Cutting one node out of a chain of distinct nodes leaves a chain of distinct nodes without it. */
  lemma CutDistinct(c: seq<nat>, P: nat)
    requires P < |c| && Distinct(c)
    ensures c[P] !in Cut(c, P) && Distinct(Cut(c, P))
  {
    var c0 := Cut(c, P);
    forall q | 0 <= q < |c0| ensures c0[q] != c[P] {
      if q < P { assert c0[q] == c[q]; } else { assert c0[q] == c[q + 1]; }
    }
    forall a, b | 0 <= a < |c0| && 0 <= b < |c0| && a != b ensures c0[a] != c0[b] {
      var a', b' := if a < P then a else a + 1, if b < P then b else b + 1;
      assert c0[a] == c[a'] && c0[b] == c[b'];
    }
  }

  /** A level that no tower of the chain reaches is linked when its front slot is null. */
  lemma EmptyLevel<V>(nodes: seq<SLNode<V>>, front: seq<Option<nat>>, c: seq<nat>, j: nat)
    requires InArena(nodes, c) && j < |front| && front[j] == None
    requires forall q :: 0 <= q < |c| ==> |nodes[c[q]].next| <= j
    ensures LevelOK(nodes, front, c, j)
  {
    var t, row := Heights(nodes, c), Row(nodes, c, j);
    NextIdxNone(t, 0, j);
    forall q | 0 <= q < |c| ensures LinkedAt(t, c, row, q, j) {
    }
  }

  /** On a linked level, the link leaving chain position `p` (or the head). */
  lemma LinkAt<V>(nodes: seq<SLNode<V>>, front: seq<Option<nat>>, c: seq<nat>, p: int, i: nat)
    requires InArena(nodes, c) && i < |front| && LevelOK(nodes, front, c, i)
    requires -1 <= p < |c| && (p >= 0 ==> i < |nodes[c[p]].next|)
    ensures HasLevel(nodes, front, PosOf(c, p), i)
    ensures NextLink(nodes, front, PosOf(c, p), i) == Link(c, NextIdx(Heights(nodes, c), p + 1, i))
  {
    if p >= 0 {
      assert LinkedAt(Heights(nodes, c), c, Row(nodes, c, i), p, i);
    }
  }

  /** On level 0, the predecessor of chain position `P` links to the node at `P`. */
  lemma LevelZeroNext<V>(nodes: seq<SLNode<V>>, front: seq<Option<nat>>, c: seq<nat>, P: nat, p: int)
    requires InArena(nodes, c) && 0 < |front| && LevelOK(nodes, front, c, 0)
    requires P <= |c| && IsPredAt(Heights(nodes, c), P, p, 0)
    requires P < |c| ==> 1 <= |nodes[c[P]].next|
    ensures HasLevel(nodes, front, PosOf(c, p), 0) && NextLink(nodes, front, PosOf(c, p), 0) == Link(c, P)
  {
    NextIdxUnique(Heights(nodes, c), p + 1, 0, P);
    LinkAt(nodes, front, c, p, 0);
  }

  /**
   * The top level `h - 1` of towers no taller than `h` is empty exactly when
   * its front slot is null: otherwise some tower is `h` tall.
   */
  lemma TopLevel<V>(nodes: seq<SLNode<V>>, front: seq<Option<nat>>, c: seq<nat>, h: nat)
    requires InArena(nodes, c) && 0 < h <= |front| && LevelOK(nodes, front, c, h - 1)
    requires forall p :: 0 <= p < |c| ==> |nodes[c[p]].next| <= h
    ensures front[h - 1] == None ==> forall p :: 0 <= p < |c| ==> |nodes[c[p]].next| <= h - 1
    ensures front[h - 1] != None ==> exists p :: 0 <= p < |c| && EntriesOf(nodes, c)[p].height >= h
  {
    var t := Heights(nodes, c);
    LinkAt(nodes, front, c, -1, h - 1);
    var r := NextIdx(t, 0, h - 1);
    if r < |c| {
      assert EntriesOf(nodes, c)[r].height == t[r];
    }
  }

  /**
   * On a linked level `i`, the level-`i` predecessor of chain position `P`
   * links to the node at `P` exactly when that node's tower reaches level `i`.
   */
  lemma PredLinksTo<V>(nodes: seq<SLNode<V>>, front: seq<Option<nat>>, c: seq<nat>, P: nat, pred: int, i: nat)
    requires InArena(nodes, c) && Distinct(c) && P < |c|
    requires i < |front| && LevelOK(nodes, front, c, i)
    requires IsPredAt(Heights(nodes, c), P, pred, i)
    ensures HasLevel(nodes, front, PosOf(c, pred), i)
    ensures NextLink(nodes, front, PosOf(c, pred), i) == Some(c[P]) <==> i < |nodes[c[P]].next|
  {
    var t := Heights(nodes, c);
    LinkAt(nodes, front, c, pred, i);
    if i < |nodes[c[P]].next| {
      NextIdxUnique(t, pred + 1, i, P);
    }
  }

  /**
   * The entries met by following level-`j` links from `link`, at most
   * `fuel` of them: what a walk along one level of the list sees.
   */
  ghost function Follow<V>(nodes: seq<SLNode<V>>, link: Option<nat>, j: nat, fuel: nat): seq<Entry<V>>
    decreases fuel
  {
    if fuel == 0 || link.None? || link.value >= |nodes| then []
    else
      var n := nodes[link.value];
      [Entry(n.key, n.value, |n.next|)] + (if j < |n.next| then Follow(nodes, n.next[j], j, fuel - 1) else [])
  }

  /**
   * On a linked level `j`, following the links from the next tower at or
   * after chain position `q` that reaches level `j` meets exactly the
   * entries from `q` on whose towers reach level `j`.
   */
  lemma FollowLevel<V>(nodes: seq<SLNode<V>>, front: seq<Option<nat>>, c: seq<nat>, j: nat, q: nat, fuel: nat)
    requires InArena(nodes, c) && j < |front| && LevelOK(nodes, front, c, j)
    requires q <= |c| && |c| - q <= fuel
    ensures Follow(nodes, Link(c, NextIdx(Heights(nodes, c), q, j)), j, fuel)
         == LevelFrom(EntriesOf(nodes, c), q, j)
  {
    var r := NextIdx(Heights(nodes, c), q, j);
    LevelSkip(EntriesOf(nodes, c), q, r, j);
    FollowFrom(nodes, front, c, j, r, fuel);
  }

  /**
   * On a linked level `j`, following the links from chain position `r`,
   * whose tower reaches level `j` (or which is the end), meets exactly the
   * entries from `r` on whose towers reach level `j`.
   */
  lemma {:induction false} FollowFrom<V>(nodes: seq<SLNode<V>>, front: seq<Option<nat>>, c: seq<nat>,
                                        j: nat, r: nat, fuel: nat)
    requires InArena(nodes, c) && j < |front| && LevelOK(nodes, front, c, j)
    requires r <= |c| && |c| - r <= fuel && (r < |c| ==> Heights(nodes, c)[r] > j)
    ensures Follow(nodes, Link(c, r), j, fuel) == LevelFrom(EntriesOf(nodes, c), r, j)
    decreases |c| - r
  {
    if r < |c| {
      var r' := NextIdx(Heights(nodes, c), r + 1, j);
      assert r < r' <= |c| && (r' < |c| ==> Heights(nodes, c)[r'] > j);
      FollowFrom(nodes, front, c, j, r', fuel - 1);
      FollowStep(nodes, front, c, j, r, r', fuel);
    }
  }

  /** One step of FollowFrom: the walk meets the tower at `r` and goes on from its level-`j` link, to `r'`. */
  lemma FollowStep<V>(nodes: seq<SLNode<V>>, front: seq<Option<nat>>, c: seq<nat>, j: nat, r: nat, r': nat, fuel: nat)
    requires InArena(nodes, c) && j < |front| && LevelOK(nodes, front, c, j)
    requires r < |c| && Heights(nodes, c)[r] > j && 0 < fuel
    requires r + 1 <= |c| && r' == NextIdx(Heights(nodes, c), r + 1, j)
    requires Follow(nodes, Link(c, r'), j, fuel - 1) == LevelFrom(EntriesOf(nodes, c), r', j)
    ensures Follow(nodes, Link(c, r), j, fuel) == LevelFrom(EntriesOf(nodes, c), r, j)
  {
    var s, n := EntriesOf(nodes, c), nodes[c[r]];
    LinkAt(nodes, front, c, r, j);
    calc {
      Follow(nodes, Link(c, r), j, fuel);
      [Entry(n.key, n.value, |n.next|)] + Follow(nodes, n.next[j], j, fuel - 1);
      [s[r]] + Follow(nodes, Link(c, r'), j, fuel - 1);
      [s[r]] + LevelFrom(s, r', j);
      { LevelSkip(s, r + 1, r', j); }
      [s[r]] + LevelFrom(s, r + 1, j);
      LevelFrom(s, r, j);
    }
  }

  /** Tower heights along the chain after `x` is spliced in, when no tower changed height. */
  lemma HeightsInsert<V>(nodes0: seq<SLNode<V>>, nodes1: seq<SLNode<V>>, c: seq<nat>, p: nat, x: nat)
    requires InArena(nodes0, c) && p <= |c| && x < |nodes0| && |nodes1| == |nodes0|
    requires forall n :: 0 <= n < |nodes0| ==> |nodes1[n].next| == |nodes0[n].next|
    ensures InArena(nodes1, c) && InArena(nodes1, Insert(c, p, x))
    ensures Heights(nodes1, c) == Heights(nodes0, c)
    ensures Heights(nodes1, Insert(c, p, x)) == Insert<nat>(Heights(nodes0, c), p, |nodes0[x].next|)
  {
  }

  /**
   * One level of the splice done by `set`: the new node `x` takes over the
   * predecessor's link and the predecessor (or the front slot) now points at
   * `x`.  Then the level is linked along the chain with `x` at position `p`.
   */
  lemma SpliceLevel<V>(nodes0: seq<SLNode<V>>, front0: seq<Option<nat>>,
                       nodes1: seq<SLNode<V>>, front1: seq<Option<nat>>,
                       c: seq<nat>, p: nat, x: nat, pred: int, i: nat)
    requires InArena(nodes0, c) && p <= |c| && x < |nodes0|
    requires i < |front0| && LevelOK(nodes0, front0, c, i)
    requires IsPredAt(Heights(nodes0, c), p, pred, i)
    requires i < |nodes0[x].next|
    requires |nodes1| == |nodes0| && |front1| == |front0|
    requires forall n :: 0 <= n < |nodes0| ==> |nodes1[n].next| == |nodes0[n].next|
    requires nodes1[x].next[i] == Link(c, NextIdx(Heights(nodes0, c), pred + 1, i))
    requires pred >= 0 ==> nodes1[c[pred]].next[i] == Some(x) && front1[i] == front0[i]
    requires pred < 0 ==> front1[i] == Some(x)
    requires forall q :: 0 <= q < |c| && q != pred && i < |nodes0[c[q]].next| ==>
      nodes1[c[q]].next[i] == nodes0[c[q]].next[i]
    ensures InArena(nodes1, Insert(c, p, x)) && LevelOK(nodes1, front1, Insert(c, p, x), i)
  {
    var t := Heights(nodes0, c);
    HeightsInsert(nodes0, nodes1, c, p, x);
    RowSplice(t, c, front0[i], Row(nodes0, c, i), p, x, |nodes0[x].next|, pred, i);
    RowAfterSplice(nodes0, nodes1, c, p, x, pred, i, Link(c, NextIdx(t, pred + 1, i)));
  }

  /** The level-`i` links along the chain once `x` is linked in behind `pred`. */
  lemma RowAfterSplice<V>(nodes0: seq<SLNode<V>>, nodes1: seq<SLNode<V>>,
                          c: seq<nat>, p: nat, x: nat, pred: int, i: nat, l: Option<nat>)
    requires InArena(nodes0, c) && p <= |c| && x < |nodes0| && -1 <= pred < p
    requires |nodes1| == |nodes0| && i < |nodes0[x].next|
    requires forall n :: 0 <= n < |nodes0| ==> |nodes1[n].next| == |nodes0[n].next|
    requires nodes1[x].next[i] == l
    requires pred >= 0 ==> i < |nodes0[c[pred]].next| && nodes1[c[pred]].next[i] == Some(x)
    requires forall q :: 0 <= q < |c| && q != pred && i < |nodes0[c[q]].next| ==>
      nodes1[c[q]].next[i] == nodes0[c[q]].next[i]
    ensures InArena(nodes1, Insert(c, p, x))
    ensures Row(nodes1, Insert(c, p, x), i) == SplicedRow(Row(nodes0, c, i), p, x, pred, l)
  {
    var row' := SplicedRow(Row(nodes0, c, i), p, x, pred, l);
    var c' := Insert(c, p, x);
    forall q' | 0 <= q' < |c'| ensures Row(nodes1, c', i)[q'] == row'[q'] {
      if q' < p {
        assert c'[q'] == c[q'];
      } else if q' > p {
        assert c'[q'] == c[q' - 1];
      }
    }
  }

  /**
   * One level of the unlinking done by `remove`: the predecessor of `x` (or
   * the front slot) takes over `x`'s link.  Then the level is linked along
   * the chain without `x`.
   */
  lemma UnspliceLevel<V>(nodes0: seq<SLNode<V>>, front0: seq<Option<nat>>,
                         nodes1: seq<SLNode<V>>, front1: seq<Option<nat>>,
                         c: seq<nat>, p: nat, x: nat, pred: int, i: nat)
    requires InArena(nodes0, c) && p <= |c| && x < |nodes0|
    requires i < |front0| && InArena(nodes0, Insert(c, p, x)) && LevelOK(nodes0, front0, Insert(c, p, x), i)
    requires IsPredAt(Heights(nodes0, c), p, pred, i)
    requires i < |nodes0[x].next|
    requires |nodes1| == |nodes0| && |front1| == |front0|
    requires forall n :: 0 <= n < |nodes0| ==> |nodes1[n].next| == |nodes0[n].next|
    requires pred >= 0 ==> nodes1[c[pred]].next[i] == nodes0[x].next[i] && front1[i] == front0[i]
    requires pred < 0 ==> front1[i] == nodes0[x].next[i]
    requires forall q :: 0 <= q < |c| && q != pred && i < |nodes0[c[q]].next| ==>
      nodes1[c[q]].next[i] == nodes0[c[q]].next[i]
    ensures InArena(nodes1, c) && LevelOK(nodes1, front1, c, i)
  {
    var c' := Insert(c, p, x);
    HeightsInsert(nodes0, nodes0, c, p, x);
    HeightsInsert(nodes0, nodes1, c, p, x);
    var row := Row(nodes0, c', i);
    RowUnsplice(Heights(nodes0, c), c, front0[i], row, p, x, |nodes0[x].next|, pred, i);
    RowAfterUnsplice(nodes0, nodes1, c, p, x, pred, i);
  }

  /** The level-`i` links along the chain once `x` is unlinked behind `pred`. */
  lemma RowAfterUnsplice<V>(nodes0: seq<SLNode<V>>, nodes1: seq<SLNode<V>>,
                            c: seq<nat>, p: nat, x: nat, pred: int, i: nat)
    requires InArena(nodes0, c) && p <= |c| && x < |nodes0| && -1 <= pred < p
    requires |nodes1| == |nodes0| && i < |nodes0[x].next|
    requires forall n :: 0 <= n < |nodes0| ==> |nodes1[n].next| == |nodes0[n].next|
    requires pred >= 0 ==> i < |nodes0[c[pred]].next| && nodes1[c[pred]].next[i] == nodes0[x].next[i]
    requires forall q :: 0 <= q < |c| && q != pred && i < |nodes0[c[q]].next| ==>
      nodes1[c[q]].next[i] == nodes0[c[q]].next[i]
    ensures InArena(nodes0, Insert(c, p, x)) && InArena(nodes1, c)
    ensures Row(nodes1, c, i) == UnsplicedRow(Row(nodes0, Insert(c, p, x), i), p, pred)
  {
    var c' := Insert(c, p, x);
    var row := Row(nodes0, c', i);
    var row1 := UnsplicedRow(row, p, pred);
    assert row[p] == nodes0[x].next[i];
    forall q | 0 <= q < |c| ensures Row(nodes1, c, i)[q] == row1[q] {
      if q < p {
        assert c'[q] == c[q];
      } else {
        assert c'[q + 1] == c[q];
      }
    }
  }

  /**
   * A level that the tower of `x` does not reach is linked along the chain
   * with `x` exactly when it is linked along the chain without it.
   */
  lemma SkipLevel<V>(nodes: seq<SLNode<V>>, front: seq<Option<nat>>, c: seq<nat>, p: nat, x: nat, j: nat)
    requires InArena(nodes, c) && p <= |c| && x < |nodes| && j < |front|
    requires |nodes[x].next| <= j
    ensures InArena(nodes, Insert(c, p, x))
    ensures LevelOK(nodes, front, c, j) <==> LevelOK(nodes, front, Insert(c, p, x), j)
  {
    var c' := Insert(c, p, x);
    var h: nat := |nodes[x].next|;
    HeightsInsert(nodes, nodes, c, p, x);
    var t, row := Heights(nodes, c), Row(nodes, c, j);
    var nothing: Option<nat> := None;
    RowSkip(t, c, front[j], row, p, x, h, nothing, j);
    forall q' | 0 <= q' < |c'| ensures Row(nodes, c', j)[q'] == Insert(row, p, nothing)[q'] {
      if q' < p {
        assert c'[q'] == c[q'];
      } else if q' > p {
        assert c'[q'] == c[q' - 1];
      }
    }
    assert Row(nodes, c', j) == Insert(row, p, nothing);
  }

  // ---------------------------------------------------------------------
  // The skip list
  // ---------------------------------------------------------------------

  class SkipList<V> {
    /** The arena: every node allocated so far, reachable or not. */
    var nodes: seq<SLNode<V>>
    /** The entry link of every level. */
    var front: seq<Option<nat>>
    /** The number of entries. */
    var size: nat
    /** The number of levels a walk starts from. */
    var height: nat
    /** The nodes of level 0, in order. */
    ghost var chain: seq<nat>

    ghost predicate Valid()
      reads this
    {
      INITIAL_HEIGHT <= |front| && height <= |front|
      && InArena(nodes, chain)
      && StrictlySorted(EntriesOf(nodes, chain))
      && (forall p :: 0 <= p < |chain| ==> 1 <= |nodes[chain[p]].next| <= height)
      && (forall j :: 0 <= j < |front| ==> LevelOK(nodes, front, chain, j))
      && size == |chain|
    }

    /** The map, as its entries in key order. */
    ghost function Entries(): seq<Entry<V>>
      reads this
      requires Valid()
    {
      EntriesOf(nodes, chain)
    }

    /**
     * The levels the pointers spell out: following level `j` from its front
     * slot meets exactly the entries whose towers reach level `j`, in key
     * order; level 0 holds all `size` entries, each level is a subsequence
     * of the one below, and the front slots at and above `height` are null.
     */
    lemma LevelChains()
      requires Valid()
      ensures forall j :: 0 <= j < |front| ==> Follow(nodes, front[j], j, size) == Level(Entries(), j)
      ensures Follow(nodes, front[0], 0, size) == Entries() && size == |Entries()|
      ensures forall j :: 0 <= j < |front| ==> StrictlySorted(Follow(nodes, front[j], j, size))
      ensures forall j :: 0 < j < |front| ==>
        IsSubseq(Follow(nodes, front[j], j, size), Follow(nodes, front[j - 1], j - 1, size))
      ensures forall j :: height <= j < |front| ==> front[j] == None
    {
      var t := Heights(nodes, chain);
      forall j | 0 <= j < |front|
        ensures Follow(nodes, front[j], j, size) == Level(Entries(), j)
        ensures StrictlySorted(Follow(nodes, front[j], j, size))
      {
        FollowLevel(nodes, front, chain, j, 0, size);
        LevelFromSuffix(Entries(), 0, j);
        assert Entries()[0..] == Entries();
        LevelSorted(Entries(), j);
      }
      LevelZero(Entries());
      forall j | 0 < j < |front|
        ensures IsSubseq(Follow(nodes, front[j], j, size), Follow(nodes, front[j - 1], j - 1, size))
      {
        LevelSubseq(Entries(), j - 1);
      }
      forall j | height <= j < |front| ensures front[j] == None {
        assert LevelOK(nodes, front, chain, j);
        NextIdxNone(t, 0, j);
      }
    }

    constructor ()
      ensures Valid() && Entries() == []
      ensures size == 0 && height == INITIAL_HEIGHT && |front| == INITIAL_HEIGHT
      ensures forall i :: 0 <= i < |front| ==> front[i] == None
    {
      var slots: seq<Option<nat>> := [];
      var i := 0;
      while i < INITIAL_HEIGHT
        invariant 0 <= i <= INITIAL_HEIGHT && |slots| == i
        invariant forall j :: 0 <= j < i ==> slots[j] == None
      {
        slots := slots + [None];
        i := i + 1;
      }
      nodes := [];
      front := slots;
      size := 0;
      height := INITIAL_HEIGHT;
      chain := [];
      new;
      EmptyLevels(nodes, front);
    }

    /** Redirect the level-`i` link of `pos`; through the head this writes `front`. */
    method SetNext(pos: Pos, i: nat, link: Option<nat>)
      requires HasLevel(nodes, front, pos, i)
      modifies this
      ensures chain == old(chain) && size == old(size) && height == old(height)
      ensures |nodes| == |old(nodes)| && |front| == |old(front)|
      ensures HasLevel(nodes, front, pos, i) && NextLink(nodes, front, pos, i) == link
      ensures forall j: nat :: j != i ==> AgreeAt(old(nodes), old(front), nodes, front, j)
      ensures forall n :: 0 <= n < |nodes| ==>
        nodes[n].key == old(nodes[n].key) && nodes[n].value == old(nodes[n].value)
        && |nodes[n].next| == |old(nodes[n].next)|
      ensures forall n :: 0 <= n < |nodes| && pos != Node(n) && i < |nodes[n].next| ==>
        nodes[n].next[i] == old(nodes[n].next[i])
      ensures pos.Node? ==> front == old(front)
    {
      match pos
      case Head =>
        front := front[i := link];
      case Node(n) =>
        nodes := nodes[n := nodes[n].(next := nodes[n].next[i := link])];
    }

    /**
     * One level of the predecessor walk: from `node`, follow level-`i` links
     * while the next key is below `k`.  It stops on the level-`i`
     * predecessor of the first position whose key is not below `k`.
     */
    method Advance(k: int, node: Pos, ghost p: int, i: nat) returns (last: Pos, ghost q: int)
      requires Valid() && i < height
      requires -1 <= p < Rank(Entries(), k) && node == PosOf(chain, p)
      requires p >= 0 ==> Heights(nodes, chain)[p] > i
      ensures p <= q && IsPredAt(Heights(nodes, chain), Rank(Entries(), k), q, i)
      ensures last == PosOf(chain, q)
    {
      ghost var t := Heights(nodes, chain);
      ghost var P := Rank(Entries(), k);
      RankSplit(Entries(), k);
      last, q := node, p;
      LinkAt(nodes, front, chain, q, i);
      while NextLink(nodes, front, last, i).Some? && nodes[NextLink(nodes, front, last, i).value].key < k
        invariant p <= q && -1 <= q < P && last == PosOf(chain, q)
        invariant q >= 0 ==> t[q] > i
        invariant HasLevel(nodes, front, last, i)
        invariant NextLink(nodes, front, last, i) == Link(chain, NextIdx(t, q + 1, i))
        decreases |chain| - q
      {
        last := Node(NextLink(nodes, front, last, i).value);
        q := NextIdx(t, q + 1, i);
        LinkAt(nodes, front, chain, q, i);
      }
    }

    /**
     * The predecessor walk: from the top level down, advance while the next
     * key is below `k`, and record where each level stopped.  `cand` is the
     * node after the level-0 predecessor: the first node whose key is not
     * below `k`.
     */
    method Walk(k: int) returns (update: seq<Pos>, cand: Option<nat>, ghost ps: seq<int>)
      requires Valid()
      ensures |update| == height && |ps| == height
      ensures forall i :: 0 <= i < height ==>
        IsPredAt(Heights(nodes, chain), Rank(Entries(), k), ps[i], i)
        && update[i] == PosOf(chain, ps[i])
      ensures cand == Link(chain, Rank(Entries(), k))
    {
      ghost var t := Heights(nodes, chain);
      ghost var P := Rank(Entries(), k);
      var node := Head;
      ghost var p := -1;
      update := seq(height, _ => Head);
      ps := seq(height, _ => -1);
      var i := height;
      while i > 0
        invariant 0 <= i <= height
        invariant |update| == height && |ps| == height
        invariant -1 <= p < P && node == PosOf(chain, p)
        invariant p >= 0 ==> t[p] > i
        invariant i < height ==> p == ps[i]
        invariant forall j :: i <= j < height ==> IsPredAt(t, P, ps[j], j) && update[j] == PosOf(chain, ps[j])
      {
        i := i - 1;
        node, p := Advance(k, node, p, i);
        update := update[i := node];
        ps := ps[i := p];
      }
      if height == 0 {
        NextIdxUnique(t, 0, 0, P);
        LinkAt(nodes, front, chain, p, 0);
      } else {
        LevelZeroNext(nodes, front, chain, P, p);
      }
      cand := NextLink(nodes, front, node, 0);
    }

    /** Append a fresh node with a tower of height `h`, all links null, to the arena. */
    method Allocate(k: int, value: V, h: nat) returns (x: nat)
      requires Valid()
      modifies this
      ensures Valid() && x == |old(nodes)| && |nodes| == x + 1 && nodes == old(nodes) + [nodes[x]]
      ensures nodes[x].key == k && nodes[x].value == value && |nodes[x].next| == h
      ensures chain == old(chain) && front == old(front) && size == old(size) && height == old(height)
      ensures Entries() == old(Entries())
    {
      x := |nodes|;
      var node := NewNode(k, value, h);
      ghost var nodes0 := nodes;
      nodes := nodes + [node];
      forall j | 0 <= j < |front| ensures LevelOK(nodes, front, chain, j) {
        LevelFrame(nodes0, front, nodes, front, chain, j);
      }
      assert EntriesOf(nodes, chain) == EntriesOf(nodes0, chain);
    }

    /** Raise the height to `h`: `front` gets `h - height` more null slots. */
    method Grow(h: nat)
      requires Valid() && h > height
      modifies this
      ensures Valid() && height == h
      ensures front == old(front) + seq(h - old(height), _ => None)
      ensures nodes == old(nodes) && chain == old(chain) && size == old(size)
    {
      ghost var front0 := front;
      front := front + seq(h - height, _ => None);
      height := h;
      forall j | 0 <= j < |front| ensures LevelOK(nodes, front, chain, j) {
        if j < |front0| {
          LevelFrame(nodes, front0, nodes, front, chain, j);
        } else {
          EmptyLevel(nodes, front, chain, j);
        }
      }
    }

    /**
     * Link `x` in on level `i` behind chain position `pred` (-1: the head),
     * reached through `pos`: `x` takes over the link of `pos`, which then
     * points at `x`.
     */
    method LinkLevel(x: nat, pos: Pos, i: nat, ghost c: seq<nat>, ghost P: nat, ghost pred: int)
      requires InArena(nodes, c) && P <= |c| && x < |nodes| && x !in c && Distinct(c)
      requires i < |front| && LevelOK(nodes, front, c, i)
      requires IsPredAt(Heights(nodes, c), P, pred, i) && pos == PosOf(c, pred)
      requires i < |nodes[x].next|
      modifies this
      ensures |nodes| == |old(nodes)| && |front| == |old(front)|
      ensures InArena(nodes, Insert(c, P, x)) && LevelOK(nodes, front, Insert(c, P, x), i)
      ensures forall j: nat :: j != i ==> AgreeAt(old(nodes), old(front), nodes, front, j)
      ensures forall n :: 0 <= n < |nodes| ==>
        nodes[n].key == old(nodes[n].key) && nodes[n].value == old(nodes[n].value)
        && |nodes[n].next| == |old(nodes[n].next)|
      ensures chain == old(chain) && size == old(size) && height == old(height)
    {
      ghost var nodes0, front0 := nodes, front;
      LinkAt(nodes, front, c, pred, i);
      var link := NextLink(nodes, front, pos, i);
      SetNext(Node(x), i, link);
      ghost var nodes1, front1 := nodes, front;
      SetNext(pos, i, Some(x));
      SpliceLevel(nodes0, front0, nodes, front, c, P, x, pred, i);
      forall j: nat | j != i ensures AgreeAt(nodes0, front0, nodes, front, j) {
        AgreeTrans(nodes0, front0, nodes1, front1, nodes, front, j);
      }
    }

    /**
     * Link the allocated node `x` in at chain position `P` of `c` on every
     * level its tower reaches: `x` takes over the predecessor's link and the
     * predecessor (`update[i]`) points at `x`.  Every level is then linked
     * along the chain with `x`.
     */
    method LinkTower(x: nat, update: seq<Pos>, ghost c: seq<nat>, ghost P: nat, ghost ps: seq<int>)
      requires InArena(nodes, c) && Distinct(c) && P <= |c| && x < |nodes| && x !in c
      requires |nodes[x].next| <= |front| && |nodes[x].next| <= |update| && |nodes[x].next| <= |ps|
      requires forall i :: 0 <= i < |nodes[x].next| ==>
        IsPredAt(Heights(nodes, c), P, ps[i], i) && update[i] == PosOf(c, ps[i])
      requires forall j :: 0 <= j < |front| ==> LevelOK(nodes, front, c, j)
      modifies this
      ensures |nodes| == |old(nodes)| && |front| == |old(front)|
      ensures forall n :: 0 <= n < |nodes| ==>
        nodes[n].key == old(nodes[n].key) && nodes[n].value == old(nodes[n].value)
        && |nodes[n].next| == |old(nodes[n].next)|
      ensures chain == old(chain) && size == old(size) && height == old(height)
      ensures InArena(nodes, Insert(c, P, x))
      ensures forall j :: 0 <= j < |front| ==> LevelOK(nodes, front, Insert(c, P, x), j)
    {
      ghost var t := Heights(nodes, c);
      ghost var c' := Insert(c, P, x);
      var h := |nodes[x].next|;
      var i := 0;
      while i < h
        invariant 0 <= i <= h && |front| == old(|front|)
        invariant chain == old(chain) && size == old(size) && height == old(height)
        invariant |nodes| == old(|nodes|) && InArena(nodes, c) && Heights(nodes, c) == t
        invariant forall n :: 0 <= n < |nodes| ==>
          nodes[n].key == old(nodes[n].key) && nodes[n].value == old(nodes[n].value)
          && |nodes[n].next| == |old(nodes[n].next)|
        invariant forall j :: 0 <= j < i ==> LevelOK(nodes, front, c', j)
        invariant forall j :: i <= j < |front| ==> LevelOK(nodes, front, c, j)
      {
        LinkStep(x, update[i], i, c, P, ps[i]);
        i := i + 1;
      }
      forall j | h <= j < |front| ensures LevelOK(nodes, front, c', j) {
        SkipLevel(nodes, front, c, P, x, j);
      }
    }

    /**
     * One round of the linking loop: level `i` moves from the chain `c` to
     * the chain with `x` spliced in at position `P`.
     */
    method LinkStep(x: nat, pos: Pos, i: nat, ghost c: seq<nat>, ghost P: nat, ghost pred: int)
      requires InArena(nodes, c) && Distinct(c) && P <= |c| && x < |nodes| && x !in c
      requires i < |front| && i < |nodes[x].next|
      requires IsPredAt(Heights(nodes, c), P, pred, i) && pos == PosOf(c, pred)
      requires forall j :: 0 <= j < i ==> LevelOK(nodes, front, Insert(c, P, x), j)
      requires forall j :: i <= j < |front| ==> LevelOK(nodes, front, c, j)
      modifies this
      ensures |nodes| == |old(nodes)| && |front| == |old(front)|
      ensures forall n :: 0 <= n < |nodes| ==>
        nodes[n].key == old(nodes[n].key) && nodes[n].value == old(nodes[n].value)
        && |nodes[n].next| == |old(nodes[n].next)|
      ensures chain == old(chain) && size == old(size) && height == old(height)
      ensures InArena(nodes, c) && Heights(nodes, c) == Heights(old(nodes), c)
      ensures forall j :: 0 <= j < i + 1 ==> LevelOK(nodes, front, Insert(c, P, x), j)
      ensures forall j :: i + 1 <= j < |front| ==> LevelOK(nodes, front, c, j)
    {
      ghost var c' := Insert(c, P, x);
      ghost var nodes0, front0 := nodes, front;
      LinkLevel(x, pos, i, c, P, pred);
      StepFrame(nodes0, front0, nodes, front, c', c, i);
    }

    /** Link the allocated node `x` in at chain position `P`, making it an entry of the map. */
    method SpliceIn(x: nat, update: seq<Pos>, ghost P: nat, ghost ps: seq<int>)
      requires Valid() && x < |nodes| && x !in chain && 1 <= |nodes[x].next| <= height
      requires P <= |chain|
      requires StrictlySorted(Insert(Entries(), P, Entry(nodes[x].key, nodes[x].value, |nodes[x].next|)))
      requires |update| == height && |ps| == height
      requires forall i :: 0 <= i < height ==>
        IsPredAt(Heights(nodes, chain), P, ps[i], i) && update[i] == PosOf(chain, ps[i])
      modifies this
      ensures Valid() && chain == Insert(old(chain), P, x)
      ensures Entries() == Insert(old(Entries()), P, Entry(old(nodes[x].key), old(nodes[x].value), |old(nodes[x].next)|))
      ensures size == old(size) + 1 && height == old(height) && |front| == |old(front)|
    {
      ghost var c, s := chain, Entries();
      ghost var nodes0 := nodes;
      SortedDistinct(nodes, c);
      LinkTower(x, update, c, P, ps);
      EntriesFrame(nodes0, nodes, c);
      EntriesInsert(nodes, c, P, x);
      chain := Insert(c, P, x);
      size := size + 1;
    }

    /** Replace the value of the node at chain position `p`; nothing else changes. */
    method Replace(m: nat, ghost p: nat, value: V)
      requires Valid() && p < |chain| && chain[p] == m
      modifies this
      ensures Valid()
      ensures Entries() == old(Entries())[p := old(Entries())[p].(value := value)]
      ensures size == old(size) && height == old(height) && front == old(front) && chain == old(chain)
      ensures |nodes| == |old(nodes)|
      ensures forall n :: 0 <= n < |nodes| ==> nodes[n].key == old(nodes[n].key) && nodes[n].next == old(nodes[n].next)
    {
      ghost var nodes0, s := nodes, Entries();
      nodes := nodes[m := nodes[m].(value := value)];
      forall j | 0 <= j < |front| ensures LevelOK(nodes, front, chain, j) {
        LevelFrame(nodes0, front, nodes, front, chain, j);
      }
      SortedDistinct(nodes0, chain);
      assert EntriesOf(nodes, chain) == s[p := s[p].(value := value)];
    }

    /**
     * Unlink `x` on level `i` behind chain position `pred` (-1: the head),
     * reached through `pos`: `pos` takes over the link of `x`.
     */
    method UnlinkLevel(x: nat, pos: Pos, i: nat, ghost c: seq<nat>, ghost P: nat, ghost pred: int)
      requires InArena(nodes, c) && P <= |c| && x < |nodes| && x !in c && Distinct(c)
      requires i < |front| && InArena(nodes, Insert(c, P, x)) && LevelOK(nodes, front, Insert(c, P, x), i)
      requires IsPredAt(Heights(nodes, c), P, pred, i) && pos == PosOf(c, pred)
      requires i < |nodes[x].next|
      modifies this
      ensures |nodes| == |old(nodes)| && |front| == |old(front)|
      ensures LevelOK(nodes, front, c, i)
      ensures forall j: nat :: j != i ==> AgreeAt(old(nodes), old(front), nodes, front, j)
      ensures forall n :: 0 <= n < |nodes| ==>
        nodes[n].key == old(nodes[n].key) && nodes[n].value == old(nodes[n].value)
        && |nodes[n].next| == |old(nodes[n].next)|
      ensures chain == old(chain) && size == old(size) && height == old(height)
    {
      ghost var nodes0, front0 := nodes, front;
      SetNext(pos, i, nodes[x].next[i]);
      UnspliceLevel(nodes0, front0, nodes, front, c, P, x, pred, i);
    }

    /**
     * The unlinking loop of `remove`: from level 0 up, while the level-`i`
     * predecessor still points at `x`, let it take over `x`'s link.  The
     * first level where it does not is the first level the tower of `x`
     * does not reach.
     */
    method UnlinkTower(x: nat, update: seq<Pos>, ghost c: seq<nat>, ghost P: nat, ghost ps: seq<int>)
      requires P < |c| && c[P] == x && InArena(nodes, c) && Distinct(c)
      requires |nodes[x].next| <= height <= |front| && |update| == height && |ps| == height
      requires forall i :: 0 <= i < height ==>
        IsPredAt(Heights(nodes, c), P, ps[i], i) && update[i] == PosOf(c, ps[i])
      requires forall j :: 0 <= j < |front| ==> LevelOK(nodes, front, c, j)
      modifies this
      ensures |nodes| == |old(nodes)| && |front| == |old(front)|
      ensures forall n :: 0 <= n < |nodes| ==>
        nodes[n].key == old(nodes[n].key) && nodes[n].value == old(nodes[n].value)
        && |nodes[n].next| == |old(nodes[n].next)|
      ensures chain == old(chain) && size == old(size) && height == old(height)
      ensures InArena(nodes, Cut(c, P))
      ensures forall j :: 0 <= j < |front| ==> LevelOK(nodes, front, Cut(c, P), j)
    {
      ghost var t := Heights(nodes, c);
      ghost var c0 := Cut(c, P);
      EntriesCut(nodes, c, P);
      ghost var h := |nodes[x].next|;
      var i := 0;
      while i < height
        invariant 0 <= i <= h && |front| == old(|front|)
        invariant chain == old(chain) && size == old(size) && height == old(height)
        invariant |nodes| == old(|nodes|) && InArena(nodes, c) && Heights(nodes, c) == t
        invariant forall n :: 0 <= n < |nodes| ==>
          nodes[n].key == old(nodes[n].key) && nodes[n].value == old(nodes[n].value)
          && |nodes[n].next| == |old(nodes[n].next)|
        invariant forall j :: 0 <= j < i ==> LevelOK(nodes, front, c0, j)
        invariant forall j :: i <= j < |front| ==> LevelOK(nodes, front, c, j)
      {
        PredLinksTo(nodes, front, c, P, ps[i], i);
        if NextLink(nodes, front, update[i], i) != Some(x) {
          break;
        }
        UnlinkStep(x, update[i], i, c, P, ps[i]);
        i := i + 1;
      }
      EntriesCut(nodes, c, P);
      forall j | i <= j < |front| ensures LevelOK(nodes, front, c0, j) {
        SkipLevel(nodes, front, c0, P, x, j);
      }
    }

    /**
     * One round of the unlinking loop: level `i` moves from the chain with
     * `x` (at position `P` of `c`) to the chain without it.
     */
    method UnlinkStep(x: nat, pos: Pos, i: nat, ghost c: seq<nat>, ghost P: nat, ghost pred: int)
      requires P < |c| && c[P] == x && InArena(nodes, c) && Distinct(c)
      requires i < |front| && i < |nodes[x].next|
      requires IsPredAt(Heights(nodes, c), P, pred, i) && pos == PosOf(c, pred)
      requires forall j :: 0 <= j < i ==> LevelOK(nodes, front, Cut(c, P), j)
      requires forall j :: i <= j < |front| ==> LevelOK(nodes, front, c, j)
      modifies this
      ensures |nodes| == |old(nodes)| && |front| == |old(front)|
      ensures forall n :: 0 <= n < |nodes| ==>
        nodes[n].key == old(nodes[n].key) && nodes[n].value == old(nodes[n].value)
        && |nodes[n].next| == |old(nodes[n].next)|
      ensures chain == old(chain) && size == old(size) && height == old(height)
      ensures InArena(nodes, c) && Heights(nodes, c) == Heights(old(nodes), c)
      ensures forall j :: 0 <= j < i + 1 ==> LevelOK(nodes, front, Cut(c, P), j)
      ensures forall j :: i + 1 <= j < |front| ==> LevelOK(nodes, front, c, j)
    {
      ghost var c0 := Cut(c, P);
      assert InArena(nodes, c0) && Distinct(c0) && x !in c0 && Insert(c0, P, x) == c
        && IsPredAt(Heights(nodes, c0), P, pred, i) by {
        EntriesCut(nodes, c, P);
        CutDistinct(c, P);
        IsPredCut(Heights(nodes, c), P, pred, i);
      }
      ghost var nodes0, front0 := nodes, front;
      UnlinkLevel(x, pos, i, c0, P, pred);
      StepFrame(nodes0, front0, nodes, front, c0, c, i);
    }

    /** Lower the height while its top front slot is null. */
    method Trim()
      requires Valid()
      modifies this
      ensures Valid() && height <= old(height) && height == MaxHeight(Entries())
      ensures nodes == old(nodes) && front == old(front) && chain == old(chain) && size == old(size)
    {
      var h: nat := height;
      while h > 0 && front[h - 1] == None
        invariant h <= height && forall p :: 0 <= p < |chain| ==> |nodes[chain[p]].next| <= h
        modifies {}
        decreases h
      {
        TopLevel(nodes, front, chain, h);
        h := h - 1;
      }
      if h > 0 {
        TopLevel(nodes, front, chain, h);
      }
      height := h;
      MaxHeightIs(Entries(), h);
    }

    /** The present-key half of `remove`: unlink the node at chain position `P` and trim the height. */
    method RemoveAt(x: nat, update: seq<Pos>, ghost P: nat, ghost ps: seq<int>)
      requires Valid() && P < |chain| && chain[P] == x
      requires |update| == height && |ps| == height
      requires forall i :: 0 <= i < height ==>
        IsPredAt(Heights(nodes, chain), P, ps[i], i) && update[i] == PosOf(chain, ps[i])
      modifies this
      ensures Valid() && Entries() == Cut(old(Entries()), P)
      ensures size == old(size) - 1 && |front| == |old(front)| && height == MaxHeight(Entries())
    {
      ghost var c, s := chain, Entries();
      ghost var nodes0 := nodes;
      SortedDistinct(nodes, c);
      UnlinkTower(x, update, c, P, ps);
      EntriesFrame(nodes0, nodes, c);
      EntriesCut(nodes, c, P);
      CutSorted(s, P);
      chain := Cut(c, P);
      size := size - 1;
      Trim();
    }

    /** `remove`: unlink the key's node if present and report its value; a missing key changes nothing. */
    method Remove(key: Option<int>) returns (r: Result<Option<V>, Error>)
      requires Valid()
      modifies this
      ensures Valid()
      ensures key.None? ==> r == Err(NullKey) && unchanged(this)
      ensures key.Some? ==> r == Ok(Find(old(Entries()), key.value))
      ensures key.Some? ==> Entries() == Delete(old(Entries()), key.value)
      ensures key.Some? ==> Find(Entries(), key.value).None?
      ensures key.Some? && Find(old(Entries()), key.value).None? ==> unchanged(this)
      ensures key.Some? && Find(old(Entries()), key.value).Some? ==>
        size == old(size) - 1 && |front| == |old(front)| && height == MaxHeight(Entries())
    {
      if key.None? {
        return Err(NullKey);
      }
      var k := key.value;
      ghost var s := Entries();
      ghost var P := Rank(s, k);
      FindAtRank(s, k);
      DeleteAtRank(s, k);
      FindDelete(s, k, k);
      var update, node, ps := Walk(k);
      if node.Some? && nodes[node.value].key == k {
        var x := node.value;
        var value := nodes[x].value;
        RemoveAt(x, update, P, ps);
        return Ok(Some(value));
      }
      return Ok(None);
    }

    /** The absent-key half of `set`: a node of height `h` joins the map behind the predecessors the walk found. */
    method InsertAbsent(k: int, value: V, h: nat, update: seq<Pos>, ghost ps: seq<int>)
      requires Valid() && h >= 1 && Find(Entries(), k).None?
      requires |update| == height && |ps| == height
      requires forall i :: 0 <= i < height ==>
        IsPredAt(Heights(nodes, chain), Rank(Entries(), k), ps[i], i) && update[i] == PosOf(chain, ps[i])
      modifies this
      ensures Valid() && Entries() == Put(old(Entries()), k, value, h)
      ensures size == old(size) + 1
      ensures height == (if h > old(height) then h else old(height))
      ensures |front| == |old(front)| + (if h > old(height) then h - old(height) else 0)
    {
      ghost var s := Entries();
      ghost var P := Rank(s, k);
      FindAtRank(s, k);
      PutAtRank(s, k, value, h);
      PutSorted(s, k, value, h);
      var x := Allocate(k, value, h);
      assert Heights(nodes, chain) == Heights(old(nodes), chain);
      var update', ps' := update, ps;
      if h > height {
        // The new top levels start from the head.
        update' := update + seq(h - height, _ => Head);
        ps' := ps + seq(h - height, _ => -1);
        Grow(h);
      }
      SpliceIn(x, update', P, ps');
    }

    /** `set`: update the value of a present key, or insert the key with a tower of height `h`. */
    method Set(key: Option<int>, value: V, h: nat) returns (r: Result<Option<V>, Error>)
      requires Valid()
      requires h >= 1
      modifies this
      ensures Valid()
      ensures key.None? ==> r == Err(NullKey) && unchanged(this)
      ensures key.Some? ==> r == Ok(Find(old(Entries()), key.value))
      ensures key.Some? ==> Entries() == Put(old(Entries()), key.value, value, h)
      ensures key.Some? ==> Find(Entries(), key.value) == Some(value)
      ensures key.Some? && Find(old(Entries()), key.value).Some? ==>
        size == old(size) && height == old(height) && front == old(front) && chain == old(chain)
        && |nodes| == |old(nodes)|
        && forall n :: 0 <= n < |nodes| ==> nodes[n].key == old(nodes[n].key) && nodes[n].next == old(nodes[n].next)
      ensures key.Some? && Find(old(Entries()), key.value).None? ==>
        size == old(size) + 1
        && height == (if h > old(height) then h else old(height))
        && |front| == |old(front)| + (if h > old(height) then h - old(height) else 0)
    {
      if key.None? {
        return Err(NullKey);
      }
      var k := key.value;
      ghost var s := Entries();
      ghost var P := Rank(s, k);
      FindAtRank(s, k);
      FindPut(s, k, value, h, k);
      var update, node, ps := Walk(k);
      if node.Some? && nodes[node.value].key == k {
        // The key is present: replace the value in place.
        PutAtRank(s, k, value, h);
        var m := node.value;
        var previous := nodes[m].value;
        Replace(m, P, value);
        return Ok(Some(previous));
      }
      InsertAbsent(k, value, h, update, ps);
      return Ok(None);
    }

    /** `get`: the value of `key`; a null key and a missing key are errors. */
    method Get(key: Option<int>) returns (r: Result<V, Error>)
      requires Valid()
      ensures key.None? ==> r == Err(NullKey)
      ensures key.Some? && Find(Entries(), key.value).Some? ==> r == Ok(Find(Entries(), key.value).value)
      ensures key.Some? && Find(Entries(), key.value).None? ==> r == Err(KeyNotFound)
    {
      if key.None? {
        return Err(NullKey);
      }
      var k := key.value;
      FindAtRank(Entries(), k);
      var _, node, _ := Walk(k);
      if node.Some? && nodes[node.value].key == k {
        return Ok(nodes[node.value].value);
      }
      return Err(KeyNotFound);
    }

    /** `containsKey`: whether `get` succeeds; a null key is not contained. */
    method ContainsKey(key: Option<int>) returns (b: bool)
      requires Valid()
      ensures b <==> key.Some? && Find(Entries(), key.value).Some?
    {
      var r := Get(key);
      b := r.Ok?;
    }

    /** `size`: the number of entries. */
    function Size(): (n: nat)
      reads this
      requires Valid()
      ensures n == |Entries()|
    {
      size
    }

    /**
     * `forEach`: walk level 0 from the front and hand each key and value to
     * the action.  The result lists the calls the action receives, in order.
     */
    method ForEach() returns (calls: seq<(int, V)>)
      requires Valid()
      ensures |calls| == |Entries()|
      ensures forall q :: 0 <= q < |calls| ==> calls[q] == (Entries()[q].key, Entries()[q].value)
      ensures forall a, b :: 0 <= a < b < |calls| ==> calls[a].0 < calls[b].0
    {
      ghost var t := Heights(nodes, chain);
      ghost var s := Entries();
      ghost var p := 0;
      calls := [];
      LinkAt(nodes, front, chain, -1, 0);
      NextIdxBottom(t, 0);
      var x := front[0];
      while x.Some?
        invariant p <= |chain| && x == Link(chain, p) && |calls| == p
        invariant forall q :: 0 <= q < p ==> calls[q] == (s[q].key, s[q].value)
        decreases |chain| - p
      {
        var n := x.value;
        calls := calls + [(nodes[n].key, nodes[n].value)];
        LinkAt(nodes, front, chain, p, 0);
        NextIdxBottom(t, p + 1);
        x := nodes[n].next[0];
        p := p + 1;
      }
    }

    /** `nodes`: an iterator over the nodes of level 0, from the front. */
    method Nodes() returns (it: NodeIterator<V>)
      requires Valid()
      ensures fresh(it) && it.Valid() && it.list == this && it.pos == 0
    {
      it := new NodeIterator(this);
    }

    /** `keys`: an iterator over the keys, in ascending order. */
    method Keys() returns (it: KeyIterator<V>)
      requires Valid()
      ensures fresh(it) && fresh(it.nit) && it.Valid() && it.nit.list == this && it.nit.pos == 0
    {
      var nit := Nodes();
      it := new KeyIterator(nit);
    }

    /** `values`: an iterator over the values, in the order of their keys. */
    method Values() returns (it: ValueIterator<V>)
      requires Valid()
      ensures fresh(it) && fresh(it.nit) && it.Valid() && it.nit.list == this && it.nit.pos == 0
    {
      var nit := Nodes();
      it := new ValueIterator(nit);
    }
  }

  /**
   * The iterator `nodes` returns: `next` is the node it hands out next, the
   * one at position `pos` of level 0.
   */
  class NodeIterator<V> {
    const list: SkipList<V>
    var next: Option<nat>
    ghost var pos: nat

    ghost predicate Valid()
      reads this, list
    {
      list.Valid() && pos <= |list.chain| && next == Link(list.chain, pos)
    }

    constructor (l: SkipList<V>)
      requires l.Valid()
      ensures Valid() && list == l && pos == 0
    {
      list := l;
      pos := 0;
      new;
      LinkAt(l.nodes, l.front, l.chain, -1, 0);
      NextIdxBottom(Heights(l.nodes, l.chain), 0);
      next := l.front[0];
    }

    /** `hasNext`: some entry has not been handed out yet. */
    function HasNext(): (b: bool)
      reads this, list
      requires Valid()
      ensures b <==> pos < |list.Entries()|
    {
      next.Some?
    }

    /** `next`: hand out the next node and move to its level-0 successor; past the end this is an error. */
    method Next() returns (r: Result<nat, Error>)
      requires Valid()
      modifies this
      ensures Valid()
      ensures old(pos) < |list.chain| ==> r == Ok(list.chain[old(pos)]) && pos == old(pos) + 1
      ensures old(pos) == |list.chain| ==> r == Err(IllegalState) && pos == old(pos)
    {
      if next.None? {
        return Err(IllegalState);
      }
      var n := next.value;
      LinkAt(list.nodes, list.front, list.chain, pos, 0);
      NextIdxBottom(Heights(list.nodes, list.chain), pos + 1);
      next := list.nodes[n].next[0];
      pos := pos + 1;
      return Ok(n);
    }
  }

  /** The iterator `keys` returns: the keys of the nodes a node iterator hands out. */
  class KeyIterator<V> {
    const nit: NodeIterator<V>

    ghost predicate Valid()
      reads this, nit, nit.list
    {
      nit.Valid()
    }

    constructor (it: NodeIterator<V>)
      requires it.Valid()
      ensures Valid() && nit == it
    {
      nit := it;
    }

    function HasNext(): (b: bool)
      reads this, nit, nit.list
      requires Valid()
      ensures b <==> nit.pos < |nit.list.Entries()|
    {
      nit.HasNext()
    }

    method Next() returns (r: Result<int, Error>)
      requires Valid()
      modifies nit
      ensures Valid()
      ensures old(nit.pos) < |nit.list.Entries()| ==>
        r == Ok(nit.list.Entries()[old(nit.pos)].key) && nit.pos == old(nit.pos) + 1
      ensures old(nit.pos) == |nit.list.Entries()| ==> r == Err(IllegalState) && nit.pos == old(nit.pos)
    {
      var n := nit.Next();
      if n.Err? {
        return Err(n.error);
      }
      return Ok(nit.list.nodes[n.value].key);
    }
  }

  /** The iterator `values` returns: the values of the nodes a node iterator hands out. */
  class ValueIterator<V> {
    const nit: NodeIterator<V>

    ghost predicate Valid()
      reads this, nit, nit.list
    {
      nit.Valid()
    }

    constructor (it: NodeIterator<V>)
      requires it.Valid()
      ensures Valid() && nit == it
    {
      nit := it;
    }

    function HasNext(): (b: bool)
      reads this, nit, nit.list
      requires Valid()
      ensures b <==> nit.pos < |nit.list.Entries()|
    {
      nit.HasNext()
    }

    method Next() returns (r: Result<V, Error>)
      requires Valid()
      modifies nit
      ensures Valid()
      ensures old(nit.pos) < |nit.list.Entries()| ==>
        r == Ok(nit.list.Entries()[old(nit.pos)].value) && nit.pos == old(nit.pos) + 1
      ensures old(nit.pos) == |nit.list.Entries()| ==> r == Err(IllegalState) && nit.pos == old(nit.pos)
    {
      var n := nit.Next();
      if n.Err? {
        return Err(n.error);
      }
      return Ok(nit.list.nodes[n.value].value);
    }
  }

  /**
   * `randomHeight`: start at 1 and add one for every successful coin toss
   * (`rand.nextDouble() < prob`) before the first failure.  The tosses are
   * the sequence `coins`; running out of tosses counts as a failure.
   */
  method RandomHeight(coins: seq<bool>) returns (h: nat)
    ensures 1 <= h <= |coins| + 1
    ensures forall j :: 0 <= j < h - 1 ==> coins[j]
    ensures h - 1 < |coins| ==> !coins[h - 1]
  {
    h := 1;
    while h - 1 < |coins| && coins[h - 1]
      invariant 1 <= h <= |coins| + 1
      invariant forall j :: 0 <= j < h - 1 ==> coins[j]
    {
      h := h + 1;
    }
  }
}
