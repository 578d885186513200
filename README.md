# Skip-list map, modelled and verified in Dafny

`src/SkipList.java` implements a sorted key/value map as a skip list. Every
node (`SLNode`) carries a key, a value and a tower of forward links, one per
level it takes part in. The list keeps a `front` array holding the entry link
of every level, a `size` and a `height`. The height is the number of levels a
search starts from: it is 16 initially, grows when a taller tower is inserted
and is trimmed after a removal. `set`, `get` and `remove` first walk from the
top level down. On each level they move right while the next key is below the
target, and record the node where the level stopped (the `update` vector).
`set` and `remove` then splice a node in or out behind those predecessors. A
dummy node whose `next` list *is* `front` serves as the head of every level,
so writing through it writes `front`.

The model has four modules, besides the `Option` and `Result` wrappers.

- `Splices` (`splices.dfy`) defines `Insert` and `Cut`: splicing one element
  into a sequence at a position, and cutting the element at a position out.
  They describe how `set` and `remove` change the level-0 order.
- `SortedEntries` (`entries.dfy`) is the abstract map. It is a strictly sorted
  sequence of `Entry(key, value, height)`, with `Find`, `Put`, `Delete` and
  `Level`. `Level(s, i)` is the subsequence of entries whose tower is taller
  than `i`. Lemmas about these functions are the map laws the Java code must
  satisfy.
- `Levels` (`levels.dfy`) describes one level of links abstractly.
  - Take the level-0 order `c` of the nodes and their tower heights `t`.
  - On level `j`, the front slot and each level-`j` link go to the next
    position whose tower is taller than `j` (`NextIdx`).
  - The lemmas there show how splicing a tower in or out, behind the
    predecessor the walk found, keeps this true.
- `SkipLists` (`skiplist.dfy`) is the imperative model. Its main pieces:
  - Class `SkipList<V>` has the fields `nodes`, `front`, `size` and `height`.
  - `nodes` is an arena. Links are indices into it, and `None` is Java's
    `null`.
  - Position `Head` stands for the dummy head.
  - The ghost field `chain` holds the level-0 order of the nodes.
  - `Valid()` ties every level of links to `chain`, and `Entries()` reads the
    abstract map off the arena.
  - Every public operation is a method whose contract relates the new
    `Entries()` to the old one through `Put`, `Delete` and `Find`.
  - The iterators are small classes with a cursor.

Keys are `int`, ordered as integers: the comparator is this total order. A
Java `null` key is `Option.None`. Exceptions are `Error` values inside a
`Result`:
- `NullPointerException("null key")` is `NullKey`;
- `IndexOutOfBoundsException("key not found")` is `KeyNotFound`;
- `IllegalStateException` from an exhausted iterator is `IllegalState`.

Two behaviours of the code differ from what a reader of skip lists might
expect, and the model keeps both:
- `remove` trims `height` while the top front slot is null, down to 0 rather
  than 1 (`src/SkipList.java:214-216`). `Trim` and `Remove` promise
  `height == MaxHeight(Entries())`, which is 0 for the empty map.
- `front` never shrinks. It is not kept at the length `height`: `set` appends
  `newHeight - height` null slots to its end (`src/SkipList.java:130-133`),
  even when `front` already has unused null slots above `height` (for example
  after a removal lowered the height). `Set` states exactly this growth. The
  invariant is therefore `height <= |front|`, with every slot at or above
  `height` null (`SkipList.LevelChains`), not `height == |front|`.

## Model

| member | source | states |
|---|---|---|
| SkipLists.NewNode | src/SkipList.java:373-380 | a node has the given key and value and a tower of `n` null links |
| SkipLists.SkipList.constructor | src/SkipList.java:64-72 | the new list is valid and empty, with `size` 0, `height` 16 and 16 null front slots |
| SkipLists.SkipList.LevelChains | src/SkipList.java:32-50 | following level `j` from `front[j]` meets exactly the entries whose tower is taller than `j`, in key order; level 0 meets all `size` entries; every level is strictly sorted and a subsequence of the level below; front slots at and above `height` are null |
| SkipLists.FollowLevel | src/SkipList.java:101-103 | on a linked level, the links from any position onward lead through exactly the entries from there on whose towers reach that level |
| SkipLists.SkipList.SetNext | src/SkipList.java:142-143 | `update[i].next.set(i, …)` writes the node's link, or `front` when the predecessor is the head, and nothing else |
| SkipLists.SkipList.Advance | src/SkipList.java:101-103 | one level of the walk stops on that level's predecessor of the first key not below `k`, never moving backwards |
| SkipLists.SkipList.Walk | src/SkipList.java:100-107 | for every level below `height`, the walk records the last node on that level before the insertion point of `k`; its level-0 successor is the first entry whose key is not below `k` |
| SkipLists.SkipList.Allocate | src/SkipList.java:118 | a fresh node with a null tower of height `h` joins the arena without changing the map |
| SkipLists.SkipList.Grow | src/SkipList.java:121-137 | raising the height to `h` appends `h - height` null front slots and keeps the list valid |
| SkipLists.SkipList.LinkLevel | src/SkipList.java:142-143 | splicing on one level makes that level linked along the chain with the new node inserted, leaving other levels alone |
| SkipLists.SkipList.LinkTower | src/SkipList.java:139-144 | after the splice loop every level is linked along the chain with the new node at its rank |
| SkipLists.SkipList.SpliceIn | src/SkipList.java:139-146 | the entries gain the new node at its rank and `size` grows by one |
| SkipLists.SkipList.Replace | src/SkipList.java:110-113 | updating a present key replaces that entry's value and changes no link, `size`, `height` or `front` |
| SkipLists.SkipList.InsertAbsent | src/SkipList.java:116-147 | inserting an absent key gives `Put` of the entries, `size + 1`, height `max(height, h)`, and front grown by `h - height` when `h > height` |
| SkipLists.SkipList.Set | src/SkipList.java:85-148 | null key: `NullKey` and no change; otherwise the previous value (None when absent), entries become `Put`, `get` then finds the new value; a present key leaves structure, size and height unchanged; an absent key adds one entry |
| SkipLists.SkipList.Get | src/SkipList.java:150-171 | null key: `NullKey`; a present key gives its value; an absent key gives `KeyNotFound` |
| SkipLists.SkipList.ContainsKey | src/SkipList.java:177-184 | true exactly when the key is non-null and present |
| SkipLists.SkipList.Size | src/SkipList.java:173-175 | `size` is the number of entries |
| SkipLists.SkipList.UnlinkLevel | src/SkipList.java:211 | redirecting one predecessor past the node makes that level linked along the chain without it |
| SkipLists.SkipList.UnlinkTower | src/SkipList.java:207-212 | the unlinking loop, stopping at the first level whose predecessor does not point at the node, unlinks it from every level of its tower |
| SkipLists.SkipList.Trim | src/SkipList.java:214-216 | the height drops to the tallest remaining tower (0 when empty), and nothing else changes |
| SkipLists.SkipList.RemoveAt | src/SkipList.java:206-219 | the node's entry is cut out of the map, `size` drops by one, `front` keeps its length |
| SkipLists.SkipList.Remove | src/SkipList.java:186-223 | null key: `NullKey`, no change; otherwise the removed value (None when absent), entries become `Delete`, the key is then absent; an absent key changes nothing |
| SkipLists.SkipList.ForEach | src/SkipList.java:261-270 | the action receives every entry once, in ascending key order |
| SkipLists.SkipList.Nodes | src/SkipList.java:312-318 | a new node iterator stands before the first entry |
| SkipLists.SkipList.Keys | src/SkipList.java:225-227 | a new key iterator stands before the first entry |
| SkipLists.SkipList.Values | src/SkipList.java:243-245 | a new value iterator stands before the first entry |
| SkipLists.NodeIterator.constructor | src/SkipList.java:318 | the cursor starts at `front[0]`, the first entry |
| SkipLists.NodeIterator.HasNext | src/SkipList.java:320-322 | true exactly when entries remain |
| SkipLists.NodeIterator.Next | src/SkipList.java:324-331 | hands out the next node of level 0 and advances, or `IllegalState` past the end |
| SkipLists.KeyIterator.HasNext | src/SkipList.java:229-231 | true exactly when keys remain |
| SkipLists.KeyIterator.Next | src/SkipList.java:233-235 | the keys come out in entry order, hence strictly ascending |
| SkipLists.ValueIterator.HasNext | src/SkipList.java:247-249 | true exactly when values remain |
| SkipLists.ValueIterator.Next | src/SkipList.java:251-253 | the values come out in entry order, lined up with the keys |
| SkipLists.RandomHeight | src/SkipList.java:301-307 | the height is at least 1 and one more than the number of successful tosses before the first failure |
| SortedEntries.Rank | src/SkipList.java:100-107 | the walk's stopping position: every entry before it has a smaller key, the entry at it does not |
| SortedEntries.RankSplit | src/SkipList.java:101 | an entry lies before the rank of `k` exactly when its key is below `k` |
| SortedEntries.FindAtRank | src/SkipList.java:107-110 | in a sorted map, `k` is present exactly when the entry at its rank has key `k` |
| SortedEntries.PutAtRank | src/SkipList.java:109-147 | `Put` overwrites the value at the rank when the key is there, and otherwise inserts a new entry at the rank |
| SortedEntries.DeleteAtRank | src/SkipList.java:204-222 | in a sorted map `Delete` cuts out the entry at the rank when its key is `k`, and otherwise changes nothing |
| SortedEntries.PutSorted | src/SkipList.java:85-148 | `set` keeps the keys strictly increasing |
| SortedEntries.FindPut | src/SkipList.java:85-148 | after `set`, the key finds the new value and every other key finds what it found before |
| SortedEntries.PutSize | src/SkipList.java:146 | `set` adds one entry exactly when the key was absent |
| SortedEntries.DeleteSorted | src/SkipList.java:186-223 | `remove` keeps the keys strictly increasing |
| SortedEntries.FindDelete | src/SkipList.java:186-223 | after `remove`, the key is absent and every other key finds what it found before |
| SortedEntries.DeleteSize | src/SkipList.java:218 | `remove` drops one entry exactly when the key was present |
| SortedEntries.DeleteIdempotent | src/SkipList.java:186-223 | removing a key twice is the same as removing it once |
| SortedEntries.DeleteAbsent | src/SkipList.java:222 | removing an absent key changes nothing |
| SortedEntries.DeletePutRoundTrip | src/SkipList.java:116-147 | inserting an absent key and then removing it restores the map |
| SortedEntries.LevelSubseq | src/SkipList.java:139-144 | every level is a subsequence of the level below |
| SortedEntries.LevelMembers | src/SkipList.java:139-144 | every entry on level `i` is an entry of the map whose tower is taller than `i` |
| SortedEntries.LevelSorted | src/SkipList.java:139-144 | every level of a sorted map is sorted |
| SortedEntries.LevelZero | src/SkipList.java:261-270 | level 0 holds every entry, since every tower has height at least 1 |
| SortedEntries.LevelAbove | src/SkipList.java:214-216 | levels at or above the tallest tower are empty |
| SortedEntries.LevelFromSuffix | src/SkipList.java:101-103 | the entries of a level from a position onward are the level of that suffix |
| SortedEntries.MaxHeight | src/SkipList.java:214-216 | the tallest tower bounds every tower, is reached by one, and is 0 for the empty map |
| SortedEntries.MaxHeightIs | src/SkipList.java:214-216 | a height that bounds every tower and is reached by one (or is 0 when empty) is the tallest |
| Levels.NextIdx | src/SkipList.java:101-103 | the next position at or after `q` whose tower reaches level `j`, with all towers before it lower |
| Levels.NextIdxInsert | src/SkipList.java:139-144 | how every level-`j` successor moves when a tower of height `h` is spliced in |
| Levels.RowSplice | src/SkipList.java:142-143 | new node takes the predecessor's link and the predecessor points at it: the level is linked along the chain with the node inserted |
| Levels.RowUnsplice | src/SkipList.java:211 | predecessor takes over the removed node's link: the level is linked along the chain without it |
| Levels.RowSkip | src/SkipList.java:139-144 | levels above a tower's height are linked with or without that tower in the chain |
| Splices.CutInsert | src/SkipList.java:206-212 | cutting out the node that was spliced in gives back the original chain |
| SkipLists.SpliceLevel | src/SkipList.java:142-143 | the two link writes of one level of `set`, on the arena, keep that level linked with the new node in the chain |
| SkipLists.UnspliceLevel | src/SkipList.java:211 | the link write of one level of `remove`, on the arena, keeps that level linked with the node cut out of the chain |
| SkipLists.PredLinksTo | src/SkipList.java:208 | the level-`i` predecessor points at the node exactly when the node's tower reaches level `i`, so the loop's stopping test finds its height |
| SkipLists.SkipLevel | src/SkipList.java:139-144 | levels the new tower does not reach stay linked once it joins the chain |

## Left out

- The comparator is not modelled: keys are integers in their natural order.
  The default comparator, which compares `toString()` results
  (`src/SkipList.java:77-79`), is left out because it depends on Java's
  `toString`.
- Java `null` values are not modelled: `V` has no null. `set` and `remove`
  return `Option<V>`, where Java returns `null` both for "absent" and for a
  present key whose value is `null`.
- The randomness of `randomHeight` is left out. The static `Random`, the
  `double` probability `prob = 0.5` and `nextDouble()` are not modelled;
  `RandomHeight` takes the outcomes of the tosses as a sequence of booleans.
  `Set` takes the tower height `h >= 1` as a parameter rather than calling
  `RandomHeight`, since a method cannot draw random numbers.
- `dump` and `SLNode.printNext` are console output and are not modelled.
- The iterators' `remove()` is not modelled. It delegates to the node
  iterator, which does not override it, so it always throws Java's
  `UnsupportedOperationException`.
- The `SimpleMap` interface is not part of this model.
- `size` and `height` are Java `int`s; the model uses unbounded naturals, so
  32-bit overflow is not modelled.
- Removed nodes stay in the arena, so garbage collection of unlinked nodes is
  not modelled. They are unreachable: no link of a valid list points to them.
- Iterators: the model does not cover an iterator used after the list is
  modified, because the list's methods do not preserve `NodeIterator.Valid()`.
  `NodeIterator.Next` returns the node's arena index where Java returns the
  node object.
- SkipLists.SkipList.ForEach: models the action as the sequence of
  `(key, value)` calls it receives, so an action with side effects on the list
  is not modelled.
- SkipLists.SkipList.Get: reuses the walk of `set`/`remove`, which also
  records the `update` vector that Java's `get` does not build. The result is
  the same.
