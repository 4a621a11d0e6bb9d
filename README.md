# magicsCollection in Dafny

A model of the three data structures of the magicsCollection Java
repository, with proofs of what they do:

- `AVLTree` holds the spells of one category. It is a binary search tree
  keyed on `powerLevel`, rebalanced by single and double rotations. It
  supports lookup by name and power level, and the top-k spells in
  decreasing power.
- `HashAVLSpellTable` is an array of buckets. Each bucket is a list of
  `AVLTree`s, at most one per category. A category goes to bucket
  (sum of its character codes) mod `tableSize`. A `numSpells` counter
  counts every `addSpell`.
- `DoubleHashTable` maps a spell name to its cast words. It uses open
  addressing with double hashing over a fixed array of `SpellSimple` slots,
  and keeps a `steps` counter of probes.

Each of the three structures is a Dafny class with the same fields and
public methods, with two exceptions. The overloaded `getNumberSpells(String)`
of `HashAVLSpellTable` is renamed `GetNumberSpellsOf`. The public
`rebalance` of `AVLTree`, which takes and returns the private `Node`, is the
function `AvlSpec.Rebalanced`. The private `insertNode`, the rotations,
`getHeight` and `getBalance`, the package-private `updateNodeHeight` and
the `Node` objects themselves are likewise functions over the value
`AvlSpec.Tree`, and `HashAVLSpellTable` has private helper methods for the
bucket scan and the two branches of `addSpell`. The records `Spell` and
`SpellSimple` are datatypes. Every method is proved against a pure
specification function of the old state.
Lemmas then say what those functions mean.

| file | module | contents |
|---|---|---|
| `spells.dfy` | `Spells` | `Spell`, `SpellSimple`, `Option`, the character sum every hash uses |
| `avl_spec.dfy` | `AvlSpec` | the tree as a value; `insertNode`, `rebalance`, the rotations, `search` and `getTopK` as functions; their lemmas |
| `avl_tree.dfy` | `AvlTrees` | class `AVLTree` |
| `spell_table_spec.dfy` | `SpellTableSpec` | the table's buckets as a sequence of tree states; `addSpell` and the queries as functions; their lemmas |
| `spell_table.dfy` | `SpellTables` | class `HashAVLSpellTable` |
| `double_hash_spec.dfy` | `DoubleHashSpec` | the slots as a sequence; hashes, probes, what `put` and `getCastWords` decide; the prime-capacity lemmas |
| `double_hash_table.dfy` | `DoubleHashing` | class `DoubleHashTable` |

The quirks of the Java are modelled as written:

- An insert whose power level equals one already on the descent path is
  dropped, yet `size` still grows. So `size` is at least the number of
  stored spells, not equal to it.
- A rotation refreshes the new top's height while its new child still holds
  its stale height. So cached heights may be larger than the true ones.
  `AvlSpec.StaleRotationHeight` shows the case of power levels 1, 2, 3: the
  cached height is 3 but the true height is 1. The invariant kept is
  therefore "a cached height is at least one more than its children's".
  AVL balance is not claimed.
- `put` compares the new name only with the occupant of slot `h1`, and only
  after it has met an occupied probe slot.
- `getCastWords` dereferences `h1` and each probed slot with no null check.
  The requires `LookUpSafe` states when it does not throw.
- `HashAVLSpellTable.getTopK` returns null, here `None`, for a category with
  no tree.
- In `rebalance` (src/AVLTree.java:151 and 160) a single rotation is chosen
  only when the outer grandchild is strictly taller than the inner one. An
  equal height leads to the double rotation.
- `steps` is not always the step count of the last operation: a `put` that
  places at `h1` and a `getCastWords` that hits at `h1` return before `steps`
  is assigned, so it keeps its earlier value (src/DoubleHashTable.java:34-37
  and 70-71). `StepsAfterPut` and `StepsAfterLookUp` state this.

The model follows the code where the code and its documentation differ:

- `getHeight` of an absent node is -1 (src/AVLTree.java:216-220). The
  comment at src/AVLTree.java:214 says 0.
- The class comment (src/AVLTree.java:4-7) calls the tree self-balancing
  and says it maintains the height balance. Because of the stale heights
  above, the code does not keep the AVL balance condition:
  `AvlSpec.BalanceLost` shows that inserting power levels 1 to 6 in order
  leaves a node whose subtrees differ in true height by 2.

## Model

| member | source | states |
|---|---|---|
| Spells.CharSum | src/HashAVLSpellTable.java:34-37 | the sum of the character codes is never negative, so every hash remainder is a valid index |
| AvlSpec.RotatedRight | src/AVLTree.java:240-251 | `rightRotate` lifts the left child and keeps the in-order sequence of spells |
| AvlSpec.RotatedLeft | src/AVLTree.java:259-270 | `leftRotate` lifts the right child and keeps the in-order sequence of spells |
| AvlSpec.Rebalanced | src/AVLTree.java:147-169 | `rebalance` never follows an absent child, keeps the spells in order and keeps cached heights at least one above the children's |
| AvlSpec.RightHeavyFixed | src/AVLTree.java:150-156 | the `balance > 1` branch finds the right child and, for the double rotation, its left child present; it keeps the order and the height invariant |
| AvlSpec.LeftHeavyFixed | src/AVLTree.java:159-165 | the `balance < -1` branch finds the left child and, for the double rotation, its right child present; it keeps the order and the height invariant |
| AvlSpec.Inserted | src/AVLTree.java:128-139 | `insertNode` yields a node and keeps the height invariant at every node |
| AvlSpec.Planted | src/AVLTree.java:45-49 | the new tree is one node of height 0, size 1, with the spell's category, and satisfies the tree invariant |
| AvlSpec.Height | src/AVLTree.java:216-220 | a present node reports its cached height; an absent node reports -1, which is the true height of an empty subtree |
| AvlSpec.Balance | src/AVLTree.java:228-232 | 0 for an absent node; under the height invariant a positive balance means a right child is present and a negative one a left child |
| AvlSpec.Refreshed | src/AVLTree.java:175-177 | `updateNodeHeight` changes only the cached height and not the traversal; the node then meets the height invariant when its children do, and a height that already met it never grows |
| AvlSpec.HeightAboveTrue | src/AVLTree.java:216-220 | under the kept invariant a cached height is never below the true height, and a node's height is at least 0 |
| AvlSpec.InsertedContent | src/AVLTree.java:128-139 | insertion keeps strict search-tree order on power level and adds the spell exactly when no stored spell has its power level; otherwise the stored spells are unchanged |
| AvlSpec.AddedKeepsInvariant | src/AVLTree.java:116-119 | `insert` keeps the tree invariant, adds exactly one to `size` (also for a dropped spell) and keeps the category |
| AvlSpec.Find | src/AVLTree.java:85-109 | the descent of `search` only ever returns a spell with exactly the requested name and power level |
| AvlSpec.FindSound | src/AVLTree.java:85-109 | a spell returned by `search` is stored and has exactly the requested name and power level |
| AvlSpec.FindComplete | src/AVLTree.java:85-109 | in a search tree, `search` finds every stored spell by its name and power level |
| AvlSpec.TopKIsTop | src/AVLTree.java:185-208 | `getTopK` returns `min(k, size)` spells (none for k <= 0) in strictly decreasing power, each stronger than every stored spell left out |
| AvlSpec.StaleRotationHeight | src/AVLTree.java:259-270 | inserting power levels 1, 2, 3 rotates once and leaves cached root height 3 on a tree of true height 1 |
| AvlSpec.BalanceLost | src/AVLTree.java:128-169 | inserting power levels 1 to 6 in that order, every step rebalancing on the way up, leaves node 3 with an empty right subtree and a left subtree of true height 1: the AVL balance condition fails |
| AvlTrees.AVLTree.constructor | src/AVLTree.java:45-49 | one node holding the spell, height 0, size 1, the spell's category; the invariant holds |
| AvlTrees.AVLTree.GetTreeHeight | src/AVLTree.java:56-58 | the root's cached height, at least 0 and never below the true height |
| AvlTrees.AVLTree.GetSize | src/AVLTree.java:65-67 | `size`, at least the number of stored spells and at least 1 |
| AvlTrees.AVLTree.GetCategory | src/AVLTree.java:74-76 | the category fixed at construction |
| AvlTrees.AVLTree.Search | src/AVLTree.java:85-109 | the cursor loop computes the descent; the answer is the stored spell with that name and power level when there is one, null exactly when there is none |
| AvlTrees.AVLTree.Insert | src/AVLTree.java:116-119 | the new state is `insertNode` from the root with `size + 1`; the invariant is kept; the spell is added exactly when its power level was absent |
| AvlTrees.AVLTree.GetTopK | src/AVLTree.java:185-194 | the copy loop returns the first `min(k, size)` spells of the traversal, strictly descending and stronger than every omitted spell; the tree is not modified |
| AvlTrees.AVLTree.GetTopKSpells | src/AVLTree.java:202-208 | appends the subtree's spells right, node, left to the list passed in |
| SpellTableSpec.CategoryHash | src/HashAVLSpellTable.java:32-39 | the bucket index of a category is in `[0, tableSize)` |
| SpellTableSpec.Locate | src/HashAVLSpellTable.java:54-59 | the scan of a bucket finds the first tree of the category, and finds none exactly when no tree in the bucket has it |
| SpellTableSpec.AddSpellTotal | src/HashAVLSpellTable.java:46-64 | `addSpell` adds exactly one to the sum of all tree sizes |
| SpellTableSpec.AddSpellWellFormed | src/HashAVLSpellTable.java:46-64 | `addSpell` keeps every tree in the bucket its category hashes to, at most one tree per category, every tree valid, and changes no other bucket |
| SpellTableSpec.AddSpellInserts | src/HashAVLSpellTable.java:54-59 | with a tree of the category in its bucket, `addSpell` inserts into that tree and adds no tree |
| SpellTableSpec.AddSpellPlants | src/HashAVLSpellTable.java:48-52 | with no tree of the category in its bucket (an empty bucket included), `addSpell` appends a new tree holding only the spell |
| SpellTableSpec.TreeForExact | src/HashAVLSpellTable.java:74-83 | the tree a query selects is the one tree of that category anywhere in the table |
| SpellTableSpec.SearchInExact | src/HashAVLSpellTable.java:74-83 | `searchSpell` returns a stored spell with that category, name and power level exactly when one is stored |
| SpellTableSpec.MissingCategory | src/HashAVLSpellTable.java:74-125 | for a category with no tree the queries return null, 0 and null |
| SpellTables.HashAVLSpellTable.constructor | src/HashAVLSpellTable.java:19-24 | `size` empty buckets, no spells |
| SpellTables.HashAVLSpellTable.Hash | src/HashAVLSpellTable.java:32-39 | the accumulator loop computes the character sum mod `tableSize` |
| SpellTables.HashAVLSpellTable.AddSpell | src/HashAVLSpellTable.java:46-64 | the buckets become `AddSpell` of the old ones, the invariant (trees mirror the catalog, well formed, `numSpells` is the sum of sizes) is kept and `numSpells` grows by 1 |
| SpellTables.HashAVLSpellTable.IndexOf | src/HashAVLSpellTable.java:54-55 | the scan of a bucket for the category's tree returns the position `Locate` gives: the first match, or none exactly when no tree has the category |
| SpellTables.HashAVLSpellTable.PlantTree | src/HashAVLSpellTable.java:61-63 | the path that appends a new tree: same new state, `numSpells + 1` |
| SpellTables.HashAVLSpellTable.InsertInto | src/HashAVLSpellTable.java:54-59 | the path that inserts into the category's tree: same new state, `numSpells + 1` |
| SpellTables.HashAVLSpellTable.Append | src/HashAVLSpellTable.java:61-62 | `buckets[index].add(t)` appends the new tree's state to that bucket only |
| SpellTables.HashAVLSpellTable.InsertAt | src/HashAVLSpellTable.java:56-57 | `insert` on tree `i` of a bucket changes that tree's state only |
| SpellTables.HashAVLSpellTable.SearchSpell | src/HashAVLSpellTable.java:74-83 | the answer is a stored spell with that category, name and power level when one exists, null exactly when none does |
| SpellTables.HashAVLSpellTable.GetNumberSpells | src/HashAVLSpellTable.java:90-92 | `numSpells` equals the sum of the sizes of all trees |
| SpellTables.HashAVLSpellTable.GetNumberSpellsOf | src/HashAVLSpellTable.java:100-108 | the size of the category's tree (at least 1), 0 when it has none |
| SpellTables.HashAVLSpellTable.GetTopK | src/HashAVLSpellTable.java:117-125 | the tree's `getTopK`, strictly descending stored spells of that category; null without a tree |
| DoubleHashSpec.Hash1Of | src/DoubleHashTable.java:109-114 | `hash1` is in `[0, capacity)` |
| DoubleHashSpec.Hash2Of | src/DoubleHashTable.java:122-127 | `hash2` is in `[1, capacity - 2]` for capacity at least 3, and 1 for capacity 1 |
| DoubleHashSpec.Probe | src/DoubleHashTable.java:41 | every probe index is inside the table |
| DoubleHashSpec.PutFrom | src/DoubleHashTable.java:40-52 | the probe loop places at the first empty probe, rejects only when the `h1` occupant has the name, and is exhausted only when every remaining probe slot is occupied |
| DoubleHashSpec.PlanAt | src/DoubleHashTable.java:31-56 | the same for the whole of `put`, with slot `h1` as probe 0 |
| DoubleHashSpec.LookUpFrom | src/DoubleHashTable.java:74-81 | the lookup loop returns the words of the first probe slot holding the name, after slots holding other names; a miss means every remaining probe held another name |
| DoubleHashSpec.LookUpAt | src/DoubleHashTable.java:65-85 | the same for the whole of `getCastWords`, with slot `h1` as probe 0 |
| DoubleHashSpec.StepsAfterPut | src/DoubleHashTable.java:29-57 | after `put`, a placement at `h1` leaves `steps` at its earlier value, exhaustion sets it to the capacity, and a count within the capacity stays within it |
| DoubleHashSpec.StepsAfterLookUp | src/DoubleHashTable.java:65-85 | after `getCastWords`, a hit at `h1` leaves `steps` at its earlier value, a miss sets it to the capacity, and a count within the capacity stays within it |
| DoubleHashSpec.PutPlacesInEmptySlot | src/DoubleHashTable.java:34-47 | a successful `put` writes the spell into a previously empty slot on its probe path, changes no other slot and adds one occupied slot |
| DoubleHashSpec.PutRefusedKeepsSlots | src/DoubleHashTable.java:50-56 | a failing `put` changes no slot; a rejection means the `h1` occupant has the name |
| DoubleHashSpec.DuplicateAcceptedAtFirstProbe | src/DoubleHashTable.java:40-51 | when the `h1` occupant has the name but the first probe slot is empty, `put` stores the duplicate there |
| DoubleHashSpec.OnlyFirstSlotCompared | src/DoubleHashTable.java:34-51 | when the `h1` occupant has another name, `put` never rejects, whatever the other slots hold |
| DoubleHashSpec.CountFill | src/DoubleHashTable.java:36-46 | filling an empty slot adds exactly one occupied slot, which keeps `size` equal to the count |
| DoubleHashSpec.CountFull | src/DoubleHashTable.java:92-94 | `size == capacity` exactly when no slot is empty |
| DoubleHashSpec.ProbesDistinct | src/DoubleHashTable.java:41 | with a prime capacity the first `capacity` probes of a name are pairwise distinct |
| DoubleHashSpec.ProbesCoverTable | src/DoubleHashTable.java:40-41 | with a prime capacity the probes of a name visit every slot |
| DoubleHashSpec.ExhaustedAtFull | src/DoubleHashTable.java:40-56 | with a prime capacity, running out of probes means every slot is occupied |
| DoubleHashSpec.ExhaustedMeansFull | src/DoubleHashTable.java:27-56 | with a prime capacity a `put` that is not rejected fails only on a full table, `size == capacity` |
| DoubleHashSpec.PutSucceedsWithRoom | src/DoubleHashTable.java:27-56 | with a prime capacity and an empty slot, `put` succeeds unless the `h1` occupant has the name |
| DoubleHashSpec.LookUpHit | src/DoubleHashTable.java:65-81 | a hit returns the words stored under the name in the first probe slot holding it |
| DoubleHashSpec.MissAtFull | src/DoubleHashTable.java:74-84 | with a prime capacity, a miss means every slot holds another name |
| DoubleHashSpec.LookUpMissPrime | src/DoubleHashTable.java:82-84 | with a prime capacity, `getCastWords` returns null only when every slot holds another name |
| DoubleHashSpec.PlacedThenFound | src/DoubleHashTable.java:29-85 | after a placement, when no earlier probe slot holds the name, the lookup of the name is null-safe and finds the new words at the same probe; an earlier slot holding the name (a duplicate `put` let past the `h1` check) would be found first instead |
| DoubleHashSpec.PutThenLookUp | src/DoubleHashTable.java:29-85 | after a successful `put`, `getCastWords` of the name returns its words at the same probe, unless an earlier probe slot already held that name |
| DoubleHashing.DoubleHashTable.constructor | src/DoubleHashTable.java:17-21 | all slots empty, `size` 0, `steps` 0 |
| DoubleHashing.DoubleHashTable.Put | src/DoubleHashTable.java:29-57 | the result, the new slots, `size` and `steps` are those of `PlanPut` on the old slots; `size` stays the number of occupied slots |
| DoubleHashing.DoubleHashTable.Place | src/DoubleHashTable.java:45-46 | writing a spell into an empty slot changes that slot only and keeps `size` equal to the number of occupied slots |
| DoubleHashing.DoubleHashTable.GetCastWords | src/DoubleHashTable.java:65-85 | the result and `steps` are those of `LookUp`; a result is the words of a stored spell of that name; with a prime capacity null means no slot holds the name |
| DoubleHashing.DoubleHashTable.GetSize | src/DoubleHashTable.java:92-94 | the number of occupied slots, at most the capacity |
| DoubleHashing.DoubleHashTable.GetLastSteps | src/DoubleHashTable.java:101 | the `steps` counter, between 0 and the capacity |
| DoubleHashing.DoubleHashTable.Hash1 | src/DoubleHashTable.java:109-114 | the accumulator loop computes `31 * charsum mod capacity` |
| DoubleHashing.DoubleHashTable.Hash2 | src/DoubleHashTable.java:122-127 | the accumulator loop computes `1 + 13 * charsum mod (capacity - 2)` |

## Left out

- The linked `Node` objects of `AVLTree`. The nodes under a tree's root are the value `AvlSpec.Tree`. So `insertNode`, `rebalance`, `updateNodeHeight` and the rotations are the functions `Inserted`, `Rebalanced`, `Refreshed` and `RotatedLeft`/`RotatedRight`, not in-place relinking. The Java never shares a node between trees or positions, so there is no aliasing to capture.
- AvlTrees.AVLTree.GetTreeHeight: does not claim the AVL balance or exact heights of the class comment, because the code does not keep them (see `AvlSpec.StaleRotationHeight` and `AvlSpec.BalanceLost`).
- SpellTables.HashAVLSpellTable.Hash: does not model 32-bit `int` wrap-around of the accumulator. The accumulator is an unbounded `int`, so the hash of a category name long enough to overflow a Java `int` differs from the Java one.
- DoubleHashing.DoubleHashTable.Hash1: does not model 32-bit `int` wrap-around of `hash + c * 31`, for the same reason.
- DoubleHashing.DoubleHashTable.Hash2: does not model 32-bit `int` wrap-around of `hash + c * 13`, for the same reason.
- DoubleHashing.DoubleHashTable.Put: does not model 32-bit wrap-around of the probe index `h1 + i * h2`, which only happens for capacities above about 46340.
- Java `char` is a UTF-16 code unit; here a character is a Dafny `char`, whose code is the same for every character of the Basic Multilingual Plane.
- A capacity or table size that makes the Java throw is a requires. That covers capacity 0 or 2 (division by zero in the hashes), a negative size, and a table size of 0 in the `HashAVLSpellTable` operations.
- The null dereferences of `getCastWords` and the index past the end in `AVLTree.getTopK` are also requires (`LookUpSafe`, `Min(k, size) <= |Descending(root)|`).
- The scan `for (i ...) if (buckets[index].get(i).getCategory().equals(..))` appears in all four `HashAVLSpellTable` operations. Here it is written once, as `IndexOf`, which each of them calls.
- `Spell.toString` and the getters of `Spell` and `SpellSimple`: the records are datatypes and their getters are field accesses.
- `Tester.java`: a console driver that prints results. It holds no logic of the structures.
