/**
 * The value-level meaning of a `HashAVLSpellTable`: a catalog holding, per
 * bucket, the states of that bucket's category trees in list order. The
 * functions say what `addSpell` and the three queries compute on it; the
 * lemmas say what they mean: categories stay filed in the bucket their hash
 * selects, one tree each; the spell counter is the sum of the tree sizes;
 * and a query answers from the one tree of its category.
 */
module SpellTableSpec {
  import opened Spells
  import opened AvlSpec

  /** `hash(category)`: sum of the character codes modulo the number of buckets. */
  function CategoryHash(category: string, tableSize: int): (h: int)
    requires tableSize > 0
    ensures 0 <= h < tableSize
  {
    CharSum(category) % tableSize
  }

  /**
   * Position of the first tree of `category` in a bucket, scanning from the
   * front as every loop over `buckets[index]` does.
   */
  function Locate(b: seq<AvlState>, category: string): (r: Option<nat>)
    ensures r.Some? ==> r.value < |b| && b[r.value].category == category
    ensures r.Some? ==> forall j | 0 <= j < r.value :: b[j].category != category
    ensures r.None? <==> forall j | 0 <= j < |b| :: b[j].category != category
  {
    if |b| == 0 then None
    else if b[0].category == category then Some(0)
    else
      match Locate(b[1..], category)
      case None => None
      case Some(j) => Some(j + 1)
  }

  ghost predicate HeightsOkAll(b: seq<AvlState>) {
    forall j | 0 <= j < |b| :: HeightsOk(b[j].root)
  }

  /**
   * The bucket after `addSpell(s)`: a new one-spell tree at the end when the
   * bucket has no tree of the category (the empty-bucket path is the case
   * of no trees at all), otherwise `insert` into that tree.
   */
  function AddedTo(b: seq<AvlState>, s: Spell): seq<AvlState>
    requires HeightsOkAll(b)
  {
    match Locate(b, s.category)
    case None => b + [Planted(s)]
    case Some(j) => b[j := Added(b[j], s)]
  }

  /** The catalog after `addSpell(s)`: only bucket `hash(s.category)` changes. */
  function AddSpell(cat: seq<seq<AvlState>>, s: Spell): seq<seq<AvlState>>
    requires |cat| > 0 && HeightsOkAll(cat[CategoryHash(s.category, |cat|)])
  {
    var h := CategoryHash(s.category, |cat|);
    cat[h := AddedTo(cat[h], s)]
  }

  /** The tree of `category`, if any: the first match in its hash bucket. */
  function TreeFor(cat: seq<seq<AvlState>>, category: string): Option<AvlState>
    requires |cat| > 0
  {
    var b := cat[CategoryHash(category, |cat|)];
    match Locate(b, category)
    case None => None
    case Some(j) => Some(b[j])
  }

  /** `searchSpell`: `search` on the category's tree, null without one. */
  function SearchIn(cat: seq<seq<AvlState>>, category: string, name: string, p: int): Option<Spell>
    requires |cat| > 0
  {
    match TreeFor(cat, category)
    case None => None
    case Some(st) => Find(st.root, name, p)
  }

  /** `getNumberSpells(category)`: the tree's `getSize()`, 0 without one. */
  function CountIn(cat: seq<seq<AvlState>>, category: string): int
    requires |cat| > 0
  {
    match TreeFor(cat, category)
    case None => 0
    case Some(st) => st.size
  }

  /** What `getTopK(category, k)` needs so that the tree's `getTopK` stays in bounds. */
  ghost predicate TopKSafe(cat: seq<seq<AvlState>>, category: string, k: int)
    requires |cat| > 0
  {
    match TreeFor(cat, category)
    case None => true
    case Some(st) => Min(k, st.size) <= |Descending(st.root)|
  }

  /** `getTopK(category, k)`: the tree's top `k`, null (not an empty list) without one. */
  function TopKIn(cat: seq<seq<AvlState>>, category: string, k: int): Option<seq<Spell>>
    requires |cat| > 0 && TopKSafe(cat, category, k)
  {
    match TreeFor(cat, category)
    case None => None
    case Some(st) => Some(TopK(st, k))
  }

  /** Sum of the `size` counters of a bucket's trees. */
  function BucketTotal(b: seq<AvlState>): int {
    if b == [] then 0 else BucketTotal(b[..|b| - 1]) + b[|b| - 1].size
  }

  /** Sum of the `size` counters of all trees: what `numSpells` must equal. */
  function Total(cat: seq<seq<AvlState>>): int {
    if cat == [] then 0 else Total(cat[..|cat| - 1]) + BucketTotal(cat[|cat| - 1])
  }

  /** Every spell a tree stores belongs to the tree's category. */
  ghost predicate Filed(st: AvlState) {
    forall x | x in Descending(st.root) :: x.category == st.category
  }

  /** Bucket `i` of `n`: sound trees, each filed under its hash, one per category. */
  ghost predicate BucketOk(b: seq<AvlState>, i: int, n: int) {
    && n > 0
    && (forall j | 0 <= j < |b| ::
          TreeInvariant(b[j]) && Filed(b[j]) && CategoryHash(b[j].category, n) == i)
    && (forall j, k | 0 <= j < k < |b| :: b[j].category != b[k].category)
  }

  /** The invariant every `HashAVLSpellTable` keeps. */
  ghost predicate WellFormed(cat: seq<seq<AvlState>>) {
    forall i | 0 <= i < |cat| :: BucketOk(cat[i], i, |cat|)
  }

  /** A spell stored in some tree of the catalog. */
  ghost predicate Stored(cat: seq<seq<AvlState>>, x: Spell) {
    exists i, j | 0 <= i < |cat| && 0 <= j < |cat[i]| :: x in Descending(cat[i][j].root)
  }

  // ---------------------------------------------------------------------
  // The spell counter

  lemma BucketTotalAppend(b: seq<AvlState>, st: AvlState)
    ensures BucketTotal(b + [st]) == BucketTotal(b) + st.size
  {
    assert (b + [st])[..|b|] == b;
  }

  lemma {:induction false} BucketTotalUpdate(b: seq<AvlState>, j: int, st: AvlState)
    requires 0 <= j < |b|
    ensures BucketTotal(b[j := st]) == BucketTotal(b) - b[j].size + st.size
    decreases |b|
  {
    var last := |b| - 1;
    if j < last {
      BucketTotalUpdate(b[..last], j, st);
      assert b[j := st][..last] == b[..last][j := st];
    } else {
      assert b[j := st][..last] == b[..last];
    }
  }

  lemma {:induction false} TotalUpdate(cat: seq<seq<AvlState>>, h: int, b: seq<AvlState>)
    requires 0 <= h < |cat|
    ensures Total(cat[h := b]) == Total(cat) - BucketTotal(cat[h]) + BucketTotal(b)
    decreases |cat|
  {
    var last := |cat| - 1;
    if h < last {
      TotalUpdate(cat[..last], h, b);
      assert cat[h := b][..last] == cat[..last][h := b];
    } else {
      assert cat[h := b][..last] == cat[..last];
    }
  }

  /** `addSpell` grows `numSpells` and the sum of tree sizes alike, by exactly one. */
  lemma AddSpellTotal(cat: seq<seq<AvlState>>, s: Spell)
    requires |cat| > 0 && HeightsOkAll(cat[CategoryHash(s.category, |cat|)])
    ensures Total(AddSpell(cat, s)) == Total(cat) + 1
  {
    var h := CategoryHash(s.category, |cat|);
    var b := cat[h];
    var b' := AddedTo(b, s);
    assert BucketTotal(b') == BucketTotal(b) + 1 by {
      match Locate(b, s.category)
      case None =>
        BucketTotalAppend(b, Planted(s));
      case Some(j) =>
        BucketTotalUpdate(b, j, Added(b[j], s));
    }
    TotalUpdate(cat, h, b');
  }

  // ---------------------------------------------------------------------
  // Filing

  lemma WellFormedHeights(cat: seq<seq<AvlState>>, i: int)
    requires WellFormed(cat) && 0 <= i < |cat|
    ensures HeightsOkAll(cat[i])
  {
    assert BucketOk(cat[i], i, |cat|);
  }

  /** Adding a spell to a sound tree of its own category keeps the tree filed. */
  lemma AddedFiled(st: AvlState, s: Spell)
    requires TreeInvariant(st) && Filed(st) && s.category == st.category
    ensures TreeInvariant(Added(st, s)) && Filed(Added(st, s))
    ensures Added(st, s).category == st.category
  {
    AddedKeepsInvariant(st, s);
    InsertedContent(st.root, s);
    forall x | x in Descending(Added(st, s).root)
      ensures x.category == st.category
    {
      assert x in multiset(Descending(Added(st, s).root));
    }
  }

  /**
   * `addSpell` keeps every category in the bucket of its hash with one tree
   * per category, every tree sound and filed; it changes no other bucket.
   */
  lemma AddSpellWellFormed(cat: seq<seq<AvlState>>, s: Spell)
    requires |cat| > 0 && WellFormed(cat)
    ensures HeightsOkAll(cat[CategoryHash(s.category, |cat|)])
    ensures WellFormed(AddSpell(cat, s))
    ensures forall i | 0 <= i < |cat| && i != CategoryHash(s.category, |cat|) ::
              AddSpell(cat, s)[i] == cat[i]
  {
    var h := CategoryHash(s.category, |cat|);
    WellFormedHeights(cat, h);
    var b := cat[h];
    assert BucketOk(b, h, |cat|);
    var b' := AddedTo(b, s);
    match Locate(b, s.category)
    case None =>
      assert b' == b + [Planted(s)];
      assert Descending(Planted(s).root) == [s];
      assert BucketOk(b', h, |cat|);
    case Some(j) =>
      AddedFiled(b[j], s);
      assert BucketOk(b', h, |cat|);
    var cat' := AddSpell(cat, s);
    forall i | 0 <= i < |cat'|
      ensures BucketOk(cat'[i], i, |cat'|)
    {
      if i != h {
        assert BucketOk(cat[i], i, |cat|);
      }
    }
  }

  /**
   * With a tree of the category at position `i` of its bucket, `addSpell`
   * inserts into that tree and adds no tree.
   */
  lemma AddSpellInserts(cat: seq<seq<AvlState>>, s: Spell, i: int)
    requires |cat| > 0 && WellFormed(cat)
    requires var h := CategoryHash(s.category, |cat|);
             0 <= i < |cat[h]| && cat[h][i].category == s.category
    ensures var h := CategoryHash(s.category, |cat|);
            && TreeInvariant(cat[h][i])
            && HeightsOkAll(cat[h])
            && AddSpell(cat, s) == cat[h := cat[h][i := Added(cat[h][i], s)]]
  {
    var h := CategoryHash(s.category, |cat|);
    WellFormedHeights(cat, h);
    assert BucketOk(cat[h], h, |cat|);
    assert Locate(cat[h], s.category) == Some(i);
  }

  /** Without a tree of the category in its bucket, `addSpell` appends a new tree holding only `s`. */
  lemma AddSpellPlants(cat: seq<seq<AvlState>>, s: Spell)
    requires |cat| > 0 && WellFormed(cat)
    requires var h := CategoryHash(s.category, |cat|);
             forall j | 0 <= j < |cat[h]| :: cat[h][j].category != s.category
    ensures var h := CategoryHash(s.category, |cat|);
            && HeightsOkAll(cat[h])
            && AddSpell(cat, s) == cat[h := cat[h] + [Planted(s)]]
  {
    WellFormedHeights(cat, CategoryHash(s.category, |cat|));
  }

  // ---------------------------------------------------------------------
  // Queries

  /**
   * A category has a tree somewhere in the catalog exactly when `TreeFor`
   * finds one, and then `TreeFor` returns it: the hash bucket is the only
   * place a tree of the category can be.
   */
  lemma TreeForExact(cat: seq<seq<AvlState>>, category: string)
    requires |cat| > 0 && WellFormed(cat)
    ensures forall i, j | 0 <= i < |cat| && 0 <= j < |cat[i]| && cat[i][j].category == category ::
              TreeFor(cat, category) == Some(cat[i][j])
    ensures TreeFor(cat, category).Some? ==>
              exists i, j | 0 <= i < |cat| && 0 <= j < |cat[i]| ::
                cat[i][j] == TreeFor(cat, category).value && cat[i][j].category == category
  {
    var h := CategoryHash(category, |cat|);
    forall i, j | 0 <= i < |cat| && 0 <= j < |cat[i]| && cat[i][j].category == category
      ensures TreeFor(cat, category) == Some(cat[i][j])
    {
      assert BucketOk(cat[i], i, |cat|);
      assert i == h;
    }
    if TreeFor(cat, category).Some? {
      var j := Locate(cat[h], category).value;
      assert cat[h][j] == TreeFor(cat, category).value;
    }
  }

  /**
   * `searchSpell(c, n, p)` answers a spell exactly when the catalog stores
   * one of category `c`, name `n` and power level `p`, and then answers it.
   */
  lemma SearchInExact(cat: seq<seq<AvlState>>, category: string, name: string, p: int)
    requires |cat| > 0 && WellFormed(cat)
    ensures SearchIn(cat, category, name, p).Some? ==>
              var x := SearchIn(cat, category, name, p).value;
              Stored(cat, x) && x.category == category && x.name == name && x.powerLevel == p
    ensures forall x | Stored(cat, x) && x.category == category && x.name == name && x.powerLevel == p ::
              SearchIn(cat, category, name, p) == Some(x)
  {
    TreeForExact(cat, category);
    var h := CategoryHash(category, |cat|);
    if SearchIn(cat, category, name, p).Some? {
      var j := Locate(cat[h], category).value;
      assert BucketOk(cat[h], h, |cat|);
      FindSound(cat[h][j].root, name, p);
    }
    forall x | Stored(cat, x) && x.category == category && x.name == name && x.powerLevel == p
      ensures SearchIn(cat, category, name, p) == Some(x)
    {
      var i, j :| 0 <= i < |cat| && 0 <= j < |cat[i]| && x in Descending(cat[i][j].root);
      assert BucketOk(cat[i], i, |cat|);
      FindComplete(cat[i][j].root, x);
    }
  }

  /** A category without a tree gets the sentinels: null, 0 and null. */
  lemma MissingCategory(cat: seq<seq<AvlState>>, category: string, name: string, p: int, k: int)
    requires |cat| > 0 && WellFormed(cat)
    requires forall i, j | 0 <= i < |cat| && 0 <= j < |cat[i]| :: cat[i][j].category != category
    ensures TopKSafe(cat, category, k)
    ensures SearchIn(cat, category, name, p).None?
    ensures CountIn(cat, category) == 0
    ensures TopKIn(cat, category, k).None?
  {
    var h := CategoryHash(category, |cat|);
    assert Locate(cat[h], category).None?;
  }
}
