/**
 * `HashAVLSpellTable`: an array of buckets, each a list of `AVLTree`
 * objects, and the `numSpells` counter. The ghost field `Catalog` holds the
 * states of the trees bucket by bucket; every method is proved to act on it
 * as the functions of module SpellTableSpec say.
 */
module SpellTables {
  import opened Spells
  import opened AvlSpec
  import opened AvlTrees
  import opened SpellTableSpec

  class HashAVLSpellTable {
    var buckets: array<seq<AVLTree>>
    var tableSize: int
    var numSpells: int
    /** The state of tree `j` of bucket `i` is `Catalog[i][j]`. */
    ghost var Catalog: seq<seq<AvlState>>
    /** Where each tree sits; keeps two positions from sharing one tree object. */
    ghost var Slot: map<AVLTree, (int, int)>
    ghost var Repr: set<object>

    /** The object invariant: the trees mirror `Catalog`, which is well formed and sums to `numSpells`. */
    ghost predicate Valid()
      reads this, Repr
    {
      && Linked()
      && numSpells == Total(Catalog)
      && WellFormed(Catalog)
    }

    /** Tree `j` of bucket `i` is an object of its own whose state is `Catalog[i][j]`. */
    ghost predicate Linked()
      reads this`buckets, this`tableSize, this`Catalog, this`Slot, this`Repr, Repr - {this}
    {
      && this in Repr
      && buckets in Repr
      && buckets.Length == tableSize == |Catalog|
      && (forall i | 0 <= i < buckets.Length :: |buckets[i]| == |Catalog[i]|)
      && (forall i, j | 0 <= i < buckets.Length && 0 <= j < |buckets[i]| ::
            buckets[i][j] in Repr && buckets[i][j] in Slot && Slot[buckets[i][j]] == (i, j))
      && (forall i, j | 0 <= i < buckets.Length && 0 <= j < |buckets[i]| ::
            buckets[i][j].View() == Catalog[i][j])
    }

    /** `new HashAVLSpellTable(size)`: `size` empty buckets and no spells. */
    constructor (size: int)
      requires size >= 0
      ensures Valid() && fresh(Repr)
      ensures tableSize == size && numSpells == 0
      ensures |Catalog| == size && forall i | 0 <= i < size :: Catalog[i] == []
    {
      tableSize := size;
      var b := new seq<AVLTree>[size];
      for i := 0 to size
        invariant forall j | 0 <= j < i :: b[j] == []
      {
        b[i] := [];
      }
      buckets := b;
      numSpells := 0;
      Catalog := seq(size, _ => []);
      Slot := map[];
      Repr := {this, b};
      new;
      assert Total(Catalog) == 0 by {
        ZeroTotal(Catalog);
      }
    }

    /** `hash(category)`: the accumulator loop, then `% tableSize`. */
    method Hash(category: string) returns (h: int)
      requires tableSize > 0
      ensures h == CategoryHash(category, tableSize) && 0 <= h < tableSize
    {
      var hash := 0;
      var i := 0;
      while i < |category|
        invariant 0 <= i <= |category|
        invariant hash == CharSum(category[..i])
      {
        assert category[..i + 1][..i] == category[..i];
        hash := hash + category[i] as int;
        i := i + 1;
      }
      assert category[..|category|] == category;
      h := hash % tableSize;
    }

    /**
     * `addSpell(s)`: an empty bucket gets a new tree; otherwise the first
     * tree of the category takes an `insert`; otherwise a new tree goes at
     * the end of the bucket. Each of the three paths adds one to `numSpells`.
     */
    method AddSpell(s: Spell)
      requires Valid() && tableSize > 0
      modifies Repr
      ensures Valid() && fresh(Repr - old(Repr))
      ensures Catalog == SpellTableSpec.AddSpell(old(Catalog), s)
      ensures numSpells == old(numSpells) + 1 && tableSize == old(tableSize)
    {
      var index := Hash(s.category);
      var pos: Option<nat> := None;
      if |buckets[index]| != 0 {
        pos := IndexOf(index, s.category);
      }
      if pos.Some? {
        InsertInto(index, pos.value, s);
      } else {
        PlantTree(index, s);
      }
    }

    /**
     * The scan every operation makes of bucket `index` for the tree whose
     * `getCategory()` equals `category`: its position, or none.
     */
    method IndexOf(index: int, category: string) returns (pos: Option<nat>)
      requires Linked() && 0 <= index < tableSize
      ensures pos == Locate(Catalog[index], category)
    {
      var i := 0;
      while i < |buckets[index]|
        invariant 0 <= i <= |buckets[index]|
        invariant forall j | 0 <= j < i :: Catalog[index][j].category != category
      {
        if buckets[index][i].GetCategory() == category {
          return Some(i);
        }
        i := i + 1;
      }
      return None;
    }

    /**
     * Lines `new AVLTree(s)`, `buckets[index].add(..)`, `numSpells++` of
     * `addSpell`, taken when bucket `index` has no tree of the category.
     */
    method PlantTree(index: int, s: Spell)
      requires Valid() && tableSize > 0 && index == CategoryHash(s.category, tableSize)
      requires forall j | 0 <= j < |Catalog[index]| :: Catalog[index][j].category != s.category
      modifies this, buckets
      ensures Valid() && fresh(Repr - old(Repr))
      ensures Catalog == SpellTableSpec.AddSpell(old(Catalog), s)
      ensures numSpells == old(numSpells) + 1 && tableSize == old(tableSize)
    {
      ghost var cat' := SpellTableSpec.AddSpell(Catalog, s);
      assert && WellFormed(cat') && Total(cat') == numSpells + 1
             && cat' == Catalog[index := Catalog[index] + [Planted(s)]] by {
        AddSpellWellFormed(Catalog, s);
        AddSpellTotal(Catalog, s);
        AddSpellPlants(Catalog, s);
      }
      var t := new AVLTree(s);
      Append(index, t);
      numSpells := numSpells + 1;
    }

    /**
     * Lines `buckets[index].get(i).insert(s)`, `numSpells++` of `addSpell`,
     * taken when tree `i` is the first of the category in bucket `index`.
     */
    method InsertInto(index: int, i: int, s: Spell)
      requires Valid() && tableSize > 0 && index == CategoryHash(s.category, tableSize)
      requires 0 <= i < |Catalog[index]| && Catalog[index][i].category == s.category
      modifies this, buckets[index][i]
      ensures Valid() && Repr == old(Repr)
      ensures Catalog == SpellTableSpec.AddSpell(old(Catalog), s)
      ensures numSpells == old(numSpells) + 1 && tableSize == old(tableSize)
    {
      ghost var cat' := SpellTableSpec.AddSpell(Catalog, s);
      assert && WellFormed(cat') && Total(cat') == numSpells + 1 && TreeInvariant(Catalog[index][i])
             && cat' == Catalog[index := Catalog[index][i := Added(Catalog[index][i], s)]] by {
        AddSpellWellFormed(Catalog, s);
        AddSpellTotal(Catalog, s);
        AddSpellInserts(Catalog, s, i);
      }
      InsertAt(index, i, s);
      numSpells := numSpells + 1;
    }

    /** `buckets[index].add(t)` for a new tree, with the ghost bookkeeping. */
    method Append(index: int, t: AVLTree)
      requires Linked() && 0 <= index < tableSize
      requires t !in Repr
      modifies this, buckets
      ensures Linked() && Repr == old(Repr) + {t}
      ensures buckets == old(buckets) && numSpells == old(numSpells) && tableSize == old(tableSize)
      ensures Catalog == old(Catalog)[index := old(Catalog)[index] + [t.View()]]
    {
      var n := |buckets[index]|;
      buckets[index] := buckets[index] + [t];
      Catalog := Catalog[index := Catalog[index] + [t.View()]];
      Slot := Slot[t := (index, n)];
      Repr := Repr + {t};
    }

    /** `buckets[index].get(i).insert(s)`, with the ghost bookkeeping. */
    method InsertAt(index: int, i: int, s: Spell)
      requires Linked() && 0 <= index < tableSize && 0 <= i < |buckets[index]|
      requires TreeInvariant(Catalog[index][i])
      modifies this, buckets[index][i]
      ensures Linked() && Repr == old(Repr)
      ensures buckets == old(buckets) && numSpells == old(numSpells) && tableSize == old(tableSize)
      ensures Catalog == old(Catalog)[index := old(Catalog)[index][i := Added(old(Catalog)[index][i], s)]]
    {
      var t := buckets[index][i];
      assert t.View() == Catalog[index][i];
      t.Insert(s);
      Catalog := Catalog[index := Catalog[index][i := t.View()]];
    }

    /**
     * `searchSpell(category, spellName, powerLevel)`: `search` in the first
     * tree of the category in its bucket, null when there is none; so the
     * answer is a stored spell of that category, name and power level
     * exactly when there is one.
     */
    method SearchSpell(category: string, spellName: string, powerLevel: int) returns (r: Option<Spell>)
      requires Valid() && tableSize > 0
      ensures r == SearchIn(Catalog, category, spellName, powerLevel)
      ensures r.Some? ==> Stored(Catalog, r.value) && r.value.category == category &&
                          r.value.name == spellName && r.value.powerLevel == powerLevel
      ensures r.None? ==> forall x | Stored(Catalog, x) ::
                            !(x.category == category && x.name == spellName && x.powerLevel == powerLevel)
    {
      SearchInExact(Catalog, category, spellName, powerLevel);
      var index := Hash(category);
      var pos := IndexOf(index, category);
      if pos.None? {
        return None;
      }
      assert BucketOk(Catalog[index], index, |Catalog|);
      r := buckets[index][pos.value].Search(spellName, powerLevel);
    }

    /** `getNumberSpells()`: the counter, always the sum of the trees' sizes. */
    function GetNumberSpells(): (n: int)
      reads this, Repr
      requires Valid()
      ensures n == Total(Catalog)
    {
      numSpells
    }

    /** `getNumberSpells(category)`: `getSize()` of the category's tree, 0 without one. */
    method GetNumberSpellsOf(category: string) returns (n: int)
      requires Valid() && tableSize > 0
      ensures n == CountIn(Catalog, category)
      ensures TreeFor(Catalog, category).Some? ==> n >= 1
    {
      var index := Hash(category);
      var pos := IndexOf(index, category);
      if pos.None? {
        return 0;
      }
      assert BucketOk(Catalog[index], index, |Catalog|);
      n := buckets[index][pos.value].GetSize();
    }

    /** `getTopK(category, k)`: the tree's `getTopK(k)`, null without a tree. */
    method GetTopK(category: string, k: int) returns (r: Option<seq<Spell>>)
      requires Valid() && tableSize > 0
      requires TopKSafe(Catalog, category, k)
      ensures r == TopKIn(Catalog, category, k)
      ensures r.Some? ==> StrictlyDescending(r.value) &&
                          forall x | x in r.value :: Stored(Catalog, x) && x.category == category
    {
      var index := Hash(category);
      var pos := IndexOf(index, category);
      if pos.None? {
        return None;
      }
      var i := pos.value;
      assert BucketOk(Catalog[index], index, |Catalog|);
      var top := buckets[index][i].GetTopK(k);
      forall x | x in top
        ensures Stored(Catalog, x) && x.category == category
      {
        assert x in Descending(Catalog[index][i].root);
      }
      return Some(top);
    }
  }

  lemma {:induction false} ZeroTotal(cat: seq<seq<AvlState>>)
    requires forall i | 0 <= i < |cat| :: cat[i] == []
    ensures Total(cat) == 0
    decreases |cat|
  {
    if cat != [] {
      ZeroTotal(cat[..|cat| - 1]);
    }
  }
}
