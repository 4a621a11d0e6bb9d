/**
 * `AVLTree` as an object: its `root` and `size` fields change in place on
 * every insert, and its queries walk the tree with the loops of the source.
 * The nodes under the root are the `AvlSpec.Tree` value they form, so the
 * relinking done by `insertNode`, `rebalance` and the rotations is the
 * corresponding function of module AvlSpec.
 */
module AvlTrees {
  import opened Spells
  import opened AvlSpec

  /** One category's tree: its root, the `size` counter and the fixed `category`. */
  class AVLTree {
    var root: Tree
    var size: int
    const category: string

    /** The object invariant: see `AvlSpec.TreeInvariant`. */
    ghost predicate Valid()
      reads this
    {
      TreeInvariant(View())
    }

    function View(): AvlState
      reads this
    {
      AvlState(root, size, category)
    }

    /** `new AVLTree(spell)`: one node of height 0, size 1, the spell's category. */
    constructor (spell: Spell)
      ensures Valid()
      ensures View() == Planted(spell)
    {
      root := Branch(spell, Empty, Empty, 0);
      size := 1;
      category := spell.category;
      new;
      assert View() == Planted(spell);
    }

    /** `getTreeHeight()`: the root's cached height, never below the true height. */
    function GetTreeHeight(): (h: int)
      reads this
      requires Valid()
      ensures h == Height(root) && h >= TrueHeight(root) && h >= 0
    {
      HeightAboveTrue(root);
      root.height
    }

    /** `getSize()`: the number of inserts plus one, at least the number of stored spells. */
    function GetSize(): (n: int)
      reads this
      requires Valid()
      ensures n == size && n >= |Descending(root)| >= 1
    {
      size
    }

    /** `getCategory()`. */
    function GetCategory(): (c: string)
      reads this
      ensures c == View().category
    {
      category
    }

    /**
     * `search(spellName, powerLevel)`: the cursor loop of the source. It
     * computes the descent `Find`, and in a search tree that finds exactly
     * the stored spell with this name and power level, when there is one.
     */
    method Search(spellName: string, powerLevel: int) returns (r: Option<Spell>)
      requires Valid()
      ensures r == Find(root, spellName, powerLevel)
      ensures r.Some? ==> r.value in Descending(root) &&
                          r.value.name == spellName && r.value.powerLevel == powerLevel
      ensures r.None? ==> forall x | x in Descending(root) ::
                            !(x.name == spellName && x.powerLevel == powerLevel)
    {
      FindSound(root, spellName, powerLevel);
      forall x | x in Descending(root) && x.name == spellName && x.powerLevel == powerLevel
        ensures Find(root, spellName, powerLevel) == Some(x)
      {
        FindComplete(root, x);
      }
      var node := root;
      while node.Branch?
        invariant Find(root, spellName, powerLevel) == Find(node, spellName, powerLevel)
        decreases node
      {
        if node.spell.powerLevel == powerLevel && node.spell.name == spellName {
          return Some(node.spell);
        } else if node.spell.powerLevel < powerLevel {
          if node.right.Branch? {
            node := node.right;
          } else {
            break;
          }
        } else {
          if node.left.Branch? {
            node := node.left;
          } else {
            break;
          }
        }
      }
      return None;
    }

    /**
     * `insert(spell)`: `insertNode` from the root, then `size++`, also when
     * the spell was dropped for an equal power level. The tree stays a
     * search tree with sound heights and gains the spell exactly when no
     * stored spell has its power level.
     */
    method Insert(spell: Spell)
      requires Valid()
      modifies this
      ensures Valid()
      ensures View() == Added(old(View()), spell)
      ensures multiset(Descending(root)) == multiset(Descending(old(root))) +
                (if HasPower(old(root), spell.powerLevel) then multiset{} else multiset{spell})
    {
      AddedKeepsInvariant(View(), spell);
      InsertedContent(root, spell);
      root := Inserted(root, spell);
      size := size + 1;
    }

    /**
     * `getTopK(k)`: collect the whole right-node-left traversal, then copy
     * its first `min(k, size)` entries. The source indexes past the end when
     * that exceeds the number of stored spells, hence the second requires.
     */
    method GetTopK(k: int) returns (topK: seq<Spell>)
      requires Valid()
      requires Min(k, size) <= |Descending(root)|
      ensures topK == TopK(View(), k)
      ensures |topK| == Max(0, Min(k, size)) && StrictlyDescending(topK)
      ensures forall x, y | x in Descending(root) && x !in topK && y in topK ::
                x.powerLevel < y.powerLevel
    {
      var topSpells := GetTopKSpells(root, []);
      assert topSpells == Descending(root);
      topK := [];
      var min := Min(k, GetSize());
      var i := 0;
      while min > i
        invariant 0 <= i <= Max(0, min) <= |topSpells|
        invariant topK == topSpells[..i]
      {
        topK := topK + [topSpells[i]];
        i := i + 1;
      }
      TopKIsTop(View(), k);
    }

    /** `getTopKSpells(node, topSpells)`: append the subtree right, node, left. */
    static method GetTopKSpells(node: Tree, topSpells: seq<Spell>) returns (out: seq<Spell>)
      ensures out == topSpells + Descending(node)
      decreases node
    {
      out := topSpells;
      if node.Branch? {
        out := GetTopKSpells(node.right, out);
        out := out + [node.spell];
        out := GetTopKSpells(node.left, out);
      }
    }
  }
}
