/**
 * The two record types of the catalog (`Spell`, stored in the per-category
 * trees, and `SpellSimple`, stored in the double-hashing table) and the few
 * helpers the three structures share.
 */
module Spells {

  /** An absent value; stands for Java's `null` result of a lookup. */
  datatype Option<T> = None | Some(value: T)

  /** A catalog entry: immutable once built, ordered by `powerLevel`. */
  datatype Spell = Spell(name: string, category: string, powerLevel: int, words: string)

  /** A name and the words that cast it. */
  datatype SpellSimple = SpellSimple(name: string, words: string)

  function Max(a: int, b: int): int { if a < b then b else a }

  function Min(a: int, b: int): int { if a < b then a else b }

  /**
   * Sum of the character codes of `s`, as Java's `(int)c` adds them; the
   * last character is peeled off so that a left-to-right accumulator loop
   * extends the sum by one term per step.
   */
  function CharSum(s: string): (r: int)
    ensures r >= 0
  {
    if s == [] then 0 else CharSum(s[..|s| - 1]) + s[|s| - 1] as int
  }
}
