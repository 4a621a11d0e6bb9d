/**
 * `DoubleHashTable`: a fixed array of slots addressed by double hashing on
 * the spell name, a `size` counter and a `steps` probe counter, which a placement or hit at
 * slot `h1` leaves unchanged.
 * Each method is proved to do what the functions of module DoubleHashSpec
 * say, on the slots `table[..]`.
 */
module DoubleHashing {
  import opened Spells
  import opened DoubleHashSpec

  class DoubleHashTable {
    const table: array<Option<SpellSimple>>
    const capacity: int
    var size: int
    var steps: int

    /** `size` counts the occupied slots; `steps` is at most the capacity. */
    ghost predicate Valid()
      reads this, table
    {
      && table.Length == capacity
      && size == Count(table[..])
      && 0 <= steps <= capacity
    }

    /** `new DoubleHashTable(capacity)`: all slots empty, no spells, no steps. */
    constructor (capacity: int)
      requires capacity >= 0
      ensures Valid() && fresh(table)
      ensures this.capacity == capacity && size == 0 && steps == 0
      ensures forall k | 0 <= k < capacity :: table[k].None?
    {
      this.capacity := capacity;
      table := new Option<SpellSimple>[capacity](_ => None);
      size := 0;
      steps := 0;
      new;
      CountEmpty(table[..]);
    }

    /**
     * `put(spell)`: the spell goes into slot `h1` when it is empty;
     * otherwise probes 1 .. capacity-1 are tried, the first empty one takes
     * it, and the duplicate check against the occupant of `h1` runs after
     * each occupied probe. `size` counts the placement.
     */
    method Put(spell: SpellSimple) returns (added: bool)
      requires Valid() && Hashable(capacity)
      modifies this, table
      ensures Valid()
      ensures added == PlanPut(old(table[..]), spell.name).Placed?
      ensures table[..] == SlotsAfterPut(old(table[..]), spell)
      ensures size == old(size) + (if added then 1 else 0)
      ensures steps == StepsAfterPut(PlanPut(old(table[..]), spell.name), old(steps), capacity)
    {
      ghost var slots := table[..];
      var h1 := Hash1(spell.name);
      var h2 := Hash2(spell.name);
      assert PlanPut(slots, spell.name) == PlanAt(slots, spell.name, h1, h2);
      if table[h1].None? {
        Place(h1, spell);
        return true;
      }
      var i := 1;
      while i < capacity
        invariant 1 <= i <= capacity
        invariant table[..] == slots && size == old(size)
        invariant PutFrom(slots, spell.name, h1, h2, i) == PlanPut(slots, spell.name)
        invariant steps == if i == 1 then old(steps) else i - 1
      {
        var index := (h1 + i * h2) % capacity;
        assert index == Probe(h1, h2, i, capacity);
        steps := i;
        if table[index].None? {
          Place(index, spell);
          return true;
        }
        if table[h1].value.name == spell.name {
          return false;
        }
        i := i + 1;
      }
      steps := capacity;
      return false;
    }

    /** `table[index] = spell; size++` on an empty slot: one more occupied slot. */
    method Place(index: int, spell: SpellSimple)
      requires Valid() && 0 <= index < capacity && table[index].None?
      modifies this`size, table
      ensures Valid()
      ensures table[..] == old(table[..])[index := Some(spell)] && size == old(size) + 1
    {
      CountFill(table[..], index, spell);
      table[index] := Some(spell);
      size := size + 1;
    }

    /**
     * `getCastWords(name)`: the words of the first probe slot holding the
     * name, or null after all `capacity` probes. Every probed slot is
     * dereferenced, hence the requires `LookUpSafe`.
     */
    method GetCastWords(name: string) returns (words: Option<string>)
      requires Valid() && Hashable(capacity) && LookUpSafe(table[..], name)
      modifies this`steps
      ensures Valid()
      ensures var r := LookUp(table[..], name);
              && words == (if r.Hit? then Some(r.words) else None)
              && steps == StepsAfterLookUp(r, old(steps), capacity)
      ensures words.Some? ==> exists k | 0 <= k < capacity :: table[k] == Some(SpellSimple(name, words.value))
      ensures words.None? && Prime(capacity) ==>
                forall k | 0 <= k < capacity :: table[k].Some? && table[k].value.name != name
    {
      ghost var slots := table[..];
      ghost var r := LookUp(slots, name);
      if r.Hit? {
        LookUpHit(slots, name);
      } else if Prime(capacity) {
        LookUpMissPrime(slots, name);
      }
      var h1 := Hash1(name);
      var h2 := Hash2(name);
      assert r == LookUpAt(slots, name, h1, h2);
      if table[h1].value.name == name {
        return Some(table[h1].value.words);
      }
      var i := 1;
      while i < capacity
        invariant 1 <= i <= capacity
        invariant SafeFrom(slots, name, h1, h2, i)
        invariant LookUpFrom(slots, name, h1, h2, i) == r
        invariant steps == if i == 1 then old(steps) else i - 1
      {
        var index := (h1 + i * h2) % capacity;
        assert index == Probe(h1, h2, i, capacity);
        steps := i;
        if table[index].value.name == name {
          assert r == Hit(slots[index].value.words, i);
          return Some(table[index].value.words);
        }
        i := i + 1;
      }
      steps := capacity;
      return None;
    }

    /** `getSize()`: the number of occupied slots. */
    function GetSize(): (n: int)
      reads this, table
      requires Valid()
      ensures n == Count(table[..]) && 0 <= n <= capacity
    {
      size
    }

    /** `getLastSteps()`: the probe counter, which a placement or hit at `h1` leaves unchanged; within the capacity. */
    function GetLastSteps(): (s: int)
      reads this, table
      requires Valid()
      ensures s == steps && 0 <= s <= capacity
    {
      steps
    }

    /** `hash1(name)`: the loop adding `31 * c` per character, then `% capacity`. */
    method Hash1(name: string) returns (h: int)
      requires capacity > 0
      ensures h == Hash1Of(name, capacity) && 0 <= h < capacity
    {
      var hash := 0;
      var i := 0;
      while i < |name|
        invariant 0 <= i <= |name|
        invariant hash == 31 * CharSum(name[..i])
      {
        assert name[..i + 1][..i] == name[..i];
        hash := hash + name[i] as int * 31;
        i := i + 1;
      }
      assert name[..|name|] == name;
      h := hash % capacity;
    }

    /** `hash2(name)`: the loop adding `13 * c` per character, then `1 + hash % (capacity - 2)`. */
    method Hash2(name: string) returns (h: int)
      requires Hashable(capacity)
      ensures h == Hash2Of(name, capacity)
      ensures capacity >= 3 ==> 1 <= h <= capacity - 2
    {
      var hash := 0;
      var i := 0;
      while i < |name|
        invariant 0 <= i <= |name|
        invariant hash == 13 * CharSum(name[..i])
      {
        assert name[..i + 1][..i] == name[..i];
        hash := hash + name[i] as int * 13;
        i := i + 1;
      }
      assert name[..|name|] == name;
      h := 1 + hash % (capacity - 2);
    }
  }
}
