/** Python's built-in dict as count_words and calculate_mode use it: a mapping
    whose iteration order is the order in which keys were first inserted.
    Assigning to a key that is already present changes its value and leaves
    its position alone; assigning to a new key appends it. */
module OrderedDict {
  import opened Sequences

  class Dict<K(==,!new), V> {
    /** The keys in insertion order (the order of iteration over items()). */
    var keys: seq<K>
    /** The value stored under each key. */
    var values: map<K, V>

    ghost predicate Valid()
      reads this
    {
      NoDuplicates(keys) &&
      (forall k :: k in values <==> k in keys)
    }

    /** `{}` */
    constructor ()
      ensures Valid()
      ensures keys == [] && values == map[]
    {
      keys := [];
      values := map[];
    }

    /** `k in d` */
    function Contains(k: K): (b: bool)
      reads this
      requires Valid()
      ensures b <==> k in keys
    {
      k in values
    }

    /** `d.get(k, default)` */
    function Get(k: K, default: V): (v: V)
      reads this
      requires Valid()
      ensures k in keys ==> k in values && v == values[k]
      ensures k !in keys ==> v == default
    {
      if k in values then values[k] else default
    }

    /** `d[k] = v` */
    method Put(k: K, v: V)
      requires Valid()
      modifies this
      ensures Valid()
      ensures values == old(values)[k := v]
      ensures keys == if k in old(keys) then old(keys) else old(keys) + [k]
    {
      if k !in values {
        keys := keys + [k];
      }
      values := values[k := v];
    }
  }
}
