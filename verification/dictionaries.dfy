/** Python's `dict`: entries, read in the order their keys were first put. */
module Dictionaries {
  import opened Ordering

  /** A Python `dict`: its entries, and its keys in the order they were first put. */
  datatype Dict<K, V> = Dict(order: seq<K>, entries: map<K, V>)

  function Get<K, V>(d: Dict<K, V>, key: K, missing: V): V {
    if key in d.entries then d.entries[key] else missing
  }

  function Put<K(==), V>(d: Dict<K, V>, key: K, value: V): Dict<K, V> {
    Dict(if key in d.entries then d.order else d.order + [key], d.entries[key := value])
  }

  lemma PutHolds<K, V>(d: Dict<K, V>, key: K, value: V, other: K)
    requires key in d.order <==> key in d.entries
    ensures var after := Put(d, key, value);
            && (other in after.order <==> other in d.order || other == key)
            && (other in after.entries <==> other in d.entries || other == key)
            && (forall missing :: Get(after, other, missing) == if other == key then value else Get(d, other, missing))
            && (Distinct(d.order) ==> Distinct(after.order))
  {
  }

  /** Deleting a key gives up its place. */
  function Remove<K, V>(d: Dict<K, V>, key: K): Dict<K, V> {
    Dict(Filter((k: K) => k != key, d.order), d.entries - {key})
  }

  /** Every key has one place, and every place an entry. */
  ghost predicate WellFormed<K(!new), V>(d: Dict<K, V>) {
    Distinct(d.order) && forall k :: k in d.order <==> k in d.entries
  }

  /** A dictionary built by putting each pair in turn. */
  function DictOf<K(==), V>(pairs: seq<(K, V)>): Dict<K, V> {
    if pairs == [] then Dict([], map[])
    else Put(DictOf(pairs[..|pairs| - 1]), pairs[|pairs| - 1].0, pairs[|pairs| - 1].1)
  }

  lemma PutIsWellFormed<K(!new), V>(d: Dict<K, V>, key: K, value: V)
    requires WellFormed(d)
    ensures WellFormed(Put(d, key, value))
  {
  }

  /** Deleting a key shortens the order by its one place. */
  lemma RemoveShortens<K(!new), V>(d: Dict<K, V>, key: K)
    requires WellFormed(d) && key in d.entries
    ensures |Remove(d, key).order| + 1 == |d.order|
  {
    var keep, all := (k: K) => k != key, (k: K) => true;
    assert key in d.order;
    var i :| 0 <= i < |d.order| && d.order[i] == key;
    FilterOneMore(all, keep, d.order, i);
    FilterAll(all, d.order);
  }

  lemma RemoveIsWellFormed<K(!new), V>(d: Dict<K, V>, key: K)
    requires WellFormed(d)
    ensures WellFormed(Remove(d, key))
  {
    var keep := (k: K) => k != key;
    FilterDistinct(keep, d.order);
    forall k ensures k in Remove(d, key).order <==> k in Remove(d, key).entries {
      FilterMember(keep, d.order, k);
    }
  }

  lemma {:induction false} DictOfIsWellFormed<K(!new), V>(pairs: seq<(K, V)>)
    ensures WellFormed(DictOf(pairs))
  {
    if pairs != [] {
      var n := |pairs| - 1;
      DictOfIsWellFormed(pairs[..n]);
      PutIsWellFormed(DictOf(pairs[..n]), pairs[n].0, pairs[n].1);
    }
  }
}
