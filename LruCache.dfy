/**
 * The page cache `pageCache` of RandomAccessBufferedFile: a LinkedHashMap
 * with access ordering whose `removeEldestEntry` drops the eldest entry once
 * the map holds more than `maxCachedPages` entries.
 *
 * The linked list of the map is `order`, from least to most recently used;
 * the hash table is `entries`. Instead of calling back into the reader,
 * `Put` hands the evicted value back to its caller.
 */
module LruCache {
  import opened Recency

  datatype Option<T> = None | Some(value: T)

  /** The map and its linked list agree, the bound holds and the list is in access order. */
  ghost predicate Consistent<V>(order: seq<int>, entries: map<int, V>, history: seq<int>, capacity: nat)
  {
    && (forall k :: k in entries <==> k in order)
    && |order| <= capacity
    && RecencyOrdered(order, history)
  }

  /** A hit, a replacement, or an insertion below the bound: touch the key, nothing is evicted. */
  lemma TouchConsistent<V>(order: seq<int>, entries: map<int, V>, history: seq<int>, capacity: nat, k: int, v: V)
    requires Consistent(order, entries, history, capacity)
    requires k in entries || |order| < capacity
    ensures Consistent(Touch(order, k), entries[k := v], history + [k], capacity)
  {
    RecencyOrderedIsDistinct(order, history);
    TouchKeepsRecency(order, history, k);
  }

  /**
   * An insertion at the bound: after appending `k`, dropping the eldest key
   * restores the bound, and that key was touched less recently than every
   * key that stays.
   */
  lemma EvictConsistent<V>(order: seq<int>, entries: map<int, V>, history: seq<int>, capacity: nat, k: int, v: V)
    requires Consistent(order, entries, history, capacity)
    requires k !in entries && |order| == capacity
    ensures var grown, touched := order + [k], history + [k];
      && Consistent(grown[1..], entries[k := v] - {grown[0]}, touched, capacity)
      && grown[0] !in grown[1..]
      && forall x :: x in grown[1..] ==> LastIndex(touched, grown[0]) < LastIndex(touched, x)
  {
    var grown, touched := order + [k], history + [k];
    var kept := entries[k := v] - {grown[0]};
    TouchKeepsRecency(order, history, k);
    assert Touch(order, k) == grown;
    RecencyOrderedIsDistinct(grown, touched);
    assert grown[0] !in grown[1..] by {
      forall j | 1 <= j < |grown| ensures grown[j] != grown[0] { }
    }
    DropEldestKeepsRecency(grown, touched);
    EldestIsLeastRecent(grown, touched);
    forall x ensures x in kept <==> x in grown[1..] {
      assert x in grown[1..] <==> x in grown && x != grown[0];
    }
  }

  class PageCache<V> {
    /** The bound `removeEldestEntry` enforces. */
    const capacity: nat
    /** Keys from least to most recently used (the map's linked list). */
    var order: seq<int>
    var entries: map<int, V>
    /** Every key a `Get` hit or a `Put` touched, oldest first. */
    ghost var history: seq<int>

    ghost predicate Valid()
      reads this
    {
      Consistent(order, entries, history, capacity)
    }

    constructor (capacity: nat)
      ensures Valid() && this.capacity == capacity
      ensures order == [] && entries == map[] && history == []
    {
      this.capacity := capacity;
      order, entries, history := [], map[], [];
    }

    /** `size()`: the number of resident entries, never above the capacity. */
    function Size(): (n: nat)
      reads this
      requires Valid()
      ensures n == |entries| && n <= capacity
    {
      RecencyOrderedIsDistinct(order, history);
      DistinctCount(order);
      assert entries.Keys == Elements(order);
      |order|
    }

    /** `get`: a hit returns the value and makes its key the most recently used. */
    method Get(k: int) returns (r: Option<V>)
      requires Valid()
      modifies this
      ensures Valid() && entries == old(entries)
      ensures k in entries ==>
        && r == Some(entries[k])
        && order == Touch(old(order), k)
        && history == old(history) + [k]
      ensures k !in entries ==> r == None && order == old(order) && history == old(history)
    {
      if k in entries {
        RecencyOrderedIsDistinct(order, history);
        TouchKeepsRecency(order, history, k);
        order := Touch(order, k);
        history := history + [k];
        r := Some(entries[k]);
      } else {
        r := None;
      }
    }

    /**
     * `put`: an existing key gets the new value and becomes the most recently
     * used. A new key is appended as the most recently used; if the map then
     * holds more than `capacity` entries, its eldest entry alone is removed
     * and its value returned.
     */
    method Put(k: int, v: V) returns (evicted: Option<V>)
      requires Valid()
      modifies this
      ensures Valid() && history == old(history) + [k]
      ensures k in old(entries) ==>
        && evicted == None
        && order == Touch(old(order), k)
        && entries == old(entries)[k := v]
      ensures k !in old(entries) && |old(order)| < capacity ==>
        && evicted == None
        && order == old(order) + [k]
        && entries == old(entries)[k := v]
      ensures k !in old(entries) && |old(order)| == capacity ==>
        var eldest := (old(order) + [k])[0];
        && evicted == Some(old(entries)[k := v][eldest])
        && order == (old(order) + [k])[1..]
        && entries == old(entries)[k := v] - {eldest}
      ensures evicted.Some? ==>
        var eldest := (old(order) + [k])[0];
        && eldest !in entries
        && forall x :: x in entries ==> LastIndex(history, eldest) < LastIndex(history, x)
    {
      if k in entries || |order| < capacity {
        TouchConsistent(order, entries, history, capacity, k, v);
        order, entries, history := Touch(order, k), entries[k := v], history + [k];
        evicted := None;
      } else {
        EvictConsistent(order, entries, history, capacity, k, v);
        var grown := order + [k];
        assert grown[0] in entries[k := v] by {
          if |order| > 0 {
            assert grown[0] == order[0] && order[0] in order;
          }
        }
        evicted := Some(entries[k := v][grown[0]]);
        order, entries, history := grown[1..], entries[k := v] - {grown[0]}, history + [k];
      }
    }

    /** `clear`: no entries remain. */
    method Clear()
      requires Valid()
      modifies this
      ensures Valid() && order == [] && entries == map[] && history == old(history)
    {
      order, entries := [], map[];
    }
  }
}
