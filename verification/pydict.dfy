/**
 * An insertion-ordered dictionary, the way a Python `dict` behaves: each key
 * appears once, iteration follows insertion order, and assigning to a key that
 * is already present keeps that key's position.
 */
module PyDict {

  /** Every element of `s` occurs once. */
  ghost predicate Distinct<T>(s: seq<T>) {
    forall i, j | 0 <= i < j < |s| :: s[i] != s[j]
  }

  /** Keys in insertion order, and the value stored under each. */
  datatype RawDict<K, V> = RawDict(order: seq<K>, entries: map<K, V>)

  ghost predicate WellFormed<K, V>(d: RawDict<K, V>) {
    && Distinct(d.order)
    && (forall i | 0 <= i < |d.order| :: d.order[i] in d.entries)
    && (forall k | k in d.entries :: k in d.order)
  }

  type Dict<K, V> = d: RawDict<K, V> | WellFormed(d) witness RawDict([], map[])

  /** `{}` */
  function Empty<K, V>(): (d: Dict<K, V>)
    ensures d.entries == map[]
  {
    RawDict([], map[])
  }

  /**
   * `d[k] = v`: the value under `k` becomes `v`, every other key keeps its value,
   * a key already present keeps its position and a new key goes last.
   */
  function Put<K, V>(d: Dict<K, V>, k: K, v: V): (r: Dict<K, V>)
    ensures k in d.entries ==> r.order == d.order
    ensures k !in d.entries ==> r.order == d.order + [k]
    ensures r.entries.Keys == d.entries.Keys + {k}
    ensures r.entries[k] == v
    ensures forall k' :: k' in d.entries && k' != k ==> r.entries[k'] == d.entries[k']
  {
    if k in d.entries then RawDict(d.order, d.entries[k := v])
    else RawDict(d.order + [k], d.entries[k := v])
  }

  /** `list(d.items())` */
  function Items<K, V>(d: Dict<K, V>): seq<(K, V)> {
    seq(|d.order|, i requires 0 <= i < |d.order| => (d.order[i], d.entries[d.order[i]]))
  }

  /**
   * The items of a dictionary list every stored key exactly once, with its own
   * value, in insertion order.
   */
  lemma ItemsListEachEntryOnce<K, V>(d: Dict<K, V>)
    ensures |Items(d)| == |d.entries|
    ensures forall i | 0 <= i < |Items(d)| :: Items(d)[i].0 == d.order[i]
    ensures forall k :: k in d.entries <==> exists i :: 0 <= i < |Items(d)| && Items(d)[i].0 == k
    ensures forall i | 0 <= i < |Items(d)| :: Items(d)[i].0 in d.entries && Items(d)[i].1 == d.entries[Items(d)[i].0]
    ensures forall i, j | 0 <= i < j < |Items(d)| :: Items(d)[i].0 != Items(d)[j].0
  {
    ItemsCoverKeys(d);
    OrderCountsKeys(d);
  }

  lemma ItemsCoverKeys<K, V>(d: Dict<K, V>)
    ensures forall k | k in d.entries :: exists i :: 0 <= i < |Items(d)| && Items(d)[i].0 == k
  {
    var s := Items(d);
    forall k | k in d.entries
      ensures exists i :: 0 <= i < |s| && s[i].0 == k
    {
      assert k in d.order;
      var i :| 0 <= i < |d.order| && d.order[i] == k;
      assert s[i].0 == k;
    }
  }

  /** A dictionary has one key in its insertion order per stored key. */
  lemma OrderCountsKeys<K, V>(d: Dict<K, V>)
    ensures |d.order| == |d.entries|
  {
    DistinctCardinality(d.order, d.entries.Keys);
  }

  /** A duplicate-free sequence has as many elements as the set it enumerates. */
  lemma {:induction false} DistinctCardinality<K>(s: seq<K>, keys: set<K>)
    requires Distinct(s)
    requires forall k :: k in s <==> k in keys
    ensures |s| == |keys|
  {
    if s != [] {
      var rest := keys - {s[0]};
      assert forall k :: k in s[1..] <==> k in rest by {
        forall k
          ensures k in s[1..] <==> k in rest
        {
          if k in s[1..] {
            var j :| 0 <= j < |s[1..]| && s[1..][j] == k;
            assert s[j + 1] == k;
          }
          if k in rest {
            var j :| 0 <= j < |s| && s[j] == k;
            assert j != 0;
            assert s[1..][j - 1] == k;
          }
        }
      }
      DistinctCardinality(s[1..], rest);
    }
  }
}
