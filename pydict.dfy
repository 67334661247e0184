/**
 * Python dictionaries whose key order is visible in the program's output:
 * entries are kept in insertion order, assigning to a present key keeps its
 * place, and `pop` removes the entry.
 */
module PyDict {
  import opened Wrappers

  /** Entries in insertion order. */
  type Dict<V> = seq<(string, V)>

  function Keys<V>(d: Dict<V>): (ks: seq<string>)
    ensures |ks| == |d|
    ensures forall i | 0 <= i < |d| :: ks[i] == d[i].0
  {
    seq(|d|, i requires 0 <= i < |d| => d[i].0)
  }

  /** No key occurs twice, as in every dict Python builds. */
  predicate DistinctKeys<V>(d: Dict<V>) {
    forall i, j | 0 <= i < j < |d| :: d[i].0 != d[j].0
  }

  /** The position of the first entry for `k`, or -1. */
  function IndexOf<V>(d: Dict<V>, k: string): (i: int)
    ensures -1 <= i < |d|
    ensures i >= 0 ==> d[i].0 == k && forall j | 0 <= j < i :: d[j].0 != k
    ensures i == -1 ==> forall j | 0 <= j < |d| :: d[j].0 != k
  {
    if d == [] then -1
    else if d[0].0 == k then 0
    else
      var j := IndexOf(d[1..], k);
      if j < 0 then -1 else j + 1
  }

  /** `k in d`. */
  predicate Has<V>(d: Dict<V>, k: string) {
    IndexOf(d, k) >= 0
  }

  /** `d.get(k)`, with None for a missing key. */
  function Get<V>(d: Dict<V>, k: string): Option<V> {
    var i := IndexOf(d, k);
    if i < 0 then None else Some(d[i].1)
  }

  /** The keys present are the keys listed. */
  lemma HasIffListed<V>(d: Dict<V>, k: string)
    ensures Has(d, k) <==> k in Keys(d)
  {
    if k in Keys(d) {
      var i :| 0 <= i < |Keys(d)| && Keys(d)[i] == k;
      assert d[i].0 == k;
    }
  }

  /**
   * `d[k] = v`: afterwards `k` maps to `v` and every other key keeps its
   * value (`AssignKeys` gives the order of the keys).
   */
  function Assign<V>(d: Dict<V>, k: string, v: V): (r: Dict<V>)
    ensures DistinctKeys(d) ==> DistinctKeys(r)
    ensures Get(r, k) == Some(v)
    ensures forall k' | k' != k :: Get(r, k') == Get(d, k')
  {
    var i := IndexOf(d, k);
    if i < 0 then
      var r := d + [(k, v)];
      SameFirst(r, k, |d|);
      AppendGet(d, k, v);
      r
    else
      var r := d[i := (k, v)];
      SameFirst(r, k, i);
      ReplaceGet(d, i, v);
      r
  }

  /** Assigning to a present key keeps its place; a new key goes after all existing ones. */
  lemma AssignKeys<V>(d: Dict<V>, k: string, v: V)
    ensures Keys(Assign(d, k, v)) == if Has(d, k) then Keys(d) else Keys(d) + [k]
  {
    if Has(d, k) {
      assert Keys(Assign(d, k, v)) == Keys(d);
    } else {
      assert Keys(Assign(d, k, v)) == Keys(d) + [k];
    }
  }

  /** Appending a missing key leaves the other lookups alone. */
  lemma AppendGet<V>(d: Dict<V>, k: string, v: V)
    requires IndexOf(d, k) < 0
    ensures forall k' | k' != k :: Get(d + [(k, v)], k') == Get(d, k')
  {
    var r := d + [(k, v)];
    forall k' | k' != k
      ensures Get(r, k') == Get(d, k')
    {
      var i := IndexOf(d, k');
      if i >= 0 {
        assert r[i] == d[i];
        SameFirst(r, k', i);
      } else {
        assert forall j | 0 <= j < |r| :: r[j].0 != k' by {
          forall j | 0 <= j < |r|
            ensures r[j].0 != k'
          {
            if j < |d| {
              assert r[j] == d[j];
            }
          }
        }
      }
    }
  }

  /** Replacing the value at a position leaves the other lookups alone. */
  lemma ReplaceGet<V>(d: Dict<V>, i: int, v: V)
    requires 0 <= i < |d|
    ensures forall k' | k' != d[i].0 :: Get(d[i := (d[i].0, v)], k') == Get(d, k')
  {
    var r := d[i := (d[i].0, v)];
    forall k' | k' != d[i].0
      ensures Get(r, k') == Get(d, k')
    {
      var j := IndexOf(d, k');
      if j >= 0 {
        SameFirst(r, k', j);
      } else {
        assert forall m | 0 <= m < |r| :: r[m].0 != k' by {
          forall m | 0 <= m < |r|
            ensures r[m].0 != k'
          {
            if m != i {
              assert r[m] == d[m];
            }
          }
        }
      }
    }
  }

  /** The first entry for a key is where IndexOf stops. */
  lemma SameFirst<V>(d: Dict<V>, k: string, i: int)
    requires 0 <= i < |d| && d[i].0 == k
    requires forall j | 0 <= j < i :: d[j].0 != k
    ensures IndexOf(d, k) == i
  {
  }

  /**
   * The entry-removal half of `d.pop(k)`: afterwards `k` is absent, every
   * other key keeps its value, and the remaining keys keep their order.
   */
  function Remove<V>(d: Dict<V>, k: string): (r: Dict<V>)
    requires DistinctKeys(d)
    ensures DistinctKeys(r) && !Has(r, k)
    ensures forall k' | k' != k :: Get(r, k') == Get(d, k')
    ensures |r| == if Has(d, k) then |d| - 1 else |d|
    ensures Keys(r) == if Has(d, k) then Keys(d)[..IndexOf(d, k)] + Keys(d)[IndexOf(d, k) + 1..] else Keys(d)
  {
    var i := IndexOf(d, k);
    if i < 0 then d
    else
      var r := d[..i] + d[i + 1..];
      RemoveAt(d, i);
      r
  }

  /** Lookups after cutting out the entry at position `i`. */
  lemma RemoveAt<V>(d: Dict<V>, i: int)
    requires DistinctKeys(d) && 0 <= i < |d|
    ensures var r := d[..i] + d[i + 1..];
      && DistinctKeys(r) && !Has(r, d[i].0)
      && forall k' | k' != d[i].0 :: Get(r, k') == Get(d, k')
  {
    var r := d[..i] + d[i + 1..];
    assert forall m | 0 <= m < |r| :: r[m] == if m < i then d[m] else d[m + 1];
    forall k' | k' != d[i].0
      ensures Get(r, k') == Get(d, k')
    {
      var j := IndexOf(d, k');
      if j >= 0 {
        if j < i {
          SameFirst(r, k', j);
        } else {
          SameFirst(r, k', j - 1);
        }
      }
    }
    assert forall m | 0 <= m < |r| :: r[m].0 != d[i].0;
  }

  /** `d.pop(k)` on a present key: the value removed and the dict left behind. */
  function Pop<V>(d: Dict<V>, k: string): (r: (V, Dict<V>))
    requires DistinctKeys(d) && Has(d, k)
    ensures Get(d, k) == Some(r.0)
    ensures r.1 == Remove(d, k)
  {
    (d[IndexOf(d, k)].1, Remove(d, k))
  }
}
