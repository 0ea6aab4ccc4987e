/**
 * Python's insertion-ordered `dict`, as a sequence of key/value pairs.
 * Lookup finds the first pair with the key; assignment to a present key
 * overwrites its value in place (the key keeps its position), and
 * assignment to a new key appends it at the end.
 */
module PyDict {
  import opened Wrappers

  type Dict<K, V> = seq<(K, V)>

  /** The keys in iteration order. */
  function Keys<K, V>(d: Dict<K, V>): seq<K> {
    seq(|d|, i requires 0 <= i < |d| => d[i].0)
  }

  ghost function KeySet<K, V>(d: Dict<K, V>): set<K> {
    set i | 0 <= i < |d| :: d[i].0
  }

  lemma KeySetIsKeys<K, V>(d: Dict<K, V>)
    ensures forall x :: x in KeySet(d) <==> x in Keys(d)
  {
    forall x | x in Keys(d) ensures x in KeySet(d) {
      var i :| 0 <= i < |d| && Keys(d)[i] == x;
      assert d[i].0 == x;
    }
    forall x | x in KeySet(d) ensures x in Keys(d) {
      var i :| 0 <= i < |d| && d[i].0 == x;
      assert Keys(d)[i] == x;
    }
  }

  /** Every key occurs once, as in a real dict. */
  ghost predicate UniqueKeys<K, V>(d: Dict<K, V>) {
    forall i, j :: 0 <= i < j < |d| ==> d[i].0 != d[j].0
  }

  /** Position of the first pair whose key is `k`. */
  function IndexOf<K(==), V>(d: Dict<K, V>, k: K): (r: Option<nat>)
    ensures r.Some? ==> r.value < |d| && d[r.value].0 == k
    ensures r.Some? ==> forall j :: 0 <= j < r.value ==> d[j].0 != k
    ensures r.None? <==> k !in KeySet(d)
  {
    if |d| == 0 then None
    else if d[0].0 == k then Some(0)
    else
      match IndexOf(d[1..], k)
      case None =>
        assert KeySet(d) == {d[0].0} + KeySet(d[1..]) by {
          forall x | x in KeySet(d) ensures x in {d[0].0} + KeySet(d[1..]) {
            var i :| 0 <= i < |d| && d[i].0 == x;
            if i > 0 { assert d[1..][i - 1].0 == x; }
          }
        }
        None
      case Some(i) => Some(i + 1)
  }

  lemma IndexOfAt<K, V>(d: Dict<K, V>, k: K, i: nat)
    requires i < |d| && d[i].0 == k
    requires forall j :: 0 <= j < i ==> d[j].0 != k
    ensures IndexOf(d, k) == Some(i)
  {
    assert k in KeySet(d);
  }

  /** `d.get(k)`: the value of the first pair with key `k`, if any. */
  function Get<K(==), V>(d: Dict<K, V>, k: K): Option<V> {
    match IndexOf(d, k)
    case None => None
    case Some(i) => Some(d[i].1)
  }

  /** `d.get(k, default)`. */
  function GetOr<K(==), V>(d: Dict<K, V>, k: K, default: V): V {
    Get(d, k).GetOr(default)
  }

  /** `d[k] = v`. */
  function Put<K(==), V>(d: Dict<K, V>, k: K, v: V): (r: Dict<K, V>)
    ensures Get(r, k) == Some(v)
    ensures KeySet(r) == KeySet(d) + {k}
    ensures k in KeySet(d) ==> Keys(r) == Keys(d)
    ensures k !in KeySet(d) ==> Keys(r) == Keys(d) + [k]
    ensures UniqueKeys(d) ==> UniqueKeys(r)
  {
    match IndexOf(d, k)
    case None =>
      var r := d + [(k, v)];
      IndexOfAt(r, k, |d|);
      assert KeySet(r) == KeySet(d) + {k} by {
        forall x | x in KeySet(r) ensures x in KeySet(d) + {k} {
          var i :| 0 <= i < |r| && r[i].0 == x;
          if i < |d| { assert d[i].0 == x; }
        }
        forall x | x in KeySet(d) ensures x in KeySet(r) {
          var j :| 0 <= j < |d| && d[j].0 == x;
          assert r[j].0 == x;
        }
        assert r[|d|].0 == k;
      }
      r
    case Some(i) =>
      var r := d[i := (k, v)];
      IndexOfAt(r, k, i);
      assert KeySet(r) == KeySet(d) by {
        forall x | x in KeySet(d) ensures x in KeySet(r) {
          var j :| 0 <= j < |d| && d[j].0 == x;
          assert r[j].0 == x;
        }
      }
      r
  }

  /** Assigning one key never changes what another key maps to. */
  lemma GetPutOther<K, V>(d: Dict<K, V>, k: K, v: V, k': K)
    requires k' != k
    ensures Get(Put(d, k, v), k') == Get(d, k')
  {
    var r := Put(d, k, v);
    match IndexOf(d, k')
    case None =>
      assert k' !in KeySet(r);
    case Some(j) =>
      IndexOfAt(r, k', j);
  }
}
