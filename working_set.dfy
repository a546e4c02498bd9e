/**
 * The working-set dicts of find_nearest and sort_by_latest_mass_balance. A Python dict is the
 * sequence of its (key, value) items in insertion order: update on a present key overwrites the
 * value in place, on a new key appends; pop removes the item.
 */
module OrderedDict {

  function Keys<K, V>(d: seq<(K, V)>): (ks: seq<K>)
    ensures |ks| == |d| && forall i :: 0 <= i < |d| ==> ks[i] == d[i].0
  {
    seq(|d|, i requires 0 <= i < |d| => d[i].0)
  }

  function Values<K, V>(d: seq<(K, V)>): (vs: seq<V>)
    ensures |vs| == |d| && forall i :: 0 <= i < |d| ==> vs[i] == d[i].1
  {
    seq(|d|, i requires 0 <= i < |d| => d[i].1)
  }

  predicate DistinctKeys<K(==), V>(d: seq<(K, V)>)
  {
    forall i, j :: 0 <= i < j < |d| ==> d[i].0 != d[j].0
  }

  /** The position of key k: the first one holding it. */
  function IndexOf<K(==), V>(d: seq<(K, V)>, k: K): (i: nat)
    requires k in Keys(d)
    ensures i < |d| && d[i].0 == k
    ensures forall j :: 0 <= j < i ==> d[j].0 != k
  {
    if d[0].0 == k then 0 else 1 + IndexOf(d[1..], k)
  }

  /** d.update({k: v}) */
  function Put<K(==), V>(d: seq<(K, V)>, k: K, v: V): seq<(K, V)>
  {
    if k in Keys(d) then d[IndexOf(d, k) := (k, v)] else d + [(k, v)]
  }

  /** d.pop(d[i][0]) */
  function RemoveAt<K, V>(d: seq<(K, V)>, i: nat): seq<(K, V)>
    requires i < |d|
  {
    d[..i] + d[i + 1..]
  }

  /** With distinct keys, an update keeps the keys distinct and holds the new item and every other item. */
  lemma PutItems<K, V>(d: seq<(K, V)>, k: K, v: V)
    requires DistinctKeys(d)
    ensures DistinctKeys(Put(d, k, v))
    ensures forall x :: x in Put(d, k, v) <==> x == (k, v) || (x in d && x.0 != k)
    ensures |Put(d, k, v)| == if k in Keys(d) then |d| else |d| + 1
  {
    var r := Put(d, k, v);
    if k in Keys(d) {
      var i := IndexOf(d, k);
      forall x ensures x in r <==> x == (k, v) || (x in d && x.0 != k) {
        if x in d && x.0 != k {
          var j :| 0 <= j < |d| && d[j] == x;
          assert r[j] == x;
        }
        if x in r && x != (k, v) {
          var j :| 0 <= j < |r| && r[j] == x;
          assert j != i && d[j] == x;
          assert d[j].0 != d[i].0;
        }
        if x == (k, v) {
          assert r[i] == x;
        }
      }
    }
  }

  /** An update keeps the keys in place and appends a new key at the end. */
  lemma PutKeys<K, V>(d: seq<(K, V)>, k: K, v: V)
    ensures Keys(Put(d, k, v)) == if k in Keys(d) then Keys(d) else Keys(d) + [k]
  {
  }

  /** With distinct keys, an update leaves every item of another key where it was. */
  lemma PutAt<K, V>(d: seq<(K, V)>, k: K, v: V)
    requires DistinctKeys(d)
    ensures var r := Put(d, k, v);
      forall p :: 0 <= p < |r| ==> r[p] == if p < |d| && d[p].0 != k then d[p] else (k, v)
  {
  }

  /** Two dicts with the same keys hold a key at the same position. */
  lemma IndexOfKeys<K, V, W>(d: seq<(K, V)>, e: seq<(K, W)>, k: K)
    requires Keys(d) == Keys(e) && k in Keys(d)
    ensures IndexOf(d, k) == IndexOf(e, k)
  {
    var i, j := IndexOf(d, k), IndexOf(e, k);
    assert Keys(d)[i] == Keys(e)[i] && Keys(d)[j] == Keys(e)[j];
  }

  /**
   * Updating two dicts with the same keys by the same key: the results have the same keys, and
   * at each position either both hold the new item or both hold what they held before.
   */
  lemma PutParallel<K, V, W>(d: seq<(K, V)>, e: seq<(K, W)>, k: K, v: V, w: W)
    requires |d| == |e| && forall i :: 0 <= i < |d| ==> d[i].0 == e[i].0
    ensures |Put(d, k, v)| == |Put(e, k, w)|
    ensures forall i :: 0 <= i < |Put(d, k, v)| ==>
      || (Put(d, k, v)[i] == (k, v) && Put(e, k, w)[i] == (k, w))
      || (i < |d| && Put(d, k, v)[i] == d[i] && Put(e, k, w)[i] == e[i])
  {
    assert Keys(d) == Keys(e);
    if k in Keys(d) {
      IndexOfKeys(d, e, k);
    }
  }

  /** With distinct keys, popping item i leaves exactly the other items, keys still distinct. */
  lemma RemoveAtItems<K, V>(d: seq<(K, V)>, i: nat)
    requires DistinctKeys(d) && i < |d|
    ensures DistinctKeys(RemoveAt(d, i)) && |RemoveAt(d, i)| == |d| - 1
    ensures forall x :: x in RemoveAt(d, i) <==> x in d && x.0 != d[i].0
    ensures multiset(RemoveAt(d, i)) + multiset{d[i]} == multiset(d)
  {
    RemoveAtShifts(d, i);
    RemoveAtMembers(d, i);
    RemoveAtMultiset(d, i);
  }

  lemma RemoveAtShifts<K, V>(d: seq<(K, V)>, i: nat)
    requires i < |d|
    ensures |RemoveAt(d, i)| == |d| - 1
    ensures forall j :: 0 <= j < |d| - 1 ==> RemoveAt(d, i)[j] == if j < i then d[j] else d[j + 1]
  {
  }

  lemma RemoveAtMembers<K, V>(d: seq<(K, V)>, i: nat)
    requires DistinctKeys(d) && i < |d|
    ensures forall x :: x in RemoveAt(d, i) <==> x in d && x.0 != d[i].0
  {
    var r := RemoveAt(d, i);
    RemoveAtShifts(d, i);
    forall x | x in d && x.0 != d[i].0 ensures x in r {
      var j :| 0 <= j < |d| && d[j] == x;
      if j < i { assert r[j] == x; } else { assert r[j - 1] == x; }
    }
  }

  lemma RemoveAtMultiset<K, V>(d: seq<(K, V)>, i: nat)
    requires i < |d|
    ensures multiset(RemoveAt(d, i)) + multiset{d[i]} == multiset(d)
  {
    assert d == d[..i] + [d[i]] + d[i + 1..];
  }
}
