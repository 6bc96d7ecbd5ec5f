/** Failure-carrying results for operations that can refuse their input. */
module Wrappers {

  datatype Result<+T, +E> = Success(value: T) | Failure(error: E)
}

/** Small facts about sequences and sets used throughout the model. */
module Seqs {

  /** No element occurs twice. */
  predicate Distinct<T(==)>(s: seq<T>)
  {
    forall i, j :: 0 <= i < j < |s| ==> s[i] != s[j]
  }

  /** Two lists without repeats and without common elements concatenate to a list without repeats. */
  lemma DistinctConcat<T>(a: seq<T>, b: seq<T>)
    requires Distinct(a) && Distinct(b)
    requires forall i, j :: 0 <= i < |a| && 0 <= j < |b| ==> a[i] != b[j]
    ensures Distinct(a + b)
  {
    forall i, j | 0 <= i < j < |a + b| ensures (a + b)[i] != (a + b)[j] {
      if j < |a| {
        assert (a + b)[i] == a[i] && (a + b)[j] == a[j];
      } else if i >= |a| {
        assert (a + b)[i] == b[i - |a|] && (a + b)[j] == b[j - |a|];
      } else {
        assert (a + b)[i] == a[i] && (a + b)[j] == b[j - |a|];
      }
    }
  }

  /** A subset is no larger than its superset. */
  lemma SubsetCardinality<T>(a: set<T>, b: set<T>)
    requires a <= b
    ensures |a| <= |b|
  {
    assert b == a + (b - a);
  }
}

/**
  A Python `dict`: an insertion-ordered list of key/value entries.
  Assigning to a key that is already present replaces its value in place,
  so the key keeps its original position; a new key is appended at the end.
  Iterating `items()` or `values()` follows this order.
 */
module Dict {

  type Dict<K, V> = seq<(K, V)>

  /** Every key occurs once, as in any dictionary Python builds. */
  predicate DistinctKeys<K(==), V>(d: Dict<K, V>)
  {
    forall i, j :: 0 <= i < j < |d| ==> d[i].0 != d[j].0
  }

  function KeySet<K, V>(d: Dict<K, V>): set<K>
  {
    set i | 0 <= i < |d| :: d[i].0
  }

  /** The values in iteration order, one per entry (repetitions kept). */
  function Values<K, V>(d: Dict<K, V>): seq<V>
  {
    seq(|d|, i requires 0 <= i < |d| => d[i].1)
  }

  /** The keys of a non-empty dictionary: its first key and the keys of the rest. */
  lemma KeySetCons<K, V>(d: Dict<K, V>)
    requires d != []
    ensures KeySet(d) == {d[0].0} + KeySet(d[1..])
  {
    forall k | k in KeySet(d) ensures k in {d[0].0} + KeySet(d[1..]) {
      var i :| 0 <= i < |d| && d[i].0 == k;
      if i > 0 { assert d[1..][i - 1].0 == k; }
    }
    forall k | k in KeySet(d[1..]) ensures k in KeySet(d) {
      var i :| 0 <= i < |d[1..]| && d[1..][i].0 == k;
      assert d[i + 1].0 == k;
    }
  }

  /** Position of the first entry with key `k`. */
  function IndexOf<K(==), V>(d: Dict<K, V>, k: K): (i: nat)
    requires k in KeySet(d)
    ensures i < |d| && d[i].0 == k
    ensures forall j :: 0 <= j < i ==> d[j].0 != k
  {
    if d[0].0 == k then 0
    else
      assert k in KeySet(d[1..]) by {
        var i :| 0 <= i < |d| && d[i].0 == k;
        assert d[1..][i - 1].0 == k;
      }
      1 + IndexOf(d[1..], k)
  }

  /** The first entry with key `k` is the one `IndexOf` finds. */
  lemma IndexOfIsFirst<K, V>(d: Dict<K, V>, k: K, i: nat)
    requires i < |d| && d[i].0 == k
    requires forall j :: 0 <= j < i ==> d[j].0 != k
    ensures k in KeySet(d) && IndexOf(d, k) == i
  {
    var j := IndexOf(d, k);
    assert !(j < i) && !(i < j);
  }

  /** The dictionary as a finite map: what `d[k]` returns for each key. */
  function ToMap<K(==), V>(d: Dict<K, V>): (m: map<K, V>)
    ensures m.Keys == KeySet(d)
    ensures DistinctKeys(d) ==> forall i :: 0 <= i < |d| ==> m[d[i].0] == d[i].1
  {
    var m := map k | k in KeySet(d) :: d[IndexOf(d, k)].1;
    assert DistinctKeys(d) ==> forall i :: 0 <= i < |d| ==> m[d[i].0] == d[i].1 by {
      if DistinctKeys(d) {
        forall i | 0 <= i < |d| ensures m[d[i].0] == d[i].1 {
          IndexOfIsFirst(d, d[i].0, i);
        }
      }
    }
    m
  }

  /** Assignment to a key: replaces the value in place when the key is present, appends a new entry otherwise. */
  function Put<K(==), V>(d: Dict<K, V>, k: K, v: V): (d': Dict<K, V>)
    ensures ToMap(d') == ToMap(d)[k := v]
    ensures |d'| == if k in KeySet(d) then |d| else |d| + 1
    ensures forall i :: 0 <= i < |d| ==> d'[i].0 == d[i].0
    ensures KeySet(d') == KeySet(d) + {k}
    ensures DistinctKeys(d) ==> DistinctKeys(d')
  {
    var d' := if k in KeySet(d) then d[IndexOf(d, k) := (k, v)] else d + [(k, v)];
    assert |d'| == if k in KeySet(d) then |d| else |d| + 1;
    assert forall i :: 0 <= i < |d| ==> d'[i].0 == d[i].0;
    PutKeys(d, k, v, d');
    PutValues(d, k, v, d');
    if DistinctKeys(d) then PutDistinct(d, k, v, d'); d' else d'
  }

  lemma PutDistinct<K, V>(d: Dict<K, V>, k: K, v: V, d': Dict<K, V>)
    requires d' == if k in KeySet(d) then d[IndexOf(d, k) := (k, v)] else d + [(k, v)]
    requires DistinctKeys(d)
    ensures DistinctKeys(d')
  {
    forall i, j | 0 <= i < j < |d'| ensures d'[i].0 != d'[j].0 {
      if j == |d| {
        assert d[i].0 in KeySet(d);
      } else {
        assert d'[i].0 == d[i].0 && d'[j].0 == d[j].0;
      }
    }
  }

  lemma PutKeys<K, V>(d: Dict<K, V>, k: K, v: V, d': Dict<K, V>)
    requires d' == if k in KeySet(d) then d[IndexOf(d, k) := (k, v)] else d + [(k, v)]
    ensures KeySet(d') == KeySet(d) + {k}
  {
    forall x | x in KeySet(d') ensures x in KeySet(d) + {k} {
      var i :| 0 <= i < |d'| && d'[i].0 == x;
      if i < |d| && x != k { assert d[i].0 == x; }
    }
    forall x | x in KeySet(d) ensures x in KeySet(d') {
      var i :| 0 <= i < |d| && d[i].0 == x;
      assert d'[i].0 == x;
    }
    assert d'[if k in KeySet(d) then IndexOf(d, k) else |d|].0 == k;
  }

  lemma PutValues<K, V>(d: Dict<K, V>, k: K, v: V, d': Dict<K, V>)
    requires d' == if k in KeySet(d) then d[IndexOf(d, k) := (k, v)] else d + [(k, v)]
    requires KeySet(d') == KeySet(d) + {k}
    ensures ToMap(d') == ToMap(d)[k := v]
  {
    var m, m' := ToMap(d), ToMap(d');
    forall x | x in m' ensures m'[x] == m[k := v][x] {
      if x == k {
        PutValueAt(d, k, v, d');
      } else {
        PutValueElsewhere(d, k, v, d', x);
      }
    }
  }

  lemma PutValueAt<K, V>(d: Dict<K, V>, k: K, v: V, d': Dict<K, V>)
    requires d' == if k in KeySet(d) then d[IndexOf(d, k) := (k, v)] else d + [(k, v)]
    requires k in KeySet(d')
    ensures ToMap(d')[k] == v
  {
    if k in KeySet(d) {
      IndexOfIsFirst(d', k, IndexOf(d, k));
    } else {
      forall j | 0 <= j < |d| ensures d'[j].0 != k {
        assert d[j].0 in KeySet(d);
      }
      IndexOfIsFirst(d', k, |d|);
    }
  }

  lemma PutValueElsewhere<K, V>(d: Dict<K, V>, k: K, v: V, d': Dict<K, V>, x: K)
    requires d' == if k in KeySet(d) then d[IndexOf(d, k) := (k, v)] else d + [(k, v)]
    requires x != k && x in KeySet(d') && x in KeySet(d)
    ensures ToMap(d')[x] == ToMap(d)[x]
  {
    var i := IndexOf(d', x);
    assert i < |d| && d[i] == d'[i];
    forall j | 0 <= j < i ensures d[j].0 != x {
      assert d'[j].0 != x;
    }
    IndexOfIsFirst(d, x, i);
  }

  /** Assigning to the same key twice leaves only the second value. */
  lemma PutTwice<K, V>(d: Dict<K, V>, k: K, v1: V, v2: V)
    ensures ToMap(Put(Put(d, k, v1), k, v2)) == ToMap(d)[k := v2]
  {
    var m := ToMap(d);
    assert ToMap(Put(d, k, v1)) == m[k := v1];
    assert m[k := v1][k := v2] == m[k := v2];
  }

  /** A dictionary with distinct keys has exactly as many keys as entries. */
  lemma {:induction false} KeyCount<K, V>(d: Dict<K, V>)
    requires DistinctKeys(d)
    ensures |KeySet(d)| == |d|
  {
    if d != [] {
      KeyCount(d[..|d| - 1]);
      assert KeySet(d) == KeySet(d[..|d| - 1]) + {d[|d| - 1].0} by {
        forall x | x in KeySet(d) ensures x in KeySet(d[..|d| - 1]) + {d[|d| - 1].0} {
          var i :| 0 <= i < |d| && d[i].0 == x;
          if i < |d| - 1 { assert d[..|d| - 1][i].0 == x; }
        }
      }
      assert d[|d| - 1].0 !in KeySet(d[..|d| - 1]);
    }
  }
}
