/**
 * The key order of a plain JavaScript object used as a dictionary.
 *
 * A dictionary is modelled as a `map` together with a sequence that lists its
 * keys in insertion order, which is the order `Object.keys` and
 * `Object.entries` enumerate.  Assigning to an existing key keeps its place,
 * a new key goes last, and `delete` takes the key out of the order.
 */
module JsObject {
  import opened Wrappers

  /** Property names of a JavaScript object are strings. */
  type Key = string

  /** No key occurs twice. */
  predicate NoDup(s: seq<Key>) {
    forall i, j :: 0 <= i < j < |s| ==> s[i] != s[j]
  }

  /** `order` lists exactly the keys of `m`, each once. */
  predicate Ordered<V>(order: seq<Key>, m: map<Key, V>) {
    && NoDup(order)
    && (forall k :: k in m ==> k in order)
    && (forall k :: k in order ==> k in m)
  }

  /** The key order after `obj[k] = v`. */
  function InsertKey(order: seq<Key>, k: Key): (r: seq<Key>)
    ensures forall x :: x in r <==> x in order || x == k
    ensures NoDup(order) ==> NoDup(r)
    ensures |order| <= |r| && forall i :: 0 <= i < |order| ==> r[i] == order[i]
    ensures |r| == |order| <==> k in order
  {
    if k in order then order else order + [k]
  }

  /** The key order after `delete obj[k]`. */
  function DeleteKey(order: seq<Key>, k: Key): (r: seq<Key>)
    ensures forall x :: x in r <==> x in order && x != k
    ensures NoDup(order) ==> NoDup(r)
    ensures k !in order ==> r == order
  {
    if |order| == 0 then []
    else
      NoDupTail(order);
      var rest := DeleteKey(order[1..], k);
      if order[0] == k then rest
      else
        NoDupCons(order[0], rest);
        [order[0]] + rest
  }

  /** Dropping the first key keeps the rest free of duplicates, and the first key does not recur. */
  lemma NoDupTail(s: seq<Key>)
    requires |s| > 0
    ensures NoDup(s) ==> NoDup(s[1..]) && s[0] !in s[1..]
  {
    if NoDup(s) {
      forall a, b | 0 <= a < b < |s[1..]| ensures s[1..][a] != s[1..][b] {
        assert s[1..][a] == s[a + 1] && s[1..][b] == s[b + 1];
      }
      forall j | 0 <= j < |s[1..]| ensures s[1..][j] != s[0] {
        assert s[1..][j] == s[j + 1];
      }
    }
  }

  /** A key put in front of a duplicate-free sequence that lacks it keeps it duplicate-free. */
  lemma NoDupCons(x: Key, s: seq<Key>)
    ensures x !in s && NoDup(s) ==> NoDup([x] + s)
  {
    if x !in s && NoDup(s) {
      forall a, b | 0 <= a < b < |[x] + s| ensures ([x] + s)[a] != ([x] + s)[b] {
        assert ([x] + s)[b] == s[b - 1];
        if a > 0 { assert ([x] + s)[a] == s[a - 1]; }
      }
    }
  }

  /** `delete` takes out the one occurrence of the key and leaves the others in place. */
  lemma {:induction false} DeleteKeyAt(order: seq<Key>, k: Key, i: nat)
    requires NoDup(order) && i < |order| && order[i] == k
    ensures DeleteKey(order, k) == order[..i] + order[i + 1..]
  {
    NoDupTail(order);
    if i == 0 {
      assert order[1..] == order[i + 1..];
    } else {
      DeleteKeyAt(order[1..], k, i - 1);
      assert order[0] != k;
      assert order[..i] == [order[0]] + order[1..][..i - 1];
      assert order[i + 1..] == order[1..][i..];
    }
  }

  /** `k` is a key whose value satisfies `p`, and no key before it in `order` has such a value. */
  ghost predicate IsFirst<V>(order: seq<Key>, m: map<Key, V>, p: V -> bool, k: Key)
  {
    && k in m && p(m[k])
    && forall j, i :: 0 <= j < i < |order| && order[i] == k && order[j] in m ==> !p(m[order[j]])
  }

  /** Two keys that both come first among those satisfying `p` are the same key. */
  lemma FirstIsUnique<V>(order: seq<Key>, m: map<Key, V>, p: V -> bool, a: Key, b: Key)
    requires Ordered(order, m)
    requires IsFirst(order, m, p, a) && IsFirst(order, m, p, b)
    ensures a == b
  {
    var i :| 0 <= i < |order| && order[i] == a;
    var j :| 0 <= j < |order| && order[j] == b;
    // neither index can come before the other, or its key would not be first
    assert !(i < j) && !(j < i);
  }

  /**
   * The linear scan `find` over `Object.keys(m)` or `Object.entries(m)`: the
   * first key in insertion order whose value satisfies `p`, or `None`.
   */
  method FindKey<V>(order: seq<Key>, m: map<Key, V>, p: V -> bool) returns (r: Option<Key>)
    requires Ordered(order, m)
    ensures r.Some? ==> IsFirst(order, m, p, r.value)
    ensures r.None? <==> forall k :: k in m ==> !p(m[k])
  {
    var i := 0;
    while i < |order|
      invariant 0 <= i <= |order|
      invariant forall j :: 0 <= j < i ==> !p(m[order[j]])
    {
      if p(m[order[i]]) {
        return Some(order[i]);
      }
      i := i + 1;
    }
    return None;
  }

  /** Assigning a property keeps the key order consistent with the object. */
  lemma InsertKeyOrdered<V>(order: seq<Key>, m: map<Key, V>, k: Key, v: V)
    requires Ordered(order, m)
    ensures Ordered(InsertKey(order, k), m[k := v])
  {
    var r := InsertKey(order, k);
    forall x | x in m[k := v] ensures x in r {
      if x != k { assert x in m; }
    }
  }

  /** Deleting a property the object does not have changes neither the object nor its key order. */
  lemma DeleteAbsentKey<V>(order: seq<Key>, m: map<Key, V>, k: Key)
    requires Ordered(order, m)
    requires k !in m
    ensures DeleteKey(order, k) == order && m - {k} == m
  {
    assert k !in order;
  }

  /** Deleting a property keeps the key order consistent with the object. */
  lemma DeleteKeyOrdered<V>(order: seq<Key>, m: map<Key, V>, k: Key)
    requires Ordered(order, m)
    ensures Ordered(DeleteKey(order, k), m - {k})
  {
    var r := DeleteKey(order, k);
    forall x | x in m - {k} ensures x in r {
      assert x in m;
    }
  }
}

