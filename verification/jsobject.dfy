/** A plain JavaScript object with string keys, as an association list in
    enumeration order. Assigning an existing key replaces its value in place;
    assigning a new key appends it, as property insertion does. Sorting by key
    models `Object.keys(o).sort()` followed by re-insertion into a fresh object. */
module JsObject {
  import opened Wrappers

  type Obj<V> = seq<(string, V)>

  /** `Object.keys(o)`. */
  function Keys<V>(o: Obj<V>): (ks: seq<string>)
    ensures |ks| == |o|
    ensures forall i :: 0 <= i < |o| ==> ks[i] == o[i].0
  {
    if |o| == 0 then [] else [o[0].0] + Keys(o[1..])
  }

  /** The keys of a JavaScript object are distinct. */
  predicate UniqueKeys<V>(o: Obj<V>) {
    forall i, j :: 0 <= i < j < |o| ==> o[i].0 != o[j].0
  }

  /** Position of key `k`, or -1 when `k` is not a key. */
  function KeyIndex<V>(o: Obj<V>, k: string): (r: int)
    ensures -1 <= r < |o|
    ensures r == -1 <==> k !in Keys(o)
    ensures r >= 0 ==> o[r].0 == k && forall j :: 0 <= j < r ==> o[j].0 != k
  {
    if |o| == 0 then -1
    else if o[0].0 == k then 0
    else
      var r := KeyIndex(o[1..], k);
      assert Keys(o) == [o[0].0] + Keys(o[1..]);
      if r == -1 then -1 else r + 1
  }

  /** `o[k]`, with `None` for a key the object does not have. */
  function Get<V>(o: Obj<V>, k: string): (r: Option<V>)
    ensures r.None? <==> k !in Keys(o)
    ensures r.Some? ==> (k, r.value) in o
  {
    var i := KeyIndex(o, k);
    if i < 0 then None else Some(o[i].1)
  }

  /** `KeyIndex` is determined by the first position carrying the key. */
  lemma KeyIndexIs<V>(o: Obj<V>, k: string, i: int)
    requires -1 <= i < |o|
    requires i >= 0 ==> o[i].0 == k && forall j :: 0 <= j < i ==> o[j].0 != k
    requires i == -1 ==> forall j :: 0 <= j < |o| ==> o[j].0 != k
    ensures KeyIndex(o, k) == i
  {
    var r := KeyIndex(o, k);
    if r == -1 {
      forall j | 0 <= j < |o| ensures o[j].0 != k {
        assert Keys(o)[j] == o[j].0;
      }
    }
  }

  lemma KeyIndexSameKeys<V, W>(a: Obj<V>, b: Obj<W>, k: string)
    requires |a| == |b|
    requires forall x :: 0 <= x < |a| ==> a[x].0 == b[x].0
    ensures KeyIndex(a, k) == KeyIndex(b, k)
  {
    KeyIndexIs(b, k, KeyIndex(a, k));
  }

  lemma KeyIndexAppend<V>(o: Obj<V>, k: string, v: V, k': string)
    requires k' != k
    ensures KeyIndex(o + [(k, v)], k') == KeyIndex(o, k')
  {
    KeyIndexIs(o + [(k, v)], k', KeyIndex(o, k'));
  }

  /** In an object with distinct keys, a lookup finds exactly the stored pairs. */
  lemma GetMember<V>(o: Obj<V>, k: string, v: V)
    requires UniqueKeys(o)
    ensures Get(o, k) == Some(v) <==> (k, v) in o
  {
    if (k, v) in o {
      var j :| 0 <= j < |o| && o[j] == (k, v);
      KeyIndexIs(o, k, j);
    }
  }

  /** `o[k] = v`: the key now maps to `v`, every other key is untouched, an
      existing key keeps its position and a new key goes last. */
  function Set<V>(o: Obj<V>, k: string, v: V): (r: Obj<V>)
    ensures Get(r, k) == Some(v)
    ensures forall k' :: k' != k ==> Get(r, k') == Get(o, k')
    ensures k in Keys(o) ==> Keys(r) == Keys(o)
    ensures k !in Keys(o) ==> Keys(r) == Keys(o) + [k]
    ensures UniqueKeys(o) ==> UniqueKeys(r)
  {
    var i := KeyIndex(o, k);
    if i < 0 then
      AppendKey(o, k, v);
      o + [(k, v)]
    else
      ReplaceKey(o, k, v, i);
      o[i := (k, v)]
  }

  /** Appending a pair under a new key. */
  lemma AppendKey<V>(o: Obj<V>, k: string, v: V)
    requires k !in Keys(o)
    ensures var r := o + [(k, v)];
      && Keys(r) == Keys(o) + [k]
      && (UniqueKeys(o) ==> UniqueKeys(r))
      && Get(r, k) == Some(v)
      && (forall k' :: k' != k ==> Get(r, k') == Get(o, k'))
  {
    var r := o + [(k, v)];
    assert Keys(r) == Keys(o) + [k];
    forall j | 0 <= j < |o| ensures o[j].0 != k {
      assert Keys(o)[j] == o[j].0;
    }
    AppendKeyGet(o, k, v);
  }

  lemma AppendKeyGet<V>(o: Obj<V>, k: string, v: V)
    requires forall j :: 0 <= j < |o| ==> o[j].0 != k
    ensures var r := o + [(k, v)];
      && Get(r, k) == Some(v)
      && (forall k' :: k' != k ==> Get(r, k') == Get(o, k'))
  {
    var r := o + [(k, v)];
    KeyIndexIs(r, k, |o|);
    forall k' | k' != k ensures Get(r, k') == Get(o, k') {
      KeyIndexAppend(o, k, v, k');
    }
  }

  /** Overwriting the pair at the key's position: the keys stay as they are. */
  lemma ReplaceKey<V>(o: Obj<V>, k: string, v: V, i: int)
    requires i == KeyIndex(o, k) && i >= 0
    ensures var r := o[i := (k, v)];
      && Keys(r) == Keys(o)
      && (UniqueKeys(o) ==> UniqueKeys(r))
      && Get(r, k) == Some(v)
      && (forall k' :: k' != k ==> Get(r, k') == Get(o, k'))
  {
    var r := o[i := (k, v)];
    assert Keys(r) == Keys(o);
    ReplaceKeyGet(o, k, v, i);
  }

  lemma ReplaceKeyGet<V>(o: Obj<V>, k: string, v: V, i: int)
    requires i == KeyIndex(o, k) && i >= 0
    ensures var r := o[i := (k, v)];
      && Get(r, k) == Some(v)
      && (forall k' :: k' != k ==> Get(r, k') == Get(o, k'))
  {
    var r := o[i := (k, v)];
    assert forall x :: 0 <= x < |r| ==> r[x].0 == o[x].0;
    KeyIndexSameKeys(r, o, k);
    forall k' | k' != k ensures Get(r, k') == Get(o, k') {
      KeyIndexSameKeys(r, o, k');
      var j := KeyIndex(o, k');
      if j >= 0 {
        assert j != i && r[j] == o[j];
      }
    }
  }

  /** Storing the value already found under a key changes nothing. */
  lemma SetUnchanged<V>(o: Obj<V>, k: string, v: V)
    requires Get(o, k) == Some(v)
    ensures Set(o, k, v) == o
  {
    var i := KeyIndex(o, k);
    assert o[i] == (k, v);
  }

  /** `Object.keys(o).map(k => [k, f(o[k])])` gathered into a new object. */
  function MapValues<V, W>(o: Obj<V>, f: V -> W): (r: Obj<W>)
    ensures Keys(r) == Keys(o)
    ensures forall i :: 0 <= i < |o| ==> r[i] == (o[i].0, f(o[i].1))
  {
    if |o| == 0 then [] else [(o[0].0, f(o[0].1))] + MapValues(o[1..], f)
  }

  // ---------------------------------------------------------------------------
  // Ordering of keys: `Array.prototype.sort` with no comparator

  /** Lexicographic order on strings: a proper prefix comes first, otherwise
      the first differing character decides. */
  predicate StrLt(a: string, b: string) {
    if |a| == 0 then |b| > 0
    else if |b| == 0 then false
    else if a[0] != b[0] then a[0] < b[0]
    else StrLt(a[1..], b[1..])
  }

  lemma {:induction false} StrLtIrreflexive(a: string)
    ensures !StrLt(a, a)
  {
    if |a| > 0 {
      StrLtIrreflexive(a[1..]);
    }
  }

  lemma {:induction false} StrLtTransitive(a: string, b: string, c: string)
    requires StrLt(a, b) && StrLt(b, c)
    ensures StrLt(a, c)
  {
    if |a| > 0 && a[0] == b[0] && b[0] == c[0] {
      StrLtTransitive(a[1..], b[1..], c[1..]);
    }
  }

  lemma {:induction false} StrLtTotal(a: string, b: string)
    requires a != b
    ensures StrLt(a, b) || StrLt(b, a)
  {
    if |a| > 0 && |b| > 0 && a[0] == b[0] {
      assert a == [a[0]] + a[1..] && b == [b[0]] + b[1..];
      StrLtTotal(a[1..], b[1..]);
    }
  }

  /** Keys strictly ascending (hence distinct). */
  predicate SortedByKey<V>(o: Obj<V>) {
    forall i, j :: 0 <= i < j < |o| ==> StrLt(o[i].0, o[j].0)
  }

  lemma SortedUnique<V>(o: Obj<V>)
    requires SortedByKey(o)
    ensures UniqueKeys(o)
  {
    forall i, j | 0 <= i < j < |o| ensures o[i].0 != o[j].0 {
      if o[i].0 == o[j].0 {
        StrLtIrreflexive(o[i].0);
      }
    }
  }

  lemma SortedCons<V>(y: (string, V), t: Obj<V>)
    requires SortedByKey(t)
    requires forall j :: 0 <= j < |t| ==> StrLt(y.0, t[j].0)
    ensures SortedByKey([y] + t)
  {
    var r := [y] + t;
    forall i, j | 0 <= i < j < |r| ensures StrLt(r[i].0, r[j].0) {
      if i > 0 {
        assert r[i] == t[i - 1] && r[j] == t[j - 1];
      } else {
        assert r[j] == t[j - 1];
      }
    }
  }

  lemma SortedTail<V>(o: Obj<V>)
    requires SortedByKey(o) && |o| > 0
    ensures SortedByKey(o[1..])
  {
    var o' := o[1..];
    forall i, j | 0 <= i < j < |o'| ensures StrLt(o'[i].0, o'[j].0) {
      assert o'[i] == o[i + 1] && o'[j] == o[j + 1];
    }
  }

  /** Inserting before the head: `x` is below every key of `o`. */
  lemma InsertFront<V>(x: (string, V), o: Obj<V>)
    requires SortedByKey(o) && |o| > 0 && StrLt(x.0, o[0].0)
    ensures SortedByKey([x] + o)
  {
    forall j | 0 < j < |o| ensures StrLt(x.0, o[j].0) {
      StrLtTransitive(x.0, o[0].0, o[j].0);
    }
    SortedCons(x, o);
  }

  /** Inserting after the head: the head stays below everything. */
  lemma InsertBehind<V>(x: (string, V), o: Obj<V>, t: Obj<V>)
    requires SortedByKey(o) && |o| > 0
    requires x.0 != o[0].0 && !StrLt(x.0, o[0].0)
    requires SortedByKey(t)
    requires forall i :: 0 <= i < |t| ==> t[i] == x || t[i] in o[1..]
    ensures SortedByKey([o[0]] + t)
  {
    StrLtTotal(x.0, o[0].0);
    forall j | 0 <= j < |t| ensures StrLt(o[0].0, t[j].0) {
      if t[j] != x {
        var m :| 0 <= m < |o[1..]| && o[1..][m] == t[j];
        assert o[m + 1] == t[j];
      }
    }
    SortedCons(o[0], t);
  }

  /** `x` placed before the first entry whose key is above its own. */
  function InsertByKey<V>(x: (string, V), o: Obj<V>): (r: Obj<V>)
    ensures multiset(r) == multiset(o) + multiset{x}
  {
    if |o| == 0 then [x]
    else if StrLt(x.0, o[0].0) then [x] + o
    else
      assert o == [o[0]] + o[1..];
      [o[0]] + InsertByKey(x, o[1..])
  }

  /** Inserting a new key into an ascending object keeps it ascending. */
  lemma {:induction false} InsertByKeySorted<V>(x: (string, V), o: Obj<V>)
    requires SortedByKey(o)
    requires x.0 !in Keys(o)
    ensures SortedByKey(InsertByKey(x, o))
  {
    if |o| > 0 {
      if StrLt(x.0, o[0].0) {
        InsertFront(x, o);
      } else {
        assert Keys(o) == [o[0].0] + Keys(o[1..]);
        SortedTail(o);
        InsertByKeySorted(x, o[1..]);
        var t := InsertByKey(x, o[1..]);
        forall i | 0 <= i < |t| ensures t[i] == x || t[i] in o[1..] {
          assert t[i] in multiset(t);
        }
        InsertBehind(x, o, t);
      }
    }
  }

  /** The object rebuilt with its keys in ascending order, by insertion. */
  function SortByKey<V>(o: Obj<V>): (r: Obj<V>)
    ensures multiset(r) == multiset(o)
  {
    if |o| == 0 then []
    else
      assert o == [o[0]] + o[1..];
      InsertByKey(o[0], SortByKey(o[1..]))
  }

  /** With distinct keys, the result of the sort is in ascending key order. */
  lemma {:induction false} SortByKeyAscending<V>(o: Obj<V>)
    requires UniqueKeys(o)
    ensures SortedByKey(SortByKey(o))
  {
    if |o| > 0 {
      var t := SortByKey(o[1..]);
      SortByKeyAscending(o[1..]);
      assert o[0].0 !in Keys(t) by {
        forall i | 0 <= i < |t| ensures t[i].0 != o[0].0 {
          assert t[i] in multiset(o[1..]);
          var j :| 0 <= j < |o[1..]| && o[1..][j] == t[i];
          assert o[j + 1] == t[i];
        }
      }
      InsertByKeySorted(o[0], t);
    }
  }

  lemma SortByKeySameEntries<V>(o: Obj<V>)
    ensures forall p :: p in SortByKey(o) <==> p in o
  {
    var r := SortByKey(o);
    forall p ensures p in r <==> p in o {
      assert p in r <==> p in multiset(r);
      assert p in o <==> p in multiset(o);
    }
  }

  lemma SortByKeyGet<V>(o: Obj<V>, k: string)
    requires UniqueKeys(o)
    ensures Get(SortByKey(o), k) == Get(o, k)
  {
    var r := SortByKey(o);
    SortByKeyAscending(o);
    SortedUnique(r);
    SortByKeySameEntries(o);
    if Get(o, k).Some? {
      var v := Get(o, k).value;
      GetMember(o, k, v);
      GetMember(r, k, v);
    } else {
      assert k !in Keys(r) by {
        forall i | 0 <= i < |r| ensures Keys(r)[i] != k {
          assert r[i] in multiset(r);
          assert r[i] in multiset(o);
          var j :| 0 <= j < |o| && o[j] == r[i];
          assert Keys(o)[j] == o[j].0;
        }
      }
    }
  }

  /** Sorting only reorders: the same keys map to the same values, and no key
      is gained or lost. */
  lemma {:induction false} SortByKeyPermutes<V>(o: Obj<V>)
    requires UniqueKeys(o)
    ensures forall k :: Get(SortByKey(o), k) == Get(o, k)
    ensures forall k :: k in Keys(SortByKey(o)) <==> k in Keys(o)
  {
    forall k ensures Get(SortByKey(o), k) == Get(o, k) {
      SortByKeyGet(o, k);
    }
    forall k ensures k in Keys(SortByKey(o)) <==> k in Keys(o) {
      SortByKeyGet(o, k);
    }
  }

  /** An object already in ascending key order is left as it is. */
  lemma {:induction false} SortByKeySorted<V>(o: Obj<V>)
    requires SortedByKey(o)
    ensures UniqueKeys(o) && SortByKey(o) == o
  {
    SortedUnique(o);
    if |o| > 0 {
      SortedTail(o);
      SortByKeySorted(o[1..]);
      assert SortByKey(o[1..]) == o[1..];
      if |o| > 1 {
        assert StrLt(o[0].0, o[1].0);
      }
    }
  }
}
