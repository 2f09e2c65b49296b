/**
 * `std::map` keyed by an address: entries in strictly increasing key order.  An iterator is an
 * index into the entries, `begin()` is 0 and `end()` is the length, so `--it` is `it - 1`.
 */
module OrderedMap {
  import opened Machine

  datatype Entry<V> = Entry(key: Word, value: V)

  type Entries<V> = seq<Entry<V>>

  ghost predicate Sorted<V>(es: Entries<V>) {
    forall i, j :: 0 <= i < j < |es| ==> es[i].key < es[j].key
  }

  /** The abstract map the entries stand for. */
  ghost function ToMap<V>(es: Entries<V>): map<Word, V> {
    if es == [] then map[]
    else ToMap(es[..|es| - 1])[es[|es| - 1].key := es[|es| - 1].value]
  }

  lemma {:induction false} KeyInMap<V>(es: Entries<V>, i: nat)
    requires Sorted(es) && i < |es|
    ensures es[i].key in ToMap(es) && ToMap(es)[es[i].key] == es[i].value
  {
    if i < |es| - 1 {
      KeyInMap(es[..|es| - 1], i);
    }
  }

  lemma {:induction false} MapToKey<V>(es: Entries<V>, k: Word) returns (i: nat)
    requires Sorted(es) && k in ToMap(es)
    ensures i < |es| && es[i].key == k && ToMap(es)[k] == es[i].value
  {
    i := |es| - 1;
    if es[i].key != k {
      i := MapToKey(es[..|es| - 1], k);
    }
  }

  /** `i` is `lower_bound(k)`: the first entry whose key is not below `k`. */
  ghost predicate IsLowerBound<V>(es: Entries<V>, k: Word, i: nat) {
    && i <= |es|
    && (forall j :: 0 <= j < i ==> es[j].key < k)
    && (forall j :: i <= j < |es| ==> k <= es[j].key)
  }

  /** `i` is `upper_bound(k)`: the first entry whose key is above `k`. */
  ghost predicate IsUpperBound<V>(es: Entries<V>, k: Word, i: nat) {
    && i <= |es|
    && (forall j :: 0 <= j < i ==> es[j].key <= k)
    && (forall j :: i <= j < |es| ==> k < es[j].key)
  }

  method LowerBound<V>(es: Entries<V>, k: Word) returns (i: nat)
    requires Sorted(es)
    ensures IsLowerBound(es, k, i)
  {
    i := 0;
    var hi := |es|;
    while i < hi
      invariant i <= hi <= |es|
      invariant forall j :: 0 <= j < i ==> es[j].key < k
      invariant forall j :: hi <= j < |es| ==> k <= es[j].key
    {
      var mid := (i + hi) / 2;
      if es[mid].key < k {
        i := mid + 1;
      } else {
        hi := mid;
      }
    }
  }

  method UpperBound<V>(es: Entries<V>, k: Word) returns (i: nat)
    requires Sorted(es)
    ensures IsUpperBound(es, k, i)
  {
    i := 0;
    var hi := |es|;
    while i < hi
      invariant i <= hi <= |es|
      invariant forall j :: 0 <= j < i ==> es[j].key <= k
      invariant forall j :: hi <= j < |es| ==> k < es[j].key
    {
      var mid := (i + hi) / 2;
      if es[mid].key <= k {
        i := mid + 1;
      } else {
        hi := mid;
      }
    }
  }

  /** `find(k)`: the iterator of `k`, or `end()`. */
  method Find<V>(es: Entries<V>, k: Word) returns (i: nat)
    requires Sorted(es)
    ensures i <= |es|
    ensures i < |es| <==> k in ToMap(es)
    ensures i < |es| ==> es[i].key == k && ToMap(es)[k] == es[i].value
  {
    i := LowerBound(es, k);
    if i < |es| && es[i].key == k {
      KeyInMap(es, i);
    } else {
      AbsentBetween(es, i, k);
      i := |es|;
    }
  }

  /** `emplace(k, v)`: the entries afterwards and whether anything was inserted. */
  method Emplace<V>(es: Entries<V>, k: Word, v: V) returns (r: Entries<V>, inserted: bool)
    requires Sorted(es)
    ensures Sorted(r)
    ensures inserted <==> k !in ToMap(es)
    ensures ToMap(r) == if k in ToMap(es) then ToMap(es) else ToMap(es)[k := v]
  {
    var i := LowerBound(es, k);
    if i < |es| && es[i].key == k {
      KeyInMap(es, i);
      return es, false;
    }
    InsertKeepsOrder(es, i, k, v);
    return es[..i] + [Entry(k, v)] + es[i..], true;
  }

  /** `erase(it)` */
  method Erase<V>(es: Entries<V>, it: nat) returns (r: Entries<V>)
    requires Sorted(es) && it < |es|
    ensures Sorted(r)
    ensures ToMap(r) == ToMap(es) - {es[it].key}
  {
    EraseKeepsOrder(es, it);
    return es[..it] + es[it + 1..];
  }

  lemma AbsentBetween<V>(es: Entries<V>, i: nat, k: Word)
    requires Sorted(es) && IsLowerBound(es, k, i) && (i < |es| ==> es[i].key != k)
    ensures k !in ToMap(es)
  {
    if k in ToMap(es) {
      var j := MapToKey(es, k);
    }
  }

  /** `r` is `es` with `e` inserted before position `i`. */
  ghost predicate InsertedAt<V>(es: Entries<V>, i: nat, e: Entry<V>, r: Entries<V>) {
    i <= |es| && r == es[..i] + [e] + es[i..]
  }

  lemma InsertedOrder<V>(es: Entries<V>, i: nat, e: Entry<V>, r: Entries<V>)
    requires Sorted(es) && InsertedAt(es, i, e, r)
    requires forall j :: 0 <= j < i ==> es[j].key < e.key
    requires forall j :: i <= j < |es| ==> e.key < es[j].key
    ensures Sorted(r)
  {
    forall a, b | 0 <= a < b < |r|
      ensures r[a].key < r[b].key
    {
      if a != i && b != i {
        var a', b' := if a < i then a else a - 1, if b < i then b else b - 1;
        assert es[a'].key < es[b'].key;
      }
    }
  }

  lemma OldKeyKept<V>(es: Entries<V>, i: nat, e: Entry<V>, r: Entries<V>, x: Word)
    requires Sorted(es) && Sorted(r) && InsertedAt(es, i, e, r)
    requires x in ToMap(es)
    ensures x in ToMap(r) && ToMap(r)[x] == ToMap(es)[x] && x != e.key
  {
    var j := MapToKey(es, x);
    var j' := if j < i then j else j + 1;
    assert r[j'] == es[j] && r[i] == e;
    KeyInMap(r, j');
  }

  lemma NewKeyIsOld<V>(es: Entries<V>, i: nat, e: Entry<V>, r: Entries<V>, x: Word)
    requires Sorted(es) && Sorted(r) && InsertedAt(es, i, e, r)
    requires x in ToMap(r) && x != e.key
    ensures x in ToMap(es)
  {
    var j := MapToKey(r, x);
    assert r[i] == e;
    var j' := if j < i then j else j - 1;
    assert es[j'] == r[j];
    KeyInMap(es, j');
  }

  lemma InsertedContents<V>(es: Entries<V>, i: nat, e: Entry<V>, r: Entries<V>)
    requires Sorted(es) && Sorted(r) && InsertedAt(es, i, e, r)
    ensures e.key !in ToMap(es)
    ensures ToMap(r) == ToMap(es)[e.key := e.value]
  {
    forall x | x in ToMap(es)
      ensures x in ToMap(r) && ToMap(r)[x] == ToMap(es)[x] && x != e.key
    {
      OldKeyKept(es, i, e, r, x);
    }
    forall x | x in ToMap(r) && x != e.key
      ensures x in ToMap(es)
    {
      NewKeyIsOld(es, i, e, r, x);
    }
    assert r[i] == e;
    KeyInMap(r, i);
  }

  lemma InsertKeepsOrder<V>(es: Entries<V>, i: nat, k: Word, v: V)
    requires Sorted(es) && i <= |es|
    requires forall j :: 0 <= j < i ==> es[j].key < k
    requires forall j :: i <= j < |es| ==> k < es[j].key
    ensures Sorted(es[..i] + [Entry(k, v)] + es[i..])
    ensures k !in ToMap(es)
    ensures ToMap(es[..i] + [Entry(k, v)] + es[i..]) == ToMap(es)[k := v]
  {
    var r := es[..i] + [Entry(k, v)] + es[i..];
    InsertedOrder(es, i, Entry(k, v), r);
    InsertedContents(es, i, Entry(k, v), r);
  }

  lemma ErasedOrder<V>(es: Entries<V>, i: nat, r: Entries<V>)
    requires Sorted(es) && i < |es| && r == es[..i] + es[i + 1..]
    ensures Sorted(r)
  {
    forall a, b | 0 <= a < b < |r|
      ensures r[a].key < r[b].key
    {
      var a', b' := if a < i then a else a + 1, if b < i then b else b + 1;
      assert r[a] == es[a'] && r[b] == es[b'];
    }
  }

  lemma UndoInsert<V>(m: map<Word, V>, k: Word, v: V, m': map<Word, V>)
    requires k !in m && m' == m[k := v]
    ensures m == m' - {k}
  {
  }

  lemma EraseKeepsOrder<V>(es: Entries<V>, i: nat)
    requires Sorted(es) && i < |es|
    ensures Sorted(es[..i] + es[i + 1..])
    ensures ToMap(es[..i] + es[i + 1..]) == ToMap(es) - {es[i].key}
  {
    var r := es[..i] + es[i + 1..];
    ErasedOrder(es, i, r);
    assert es == r[..i] + [es[i]] + r[i..];
    InsertedContents(r, i, es[i], es);
    UndoInsert(ToMap(r), es[i].key, es[i].value, ToMap(es));
  }

  /** The number of entries is the number of keys. */
  lemma {:induction false} SizeIsKeyCount<V>(es: Entries<V>)
    requires Sorted(es)
    ensures |es| == |ToMap(es)|
  {
    if |es| > 0 {
      var last := es[|es| - 1];
      var front := es[..|es| - 1];
      SizeIsKeyCount(front);
      assert front + [last] + [] == es;
      InsertKeepsOrder(front, |front|, last.key, last.value);
      assert front[..|front|] + [Entry(last.key, last.value)] + front[|front|..] == es;
    }
  }
}
