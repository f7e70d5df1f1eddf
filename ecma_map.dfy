/**
 * The JavaScript `Map` used by the supervisor, as section 24.1 of ECMA-262 describes it:
 * an insertion-ordered list of entries in which `delete` and `clear` overwrite entries with
 * "empty" (here: None) instead of removing them, and an iterator that walks the list by index
 * and skips empty entries. Keys are compared with SameValueZero, which for strings is equality.
 */
module EcmaMap {
  import opened Wrappers

  datatype Entry<K, V> = Entry(key: K, value: V)

  /** `M.[[MapData]]`: the entry list, with None for an entry that was deleted or cleared. */
  type Entries<K, V> = seq<Option<Entry<K, V>>>

  predicate HasKeyAt<K(==), V>(es: Entries<K, V>, i: int, k: K) {
    0 <= i < |es| && es[i].Some? && es[i].value.key == k
  }

  /** No key occurs in two live entries (kept by `set`, `delete` and `clear`). */
  predicate Unique<K(==), V>(es: Entries<K, V>) {
    forall i, j | 0 <= i < j < |es| && es[i].Some? && es[j].Some? :: es[i].value.key != es[j].value.key
  }

  /** The key/value view of the entry list. */
  function ToMap<K(==), V>(es: Entries<K, V>): map<K, V> {
    if |es| == 0 then map[]
    else
      var m := ToMap(es[..|es| - 1]);
      match es[|es| - 1]
      case None => m
      case Some(e) => m[e.key := e.value]
  }

  /** The position of the live entry for `k`, if any. */
  function Find<K(==), V>(es: Entries<K, V>, k: K): (r: Option<nat>)
    ensures r.Some? ==> HasKeyAt(es, r.value, k)
    ensures r.None? ==> forall i | 0 <= i < |es| :: !HasKeyAt(es, i, k)
  {
    if |es| == 0 then None
    else if HasKeyAt(es, |es| - 1, k) then Some(|es| - 1)
    else
      var r := Find(es[..|es| - 1], k);
      assert forall i | 0 <= i < |es| - 1 :: HasKeyAt(es, i, k) == HasKeyAt(es[..|es| - 1], i, k);
      r
  }

  /** `map.set(k, v)`: overwrite the value in place when the key is live, else append an entry. */
  function Set<K(==), V>(es: Entries<K, V>, k: K, v: V): Entries<K, V> {
    match Find(es, k)
    case Some(i) => es[i := Some(Entry(k, v))]
    case None => es + [Some(Entry(k, v))]
  }

  /** `map.delete(k)`: the live entry for `k`, if any, becomes empty. */
  function Delete<K(==), V>(es: Entries<K, V>, k: K): Entries<K, V> {
    match Find(es, k)
    case Some(i) => es[i := None]
    case None => es
  }

  /** `map.clear()`: every entry becomes empty; the list keeps its length. */
  function Clear<K(==), V>(es: Entries<K, V>): (r: Entries<K, V>)
    ensures |r| == |es| && forall i | 0 <= i < |r| :: r[i].None?
  {
    seq(|es|, i => None)
  }

  /** `map.size`: the number of live entries. */
  function Size<K(==), V>(es: Entries<K, V>): nat {
    if |es| == 0 then 0 else Size(es[..|es| - 1]) + (if es[|es| - 1].Some? then 1 else 0)
  }

  /** What an iterator from `map.values()` yields, in order, walking the list. */
  function LiveValues<K(==), V>(es: Entries<K, V>): seq<V> {
    if |es| == 0 then []
    else LiveValues(es[..|es| - 1]) + (if es[|es| - 1].Some? then [es[|es| - 1].value.value] else [])
  }

  // ---------------------------------------------------------------- lemmas

  /** A key is present in the view exactly when it has a live entry, and the view holds its value. */
  lemma {:induction false} ToMapFind<K, V>(es: Entries<K, V>, k: K)
    ensures (k in ToMap(es)) == Find(es, k).Some?
    ensures k in ToMap(es) ==> ToMap(es)[k] == es[Find(es, k).value].value.value
  {
    if |es| > 0 {
      var prefix := es[..|es| - 1];
      ToMapFind(prefix, k);
      if !HasKeyAt(es, |es| - 1, k) {
        assert Find(es, k) == Find(prefix, k);
        if Find(prefix, k).Some? {
          assert es[Find(prefix, k).value] == prefix[Find(prefix, k).value];
        }
      }
    }
  }

  lemma UniquePrefix<K, V>(es: Entries<K, V>)
    requires Unique(es) && |es| > 0
    ensures Unique(es[..|es| - 1])
  {
    var p := es[..|es| - 1];
    forall i, j | 0 <= i < j < |p| && p[i].Some? && p[j].Some? ensures p[i].value.key != p[j].value.key {
      assert p[i] == es[i] && p[j] == es[j];
    }
  }

  /** Under unique keys the key of the last live entry has no other live entry. */
  lemma LastKeyFresh<K, V>(es: Entries<K, V>)
    requires Unique(es) && |es| > 0 && es[|es| - 1].Some?
    ensures es[|es| - 1].value.key !in ToMap(es[..|es| - 1])
  {
    var prefix := es[..|es| - 1];
    var k := es[|es| - 1].value.key;
    ToMapFind(prefix, k);
    forall i | 0 <= i < |prefix| ensures !HasKeyAt(prefix, i, k) {
      assert prefix[i] == es[i];
    }
  }

  /** Overwriting the value of a live entry in place updates the view at that key. */
  lemma {:induction false} UpdateAt<K, V>(es: Entries<K, V>, i: nat, k: K, v: V)
    requires Unique(es) && HasKeyAt(es, i, k)
    ensures ToMap(es[i := Some(Entry(k, v))]) == ToMap(es)[k := v]
  {
    var n := |es| - 1;
    var es' := es[i := Some(Entry(k, v))];
    if i == n {
      assert es'[..n] == es[..n];
    } else {
      assert es'[..n] == es[..n][i := Some(Entry(k, v))];
      UniquePrefix(es);
      UpdateAt(es[..n], i, k, v);
      if es[n].Some? {
        assert es[n].value.key != k;
      }
    }
  }

  /** Emptying a live entry removes its key from the view. */
  lemma {:induction false} TombstoneAt<K, V>(es: Entries<K, V>, i: nat, k: K)
    requires Unique(es) && HasKeyAt(es, i, k)
    ensures ToMap(es[i := None]) == ToMap(es) - {k}
  {
    var n := |es| - 1;
    var es' := es[i := None];
    if i == n {
      assert es'[..n] == es[..n];
      LastKeyFresh(es);
    } else {
      assert es'[..n] == es[..n][i := None];
      UniquePrefix(es);
      TombstoneAt(es[..n], i, k);
      if es[n].Some? {
        assert es[n].value.key != k;
      }
    }
  }

  /** `set` keeps keys unique and updates the view at `k`. */
  lemma SetSpec<K, V>(es: Entries<K, V>, k: K, v: V)
    requires Unique(es)
    ensures Unique(Set(es, k, v))
    ensures ToMap(Set(es, k, v)) == ToMap(es)[k := v]
  {
    match Find(es, k)
    case Some(i) =>
      UpdateAt(es, i, k, v);
    case None =>
      var es' := es + [Some(Entry(k, v))];
      assert es'[..|es|] == es;
      forall i, j | 0 <= i < j < |es'| && es'[i].Some? && es'[j].Some?
        ensures es'[i].value.key != es'[j].value.key
      {
        if j == |es| { assert !HasKeyAt(es, i, k); }
      }
  }

  /** `delete` keeps keys unique and removes `k` from the view. */
  lemma DeleteSpec<K, V>(es: Entries<K, V>, k: K)
    requires Unique(es)
    ensures Unique(Delete(es, k))
    ensures ToMap(Delete(es, k)) == ToMap(es) - {k}
  {
    match Find(es, k)
    case Some(i) =>
      TombstoneAt(es, i, k);
    case None =>
      ToMapFind(es, k);
  }

  /** A list of empty entries has an empty view, size 0, and an iterator over it yields nothing. */
  lemma {:induction false} AllEmpty<K, V>(es: Entries<K, V>)
    requires forall i | 0 <= i < |es| :: es[i].None?
    ensures ToMap(es) == map[] && Size(es) == 0 && LiveValues(es) == []
  {
    if |es| > 0 {
      AllEmpty(es[..|es| - 1]);
    }
  }

  /** After `clear` the view is empty, keys are trivially unique, and iteration yields nothing. */
  lemma ClearSpec<K, V>(es: Entries<K, V>)
    ensures Unique(Clear(es))
    ensures ToMap(Clear(es)) == map[] && Size(Clear(es)) == 0 && LiveValues(Clear(es)) == []
  {
    AllEmpty(Clear(es));
  }

  /** `size` is zero exactly when the view is empty. */
  lemma {:induction false} SizeZero<K, V>(es: Entries<K, V>)
    ensures Size(es) == 0 <==> ToMap(es) == map[]
  {
    if |es| > 0 {
      SizeZero(es[..|es| - 1]);
      if es[|es| - 1].Some? {
        assert es[|es| - 1].value.key in ToMap(es);
      }
    }
  }

  /** Under unique keys `size` is the number of keys of the view. */
  lemma {:induction false} SizeIsCount<K, V>(es: Entries<K, V>)
    requires Unique(es)
    ensures Size(es) == |ToMap(es)|
  {
    if |es| > 0 {
      UniquePrefix(es);
      SizeIsCount(es[..|es| - 1]);
      if es[|es| - 1].Some? {
        LastKeyFresh(es);
      }
    }
  }

  /** Every value of the view is yielded by an iterator that walks the whole list. */
  lemma {:induction false} ValuesListed<K, V>(es: Entries<K, V>)
    ensures forall k | k in ToMap(es) :: ToMap(es)[k] in LiveValues(es)
  {
    if |es| > 0 {
      ValuesListed(es[..|es| - 1]);
    }
  }

  /** Under unique keys every value an iterator yields is a value of the view. */
  lemma {:induction false} LiveValuesMapped<K, V>(es: Entries<K, V>)
    requires Unique(es)
    ensures forall v | v in LiveValues(es) :: v in ToMap(es).Values
  {
    if |es| > 0 {
      var prefix := es[..|es| - 1];
      UniquePrefix(es);
      LiveValuesMapped(prefix);
      match es[|es| - 1]
      case None =>
      case Some(e) =>
        LastKeyFresh(es);
        forall v | v in LiveValues(es) ensures v in ToMap(es).Values {
          if v in LiveValues(prefix) {
            var k :| k in ToMap(prefix) && ToMap(prefix)[k] == v;
            assert ToMap(es)[k] == v;
          } else {
            assert ToMap(es)[e.key] == v;
          }
        }
    }
  }

  /** An iterator over the whole list yields one value per live entry. */
  lemma {:induction false} LiveValuesCount<K, V>(es: Entries<K, V>)
    ensures |LiveValues(es)| == Size(es)
  {
    if |es| > 0 {
      LiveValuesCount(es[..|es| - 1]);
    }
  }

  /** Under unique keys an iterator over the whole list yields each value of the view once per key. */
  lemma ValuesExact<K, V>(es: Entries<K, V>)
    requires Unique(es)
    ensures |LiveValues(es)| == |ToMap(es)|
    ensures forall k | k in ToMap(es) :: ToMap(es)[k] in LiveValues(es)
    ensures forall v | v in LiveValues(es) :: v in ToMap(es).Values
  {
    ValuesListed(es);
    LiveValuesMapped(es);
    LiveValuesCount(es);
    SizeIsCount(es);
  }

  /** Every value an iterator yields comes from a live entry of the list. */
  lemma {:induction false} LiveValuesFrom<K, V>(es: Entries<K, V>)
    ensures forall v | v in LiveValues(es) :: exists i | 0 <= i < |es| :: es[i].Some? && es[i].value.value == v
  {
    if |es| > 0 {
      var prefix := es[..|es| - 1];
      LiveValuesFrom(prefix);
      forall v | v in LiveValues(es) ensures exists i | 0 <= i < |es| :: es[i].Some? && es[i].value.value == v {
        if v in LiveValues(prefix) {
          var i :| 0 <= i < |prefix| && prefix[i].Some? && prefix[i].value.value == v;
          assert es[i] == prefix[i];
        } else {
          assert es[|es| - 1].Some? && es[|es| - 1].value.value == v;
        }
      }
    }
  }
}
