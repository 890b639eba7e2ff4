/**
 * SortedDictionary<string, V> as the codec uses it: a sequence of entries in
 * strictly ascending key order, so that no key occurs twice.  The default
 * string comparer is modelled by ordinal (character code) order.
 */
module SortedDictionary {
  import opened Wrappers
  import opened DotNet

  type Entries<V> = seq<(string, V)>

  /** Ordinal order: the first differing character decides; a proper prefix comes first. */
  predicate Less(a: string, b: string)
    decreases |a|
  {
    if |a| == 0 then |b| > 0
    else if |b| == 0 then false
    else if a[0] != b[0] then a[0] < b[0]
    else Less(a[1..], b[1..])
  }

  lemma {:induction false} LessIrreflexive(a: string)
    ensures !Less(a, a)
  {
    if |a| > 0 {
      LessIrreflexive(a[1..]);
    }
  }

  lemma {:induction false} LessTransitive(a: string, b: string, c: string)
    requires Less(a, b) && Less(b, c)
    ensures Less(a, c)
  {
    if |a| > 0 && a[0] == b[0] && b[0] == c[0] {
      LessTransitive(a[1..], b[1..], c[1..]);
    }
  }

  lemma {:induction false} LessTotal(a: string, b: string)
    requires a != b
    ensures Less(a, b) || Less(b, a)
  {
    if |a| > 0 && |b| > 0 && a[0] == b[0] {
      assert a == [a[0]] + a[1..] && b == [b[0]] + b[1..];
      LessTotal(a[1..], b[1..]);
    }
  }

  /** The dictionary's representation invariant: keys strictly ascending. */
  predicate Sorted<V>(m: Entries<V>) {
    forall i, j :: 0 <= i < j < |m| ==> Less(m[i].0, m[j].0)
  }

  /** The value stored under key, if any (the first such entry). */
  function Lookup<V>(m: Entries<V>, key: string): Option<V> {
    if |m| == 0 then None
    else if m[0].0 == key then Some(m[0].1)
    else Lookup(m[1..], key)
  }

  lemma {:induction false} LookupMissing<V>(m: Entries<V>, key: string)
    requires forall i :: 0 <= i < |m| ==> m[i].0 != key
    ensures Lookup(m, key) == None
  {
    if |m| > 0 {
      LookupMissing(m[1..], key);
    }
  }

  /** In a sorted dictionary every entry is found under its own key. */
  lemma {:induction false} LookupAt<V>(m: Entries<V>, i: nat)
    requires Sorted(m) && i < |m|
    ensures Lookup(m, m[i].0) == Some(m[i].1)
  {
    if i > 0 {
      LessIrreflexive(m[0].0);
      LookupAt(m[1..], i - 1);
    }
  }

  /** A key below the first key of a sorted dictionary is not in it. */
  lemma {:induction false} LookupBelowFirst<V>(m: Entries<V>, key: string)
    requires Sorted(m) && |m| > 0 && Less(key, m[0].0)
    ensures Lookup(m, key) == None
  {
    LessIrreflexive(key);
    forall i | 0 <= i < |m| ensures m[i].0 != key {
      if i > 0 {
        LessTransitive(key, m[0].0, m[i].0);
        LessIrreflexive(key);
      }
    }
    LookupMissing(m, key);
  }

  /**
   * SortedDictionary's indexer set: insert key at its place in key order, or
   * replace the value already stored under it.
   */
  function Put<V>(m: Entries<V>, key: string, v: V): (r: Entries<V>)
    requires Sorted(m)
    ensures Sorted(r)
    ensures forall k :: Lookup(r, k) == if k == key then Some(v) else Lookup(m, k)
    ensures forall e :: e in r ==> e == (key, v) || e in m
  {
    if |m| == 0 then [(key, v)]
    else if m[0].0 == key then
      assert forall k :: k != key ==> Lookup(m, k) == Lookup(m[1..], k);
      [(key, v)] + m[1..]
    else if Less(key, m[0].0) then
      LessIrreflexive(key);
      assert forall j :: 0 <= j < |m| ==> Less(key, m[j].0) by {
        forall j | 0 < j < |m| ensures Less(key, m[j].0) {
          LessTransitive(key, m[0].0, m[j].0);
        }
      }
      [(key, v)] + m
    else
      LessTotal(key, m[0].0);
      var t := Put(m[1..], key, v);
      assert forall e :: e in t ==> Less(m[0].0, e.0) by {
        forall e | e in t ensures Less(m[0].0, e.0) {
          if e != (key, v) {
            var j :| 0 <= j < |m[1..]| && m[1..][j] == e;
            assert m[j + 1] == e;
          }
        }
      }
      assert forall j :: 0 <= j < |t| ==> t[j] in t;
      [m[0]] + t
  }

  /** Inserting a key above every key of the dictionary appends it. */
  lemma {:induction false} PutGreatest<V>(m: Entries<V>, key: string, v: V)
    requires Sorted(m)
    requires forall i :: 0 <= i < |m| ==> Less(m[i].0, key)
    ensures Put(m, key, v) == m + [(key, v)]
  {
    if |m| > 0 {
      LessIrreflexive(key);
      if Less(key, m[0].0) {
        LessTransitive(key, m[0].0, key);
      }
      PutGreatest(m[1..], key, v);
      assert [m[0]] + (m[1..] + [(key, v)]) == m + [(key, v)];
    }
  }

  /** SortedDictionary.Add: a null key or a key already present throws; otherwise the entry is inserted. */
  function Add<V>(m: Entries<V>, key: Option<string>, v: V): (r: Result<Entries<V>, Exception>)
    requires Sorted(m)
    ensures r.Success? <==> key.Some? && Lookup(m, key.value).None?
    ensures r.Failure? ==> r.error == (if key.None? then ArgumentNullException else ArgumentException)
    ensures r.Success? ==> Sorted(r.value)
    ensures r.Success? ==> forall k :: Lookup(r.value, k) == if k == key.value then Some(v) else Lookup(m, k)
  {
    match key
    case None => Failure(ArgumentNullException)
    case Some(k) => if Lookup(m, k).Some? then Failure(ArgumentException) else Success(Put(m, k, v))
  }

  /** SortedDictionary's indexer set: a null key throws; otherwise the entry is inserted or replaced. */
  function Store<V>(m: Entries<V>, key: Option<string>, v: V): (r: Result<Entries<V>, Exception>)
    requires Sorted(m)
    ensures r.Success? <==> key.Some?
    ensures r.Failure? ==> r.error == ArgumentNullException
    ensures r.Success? ==> Sorted(r.value)
    ensures r.Success? ==> forall k :: Lookup(r.value, k) == if k == key.value then Some(v) else Lookup(m, k)
  {
    match key
    case None => Failure(ArgumentNullException)
    case Some(k) => Success(Put(m, k, v))
  }

  /**
   * A sorted dictionary is determined by what it maps: two with the same
   * lookups are the same sequence, so the order of the entries depends on
   * the keys alone and not on the order in which they were inserted.
   */
  lemma {:induction false} SortedUnique<V>(a: Entries<V>, b: Entries<V>)
    requires Sorted(a) && Sorted(b)
    requires forall k :: Lookup(a, k) == Lookup(b, k)
    ensures a == b
  {
    if |a| == 0 {
      if |b| > 0 {
        LookupAt(b, 0);
        assert false;
      }
    } else if |b| == 0 {
      LookupAt(a, 0);
      assert false;
    } else {
      LookupAt(a, 0);
      LookupAt(b, 0);
      if a[0].0 != b[0].0 {
        LessTotal(a[0].0, b[0].0);
        if Less(a[0].0, b[0].0) {
          LookupBelowFirst(b, a[0].0);
        } else {
          LookupBelowFirst(a, b[0].0);
        }
      }
      assert a[0] == b[0];
      forall k ensures Lookup(a[1..], k) == Lookup(b[1..], k) {
        if k == a[0].0 {
          if |a| > 1 { LookupBelowFirst(a[1..], k); }
          if |b| > 1 { LookupBelowFirst(b[1..], k); }
        } else {
          assert Lookup(a, k) == Lookup(a[1..], k);
          assert Lookup(b, k) == Lookup(b[1..], k);
        }
      }
      SortedUnique(a[1..], b[1..]);
      assert a == [a[0]] + a[1..] && b == [b[0]] + b[1..];
    }
  }

  /** The first entry of a sorted dictionary holds its least key: any other key present sorts after it. */
  lemma {:induction false} FirstIsLeast<V>(m: Entries<V>, key: string)
    requires Sorted(m) && Lookup(m, key).Some?
    ensures key == m[0].0 || Less(m[0].0, key)
  {
    if m[0].0 != key {
      var i :| 0 < i < |m| && m[i].0 == key by {
        if forall i :: 0 < i < |m| ==> m[i].0 != key {
          forall i | 0 <= i < |m[1..]| ensures m[1..][i].0 != key {
            assert m[1..][i] == m[i + 1];
          }
          LookupMissing(m[1..], key);
          assert false;
        }
      }
    }
  }
}
