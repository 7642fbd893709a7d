/** Python's insertion-ordered `dict[str, str]` as a sequence of key/value entries, with
    assignment (`d[k] = v`), `d.update(other)`, and the `keysort` canonical ordering. */
module Params {
  import opened Wrappers
  import opened Text

  type Entry = (string, string)

  predicate DistinctKeys(d: seq<Entry>)
  {
    forall i, j :: 0 <= i < j < |d| ==> d[i].0 != d[j].0
  }

  function KeySet(d: seq<Entry>): set<string>
  {
    set e | e in d :: e.0
  }

  /** `d.get(k)`: the value stored under `k`, if any. */
  function Get(d: seq<Entry>, k: string): (r: Option<string>)
    ensures r.Some? <==> k in KeySet(d)
    ensures r.Some? ==> (k, r.value) in d
  {
    if d == [] then None
    else if d[0].0 == k then Some(d[0].1)
    else
      assert forall e :: e in d[1..] ==> e in d;
      assert k in KeySet(d) ==> k in KeySet(d[1..]) by {
        if k in KeySet(d) {
          var e :| e in d && e.0 == k;
          var i :| 0 <= i < |d| && d[i] == e;
          assert i > 0 && d[1..][i - 1] == e;
        }
      }
      Get(d[1..], k)
  }

  /** With distinct keys an entry is present exactly when `get` returns its value. */
  lemma GetIn(d: seq<Entry>, k: string, v: string)
    requires DistinctKeys(d)
    ensures Get(d, k) == Some(v) <==> (k, v) in d
  {
    if (k, v) in d {
      var i :| 0 <= i < |d| && d[i] == (k, v);
      GetAt(d, i);
    }
  }

  lemma {:induction false} GetAt(d: seq<Entry>, i: nat)
    requires DistinctKeys(d) && i < |d|
    ensures Get(d, d[i].0) == Some(d[i].1)
  {
    if i > 0 {
      GetAt(d[1..], i - 1);
    }
  }

  /** `d[k] = v`: an existing key keeps its position and takes the new value, a new key goes last. */
  function Put(d: seq<Entry>, k: string, v: string): (r: seq<Entry>)
    ensures |r| == |d| || r == d + [(k, v)]
  {
    if d == [] then [(k, v)]
    else if d[0].0 == k then [(k, v)] + d[1..]
    else [d[0]] + Put(d[1..], k, v)
  }

  lemma KeySetCons(d: seq<Entry>)
    requires d != []
    ensures KeySet(d) == {d[0].0} + KeySet(d[1..])
  {
    assert d == [d[0]] + d[1..];
  }

  /** Assignment adds its key to the key set and nothing else. */
  lemma {:induction false} PutKeys(d: seq<Entry>, k: string, v: string)
    ensures KeySet(Put(d, k, v)) == KeySet(d) + {k}
  {
    if d != [] {
      KeySetCons(d);
      KeySetCons(Put(d, k, v));
      if d[0].0 != k {
        PutKeys(d[1..], k, v);
        assert Put(d, k, v)[1..] == Put(d[1..], k, v);
      } else {
        assert Put(d, k, v)[1..] == d[1..];
      }
    }
  }

  /** After `d[k] = v`, `k` reads `v` and every other key reads what it read before. */
  lemma {:induction false} PutGet(d: seq<Entry>, k: string, v: string, k': string)
    ensures Get(Put(d, k, v), k') == if k' == k then Some(v) else Get(d, k')
  {
    if d != [] && d[0].0 != k {
      PutGet(d[1..], k, v, k');
      assert Put(d, k, v)[1..] == Put(d[1..], k, v);
    } else if d != [] {
      assert Put(d, k, v)[1..] == d[1..];
    }
  }

  /** A new key is appended at the end. */
  lemma {:induction false} PutNew(d: seq<Entry>, k: string, v: string)
    requires k !in KeySet(d)
    ensures Put(d, k, v) == d + [(k, v)]
  {
    if d != [] {
      KeySetCons(d);
      PutNew(d[1..], k, v);
    }
  }

  /** An existing key is overwritten in place: the sequence of keys is unchanged. */
  lemma {:induction false} PutExisting(d: seq<Entry>, k: string, v: string)
    requires k in KeySet(d)
    ensures |Put(d, k, v)| == |d|
    ensures forall i :: 0 <= i < |d| ==> Put(d, k, v)[i].0 == d[i].0
  {
    KeySetCons(d);
    if d[0].0 != k {
      PutExisting(d[1..], k, v);
      var r := Put(d, k, v);
      forall i | 0 <= i < |d| ensures r[i].0 == d[i].0 {
        if i > 0 {
          assert r[i] == Put(d[1..], k, v)[i - 1];
        }
      }
    }
  }

  /** Assignment keeps the keys of a dict distinct. */
  lemma PutDistinct(d: seq<Entry>, k: string, v: string)
    requires DistinctKeys(d)
    ensures DistinctKeys(Put(d, k, v))
  {
    if k !in KeySet(d) {
      PutNew(d, k, v);
      forall i | 0 <= i < |d| ensures d[i].0 != k {
        assert d[i] in d;
      }
    } else {
      PutExisting(d, k, v);
    }
  }

  /** `d.update(other)`: assigns every entry of `other`, in order. */
  function PutAll(d: seq<Entry>, other: seq<Entry>): (r: seq<Entry>)
    // nothing is removed, and each entry of `other` adds at most one
    ensures |d| <= |r| <= |d| + |other|
    decreases |other|
  {
    if other == [] then d
    else PutAll(Put(d, other[0].0, other[0].1), other[1..])
  }

  /** `d.update(other)` leaves the union of both key sets. */
  lemma {:induction false} PutAllKeys(d: seq<Entry>, other: seq<Entry>)
    ensures KeySet(PutAll(d, other)) == KeySet(d) + KeySet(other)
    decreases |other|
  {
    if other != [] {
      KeySetCons(other);
      PutKeys(d, other[0].0, other[0].1);
      PutAllKeys(Put(d, other[0].0, other[0].1), other[1..]);
    }
  }

  lemma {:induction false} PutAllDistinct(d: seq<Entry>, other: seq<Entry>)
    requires DistinctKeys(d)
    ensures DistinctKeys(PutAll(d, other))
    decreases |other|
  {
    if other != [] {
      PutDistinct(d, other[0].0, other[0].1);
      PutAllDistinct(Put(d, other[0].0, other[0].1), other[1..]);
    }
  }

  /** After `d.update(other)` the keys of `other` carry `other`'s values and every other key keeps
      its value from `d`. */
  lemma {:induction false} PutAllGet(d: seq<Entry>, other: seq<Entry>, k: string)
    requires DistinctKeys(other)
    ensures Get(PutAll(d, other), k) == if k in KeySet(other) then Get(other, k) else Get(d, k)
    decreases |other|
  {
    if other != [] {
      var d' := Put(d, other[0].0, other[0].1);
      PutAllGet(d', other[1..], k);
      PutGet(d, other[0].0, other[0].1, k);
      KeySetCons(other);
      if k == other[0].0 {
        assert k !in KeySet(other[1..]) by {
          forall e | e in other[1..] ensures e.0 != k {
            var i :| 0 <= i < |other[1..]| && other[1..][i] == e;
            assert other[i + 1] == e;
          }
        }
      }
    }
  }

  // ---------------------------------------------------------------------------
  // `keysort`: `OrderedDict(sorted(d.items(), key=lambda t: t[0]))`.

  /** Keys strictly ascending in code-point order. */
  predicate Sorted(d: seq<Entry>)
  {
    forall i, j :: 0 <= i < j < |d| ==> Less(d[i].0, d[j].0)
  }

  lemma SortedDistinct(d: seq<Entry>)
    requires Sorted(d)
    ensures DistinctKeys(d)
  {
    forall i, j | 0 <= i < j < |d| ensures d[i].0 != d[j].0 {
      LessIrreflexive(d[i].0);
    }
  }

  /** Places `e` before the first entry whose key is not smaller (so equal keys keep their input order). */
  function Insert(e: Entry, d: seq<Entry>): (r: seq<Entry>)
    ensures multiset(r) == multiset(d) + multiset{e}
    ensures |r| == |d| + 1
  {
    if d == [] || !Less(d[0].0, e.0) then [e] + d
    else
      assert d == [d[0]] + d[1..];
      [d[0]] + Insert(e, d[1..])
  }

  /** A stable sort of the entries by key. */
  function KeySort(d: seq<Entry>): (r: seq<Entry>)
    ensures multiset(r) == multiset(d)
    ensures |r| == |d|
  {
    if d == [] then []
    else
      assert d == [d[0]] + d[1..];
      Insert(d[0], KeySort(d[1..]))
  }

  lemma {:induction false} InsertSorted(e: Entry, d: seq<Entry>)
    requires Sorted(d)
    requires forall i :: 0 <= i < |d| ==> d[i].0 != e.0
    ensures Sorted(Insert(e, d))
  {
    if d != [] && Less(d[0].0, e.0) {
      InsertSorted(e, d[1..]);
      var r := Insert(e, d);
      var rest := Insert(e, d[1..]);
      forall j | 1 <= j < |r| ensures Less(r[0].0, r[j].0) {
        assert r[j] == rest[j - 1];
        assert rest[j - 1] in multiset(rest);
        if rest[j - 1] == e {
        } else {
          assert rest[j - 1] in multiset(d[1..]);
          var m :| 0 <= m < |d[1..]| && d[1..][m] == rest[j - 1];
          assert d[m + 1] == rest[j - 1];
        }
      }
    } else {
      forall i | 0 <= i < |d| ensures Less(e.0, d[i].0) {
        LessTotal(e.0, d[0].0);
        if i > 0 {
          LessTransitive(e.0, d[0].0, d[i].0);
        }
      }
    }
  }

  /** Sorting distinct keys yields them in strictly ascending order. */
  lemma {:induction false} KeySortSorted(d: seq<Entry>)
    requires DistinctKeys(d)
    ensures Sorted(KeySort(d))
  {
    if d != [] {
      KeySortSorted(d[1..]);
      var s := KeySort(d[1..]);
      forall i | 0 <= i < |s| ensures s[i].0 != d[0].0 {
        assert s[i] in multiset(d[1..]);
        var m :| 0 <= m < |d[1..]| && d[1..][m] == s[i];
        assert d[m + 1] == s[i];
      }
      InsertSorted(d[0], s);
    }
  }

  /** The head of a sorted dict has the least key. */
  lemma SortedHead(d: seq<Entry>, e: Entry)
    requires Sorted(d) && e in d && e != d[0]
    ensures Less(d[0].0, e.0)
  {
    var i :| 0 <= i < |d| && d[i] == e;
  }

  /** Two sorted arrangements of the same entries are identical. */
  lemma {:induction false} SortedUnique(a: seq<Entry>, b: seq<Entry>)
    requires Sorted(a) && Sorted(b)
    requires multiset(a) == multiset(b)
    ensures a == b
  {
    if a != [] {
      assert |b| == |multiset(b)| == |multiset(a)| == |a|;
      SortedSameHead(a, b);
      SortedTail(a);
      SortedTail(b);
      TailMultiset(a);
      TailMultiset(b);
      SortedUnique(a[1..], b[1..]);
      assert a == [a[0]] + a[1..] && b == [b[0]] + b[1..];
    }
  }

  /** Two sorted dicts with the same pairs start with the same pair. */
  lemma SortedSameHead(a: seq<Entry>, b: seq<Entry>)
    requires Sorted(a) && Sorted(b) && a != [] && b != []
    requires multiset(a) == multiset(b)
    ensures a[0] == b[0]
  {
    assert a[0] in multiset(b) && b[0] in multiset(a);
    if a[0] != b[0] {
      SortedHead(b, a[0]);
      SortedHead(a, b[0]);
      LessAsymmetric(a[0].0, b[0].0);
    }
  }

  lemma SortedTail(d: seq<Entry>)
    requires Sorted(d) && d != []
    ensures Sorted(d[1..])
  {
  }

  lemma TailMultiset(d: seq<Entry>)
    requires d != []
    ensures multiset(d[1..]) == multiset(d) - multiset{d[0]}
  {
    assert d == [d[0]] + d[1..];
  }

  /** A sorted dict is its own sort. */
  lemma KeySortOfSorted(d: seq<Entry>)
    requires Sorted(d)
    ensures KeySort(d) == d
  {
    SortedDistinct(d);
    KeySortSorted(d);
    SortedUnique(KeySort(d), d);
  }

  /** `keysort` is idempotent. */
  lemma KeySortIdempotent(d: seq<Entry>)
    requires DistinctKeys(d)
    ensures KeySort(KeySort(d)) == KeySort(d)
  {
    KeySortSorted(d);
    KeySortOfSorted(KeySort(d));
  }

  /** `keysort` does not depend on the insertion order of its input. */
  lemma KeySortOrderIndependent(a: seq<Entry>, b: seq<Entry>)
    requires DistinctKeys(a) && DistinctKeys(b)
    requires multiset(a) == multiset(b)
    ensures KeySort(a) == KeySort(b)
  {
    KeySortSorted(a);
    KeySortSorted(b);
    SortedUnique(KeySort(a), KeySort(b));
  }

  /** `keysort` keeps exactly the key/value pairs of its input. */
  lemma KeySortGet(d: seq<Entry>, k: string)
    requires DistinctKeys(d)
    ensures KeySet(KeySort(d)) == KeySet(d)
    ensures Get(KeySort(d), k) == Get(d, k)
  {
    var s := KeySort(d);
    KeySortSorted(d);
    SortedDistinct(s);
    assert forall e :: e in s <==> e in d by {
      forall e ensures e in s <==> e in d {
        assert e in s <==> e in multiset(s);
        assert e in d <==> e in multiset(d);
      }
    }
    if Get(d, k).Some? {
      GetIn(d, k, Get(d, k).value);
      GetIn(s, k, Get(d, k).value);
    } else if Get(s, k).Some? {
      GetIn(s, k, Get(s, k).value);
      GetIn(d, k, Get(s, k).value);
    }
  }

  /** A dict object whose entries the source updates in place. */
  class Dict {
    var entries: seq<Entry>

    ghost predicate Valid()
      reads this
    {
      DistinctKeys(entries)
    }

    constructor (init: seq<Entry>)
      requires DistinctKeys(init)
      ensures Valid() && entries == init
    {
      entries := init;
    }

    /** `self[k] = v`. */
    method Set(k: string, v: string)
      requires Valid()
      modifies this
      ensures Valid() && entries == Put(old(entries), k, v)
    {
      PutDistinct(entries, k, v);
      entries := Put(entries, k, v);
    }

    /** `self.update(other)`. */
    method Update(other: Dict)
      requires Valid()
      modifies this
      ensures Valid() && entries == PutAll(old(entries), old(other.entries))
    {
      PutAllDistinct(entries, other.entries);
      entries := PutAll(entries, other.entries);
    }
  }
}
