/**
 * `std::map<std::string, std::string>` as main.cpp uses it to collect Vcs
 * fields: an association list kept in ascending key order, which is the
 * order a range-for over the map visits it.
 */
module SortedMap {
  import opened Results
  import opened CppText

  datatype Entry = Entry(key: string, value: string)

  /** Keys strictly ascend, so no key appears twice. */
  predicate Sorted(es: seq<Entry>) {
    forall i, j :: 0 <= i < j < |es| ==> LexLess(es[i].key, es[j].key)
  }

  /**
   * `map[k] = v`: the entry for `k` is set to `v` (replacing any old one),
   * every other entry is kept, and the order stays ascending.
   */
  function Put(es: seq<Entry>, k: string, v: string): (r: seq<Entry>)
    requires Sorted(es)
    ensures Sorted(r)
    ensures forall e :: e in r <==> e == Entry(k, v) || (e in es && e.key != k)
  {
    if |es| == 0 then [Entry(k, v)]
    else if es[0].key == k then
      SortedTail(es);
      [Entry(k, v)] + es[1..]
    else if LexLess(k, es[0].key) then
      PutInFront(es, k, v);
      [Entry(k, v)] + es
    else
      LexTotal(k, es[0].key);
      var rest := Put(es[1..], k, v);
      SortedTail(es);
      assert forall e :: e in rest ==> LexLess(es[0].key, e.key) by {
        forall e | e in rest ensures LexLess(es[0].key, e.key) {
          if e != Entry(k, v) {
            var j :| 0 <= j < |es[1..]| && es[1..][j] == e;
            assert es[j + 1] == e;
          }
        }
      }
      [es[0]] + rest
  }

  /** In a sorted list, the entries after the first have keys above the first's. */
  lemma SortedTail(es: seq<Entry>)
    requires Sorted(es) && |es| > 0
    ensures Sorted(es[1..])
    ensures forall e :: e in es[1..] ==> LexLess(es[0].key, e.key) && e.key != es[0].key
  {
    LexIrreflexive(es[0].key);
    forall e | e in es[1..] ensures LexLess(es[0].key, e.key) && e.key != es[0].key {
      var j :| 0 <= j < |es[1..]| && es[1..][j] == e;
      assert es[j + 1] == e;
    }
  }

  /** A key below the first key of a sorted list is below all of them. */
  lemma SortedBelow(es: seq<Entry>, k: string)
    requires Sorted(es) && |es| > 0 && LexLess(k, es[0].key)
    ensures forall j :: 0 <= j < |es| ==> LexLess(k, es[j].key)
  {
    forall j | 0 < j < |es| ensures LexLess(k, es[j].key) {
      LexTransitive(k, es[0].key, es[j].key);
    }
  }

  /** Putting a key below every key of a sorted list puts it in front. */
  lemma PutInFront(es: seq<Entry>, k: string, v: string)
    requires Sorted(es) && |es| > 0 && LexLess(k, es[0].key)
    ensures Sorted([Entry(k, v)] + es)
    ensures forall e :: e in es ==> e.key != k
  {
    SortedBelow(es, k);
    LexIrreflexive(k);
    var r := [Entry(k, v)] + es;
    forall i, j | 0 <= i < j < |r| ensures LexLess(r[i].key, r[j].key) {
      if i > 0 {
        assert r[i] == es[i - 1] && r[j] == es[j - 1];
      } else {
        assert r[j] == es[j - 1];
      }
    }
  }

  /** `map.find(k)`. */
  function Lookup(es: seq<Entry>, k: string): (r: Option<string>)
    requires Sorted(es)
    ensures r.Some? <==> exists e :: e in es && e.key == k
    ensures r.Some? ==> Entry(k, r.value) in es
  {
    if |es| == 0 then None
    else if es[0].key == k then Some(es[0].value)
    else Lookup(es[1..], k)
  }

  /** After `map[k] = v`, looking up `k` gives `v` and every other key gives what it gave before. */
  lemma LookupPut(es: seq<Entry>, k: string, v: string, other: string)
    requires Sorted(es)
    ensures Lookup(Put(es, k, v), k) == Some(v)
    ensures other != k ==> Lookup(Put(es, k, v), other) == Lookup(es, other)
  {
    var r := Put(es, k, v);
    UniqueKeys(r, k, v);
    if other != k && Lookup(es, other).Some? {
      UniqueKeys(es, other, Lookup(es, other).value);
      UniqueKeys(r, other, Lookup(es, other).value);
    }
    if other != k && Lookup(r, other).Some? {
      UniqueKeys(r, other, Lookup(r, other).value);
    }
  }

  /** In a sorted list, an entry found for a key is the one `Lookup` returns. */
  lemma UniqueKeys(es: seq<Entry>, k: string, v: string)
    requires Sorted(es) && Entry(k, v) in es
    ensures Lookup(es, k) == Some(v)
  {
    var w := Lookup(es, k).value;
    var i :| 0 <= i < |es| && es[i] == Entry(k, v);
    var j :| 0 <= j < |es| && es[j] == Entry(k, w);
    if i != j {
      LexIrreflexive(k);
    }
  }

  lemma SameEntriesEmpty(a: seq<Entry>, b: seq<Entry>)
    requires forall e :: e in a <==> e in b
    ensures |a| == 0 <==> |b| == 0
  {
    if |a| > 0 {
      assert a[0] in a;
    }
    if |b| > 0 {
      assert b[0] in b;
    }
  }

  /** A sorted list is determined by its entries: two with the same entries are equal. */
  lemma {:induction false} SortedSame(a: seq<Entry>, b: seq<Entry>)
    requires Sorted(a) && Sorted(b)
    requires forall e :: e in a <==> e in b
    ensures a == b
    decreases |a|
  {
    SameEntriesEmpty(a, b);
    if |a| > 0 {
      SortedTail(a);
      SortedTail(b);
      if a[0] != b[0] {
        assert a[0] in b[1..] by {
          assert a[0] in b && a[0] != b[0];
          assert b == [b[0]] + b[1..];
        }
        assert b[0] in a[1..] by {
          assert b[0] in a && b[0] != a[0];
          assert a == [a[0]] + a[1..];
        }
        LexAsymmetric(a[0].key, b[0].key);
        assert false;
      }
      forall e ensures e in a[1..] <==> e in b[1..] {
        assert a == [a[0]] + a[1..] && b == [b[0]] + b[1..];
        if e in a[1..] {
          assert e.key != a[0].key && e in b;
        }
        if e in b[1..] {
          assert e.key != b[0].key && e in a;
        }
      }
      SortedSame(a[1..], b[1..]);
      assert a == [a[0]] + a[1..] && b == [b[0]] + b[1..];
    }
  }
}
