/** The byte order on byte strings: a total order, sorting by it, and enumerations of map keys. */
module ByteOrder {
  import opened Basics

  predicate Less(a: bytes, b: bytes) {
    if b == [] then false
    else if a == [] then true
    else a[0] < b[0] || (a[0] == b[0] && Less(a[1..], b[1..]))
  }

  lemma {:induction false} LessTotal(a: bytes, b: bytes)
    ensures Less(a, b) || a == b || Less(b, a)
    ensures !(Less(a, b) && Less(b, a)) && !Less(a, a)
  {
    if a != [] && b != [] {
      LessTotal(a[1..], b[1..]);
      LessTotal(a[1..], a[1..]);
      assert a == [a[0]] + a[1..] && b == [b[0]] + b[1..];
    } else if a != [] {
      LessTotal(a[1..], a[1..]);
    }
  }

  lemma {:induction false} LessTransitive(a: bytes, b: bytes, c: bytes)
    requires Less(a, b) && Less(b, c)
    ensures Less(a, c)
  {
    if a != [] && a[0] == b[0] == c[0] {
      LessTransitive(a[1..], b[1..], c[1..]);
    }
  }

  ghost predicate Sorted(s: seq<bytes>) {
    forall i, j :: 0 <= i < j < |s| ==> Less(s[i], s[j])
  }

  function Insert(s: seq<bytes>, k: bytes): seq<bytes> {
    if s == [] then [k]
    else if Less(s[0], k) then [s[0]] + Insert(s[1..], k)
    else [k] + s
  }

  function Sort(s: seq<bytes>): seq<bytes> {
    if s == [] then [] else Insert(Sort(s[1..]), s[0])
  }

  lemma {:induction false} InsertSorts(s: seq<bytes>, k: bytes)
    requires Sorted(s) && k !in s
    ensures Sorted(Insert(s, k)) && |Insert(s, k)| == |s| + 1
    ensures forall x :: x in Insert(s, k) <==> x == k || x in s
  {
    if s != [] {
      LessTotal(s[0], k);
      if Less(s[0], k) {
        InsertSorts(s[1..], k);
        forall x | x in Insert(s[1..], k) ensures Less(s[0], x) {
        }
      } else {
        forall x | x in s ensures Less(k, x) {
          if x != s[0] {
            LessTransitive(k, s[0], x);
          }
        }
      }
    }
  }

  lemma {:induction false} SortSorts(s: seq<bytes>)
    requires NoDuplicates(s)
    ensures Sorted(Sort(s)) && |Sort(s)| == |s|
    ensures forall x :: x in Sort(s) <==> x in s
  {
    if s != [] {
      SortSorts(s[1..]);
      assert s[0] !in s[1..];
      InsertSorts(Sort(s[1..]), s[0]);
    }
  }

  lemma TailElements(a: seq<bytes>, b: seq<bytes>)
    requires Sorted(a) && Sorted(b) && (forall x :: x in a <==> x in b)
    requires a != [] && b != [] && a[0] == b[0] && !Less(a[0], a[0])
    ensures forall x :: x in a[1..] <==> x in b[1..]
  {
    forall x ensures x in a[1..] <==> x in b[1..] {
      assert x in a <==> x == a[0] || x in a[1..];
      assert x in b <==> x == b[0] || x in b[1..];
      assert a[0] !in a[1..] && b[0] !in b[1..];
    }
  }

  /** A sorted sequence is determined by its elements. */
  lemma {:induction false} SortedUnique(a: seq<bytes>, b: seq<bytes>)
    requires Sorted(a) && Sorted(b) && (forall x :: x in a <==> x in b)
    ensures a == b
  {
    assert |a| > 0 ==> a[0] in a;
    assert |b| > 0 ==> b[0] in b;
    if a != [] && b != [] {
      assert b[0] in a;
      LessTotal(a[0], b[0]);
      assert a[0] == b[0];
      LessTotal(a[0], a[0]);
      TailElements(a, b);
      SortedUnique(a[1..], b[1..]);
      assert a == [a[0]] + a[1..] && b == [b[0]] + b[1..];
    }
  }

  // ---------------------------------------------------------------- map iteration

  /** The order in which some iteration over a map meets its keys. */
  ghost predicate Enumerates<V>(order: seq<bytes>, m: map<bytes, V>) {
    NoDuplicates(order) && (forall k :: k in order <==> k in m)
  }

  lemma {:induction false} EnumerationLength<V>(order: seq<bytes>, m: map<bytes, V>)
    requires Enumerates(order, m)
    ensures |order| == |m|
    decreases |order|
  {
    if order == [] {
      assert m.Keys == {};
    } else {
      var k := order[0];
      var n := m - {k};
      assert n.Keys == m.Keys - {k};
      forall x ensures x in order[1..] <==> x in n {
      }
      EnumerationLength(order[1..], n);
    }
  }

  /** Sorting the keys hides the iteration order. */
  lemma SortedKeysAreUnique<V>(a: seq<bytes>, b: seq<bytes>, m: map<bytes, V>)
    requires Enumerates(a, m) && Enumerates(b, m)
    ensures Sort(a) == Sort(b) && Enumerates(Sort(a), m)
  {
    SortSorts(a);
    SortSorts(b);
    SortedUnique(Sort(a), Sort(b));
    forall i, j | 0 <= i < j < |Sort(a)| ensures Sort(a)[i] != Sort(a)[j] {
      LessTotal(Sort(a)[i], Sort(a)[i]);
    }
  }

  /** acc updated with the entries of m at the given keys. */
  function Overwrite<V>(m: map<bytes, V>, keys: seq<bytes>, acc: map<bytes, V>): map<bytes, V>
    requires forall k :: k in keys ==> k in m
  {
    if keys == [] then acc else Overwrite(m, keys[1..], acc[keys[0] := m[keys[0]]])
  }

  lemma {:induction false} OverwriteEntries<V>(m: map<bytes, V>, keys: seq<bytes>, acc: map<bytes, V>, k: bytes)
    requires forall x :: x in keys ==> x in m
    ensures var r := Overwrite(m, keys, acc);
            && (k in r <==> k in keys || k in acc)
            && (k in keys ==> r[k] == m[k])
            && (k !in keys && k in acc ==> r[k] == acc[k])
  {
    if keys != [] {
      OverwriteEntries(m, keys[1..], acc[keys[0] := m[keys[0]]], k);
      assert k in keys <==> k == keys[0] || k in keys[1..];
    }
  }

  lemma OverwriteAll<V>(m: map<bytes, V>, keys: seq<bytes>)
    requires Enumerates(keys, m)
    ensures Overwrite(m, keys, map[]) == m
  {
    forall k ensures k in Overwrite(m, keys, map[]) <==> k in m
             ensures k in m ==> Overwrite(m, keys, map[])[k] == m[k]
    {
      OverwriteEntries(m, keys, map[], k);
    }
  }
}
