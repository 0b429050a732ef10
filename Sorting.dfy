/** `Array.prototype.sort` with a comparator. The built-in sort is stable, so
    it is modelled by a stable insertion sort on a key under a total order. */
module Sorting {

  /** `le` is a total order: reflexive, antisymmetric, transitive and total. */
  ghost predicate TotalOrder<K(!new)>(le: (K, K) -> bool) {
    && (forall a :: le(a, a))
    && (forall a, b :: le(a, b) && le(b, a) ==> a == b)
    && (forall a, b, c :: le(a, b) && le(b, c) ==> le(a, c))
    && (forall a, b :: le(a, b) || le(b, a))
  }

  /** The keys of `s` are in order. */
  predicate SortedBy<T, K>(s: seq<T>, key: T -> K, le: (K, K) -> bool) {
    forall i, j :: 0 <= i < j < |s| ==> le(key(s[i]), key(s[j]))
  }

  /** The elements of `s` whose key is `k`, in their order in `s`. */
  function WithKey<T, K(==)>(s: seq<T>, key: T -> K, k: K): seq<T> {
    if s == [] then []
    else (if key(s[0]) == k then [s[0]] else []) + WithKey(s[1..], key, k)
  }

  /** Puts `x` in front of the first element whose key is not below its own. */
  function Insert<T, K>(x: T, t: seq<T>, key: T -> K, le: (K, K) -> bool): (r: seq<T>)
    ensures multiset(r) == multiset([x] + t)
  {
    if t == [] || le(key(x), key(t[0])) then [x] + t
    else
      assert t == [t[0]] + t[1..];
      [t[0]] + Insert(x, t[1..], key, le)
  }

  /** The stable sort of `s` by `key`: sorted, and for every key the elements
      with that key keep their relative order (so it is a permutation). */
  function StableSort<T, K(!new)>(s: seq<T>, key: T -> K, le: (K, K) -> bool): (r: seq<T>)
    requires TotalOrder(le)
    ensures SortedBy(r, key, le)
    ensures forall k :: WithKey(r, key, k) == WithKey(s, key, k)
    ensures multiset(r) == multiset(s)
  {
    if s == [] then []
    else
      var t := StableSort(s[1..], key, le);
      InsertSorted(s[0], t, key, le);
      InsertKeepsGroups(s[0], t, key, le);
      assert s == [s[0]] + s[1..];
      Insert(s[0], t, key, le)
  }

  lemma {:induction false} InsertSorted<T, K(!new)>(x: T, t: seq<T>, key: T -> K, le: (K, K) -> bool)
    requires TotalOrder(le) && SortedBy(t, key, le)
    ensures SortedBy(Insert(x, t, key, le), key, le)
  {
    if t == [] || le(key(x), key(t[0])) {
    } else {
      var rest := Insert(x, t[1..], key, le);
      InsertSorted(x, t[1..], key, le);
      forall e | e in rest ensures le(key(t[0]), key(e)) {
        assert e in multiset(rest);
        if e != x {
          assert e in t[1..];
        }
      }
    }
  }

  lemma {:induction false} InsertKeepsGroups<T, K(!new)>(x: T, t: seq<T>, key: T -> K, le: (K, K) -> bool)
    requires TotalOrder(le)
    ensures forall k :: WithKey(Insert(x, t, key, le), key, k) ==
                          (if key(x) == k then [x] else []) + WithKey(t, key, k)
  {
    if t == [] || le(key(x), key(t[0])) {
      forall k ensures WithKey([x] + t, key, k) == (if key(x) == k then [x] else []) + WithKey(t, key, k) {
        assert ([x] + t)[1..] == t;
      }
    } else {
      InsertKeepsGroups(x, t[1..], key, le);
      var r := Insert(x, t, key, le);
      forall k ensures WithKey(r, key, k) == (if key(x) == k then [x] else []) + WithKey(t, key, k) {
        assert r[1..] == Insert(x, t[1..], key, le);
        assert key(t[0]) != key(x);
      }
    }
  }

  /** `a.localeCompare(b) <= 0`, taken as the lexicographic order of code points. */
  predicate StringLe(a: string, b: string) {
    if a == [] then true
    else if b == [] then false
    else if a[0] != b[0] then a[0] < b[0]
    else StringLe(a[1..], b[1..])
  }

  lemma {:induction false} StringLeAntisymmetric(a: string, b: string)
    requires StringLe(a, b) && StringLe(b, a)
    ensures a == b
  {
    if a != [] && b != [] {
      StringLeAntisymmetric(a[1..], b[1..]);
      assert a == [a[0]] + a[1..] && b == [b[0]] + b[1..];
    }
  }

  lemma {:induction false} StringLeTransitive(a: string, b: string, c: string)
    requires StringLe(a, b) && StringLe(b, c)
    ensures StringLe(a, c)
  {
    if a != [] && b != [] && c != [] && a[0] == b[0] == c[0] {
      StringLeTransitive(a[1..], b[1..], c[1..]);
    }
  }

  lemma {:induction false} StringLeTotal(a: string, b: string)
    ensures StringLe(a, b) || StringLe(b, a)
  {
    if a != [] && b != [] && a[0] == b[0] {
      StringLeTotal(a[1..], b[1..]);
    }
  }

  lemma {:induction false} StringLeReflexive(a: string)
    ensures StringLe(a, a)
  {
    if a != [] {
      StringLeReflexive(a[1..]);
    }
  }

  /** The stand-in for `localeCompare` is a total order on strings. */
  lemma StringLeIsTotalOrder()
    ensures TotalOrder(StringLe)
  {
    forall a ensures StringLe(a, a) { StringLeReflexive(a); }
    forall a, b | StringLe(a, b) && StringLe(b, a) ensures a == b { StringLeAntisymmetric(a, b); }
    forall a, b, c | StringLe(a, b) && StringLe(b, c) ensures StringLe(a, c) { StringLeTransitive(a, b, c); }
    forall a, b ensures StringLe(a, b) || StringLe(b, a) { StringLeTotal(a, b); }
  }

  /** `b - a` as a comparator puts larger numbers first. */
  predicate AtLeast(a: int, b: int) { a >= b }

  lemma AtLeastIsTotalOrder()
    ensures TotalOrder(AtLeast)
  {
  }
}
