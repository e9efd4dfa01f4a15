/** Orders used when the pipeline sorts: Python's and Polars' code-point
    order on strings, nulls-first order on nullable strings, and the
    "distinct values in ascending order" result of `sorted(set(xs))` and of
    Polars' `unique().sort()`. */
module Order {
  import opened Seqs
  import opened Wrappers

  /** A strict total order: irreflexive, transitive and total on distinct
      values. */
  ghost predicate StrictTotalOrder<T(!new)>(less: (T, T) -> bool) {
    && (forall a :: !less(a, a))
    && (forall a, b, c :: less(a, b) && less(b, c) ==> less(a, c))
    && (forall a, b :: a != b ==> less(a, b) || less(b, a))
  }

  /** Every element is strictly below every later one, so there are no
      duplicates. */
  predicate StrictlySorted<T>(s: seq<T>, less: (T, T) -> bool) {
    forall i, j :: 0 <= i < j < |s| ==> less(s[i], s[j])
  }

  /** Lexicographic code-point order on strings: Python's `<` on `str`, and
      Polars' order on UTF-8 strings (UTF-8 byte order is code-point order). */
  predicate StrLess(a: string, b: string) {
    if a == [] then b != []
    else if b == [] then false
    else a[0] < b[0] || (a[0] == b[0] && StrLess(a[1..], b[1..]))
  }

  /** Polars' default sort on a nullable string column: nulls first. */
  predicate OptStrLess(a: Option<string>, b: Option<string>) {
    match (a, b)
    case (None, None) => false
    case (None, Some(_)) => true
    case (Some(_), None) => false
    case (Some(x), Some(y)) => StrLess(x, y)
  }

  /** Sorting by two columns: the first, then the second on ties. */
  predicate PairLess(a: (string, Option<string>), b: (string, Option<string>)) {
    StrLess(a.0, b.0) || (a.0 == b.0 && OptStrLess(a.1, b.1))
  }

  /** Inserts `x` into a strictly sorted list unless it is already there. */
  function Insert<T(==)>(x: T, s: seq<T>, less: (T, T) -> bool): seq<T> {
    if s == [] then [x]
    else if x == s[0] then s
    else if less(x, s[0]) then [x] + s
    else [s[0]] + Insert(x, s[1..], less)
  }

  /** The distinct values of `s` in ascending order. */
  function SortUnique<T(==)>(s: seq<T>, less: (T, T) -> bool): seq<T> {
    if s == [] then [] else Insert(s[|s| - 1], SortUnique(s[..|s| - 1], less), less)
  }

  // ---------------------------------------------------------------------
  // Lemmas
  // ---------------------------------------------------------------------

  lemma {:induction false} StrLessIrreflexive(a: string)
    ensures !StrLess(a, a)
    decreases |a|
  {
    if a != [] {
      StrLessIrreflexive(a[1..]);
    }
  }

  lemma {:induction false} StrLessTransitive(a: string, b: string, c: string)
    requires StrLess(a, b) && StrLess(b, c)
    ensures StrLess(a, c)
    decreases |a|
  {
    if a != [] && a[0] == b[0] && b[0] == c[0] {
      StrLessTransitive(a[1..], b[1..], c[1..]);
    }
  }

  lemma {:induction false} StrLessTotal(a: string, b: string)
    requires a != b
    ensures StrLess(a, b) || StrLess(b, a)
    decreases |a|
  {
    if a != [] && b != [] && a[0] == b[0] {
      assert a == [a[0]] + a[1..] && b == [b[0]] + b[1..];
      StrLessTotal(a[1..], b[1..]);
    }
  }

  /** Code-point order on strings is a strict total order. */
  lemma StrLessIsOrder()
    ensures StrictTotalOrder(StrLess)
  {
    forall a ensures !StrLess(a, a) {
      StrLessIrreflexive(a);
    }
    forall a, b, c | StrLess(a, b) && StrLess(b, c) ensures StrLess(a, c) {
      StrLessTransitive(a, b, c);
    }
    forall a, b | a != b ensures StrLess(a, b) || StrLess(b, a) {
      StrLessTotal(a, b);
    }
  }

  /** Nulls-first order on nullable strings is a strict total order. */
  lemma OptStrLessIsOrder()
    ensures StrictTotalOrder(OptStrLess)
  {
    forall a ensures !OptStrLess(a, a) {
      if a.Some? { StrLessIrreflexive(a.value); }
    }
    forall a, b, c | OptStrLess(a, b) && OptStrLess(b, c) ensures OptStrLess(a, c) {
      if a.Some? { StrLessTransitive(a.value, b.value, c.value); }
    }
    forall a, b | a != b ensures OptStrLess(a, b) || OptStrLess(b, a) {
      if a.Some? && b.Some? { StrLessTotal(a.value, b.value); }
    }
  }

  /** Sorting on two columns is a strict total order on the pairs. */
  lemma PairLessIsOrder()
    ensures StrictTotalOrder(PairLess)
  {
    StrLessIsOrder();
    OptStrLessIsOrder();
  }

  lemma {:induction false} InsertCorrect<T(!new)>(x: T, s: seq<T>, less: (T, T) -> bool)
    requires StrictTotalOrder(less) && StrictlySorted(s, less)
    ensures StrictlySorted(Insert(x, s, less), less)
    ensures forall y :: y in Insert(x, s, less) <==> y == x || y in s
    decreases |s|
  {
    if s != [] && x != s[0] && !less(x, s[0]) {
      var r := Insert(x, s[1..], less);
      InsertCorrect(x, s[1..], less);
      assert less(s[0], x);
      forall y | y in r ensures less(s[0], y) {
        if y != x {
          var k :| 0 <= k < |s[1..]| && s[1..][k] == y;
          assert s[k + 1] == y;
        }
      }
      forall y ensures y in s <==> y == s[0] || y in s[1..] {
        assert s == [s[0]] + s[1..];
      }
    } else if s != [] && x != s[0] {
      forall j | 0 <= j < |s| ensures less(x, s[j]) {
        if j > 0 { assert less(s[0], s[j]); }
      }
    }
  }

  /** `sorted(set(s))`: strictly ascending, holding exactly the values of `s`. */
  lemma {:induction false} SortUniqueCorrect<T(!new)>(s: seq<T>, less: (T, T) -> bool)
    requires StrictTotalOrder(less)
    ensures StrictlySorted(SortUnique(s, less), less)
    ensures forall y :: y in SortUnique(s, less) <==> y in s
    decreases |s|
  {
    if s != [] {
      var init := s[..|s| - 1];
      SortUniqueCorrect(init, less);
      InsertCorrect(s[|s| - 1], SortUnique(init, less), less);
      assert s == init + [s[|s| - 1]];
      forall y ensures y in s <==> y == s[|s| - 1] || y in init {
      }
    }
  }

  lemma HeadIsMember<T>(s: seq<T>)
    requires s != []
    ensures s[0] in s
  {
  }

  /** Two strictly sorted lists with the same values are equal: the sorted
      distinct values of a collection are uniquely determined. */
  lemma {:induction false} SortedUniqueDetermined<T(!new)>(a: seq<T>, b: seq<T>, less: (T, T) -> bool)
    requires StrictTotalOrder(less)
    requires StrictlySorted(a, less) && StrictlySorted(b, less)
    requires forall y :: y in a <==> y in b
    ensures a == b
    decreases |a|
  {
    if a == [] {
      if b != [] {
        HeadIsMember(b);
        assert false;
      }
    } else if b == [] {
      HeadIsMember(a);
      assert false;
    } else {
      assert a[0] == b[0] by {
        assert a[0] in b && b[0] in a;
      }
      forall y ensures y in a[1..] <==> y in b[1..] {
        if y in a[1..] {
          var k :| 1 <= k < |a| && a[k] == y;
          assert less(a[0], y);
          assert y in b;
          assert y != b[0];
          var m :| 0 <= m < |b| && b[m] == y;
          assert y == b[1..][m - 1];
        }
        if y in b[1..] {
          var k :| 1 <= k < |b| && b[k] == y;
          assert less(b[0], y);
          assert y in a;
          assert y != a[0];
          var m :| 0 <= m < |a| && a[m] == y;
          assert y == a[1..][m - 1];
        }
      }
      SortedUniqueDetermined(a[1..], b[1..], less);
      assert a == [a[0]] + a[1..] && b == [b[0]] + b[1..];
    }
  }

  // ---------------------------------------------------------------------
  // Stable sort by a key (Python's `sorted(s, key=key)`)
  // ---------------------------------------------------------------------

  /** No element has a key strictly below the key of an earlier one. */
  predicate SortedBy<T, K>(s: seq<T>, key: T -> K, less: (K, K) -> bool) {
    forall i, j :: 0 <= i < j < |s| ==> !less(key(s[j]), key(s[i]))
  }

  predicate Distinct<T(==)>(s: seq<T>) {
    forall i, j :: 0 <= i < j < |s| ==> s[i] != s[j]
  }

  /** Places `x` before the first element whose key is strictly above its own,
      so after every element with an equal key. */
  function InsertBy<T, K>(x: T, s: seq<T>, key: T -> K, less: (K, K) -> bool): (r: seq<T>)
    ensures multiset(r) == multiset(s) + multiset{x}
  {
    if s == [] then [x]
    else if less(key(x), key(s[0])) then [x] + s
    else
      assert s == [s[0]] + s[1..];
      [s[0]] + InsertBy(x, s[1..], key, less)
  }

  /** Insertion sort taking the elements in order, as a stable sort does. */
  function SortBy<T, K>(s: seq<T>, key: T -> K, less: (K, K) -> bool): (r: seq<T>)
    ensures multiset(r) == multiset(s)
  {
    if s == [] then []
    else
      assert s == s[..|s| - 1] + [s[|s| - 1]];
      InsertBy(s[|s| - 1], SortBy(s[..|s| - 1], key, less), key, less)
  }

  lemma TailSorted<T, K>(s: seq<T>, key: T -> K, less: (K, K) -> bool)
    requires s != [] && SortedBy(s, key, less)
    ensures SortedBy(s[1..], key, less)
  {
    forall i, j | 0 <= i < j < |s[1..]| ensures !less(key(s[1..][j]), key(s[1..][i])) {
      assert s[1..][j] == s[j + 1] && s[1..][i] == s[i + 1];
    }
  }

  /** A sorted list stays sorted behind a head no key of it is below. */
  lemma ConsSorted<T, K>(h: T, t: seq<T>, key: T -> K, less: (K, K) -> bool)
    requires SortedBy(t, key, less)
    requires forall j :: 0 <= j < |t| ==> !less(key(t[j]), key(h))
    ensures SortedBy([h] + t, key, less)
  {
    var r := [h] + t;
    forall i, j | 0 <= i < j < |r| ensures !less(key(r[j]), key(r[i])) {
      assert r[j] == t[j - 1];
      if i > 0 {
        assert r[i] == t[i - 1];
      }
    }
  }

  /** Every element of `InsertBy(x, s)` is `x` or an element of `s`. */
  lemma InsertByElement<T, K>(x: T, s: seq<T>, key: T -> K, less: (K, K) -> bool, j: nat)
    requires j < |InsertBy(x, s, key, less)|
    ensures InsertBy(x, s, key, less)[j] == x || InsertBy(x, s, key, less)[j] in s
  {
    var t := InsertBy(x, s, key, less);
    assert t[j] in multiset(t);
    if t[j] != x {
      assert t[j] in multiset(s);
    }
  }

  lemma {:induction false} InsertBySorted<T, K(!new)>(x: T, s: seq<T>, key: T -> K, less: (K, K) -> bool)
    requires forall a :: !less(a, a)
    requires forall a, b, c :: less(a, b) && less(b, c) ==> less(a, c)
    requires SortedBy(s, key, less)
    ensures SortedBy(InsertBy(x, s, key, less), key, less)
    decreases |s|
  {
    if s == [] {
    } else if less(key(x), key(s[0])) {
      forall j | 0 <= j < |s| ensures !less(key(s[j]), key(x)) {
        if j > 0 {
          assert !less(key(s[j]), key(s[0]));
        }
      }
      ConsSorted(x, s, key, less);
    } else {
      var t := InsertBy(x, s[1..], key, less);
      TailSorted(s, key, less);
      InsertBySorted(x, s[1..], key, less);
      forall j | 0 <= j < |t| ensures !less(key(t[j]), key(s[0])) {
        InsertByElement(x, s[1..], key, less, j);
        if t[j] != x {
          var k :| 0 <= k < |s[1..]| && s[1..][k] == t[j];
          assert s[k + 1] == t[j];
        }
      }
      ConsSorted(s[0], t, key, less);
    }
  }

  lemma {:induction false} InsertByDistinct<T, K>(x: T, s: seq<T>, key: T -> K, less: (K, K) -> bool)
    requires Distinct(s) && x !in s
    ensures Distinct(InsertBy(x, s, key, less))
    decreases |s|
  {
    if s != [] && !less(key(x), key(s[0])) {
      var t := InsertBy(x, s[1..], key, less);
      assert Distinct(s[1..]) by {
        forall i, j | 0 <= i < j < |s[1..]| ensures s[1..][i] != s[1..][j] {
          assert s[1..][j] == s[j + 1] && s[1..][i] == s[i + 1];
        }
      }
      InsertByDistinct(x, s[1..], key, less);
      forall j | 0 <= j < |t| ensures t[j] != s[0] {
        InsertByElement(x, s[1..], key, less, j);
        if t[j] != x {
          var k :| 0 <= k < |s[1..]| && s[1..][k] == t[j];
          assert s[k + 1] == t[j];
        }
      }
      var r := [s[0]] + t;
      forall i, j | 0 <= i < j < |r| ensures r[i] != r[j] {
        assert r[j] == t[j - 1];
        if i > 0 {
          assert r[i] == t[i - 1];
        }
      }
    }
  }

  /** `sorted(s, key=key)` puts the keys in ascending order, keeps every
      element as often as it occurs, and so keeps a list without repeats free
      of repeats. */
  lemma {:induction false} SortByCorrect<T, K(!new)>(s: seq<T>, key: T -> K, less: (K, K) -> bool)
    requires forall a :: !less(a, a)
    requires forall a, b, c :: less(a, b) && less(b, c) ==> less(a, c)
    ensures SortedBy(SortBy(s, key, less), key, less)
    ensures multiset(SortBy(s, key, less)) == multiset(s)
    ensures Distinct(s) ==> Distinct(SortBy(s, key, less))
    decreases |s|
  {
    if s != [] {
      var init := s[..|s| - 1];
      SortByCorrect(init, key, less);
      if Distinct(s) {
        assert Distinct(init);
        forall k | 0 <= k < |init| ensures init[k] != s[|s| - 1] {
          assert init[k] == s[k];
        }
        assert s[|s| - 1] !in multiset(init);
      }
      InsertBySorted(s[|s| - 1], SortBy(init, key, less), key, less);
      if Distinct(s) {
        InsertByDistinct(s[|s| - 1], SortBy(init, key, less), key, less);
      }
    }
  }
}
