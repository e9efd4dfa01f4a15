/** The relational steps the pipeline takes on Polars frames, over
    sequences of rows: filtering, keeping one row per key, grouping by a key
    and the left join. Join keys are nullable, and a null key never matches
    (Polars' default for joins). */
module Relational {
  import opened Wrappers
  import opened Seqs

  /** The rows of `s` that satisfy `p`, in order. */
  function Filter<T(!new)>(s: seq<T>, p: T -> bool): (r: seq<T>)
    ensures |r| <= |s|
    ensures forall x :: x in r <==> x in s && p(x)
  {
    if s == [] then [] else (if p(s[0]) then [s[0]] else []) + Filter(s[1..], p)
  }

  /** `f` applied to every element. */
  function Map<T(!new), U>(s: seq<T>, f: T -> U): (r: seq<U>)
    ensures |r| == |s| && forall i :: 0 <= i < |s| ==> r[i] == f(s[i])
  {
    seq(|s|, i requires 0 <= i < |s| => f(s[i]))
  }

  /** Mapping a non-empty sequence maps its front, then its last element. */
  lemma MapSnoc<T(!new), U>(s: seq<T>, f: T -> U)
    requires s != []
    ensures Map(s, f) == Map(s[..|s| - 1], f) + [f(s[|s| - 1])]
  {
  }

  /** The lists of `ss` one after another (Polars' `explode` of a list
      column, and `list.concat` of a list of lists). */
  function Flatten<T>(ss: seq<seq<T>>): (r: seq<T>)
    decreases |ss|
  {
    if ss == [] then [] else ss[0] + Flatten(ss[1..])
  }

  /** A row matches a join key when both keys are present and equal. */
  predicate KeyMatch<K(==)>(k: Option<K>, k': Option<K>) {
    k.Some? && k == k'
  }

  /** The rows of `right` whose key matches `k`, in order. */
  function MatchesOf<R(!new), K(==)>(k: Option<K>, right: seq<R>, rk: R -> Option<K>): seq<R> {
    Filter(right, (r: R) => KeyMatch(k, rk(r)))
  }

  /** The first row of `right` whose key matches `k`, if any. */
  function FirstMatch<R(!new), K(==)>(k: Option<K>, right: seq<R>, rk: R -> Option<K>): (m: Option<R>)
    ensures m.Some? ==> m.value in right && KeyMatch(k, rk(m.value))
    ensures m.None? ==> forall r :: r in right ==> !KeyMatch(k, rk(r))
  {
    if right == [] then None
    else if KeyMatch(k, rk(right[0])) then Some(right[0])
    else FirstMatch(k, right[1..], rk)
  }

  /** Polars' left join: each left row followed by every matching right row
      in order, or paired with nothing (nulls) when none matches. */
  function LeftJoin<L(!new), R(!new), K(==)>(left: seq<L>, right: seq<R>, lk: L -> Option<K>, rk: R -> Option<K>): seq<(L, Option<R>)> {
    if left == [] then []
    else
      var ms := MatchesOf(lk(left[0]), right, rk);
      (if ms == [] then [(left[0], None)]
       else Map(ms, (r: R) => (left[0], Some(r))))
      + LeftJoin(left[1..], right, lk, rk)
  }

  /** No two rows share a present key. */
  predicate UniqueKeys<R(!new), K(==)>(right: seq<R>, rk: R -> Option<K>) {
    forall i, j :: 0 <= i < j < |right| && rk(right[i]).Some? ==> rk(right[i]) != rk(right[j])
  }

  /** The first row for each key, in order of first appearance (Polars'
      `unique(subset=key)` with one row kept per key). */
  function DedupBy<T(==,!new), K(==,!new)>(s: seq<T>, key: T -> K): seq<T>
    decreases |s|
  {
    if s == [] then []
    else
      var init := DedupBy(s[..|s| - 1], key);
      if exists r :: r in init && key(r) == key(s[|s| - 1]) then init else init + [s[|s| - 1]]
  }

  /** The distinct keys of `s`, in order of first appearance. */
  function KeysOf<T(==,!new), K(==,!new)>(s: seq<T>, key: T -> K): seq<K> {
    Map(DedupBy(s, key), key)
  }

  /** Polars' `group_by(key).agg(...)`: one group per distinct key, holding
      that key's rows in their original order. */
  function GroupBy<T(==,!new), K(==,!new)>(s: seq<T>, key: T -> K): seq<(K, seq<T>)> {
    Map(KeysOf(s, key), (k: K) => (k, RowsWithKey(s, key, k)))
  }

  /** The rows of `s` whose key is `k`, in order. */
  function RowsWithKey<T(!new), K(==)>(s: seq<T>, key: T -> K, k: K): seq<T> {
    Filter(s, (r: T) => key(r) == k)
  }

  // ---------------------------------------------------------------------
  // Lemmas
  // ---------------------------------------------------------------------

  lemma FlattenCons<T>(x: seq<T>, ss: seq<seq<T>>)
    ensures Flatten([x] + ss) == x + Flatten(ss)
  {
    assert ([x] + ss)[1..] == ss;
  }

  lemma {:induction false} FilterAll<T(!new)>(s: seq<T>, p: T -> bool)
    requires forall x :: x in s ==> p(x)
    ensures Filter(s, p) == s
    decreases |s|
  {
    if s != [] {
      FilterAll(s[1..], p);
      assert s == [s[0]] + s[1..];
    }
  }

  /** With unique right keys the only match is the first one. */
  lemma {:induction false} MatchesOfUnique<R(!new), K>(k: Option<K>, right: seq<R>, rk: R -> Option<K>)
    requires UniqueKeys(right, rk)
    ensures MatchesOf(k, right, rk) == (if FirstMatch(k, right, rk).Some? then [FirstMatch(k, right, rk).value] else [])
    decreases |right|
  {
    if right != [] {
      var tail := right[1..];
      assert UniqueKeys(tail, rk) by {
        forall i, j | 0 <= i < j < |tail| && rk(tail[i]).Some? ensures rk(tail[i]) != rk(tail[j]) {
          assert tail[i] == right[i + 1] && tail[j] == right[j + 1];
        }
      }
      MatchesOfUnique(k, tail, rk);
      if KeyMatch(k, rk(right[0])) {
        assert MatchesOf(k, tail, rk) == [] by {
          forall r | r in tail ensures !KeyMatch(k, rk(r)) {
            var j :| 0 <= j < |tail| && tail[j] == r;
            assert right[j + 1] == r;
          }
        }
      }
    }
  }

  /** A left join against a table whose keys are unique keeps the left rows
      one for one: same count, same order, each paired with its first (and
      only) match or with nothing. */
  lemma {:induction false} LeftJoinUniqueRight<L(!new), R(!new), K>(left: seq<L>, right: seq<R>, lk: L -> Option<K>, rk: R -> Option<K>)
    requires UniqueKeys(right, rk)
    ensures |LeftJoin(left, right, lk, rk)| == |left|
    ensures forall i :: 0 <= i < |left| ==>
      LeftJoin(left, right, lk, rk)[i] == (left[i], FirstMatch(lk(left[i]), right, rk))
    decreases |left|
  {
    if left != [] {
      LeftJoinUniqueRight(left[1..], right, lk, rk);
      var k := lk(left[0]);
      MatchesOfUnique(k, right, rk);
      var ms := MatchesOf(k, right, rk);
      var hp := if ms == [] then [(left[0], None)] else Map(ms, (r: R) => (left[0], Some(r)));
      assert hp == [(left[0], FirstMatch(k, right, rk))];
      var rest := LeftJoin(left[1..], right, lk, rk);
      var j := LeftJoin(left, right, lk, rk);
      assert j == hp + rest;
      forall i | 0 <= i < |left| ensures j[i] == (left[i], FirstMatch(lk(left[i]), right, rk)) {
        if i > 0 { assert j[i] == rest[i - 1] && left[i] == left[1..][i - 1]; }
      }
    }
  }

  /** The rows a left join produces for one left row. */
  lemma JoinHeadMembers<L(!new), R(!new), K>(l0: L, right: seq<R>, lk: L -> Option<K>, rk: R -> Option<K>)
    ensures var ms := MatchesOf(lk(l0), right, rk);
      var head := if ms == [] then [(l0, None)] else Map(ms, (r: R) => (l0, Some(r)));
      && (forall l, r :: (l, Some(r)) in head <==> l == l0 && r in right && KeyMatch(lk(l), rk(r)))
      && (forall l :: (l, None) in head <==> l == l0 && forall r :: r in right ==> !KeyMatch(lk(l), rk(r)))
  {
    var ms := MatchesOf(lk(l0), right, rk);
    var head := if ms == [] then [(l0, None)] else Map(ms, (r: R) => (l0, Some(r)));
    forall l, r ensures (l, Some(r)) in head <==> l == l0 && r in right && KeyMatch(lk(l), rk(r)) {
      if (l, Some(r)) in head {
        var i :| 0 <= i < |head| && head[i] == (l, Some(r));
        assert r == ms[i];
      }
      if l == l0 && r in right && KeyMatch(lk(l), rk(r)) {
        assert r in ms;
        var i :| 0 <= i < |ms| && ms[i] == r;
        assert head[i] == (l, Some(r));
      }
    }
    forall l ensures (l, None) in head <==> l == l0 && forall r :: r in right ==> !KeyMatch(lk(l), rk(r)) {
      if l == l0 && ms != [] {
        assert ms[0] in ms;
      }
    }
  }

  /** Every row of a left join is a left row with a matching right row, or a
      left row with no match at all; and every left row appears. */
  lemma {:induction false} LeftJoinMembers<L(!new), R(!new), K>(left: seq<L>, right: seq<R>, lk: L -> Option<K>, rk: R -> Option<K>)
    ensures forall l, r :: (l, Some(r)) in LeftJoin(left, right, lk, rk) <==>
      l in left && r in right && KeyMatch(lk(l), rk(r))
    ensures forall l :: (l, None) in LeftJoin(left, right, lk, rk) <==>
      l in left && forall r :: r in right ==> !KeyMatch(lk(l), rk(r))
    decreases |left|
  {
    if left != [] {
      LeftJoinMembers(left[1..], right, lk, rk);
      var l0 := left[0];
      JoinHeadMembers(l0, right, lk, rk);
      var ms := MatchesOf(lk(l0), right, rk);
      var head := if ms == [] then [(l0, None)] else Map(ms, (r: R) => (l0, Some(r)));
      var rest := LeftJoin(left[1..], right, lk, rk);
      assert LeftJoin(left, right, lk, rk) == head + rest;
      assert forall l :: l in left <==> l == l0 || l in left[1..] by {
        assert left == [l0] + left[1..];
      }
      forall l, r ensures (l, Some(r)) in head + rest <==> (l, Some(r)) in head || (l, Some(r)) in rest {
      }
      forall l ensures (l, None) in head + rest <==> (l, None) in head || (l, None) in rest {
      }
    }
  }

  /** One pair at a time: a left row and a right row are paired by the join
      exactly when both are present and their keys match. */
  lemma LeftJoinPair<L(!new), R(!new), K>(left: seq<L>, right: seq<R>, lk: L -> Option<K>, rk: R -> Option<K>, l: L, r: R)
    ensures (l, Some(r)) in LeftJoin(left, right, lk, rk) <==>
      (l in left && r in right && KeyMatch(lk(l), rk(r)))
  {
    LeftJoinMembers(left, right, lk, rk);
  }

  /** `DedupBy` keeps only rows of its input. */
  lemma {:induction false} DedupBySubset<T(!new), K(!new)>(s: seq<T>, key: T -> K)
    ensures forall r :: r in DedupBy(s, key) ==> r in s
    decreases |s|
  {
    if s != [] {
      var init := s[..|s| - 1];
      DedupBySubset(init, key);
      assert s == init + [s[|s| - 1]];
    }
  }

  /** `DedupBy` keeps a row for every key of its input. */
  lemma {:induction false} DedupByCovers<T(!new), K(!new)>(s: seq<T>, key: T -> K)
    ensures forall x :: x in s ==> exists r :: r in DedupBy(s, key) && key(r) == key(x)
    decreases |s|
  {
    if s != [] {
      var init := s[..|s| - 1];
      var last := s[|s| - 1];
      DedupByCovers(init, key);
      assert s == init + [last];
      var d := DedupBy(s, key);
      var di := DedupBy(init, key);
      assert forall r :: r in di ==> r in d;
      forall x | x in s ensures exists r :: r in d && key(r) == key(x) {
        if x != last {
          assert x in init;
        } else if !exists r :: r in di && key(r) == key(last) {
          assert d == di + [last];
          assert last in d;
        }
      }
    }
  }

  /** `DedupBy` keeps at most one row per key. */
  lemma {:induction false} DedupByUnique<T(!new), K(!new)>(s: seq<T>, key: T -> K)
    ensures forall i, j :: 0 <= i < j < |DedupBy(s, key)| ==> key(DedupBy(s, key)[i]) != key(DedupBy(s, key)[j])
    decreases |s|
  {
    if s != [] {
      var init := s[..|s| - 1];
      var last := s[|s| - 1];
      DedupByUnique(init, key);
      var d := DedupBy(s, key);
      var di := DedupBy(init, key);
      if !exists r :: r in di && key(r) == key(last) {
        assert d == di + [last];
        forall i, j | 0 <= i < j < |d| ensures key(d[i]) != key(d[j]) {
          if j == |d| - 1 {
            assert d[i] in di;
          } else {
            assert d[i] == di[i] && d[j] == di[j];
          }
        }
      }
    }
  }

  /** When the last row adds to `DedupBy`, no earlier row shares its key. */
  lemma DedupByNewRow<T(!new), K(!new)>(s: seq<T>, key: T -> K)
    requires s != [] && DedupBy(s, key) != DedupBy(s[..|s| - 1], key)
    ensures DedupBy(s, key) == DedupBy(s[..|s| - 1], key) + [s[|s| - 1]]
    ensures forall j :: 0 <= j < |s| - 1 ==> key(s[j]) != key(s[|s| - 1])
  {
    var init := s[..|s| - 1];
    DedupByCovers(init, key);
    forall j | 0 <= j < |s| - 1
      ensures key(s[j]) != key(s[|s| - 1])
    {
      assert s[j] == init[j] && init[j] in init;
    }
  }

  /** The row `DedupBy` keeps for a key is the first row of the input with
      that key. */
  lemma {:induction false} DedupByFirst<T(!new), K(!new)>(s: seq<T>, key: T -> K)
    ensures forall r :: r in DedupBy(s, key) ==>
      exists i :: 0 <= i < |s| && s[i] == r && forall j :: 0 <= j < i ==> key(s[j]) != key(r)
    decreases |s|
  {
    if s != [] {
      var init := s[..|s| - 1];
      DedupByFirst(init, key);
      var d := DedupBy(s, key);
      var di := DedupBy(init, key);
      forall r | r in d
        ensures exists i :: 0 <= i < |s| && s[i] == r && forall j :: 0 <= j < i ==> key(s[j]) != key(r)
      {
        if r in di {
          var i :| 0 <= i < |init| && init[i] == r && forall j :: 0 <= j < i ==> key(init[j]) != key(r);
          assert s[i] == r;
        } else {
          DedupByNewRow(s, key);
          assert r == s[|s| - 1];
        }
      }
    }
  }

  /** `DedupBy` keeps one row per key, every kept row comes from the input,
      and every key of the input keeps a row. */
  lemma DedupByCorrect<T(!new), K(!new)>(s: seq<T>, key: T -> K)
    ensures forall i, j :: 0 <= i < j < |DedupBy(s, key)| ==> key(DedupBy(s, key)[i]) != key(DedupBy(s, key)[j])
    ensures forall r :: r in DedupBy(s, key) ==> r in s
    ensures forall x :: x in s ==> exists r :: r in DedupBy(s, key) && key(r) == key(x)
  {
    DedupByUnique(s, key);
    DedupBySubset(s, key);
    DedupByCovers(s, key);
  }

  /** With unique keys, a key is found exactly when some row carries it. */
  lemma UniqueKeysOfDedup<T(!new), K(!new)>(s: seq<T>, key: T -> K)
    ensures UniqueKeys(DedupBy(s, key), (r: T) => Some(key(r)))
  {
    DedupByCorrect(s, key);
  }

  /** The groups of `GroupBy` have distinct keys, are never empty, and each
      holds exactly the input rows carrying its key. */
  lemma GroupByCorrect<T(!new), K(!new)>(s: seq<T>, key: T -> K)
    ensures forall i, j :: 0 <= i < j < |GroupBy(s, key)| ==> GroupBy(s, key)[i].0 != GroupBy(s, key)[j].0
    ensures forall g :: g in GroupBy(s, key) ==> |g.1| > 0
    ensures forall g, r :: g in GroupBy(s, key) ==> (r in g.1 <==> r in s && key(r) == g.0)
    ensures forall x :: x in s ==> exists g :: g in GroupBy(s, key) && g.0 == key(x)
  {
    DedupByCorrect(s, key);
    var d := DedupBy(s, key);
    var gs := GroupBy(s, key);
    forall g | g in gs ensures |g.1| > 0 {
      var i :| 0 <= i < |gs| && gs[i] == g;
      assert d[i] in s && key(d[i]) == g.0;
      assert d[i] in g.1;
    }
    forall x | x in s ensures exists g :: g in gs && g.0 == key(x) {
      var r :| r in d && key(r) == key(x);
      var i :| 0 <= i < |d| && d[i] == r;
      assert gs[i].0 == key(x);
    }
  }

  /** The flattened list holds exactly the elements of the inner lists. */
  lemma {:induction false} FlattenMembers<T>(ss: seq<seq<T>>)
    ensures forall x :: x in Flatten(ss) <==> exists s :: s in ss && x in s
    decreases |ss|
  {
    if ss != [] {
      FlattenMembers(ss[1..]);
      forall s | s in ss ensures s == ss[0] || s in ss[1..] {
        var k :| 0 <= k < |ss| && ss[k] == s;
        if k > 0 { assert ss[1..][k - 1] == s; }
      }
    }
  }

  /** Each group holds the rows with its key, and a key no group carries
      has no rows. */
  lemma GroupByGroups<T(!new), K(!new)>(s: seq<T>, key: T -> K, k: K)
    ensures forall g :: g in GroupBy(s, key) ==> g.1 == RowsWithKey(s, key, g.0)
    ensures (forall g :: g in GroupBy(s, key) ==> g.0 != k) ==> RowsWithKey(s, key, k) == []
  {
    var gs := GroupBy(s, key);
    forall g | g in gs ensures g.1 == RowsWithKey(s, key, g.0) {
      var i :| 0 <= i < |gs| && gs[i] == g;
    }
    if forall g :: g in gs ==> g.0 != k {
      var rs := RowsWithKey(s, key, k);
      if rs != [] {
        assert rs[0] in rs;
        GroupByCorrect(s, key);
        assert false;
      }
    }
  }
}
