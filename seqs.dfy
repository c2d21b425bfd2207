/** Sequence utilities the model is built from: distinctness, first-appearance
    de-duplication, filtering, a stable sort in descending key order (the model of a
    stable library sort and of `ORDER BY ... DESC`), group tallies and the
    "occurs before" relation used to state ordering guarantees. */
module Seqs {
  import opened Wrappers

  predicate Distinct<T(==)>(s: seq<T>)
  {
    forall i, j :: 0 <= i < j < |s| ==> s[i] != s[j]
  }

  /** The first `n` elements, or all of them when there are fewer. */
  function Take<T(==)>(s: seq<T>, n: nat): (r: seq<T>)
    ensures |r| == if n < |s| then n else |s|
    ensures r == s[..|r|]
  {
    if n < |s| then s[..n] else s
  }

  /** Keeps the first occurrence of every element, in order of first appearance. */
  function Dedup<T(==)>(s: seq<T>): (r: seq<T>)
    ensures Distinct(r)
    ensures |r| <= |s|
  {
    if s == [] then []
    else
      var d := Dedup(s[..|s| - 1]);
      if s[|s| - 1] in d then d else d + [s[|s| - 1]]
  }

  /** De-duplication keeps every element and adds none. */
  lemma {:induction false} DedupMember<T>(s: seq<T>, x: T)
    ensures x in Dedup(s) <==> x in s
  {
    if s != [] {
      var init := s[..|s| - 1];
      DedupMember(init, x);
      assert s == init + [s[|s| - 1]];
    }
  }

  /** De-duplicating one more element appends it unless it has been seen. */
  lemma DedupSnoc<T>(s: seq<T>, x: T)
    ensures Dedup(s + [x]) == if x in s then Dedup(s) else Dedup(s) + [x]
  {
    assert (s + [x])[..|s + [x]| - 1] == s;
    DedupMember(s, x);
  }

  function Filter<T(==)>(s: seq<T>, p: T -> bool): (r: seq<T>)
    ensures |r| <= |s|
    ensures forall i :: 0 <= i < |r| ==> p(r[i])
  {
    if s == [] then []
    else
      assert s == [s[0]] + s[1..];
      (if p(s[0]) then [s[0]] else []) + Filter(s[1..], p)
  }

  /** Filtering keeps exactly the elements that satisfy the predicate. */
  lemma {:induction false} FilterMember<T>(s: seq<T>, p: T -> bool, x: T)
    ensures x in Filter(s, p) <==> x in s && p(x)
  {
    if s != [] {
      FilterMember(s[1..], p, x);
      assert x in s <==> x == s[0] || x in s[1..];
      assert Filter(s, p) == (if p(s[0]) then [s[0]] else []) + Filter(s[1..], p);
    }
  }

  lemma {:induction false} FilterDistinct<T>(s: seq<T>, p: T -> bool)
    requires Distinct(s)
    ensures Distinct(Filter(s, p))
  {
    if s != [] {
      FilterDistinct(s[1..], p);
      FilterMember(s[1..], p, s[0]);
      assert s[0] !in s[1..] by {
        forall k | 0 <= k < |s[1..]| ensures s[1..][k] != s[0] {
          assert s[1..][k] == s[k + 1];
        }
      }
    }
  }

  /** Two filters with complementary predicates partition a sequence. */
  lemma {:induction false} FilterPartition<T>(s: seq<T>, p: T -> bool, q: T -> bool)
    requires forall x :: q(x) == !p(x)
    ensures multiset(Filter(s, p)) + multiset(Filter(s, q)) == multiset(s)
  {
    if s != [] {
      var x, t := s[0], s[1..];
      FilterPartition(t, p, q);
      FilterSplit(s, p);
      FilterSplit(s, q);
      assert s == [x] + t;
      assert multiset(s) == multiset{x} + multiset(t);
      assert q(x) == !p(x);
    }
  }

  /** `Filter` unfolded once, at the level of multisets. */
  lemma FilterSplit<T>(s: seq<T>, p: T -> bool)
    requires s != []
    ensures multiset(Filter(s, p)) == (if p(s[0]) then multiset{s[0]} else multiset{}) + multiset(Filter(s[1..], p))
  {
  }

  /** Filtering keeps every occurrence of an element that satisfies the predicate and
      none of one that does not. */
  lemma {:induction false} FilterCount<T>(s: seq<T>, p: T -> bool, x: T)
    ensures multiset(Filter(s, p))[x] == if p(x) then multiset(s)[x] else 0
  {
    if s != [] {
      FilterCount(s[1..], p, x);
      FilterSplit(s, p);
      assert s == [s[0]] + s[1..];
    }
  }

  // ---------------------------------------------------------------------------
  // Stable sort, descending by an integer key

  predicate SortedDesc<T(==)>(s: seq<T>, key: T -> int)
  {
    forall i, j :: 0 <= i < j < |s| ==> key(s[i]) >= key(s[j])
  }

  /** Inserts `x` after every element whose key is at least `key(x)`. */
  function Insert<T(==)>(x: T, s: seq<T>, key: T -> int): (r: seq<T>)
    ensures multiset(r) == multiset(s) + multiset{x}
    ensures |r| == |s| + 1
  {
    if s == [] then [x]
    else if key(s[0]) >= key(x) then
      assert s == [s[0]] + s[1..];
      [s[0]] + Insert(x, s[1..], key)
    else [x] + s
  }

  lemma {:induction false} InsertSorted<T>(x: T, s: seq<T>, key: T -> int)
    requires SortedDesc(s, key)
    ensures SortedDesc(Insert(x, s, key), key)
  {
    if s != [] {
      if key(s[0]) >= key(x) {
        var t := Insert(x, s[1..], key);
        assert SortedDesc(s[1..], key);
        InsertSorted(x, s[1..], key);
        forall y | y in t ensures key(s[0]) >= key(y) {
          assert y in multiset(s[1..]) + multiset{x};
        }
        ConsSorted(s[0], t, key);
      } else {
        ConsSorted(x, s, key);
      }
    }
  }

  /** An element whose key is at least every key of a sorted sequence can go in front. */
  lemma ConsSorted<T>(x: T, t: seq<T>, key: T -> int)
    requires SortedDesc(t, key) && forall y :: y in t ==> key(x) >= key(y)
    ensures SortedDesc([x] + t, key)
  {
    var r := [x] + t;
    forall i, j | 0 <= i < j < |r| ensures key(r[i]) >= key(r[j]) {
      assert r[j] == t[j - 1];
      if i > 0 {
        assert r[i] == t[i - 1];
      }
    }
  }

  /** Insertion sort, taking the elements left to right: equal keys keep their order. */
  function SortDesc<T(==)>(s: seq<T>, key: T -> int): (r: seq<T>)
    ensures multiset(r) == multiset(s)
    ensures |r| == |s|
    ensures SortedDesc(r, key)
  {
    if s == [] then []
    else
      var t := SortDesc(s[..|s| - 1], key);
      InsertSorted(s[|s| - 1], t, key);
      assert s == s[..|s| - 1] + [s[|s| - 1]];
      Insert(s[|s| - 1], t, key)
  }

  /** Sorting only consults the key on the elements being sorted. */
  lemma {:induction false} SortDescCongruent<T>(s: seq<T>, f: T -> int, g: T -> int)
    requires forall x :: x in s ==> f(x) == g(x)
    ensures SortDesc(s, f) == SortDesc(s, g)
  {
    if s != [] {
      var init := s[..|s| - 1];
      SortDescCongruent(init, f, g);
      var t := SortDesc(init, f);
      forall x | x in t ensures f(x) == g(x) {
        assert x in multiset(init);
      }
      InsertCongruent(s[|s| - 1], t, f, g);
    }
  }

  lemma {:induction false} InsertCongruent<T>(x: T, s: seq<T>, f: T -> int, g: T -> int)
    requires f(x) == g(x)
    requires forall y :: y in s ==> f(y) == g(y)
    ensures Insert(x, s, f) == Insert(x, s, g)
  {
    if s != [] {
      InsertCongruent(x, s[1..], f, g);
    }
  }

  /** The elements whose key is `v`, in order. */
  function WithKey<T(==)>(s: seq<T>, key: T -> int, v: int): (r: seq<T>)
    ensures forall i :: 0 <= i < |r| ==> r[i] in s && key(r[i]) == v
    ensures forall i :: 0 <= i < |s| && key(s[i]) == v ==> s[i] in r
  {
    if s == [] then []
    else (if key(s[0]) == v then [s[0]] else []) + WithKey(s[1..], key, v)
  }

  lemma {:induction false} WithKeyAppend<T>(a: seq<T>, b: seq<T>, key: T -> int, v: int)
    ensures WithKey(a + b, key, v) == WithKey(a, key, v) + WithKey(b, key, v)
  {
    if a != [] {
      WithKeyAppend(a[1..], b, key, v);
      var h := if key(a[0]) == v then [a[0]] else [];
      assert (a + b)[0] == a[0];
      assert (a + b)[1..] == a[1..] + b;
      calc {
        WithKey(a + b, key, v);
        h + WithKey(a[1..] + b, key, v);
        h + (WithKey(a[1..], key, v) + WithKey(b, key, v));
        (h + WithKey(a[1..], key, v)) + WithKey(b, key, v);
      }
    } else {
      assert a + b == b;
    }
  }

  lemma {:induction false} WithKeyNone<T>(s: seq<T>, key: T -> int, v: int)
    requires forall x :: x in s ==> key(x) != v
    ensures WithKey(s, key, v) == []
  {
    if s != [] {
      WithKeyNone(s[1..], key, v);
    }
  }

  lemma {:induction false} InsertStable<T>(x: T, s: seq<T>, key: T -> int, v: int)
    requires SortedDesc(s, key)
    ensures WithKey(Insert(x, s, key), key, v) == WithKey(s, key, v) + WithKey([x], key, v)
  {
    WithKeySingle(x, key, v);
    if s == [] {
      assert Insert(x, s, key) == [x];
    } else if key(s[0]) >= key(x) {
      assert SortedDesc(s[1..], key);
      InsertStable(x, s[1..], key, v);
      InsertStableBehind(x, s, key, v);
    } else {
      InsertStableFront(x, s, key, v);
    }
  }

  lemma WithKeySingle<T>(x: T, key: T -> int, v: int)
    ensures WithKey([x], key, v) == if key(x) == v then [x] else []
  {
    assert [x][1..] == [];
  }

  /** The step of `InsertStable` where `x` goes behind the first element. */
  lemma InsertStableBehind<T>(x: T, s: seq<T>, key: T -> int, v: int)
    requires s != [] && key(s[0]) >= key(x)
    requires WithKey(Insert(x, s[1..], key), key, v) == WithKey(s[1..], key, v) + WithKey([x], key, v)
    ensures WithKey(Insert(x, s, key), key, v) == WithKey(s, key, v) + WithKey([x], key, v)
  {
    var h, t := s[0], s[1..];
    var hk := if key(h) == v then [h] else [];
    var u := Insert(x, t, key);
    assert Insert(x, s, key) == [h] + u;
    assert ([h] + u)[0] == h && ([h] + u)[1..] == u;
    calc {
      WithKey([h] + u, key, v);
      hk + WithKey(u, key, v);
      hk + (WithKey(t, key, v) + WithKey([x], key, v));
      { AppendAssoc(hk, WithKey(t, key, v), WithKey([x], key, v)); }
      (hk + WithKey(t, key, v)) + WithKey([x], key, v);
      WithKey(s, key, v) + WithKey([x], key, v);
    }
  }

  /** The step of `InsertStable` where `x` goes in front: no element of `s` shares its key. */
  lemma InsertStableFront<T>(x: T, s: seq<T>, key: T -> int, v: int)
    requires SortedDesc(s, key) && s != [] && key(s[0]) < key(x)
    ensures WithKey(Insert(x, s, key), key, v) == WithKey(s, key, v) + WithKey([x], key, v)
  {
    WithKeySingle(x, key, v);
    assert Insert(x, s, key) == [x] + s;
    assert ([x] + s)[0] == x && ([x] + s)[1..] == s;
    assert WithKey([x] + s, key, v) == WithKey([x], key, v) + WithKey(s, key, v);
    if key(x) == v {
      forall y | y in s ensures key(y) != v {
        var j :| 0 <= j < |s| && s[j] == y;
        assert key(s[j]) <= key(s[0]);
      }
      WithKeyNone(s, key, v);
    }
  }

  lemma AppendAssoc<T>(a: seq<T>, b: seq<T>, c: seq<T>)
    ensures a + (b + c) == (a + b) + c
  {
  }

  /** Stability: for every key value, the elements carrying it appear in the sorted
      sequence in exactly the order they had in the input. */
  lemma {:induction false} SortDescStable<T>(s: seq<T>, key: T -> int, v: int)
    ensures WithKey(SortDesc(s, key), key, v) == WithKey(s, key, v)
  {
    if s != [] {
      var init, last := s[..|s| - 1], s[|s| - 1];
      assert s == init + [last];
      var t := SortDesc(init, key);
      SortDescStable(init, key, v);
      InsertStable(last, t, key, v);
      WithKeyAppend(init, [last], key, v);
    }
  }

  // ---------------------------------------------------------------------------
  // Distinctness and multisets

  /** A prefix of a duplicate-free sequence is duplicate-free. */
  lemma DistinctPrefix<T>(s: seq<T>, n: nat)
    requires Distinct(s) && n <= |s|
    ensures Distinct(s[..n])
  {
    forall i, j | 0 <= i < j < n ensures s[..n][i] != s[..n][j] {
      assert s[..n][i] == s[i] && s[..n][j] == s[j];
    }
  }

  lemma {:induction false} DistinctCount<T>(s: seq<T>, x: T)
    requires Distinct(s)
    ensures multiset(s)[x] <= 1
  {
    if s != [] {
      DistinctCount(s[1..], x);
      assert s == [s[0]] + s[1..];
    }
  }

  lemma DistinctFromMultiset<T>(a: seq<T>, b: seq<T>)
    requires Distinct(a) && multiset(a) == multiset(b)
    ensures Distinct(b)
  {
    forall i, j | 0 <= i < j < |b| ensures b[i] != b[j] {
      if b[i] == b[j] {
        assert b == b[..j] + b[j..];
        assert b[i] in multiset(b[..j]) && b[j] in multiset(b[j..]);
        assert multiset(b)[b[i]] >= 2;
        DistinctCount(a, b[i]);
      }
    }
  }

  /** The image of every element under `f`, in order. */
  function Images<T, U>(s: seq<T>, f: T -> U): (r: seq<U>)
    ensures |r| == |s|
  {
    seq(|s|, i requires 0 <= i < |s| => f(s[i]))
  }

  /** The images that pass a filter are exactly the passing values some element maps to. */
  lemma FilterImagesMember<T, U>(s: seq<T>, f: T -> U, p: U -> bool)
    ensures forall y :: y in Filter(Images(s, f), p) <==> p(y) && exists i :: 0 <= i < |s| && f(s[i]) == y
  {
    var m := Images(s, f);
    forall y ensures y in Filter(m, p) <==> p(y) && exists i :: 0 <= i < |s| && f(s[i]) == y {
      FilterMember(m, p, y);
      if exists i :: 0 <= i < |s| && f(s[i]) == y {
        var i :| 0 <= i < |s| && f(s[i]) == y;
        assert m[i] == y;
      }
    }
  }

  /** Taking images keeps multiset inclusion: an element occurring at most k times more
      has an image occurring at most k times more. */
  lemma {:induction false} ImagesMonotone<T, U>(a: seq<T>, b: seq<T>, f: T -> U)
    requires multiset(a) <= multiset(b)
    ensures multiset(Images(a, f)) <= multiset(Images(b, f))
    decreases |a|
  {
    if a != [] {
      var x := a[0];
      assert a == [x] + a[1..];
      assert x in multiset(b);
      var k :| 0 <= k < |b| && b[k] == x;
      var rest := b[..k] + b[k + 1..];
      RemoveOne(b, k, f);
      ImagesCons(a, f);
      forall y ensures multiset(a[1..])[y] <= multiset(rest)[y] {
        assert multiset(a)[y] <= multiset(b)[y];
      }
      ImagesMonotone(a[1..], rest, f);
    }
  }

  /** Removing the element at `k` removes one occurrence of it and of its image. */
  lemma RemoveOne<T, U>(b: seq<T>, k: nat, f: T -> U)
    requires k < |b|
    ensures multiset(b) == multiset(b[..k] + b[k + 1..]) + multiset{b[k]}
    ensures multiset(Images(b, f)) == multiset(Images(b[..k] + b[k + 1..], f)) + multiset{f(b[k])}
  {
    assert b == b[..k] + [b[k]] + b[k + 1..];
    assert Images(b, f) == Images(b[..k], f) + [f(b[k])] + Images(b[k + 1..], f);
    assert Images(b[..k] + b[k + 1..], f) == Images(b[..k], f) + Images(b[k + 1..], f);
  }

  lemma ImagesCons<T, U>(a: seq<T>, f: T -> U)
    requires a != []
    ensures multiset(a) == multiset(a[1..]) + multiset{a[0]}
    ensures multiset(Images(a, f)) == multiset(Images(a[1..], f)) + multiset{f(a[0])}
  {
    assert a == [a[0]] + a[1..];
    assert Images(a, f) == [f(a[0])] + Images(a[1..], f);
  }

  // ---------------------------------------------------------------------------
  // Group tallies

  /** For each key, the key paired with its number of occurrences in `s`. */
  function Tally<T(==)>(keys: seq<T>, s: seq<T>): (r: seq<(T, nat)>)
    ensures |r| == |keys|
    ensures forall i :: 0 <= i < |r| ==> r[i] == (keys[i], multiset(s)[keys[i]])
  {
    if keys == [] then [] else [(keys[0], multiset(s)[keys[0]])] + Tally(keys[1..], s)
  }

  function SumCounts<T(==)>(groups: seq<(T, nat)>): nat
  {
    if groups == [] then 0 else groups[0].1 + SumCounts(groups[1..])
  }

  lemma {:induction false} SumCountsEmpty<T>(keys: seq<T>)
    ensures SumCounts(Tally(keys, [])) == 0
  {
    if keys != [] {
      SumCountsEmpty(keys[1..]);
    }
  }

  lemma {:induction false} SumCountsSnoc<T>(keys: seq<T>, s: seq<T>, z: T)
    requires Distinct(keys)
    ensures SumCounts(Tally(keys, s + [z])) == SumCounts(Tally(keys, s)) + (if z in keys then 1 else 0)
  {
    if keys != [] {
      SumCountsSnoc(keys[1..], s, z);
      assert multiset(s + [z]) == multiset(s) + multiset{z};
      assert keys == [keys[0]] + keys[1..];
    }
  }

  /** When the keys are distinct and cover `s`, the tallies add up to `|s|`. */
  lemma {:induction false} SumCountsCover<T>(keys: seq<T>, s: seq<T>)
    requires Distinct(keys)
    requires forall x :: x in s ==> x in keys
    ensures SumCounts(Tally(keys, s)) == |s|
  {
    if s == [] {
      SumCountsEmpty(keys);
    } else {
      var init, last := s[..|s| - 1], s[|s| - 1];
      assert s == init + [last];
      SumCountsCover(keys, init);
      SumCountsSnoc(keys, init, last);
    }
  }

  /** One group per distinct value of `s`, whose counts add up to `|s|`. */
  lemma GroupsCoverAll<T>(s: seq<T>)
    ensures SumCounts(Tally(Dedup(s), s)) == |s|
  {
    forall x | x in s ensures x in Dedup(s) {
      DedupMember(s, x);
    }
    SumCountsCover(Dedup(s), s);
  }

  // ---------------------------------------------------------------------------
  // Relative order

  /** `x` stands at an earlier position of `s` than `y`. */
  predicate Before<T(==)>(s: seq<T>, x: T, y: T)
  {
    exists i, j :: 0 <= i < j < |s| && s[i] == x && s[j] == y
  }

  /** `x` occurs in `s` before the first occurrence of `y`. */
  predicate FirstBefore<T(==)>(s: seq<T>, x: T, y: T)
  {
    exists i :: 0 <= i < |s| && s[i] == x && y !in s[..i + 1]
  }

  lemma BeforeTail<T>(s: seq<T>, x: T, y: T)
    requires s != [] && Before(s[1..], x, y)
    ensures Before(s, x, y)
  {
    var i, j :| 0 <= i < j < |s[1..]| && s[1..][i] == x && s[1..][j] == y;
    assert s[i + 1] == x && s[j + 1] == y;
  }

  lemma BeforeTake<T>(s: seq<T>, n: nat, x: T, y: T)
    requires Before(Take(s, n), x, y)
    ensures Before(s, x, y)
  {
    var t := Take(s, n);
    var i, j :| 0 <= i < j < |t| && t[i] == x && t[j] == y;
    assert s[i] == x && s[j] == y;
  }

  /** Order in `a + b` between elements that are not in `a` is order in `b`. */
  lemma BeforeRight<T>(a: seq<T>, b: seq<T>, x: T, y: T)
    requires Before(a + b, x, y) && x !in a
    ensures Before(b, x, y)
  {
    var s := a + b;
    var i, j :| 0 <= i < j < |s| && s[i] == x && s[j] == y;
    assert b[i - |a|] == x && b[j - |a|] == y;
  }

  /** In `a + b`, an element of `a` only (`y`) never follows one outside `a` (`x`). */
  lemma NotBeforeLeft<T>(a: seq<T>, b: seq<T>, x: T, y: T)
    requires y in a && y !in b && x !in a
    ensures !Before(a + b, x, y)
  {
    if Before(a + b, x, y) {
      assert false;
    }
  }

  lemma {:induction false} BeforeFromWithKey<T>(s: seq<T>, key: T -> int, v: int, x: T, y: T)
    requires Before(WithKey(s, key, v), x, y)
    ensures Before(s, x, y)
  {
    var rest := WithKey(s[1..], key, v);
    if key(s[0]) == v {
      var w := WithKey(s, key, v);
      assert w == [s[0]] + rest;
      var i, j :| 0 <= i < j < |w| && w[i] == x && w[j] == y;
      if i == 0 {
        assert rest[j - 1] == y;
        var k :| 0 <= k < |s[1..]| && s[1..][k] == y;
        assert s[0] == x && s[k + 1] == y;
      } else {
        assert rest[i - 1] == x && rest[j - 1] == y;
        BeforeFromWithKey(s[1..], key, v, x, y);
        BeforeTail(s, x, y);
      }
    } else {
      BeforeFromWithKey(s[1..], key, v, x, y);
      BeforeTail(s, x, y);
    }
  }

  lemma {:induction false} BeforeToWithKey<T>(s: seq<T>, key: T -> int, v: int, x: T, y: T)
    requires Before(s, x, y) && key(x) == v && key(y) == v
    ensures Before(WithKey(s, key, v), x, y)
  {
    var i, j :| 0 <= i < j < |s| && s[i] == x && s[j] == y;
    var w, rest := WithKey(s, key, v), WithKey(s[1..], key, v);
    if i == 0 {
      assert w == [x] + rest;
      assert s[1..][j - 1] == y;
      var k :| 0 <= k < |rest| && rest[k] == y;
      assert w[0] == x && w[k + 1] == y;
    } else {
      assert s[1..][i - 1] == x && s[1..][j - 1] == y;
      BeforeToWithKey(s[1..], key, v, x, y);
      var i', j' :| 0 <= i' < j' < |rest| && rest[i'] == x && rest[j'] == y;
      if key(s[0]) == v {
        assert w == [s[0]] + rest;
        assert w[i' + 1] == x && w[j' + 1] == y;
      } else {
        assert w == rest;
      }
    }
  }

  lemma {:induction false} BeforeFromFilter<T>(s: seq<T>, p: T -> bool, x: T, y: T)
    requires Before(Filter(s, p), x, y)
    ensures Before(s, x, y)
  {
    var rest := Filter(s[1..], p);
    if p(s[0]) {
      var w := Filter(s, p);
      assert w == [s[0]] + rest;
      var i, j :| 0 <= i < j < |w| && w[i] == x && w[j] == y;
      if i == 0 {
        assert rest[j - 1] == y;
        FilterMember(s[1..], p, y);
        var k :| 0 <= k < |s[1..]| && s[1..][k] == y;
        assert s[0] == x && s[k + 1] == y;
      } else {
        assert rest[i - 1] == x && rest[j - 1] == y;
        BeforeFromFilter(s[1..], p, x, y);
        BeforeTail(s, x, y);
      }
    } else {
      BeforeFromFilter(s[1..], p, x, y);
      BeforeTail(s, x, y);
    }
  }

  /** De-duplication lists values in order of their first appearance. */
  lemma {:induction false} DedupFirstBefore<T>(s: seq<T>, x: T, y: T)
    requires Before(Dedup(s), x, y)
    ensures FirstBefore(s, x, y)
  {
    var init, last := s[..|s| - 1], s[|s| - 1];
    var d := Dedup(init);
    assert s == init + [last];
    if last in d {
      DedupFirstBefore(init, x, y);
      var i :| 0 <= i < |init| && init[i] == x && y !in init[..i + 1];
      assert s[..i + 1] == init[..i + 1];
    } else {
      var e := d + [last];
      var i, j :| 0 <= i < j < |e| && e[i] == x && e[j] == y;
      if j < |d| {
        assert d[i] == x && d[j] == y;
        DedupFirstBefore(init, x, y);
        var k :| 0 <= k < |init| && init[k] == x && y !in init[..k + 1];
        assert s[..k + 1] == init[..k + 1];
      } else {
        DedupMember(init, last);
        DedupMember(init, x);
        assert y == last && y !in init;
        assert x in d && x in init;
        var k :| 0 <= k < |init| && init[k] == x;
        assert s[..k + 1] == init[..k + 1];
        assert s[k] == x;
      }
    }
  }

  // ---------------------------------------------------------------------------
  // The top of a sorted selection (`WHERE ... ORDER BY key DESC LIMIT n`)

  /** The first `n` elements in descending key order: elements of `s`; all of them when
      `n` is at least their number; and no element left out has a larger key than one
      returned. */
  lemma TopOf<T>(s: seq<T>, key: T -> int, n: nat)
    ensures var r := Take(SortDesc(s, key), n);
      && (forall i :: 0 <= i < |r| ==> r[i] in s)
      && SortedDesc(r, key)
      && (n >= |s| ==> forall x :: x in s ==> x in r)
      && (forall x, i :: x in s && 0 <= i < |r| && key(x) > key(r[i]) ==> x in r)
  {
    var t := SortDesc(s, key);
    var r := Take(t, n);
    forall i | 0 <= i < |r| ensures r[i] in s {
      SortedMember(s, key, r[i]);
    }
    forall x | x in s ensures x in t {
      SortedMember(s, key, x);
    }
    forall x, i | x in s && 0 <= i < |r| && key(x) > key(r[i]) ensures x in r {
      SortedMember(s, key, x);
      PrefixHoldsLarger(t, key, n, x, i);
    }
  }

  /** The first `n` in descending key order, counted: no element occurs more often than
      in `s`, and every element occurs as often when `n` admits all of them. */
  lemma TopCounts<T>(s: seq<T>, key: T -> int, n: nat)
    ensures multiset(Take(SortDesc(s, key), n)) <= multiset(s)
    ensures n >= |s| ==> multiset(Take(SortDesc(s, key), n)) == multiset(s)
  {
    var t := SortDesc(s, key);
    PrefixCounts(t, |Take(t, n)|);
  }

  lemma PrefixCounts<T>(t: seq<T>, m: nat)
    requires m <= |t|
    ensures multiset(t[..m]) <= multiset(t)
    ensures m == |t| ==> multiset(t[..m]) == multiset(t)
  {
    assert t == t[..m] + t[m..];
  }

  /** `TopOf` seen through a projection `f` that keeps the key: every entry is the image
      of an element of `s`, the entries are in descending key order, and the image of
      every element whose key is larger than an entry's is among them. */
  lemma TopProjected<T, U>(s: seq<T>, key: T -> int, n: nat, f: T -> U, fkey: U -> int, r: seq<U>)
    requires forall x :: fkey(f(x)) == key(x)
    requires |r| == |Take(SortDesc(s, key), n)|
    requires forall i :: 0 <= i < |r| ==> r[i] == f(Take(SortDesc(s, key), n)[i])
    ensures forall y :: y in r ==> exists x :: x in s && y == f(x)
    ensures forall i, j :: 0 <= i < j < |r| ==> fkey(r[i]) >= fkey(r[j])
    ensures forall x, i :: x in s && 0 <= i < |r| && key(x) > fkey(r[i]) ==> f(x) in r
    ensures multiset(r) <= multiset(Images(s, f))
    ensures n >= |s| ==> multiset(r) == multiset(Images(s, f))
  {
    var top := Take(SortDesc(s, key), n);
    TopOf(s, key, n);
    TopCounts(s, key, n);
    assert r == Images(top, f);
    ImagesMonotone(top, s, f);
    if n >= |s| {
      ImagesMonotone(s, top, f);
    }
    forall y | y in r ensures exists x :: x in s && y == f(x) {
      var i :| 0 <= i < |r| && r[i] == y;
      assert top[i] in s;
    }
    forall i, j | 0 <= i < j < |r| ensures fkey(r[i]) >= fkey(r[j]) {
      assert key(top[i]) >= key(top[j]);
    }
    forall x, i | x in s && 0 <= i < |r| && key(x) > fkey(r[i]) ensures f(x) in r {
      assert key(x) > key(top[i]);
      assert x in top;
      var k :| 0 <= k < |top| && top[k] == x;
      assert r[k] == f(x);
    }
  }

  /** Sorting keeps exactly the elements it is given. */
  lemma SortedMember<T>(s: seq<T>, key: T -> int, x: T)
    ensures x in SortDesc(s, key) <==> x in s
  {
    assert x in SortDesc(s, key) <==> x in multiset(SortDesc(s, key));
  }

  /** A prefix of a sequence sorted in descending order holds every element of the
      sequence whose key is larger than that of one it holds. */
  lemma PrefixHoldsLarger<T>(s: seq<T>, key: T -> int, n: nat, x: T, i: nat)
    requires SortedDesc(s, key) && x in s
    requires i < |Take(s, n)| && key(x) > key(Take(s, n)[i])
    ensures x in Take(s, n)
  {
    var j :| 0 <= j < |s| && s[j] == x;
    assert Take(s, n)[j] == x;
  }

  /** `TopOf` of the elements that satisfy `p`. */
  lemma TopOfSelection<T>(s: seq<T>, p: T -> bool, key: T -> int, n: nat)
    ensures var r := Take(SortDesc(Filter(s, p), key), n);
      && (forall i :: 0 <= i < |r| ==> r[i] in s && p(r[i]))
      && SortedDesc(r, key)
      && (n >= |Filter(s, p)| ==> forall x :: x in s && p(x) ==> x in r)
      && (forall x, i :: x in s && p(x) && 0 <= i < |r| && key(x) > key(r[i]) ==> x in r)
  {
    var sel := Filter(s, p);
    var r := Take(SortDesc(sel, key), n);
    TopOf(sel, key, n);
    forall i | 0 <= i < |r| ensures r[i] in s && p(r[i]) {
      FilterMember(s, p, r[i]);
    }
    forall x | x in s && p(x) ensures x in sel {
      FilterMember(s, p, x);
    }
  }

  /** `TopOf` of the selection counted: no element occurs more often than in `s`, and
      when `n` admits the whole selection every selected element occurs as often. */
  lemma TopOfSelectionCounts<T>(s: seq<T>, p: T -> bool, key: T -> int, n: nat)
    ensures var r := Take(SortDesc(Filter(s, p), key), n);
      && multiset(r) <= multiset(s)
      && (n >= |Filter(s, p)| ==> forall x :: x in s && p(x) ==> multiset(r)[x] == multiset(s)[x])
  {
    var sel := Filter(s, p);
    var r := Take(SortDesc(sel, key), n);
    TopCounts(sel, key, n);
    forall x ensures multiset(sel)[x] <= multiset(s)[x] {
      FilterCount(s, p, x);
    }
    assert multiset(sel) <= multiset(s);
    if n >= |sel| {
      forall x | x in s && p(x) ensures multiset(r)[x] == multiset(s)[x] {
        FilterCount(s, p, x);
      }
    }
  }

  /** A filter every element passes returns the sequence unchanged. */
  lemma {:induction false} FilterAll<T>(s: seq<T>, p: T -> bool)
    requires forall i :: 0 <= i < |s| ==> p(s[i])
    ensures Filter(s, p) == s
  {
    if s != [] {
      FilterAll(s[1..], p);
    }
  }

  /** Filters that agree on every element select the same subsequence. */
  lemma {:induction false} FilterCongruent<T>(s: seq<T>, p: T -> bool, q: T -> bool)
    requires forall i :: 0 <= i < |s| ==> p(s[i]) == q(s[i])
    ensures Filter(s, p) == Filter(s, q)
  {
    if s != [] {
      FilterCongruent(s[1..], p, q);
    }
  }

  // ---------------------------------------------------------------------------
  // First match (`find_one` in natural order)

  /** The index of the first element satisfying `p`, if any. */
  function FirstIndex<T>(s: seq<T>, p: T -> bool): (r: Option<nat>)
    ensures r.Some? ==> r.value < |s| && p(s[r.value])
    ensures r.Some? ==> forall j :: 0 <= j < r.value ==> !p(s[j])
    ensures r.None? <==> forall j :: 0 <= j < |s| ==> !p(s[j])
  {
    if s == [] then None
    else if p(s[0]) then Some(0)
    else match FirstIndex(s[1..], p)
      case None => None
      case Some(k) => Some(k + 1)
  }

  /** The first match is determined by which positions match. */
  lemma FirstIndexCongruent<T>(s: seq<T>, t: seq<T>, p: T -> bool)
    requires |s| == |t| && forall j :: 0 <= j < |s| ==> p(s[j]) == p(t[j])
    ensures FirstIndex(s, p) == FirstIndex(t, p)
  {
    var a, b := FirstIndex(s, p), FirstIndex(t, p);
    if a.Some? && b.Some? {
      assert !(a.value < b.value) && !(b.value < a.value);
    }
  }
}
