/** Shared vocabulary: optional values, results, index sequences, chunking and sums. */
module Common {

  datatype Option<+T> = None | Some(value: T)

  datatype Result<+T, +E> = Ok(value: T) | Err(error: E)

  const I64_MIN: int := -0x8000_0000_0000_0000
  const I64_MAX: int := 0x7FFF_FFFF_FFFF_FFFF
  const U64_SIZE: int := 0x1_0000_0000_0000_0000

  function Min(a: int, b: int): int {
    if a <= b then a else b
  }

  function Max(a: int, b: int): int {
    if a <= b then b else a
  }

  // ---------------------------------------------------------------- index sequences

  predicate StrictlyIncreasing(xs: seq<int>) {
    forall i, j :: 0 <= i < j < |xs| ==> xs[i] < xs[j]
  }

  predicate NoDuplicates<T(==)>(xs: seq<T>) {
    forall i, j :: 0 <= i < j < |xs| ==> xs[i] != xs[j]
  }

  /** The increasing list of the indices below `n` that satisfy `keep`. */
  function Positions(n: nat, keep: nat -> bool): (ps: seq<nat>)
    ensures StrictlyIncreasing(ps)
    ensures forall i {:trigger i in ps} :: i in ps <==> 0 <= i < n && keep(i)
    ensures |ps| <= n
  {
    if n == 0 then []
    else
      var before := Positions(n - 1, keep);
      assert forall j :: 0 <= j < |before| ==> before[j] in before;
      if keep(n - 1) then before + [n - 1] else before
  }

  /** The elements of `xs` at the positions `ks`, in that order. */
  function Pick<T>(xs: seq<T>, ks: seq<nat>): (ys: seq<T>)
    requires forall j :: 0 <= j < |ks| ==> ks[j] < |xs|
    ensures |ys| == |ks|
    ensures forall j :: 0 <= j < |ks| ==> ys[j] == xs[ks[j]]
  {
    seq(|ks|, j requires 0 <= j < |ks| => xs[ks[j]])
  }

  /** Picking distinct positions of distinct elements yields distinct elements. */
  lemma PickNoDuplicates<T>(xs: seq<T>, ks: seq<nat>)
    requires NoDuplicates(xs) && NoDuplicates(ks) && forall j :: 0 <= j < |ks| ==> ks[j] < |xs|
    ensures NoDuplicates(Pick(xs, ks))
  {
    forall i, j | 0 <= i < j < |ks| ensures xs[ks[i]] != xs[ks[j]] {
      assert if ks[i] < ks[j] then true else ks[j] < ks[i];
    }
  }

  lemma PickPick<T>(xs: seq<T>, ks: seq<nat>, js: seq<nat>)
    requires forall j :: 0 <= j < |ks| ==> ks[j] < |xs|
    requires forall j :: 0 <= j < |js| ==> js[j] < |ks|
    ensures forall j :: 0 <= j < |js| ==> Pick(ks, js)[j] < |xs|
    ensures Pick(Pick(xs, ks), js) == Pick(xs, Pick(ks, js))
  {
  }

  /** A strictly increasing sequence is determined by its members. */
  lemma {:induction false} IncreasingUnique(a: seq<int>, b: seq<int>)
    requires StrictlyIncreasing(a) && StrictlyIncreasing(b)
    requires forall x :: x in a <==> x in b
    ensures a == b
  {
    if b != [] { assert b[0] in b; }
    if a == [] {
    } else {
      var m, n := |a| - 1, |b| - 1;
      assert a[m] in a && a[m] in b && b != [];
      assert b[n] in b && b[n] in a;
      assert a[m] == b[n];
      forall x ensures x in a[..m] <==> x in b[..n] {
        if x in a[..m] { assert x in a && x != b[n]; }
        if x in b[..n] { assert x in b && x != a[m]; }
      }
      IncreasingUnique(a[..m], b[..n]);
      assert a == a[..m] + [a[m]] && b == b[..n] + [b[n]];
    }
  }

  /** Pigeonhole: a duplicate-free sequence is no longer than one that covers it. */
  lemma {:induction false} NoDuplicatesLength<T>(a: seq<T>, b: seq<T>)
    requires NoDuplicates(a)
    requires forall x :: x in a ==> x in b
    ensures |a| <= |b|
  {
    if a == [] {
    } else {
      var last := a[|a| - 1];
      assert last in b;
      var k :| 0 <= k < |b| && b[k] == last;
      var rest := b[..k] + b[k + 1..];
      forall x | x in a[..|a| - 1] ensures x in rest {
        assert x in b && x != last;
        var i :| 0 <= i < |b| && b[i] == x;
        assert rest[if i < k then i else i - 1] == x;
      }
      NoDuplicatesLength(a[..|a| - 1], rest);
    }
  }

  /** Pigeonhole with equality: a duplicate-free sequence as long as its cover meets every member of it. */
  lemma NoDuplicatesCover<T>(a: seq<T>, b: seq<T>, y: T)
    requires NoDuplicates(a) && NoDuplicates(b) && |a| == |b|
    requires forall x :: x in a ==> x in b
    requires y in b
    ensures y in a
  {
    if y !in a {
      NoDuplicatesLength(a + [y], b);
    }
  }

  /** Distinct numbers between 1 and their count take every value in that range. */
  lemma DistinctRanksCover(ranks: seq<int>, r: int)
    requires NoDuplicates(ranks)
    requires forall j :: 0 <= j < |ranks| ==> 1 <= ranks[j] <= |ranks|
    requires 1 <= r <= |ranks|
    ensures r in ranks
  {
    var all := seq(|ranks|, j => j + 1);
    forall x | x in ranks ensures x in all {
      var j :| 0 <= j < |ranks| && ranks[j] == x;
      assert all[x - 1] == x;
    }
    assert all[r - 1] == r;
    NoDuplicatesCover(ranks, all, r);
  }

  /** Distinct numbers below their count take every value there. */
  lemma DistinctPositionsCover(xs: seq<nat>, i: nat)
    requires NoDuplicates(xs)
    requires forall j :: 0 <= j < |xs| ==> xs[j] < |xs|
    requires i < |xs|
    ensures i in xs
  {
    var ranks := seq(|xs|, j requires 0 <= j < |xs| => xs[j] + 1);
    DistinctRanksCover(ranks, i + 1);
    var j :| 0 <= j < |ranks| && ranks[j] == i + 1;
    assert xs[j] == i;
  }

  /**
   Two duplicate-free sequences sorted by `f`, the first an initial part (up to ties) of the
   second, agree on `f` at every place of the first: ties may be broken differently, the
   sorted values may not differ.
   */
  lemma SortedPrefixAgrees(a: seq<nat>, b: seq<nat>, f: nat -> int)
    requires NoDuplicates(a) && NoDuplicates(b) && SortedBy(a, f) && SortedBy(b, f)
    requires forall x :: x in a ==> x in b
    requires forall x, y :: x in b && x !in a && y in a ==> f(y) <= f(x)
    ensures |a| <= |b|
    ensures forall j :: 0 <= j < |a| ==> f(a[j]) == f(b[j])
  {
    NoDuplicatesLength(a, b);
    forall j | 0 <= j < |a| ensures f(a[j]) == f(b[j]) {
      if f(a[j]) < f(b[j]) {
        SortedHead(a, b, f, j);
      } else if f(b[j]) < f(a[j]) {
        assert a[j] in a;
        forall x | x in b && f(x) < f(a[j]) ensures x in a {
        }
        SortedHead(b, a, f, j);
      }
    }
  }

  predicate SortedBy<T>(xs: seq<T>, f: T -> int) {
    forall i, j :: 0 <= i < j < |xs| ==> f(xs[i]) <= f(xs[j])
  }

  /** Any distinct elements can be put in order. */
  lemma {:induction false} SortableBy<T>(xs: seq<T>, f: T -> int) returns (ys: seq<T>)
    requires NoDuplicates(xs)
    ensures NoDuplicates(ys) && SortedBy(ys, f)
    ensures forall x {:trigger x in ys} :: x in ys <==> x in xs
  {
    if xs == [] {
      ys := [];
    } else {
      var n := |xs| - 1;
      var rest := SortableBy(xs[..n], f);
      assert xs == xs[..n] + [xs[n]] && xs[n] !in xs[..n];
      ys := InsertableBy(rest, xs[n], f);
    }
  }

  lemma {:induction false} InsertableBy<T>(ys: seq<T>, x: T, f: T -> int) returns (r: seq<T>)
    requires NoDuplicates(ys) && SortedBy(ys, f) && x !in ys
    ensures NoDuplicates(r) && SortedBy(r, f)
    ensures forall z {:trigger z in r} :: z in r <==> z in ys || z == x
  {
    if ys == [] || f(ys[|ys| - 1]) <= f(x) {
      r := ys + [x];
    } else {
      var front, last := ys[..|ys| - 1], ys[|ys| - 1];
      assert ys == front + [last];
      var s := InsertableBy(front, x, f);
      assert forall j :: 0 <= j < |s| ==> s[j] in s;
      r := s + [last];
    }
  }

  /** The head of a sorted list: later elements are no smaller. */
  lemma SortedHeadIsLeast<T>(ys: seq<T>, take: nat, f: T -> int, x: T)
    requires SortedBy(ys, f) && take <= |ys| && x in ys && x !in ys[..take]
    ensures take < |ys| && forall j :: 0 <= j < take ==> f(ys[j]) <= f(x)
  {
    assert ys == ys[..take] + ys[take..];
    assert x in ys[take..];
    var k :| 0 <= k < |ys| - take && ys[take..][k] == x;
    assert ys[take + k] == x;
  }

  /** If everything in `a` below `f(b[j])` is in `b`, then `a[j]` is not below it. */
  lemma SortedHead(a: seq<nat>, b: seq<nat>, f: nat -> int, j: nat)
    requires NoDuplicates(a) && SortedBy(a, f) && SortedBy(b, f)
    requires j < |a| && j < |b|
    requires forall x :: x in a && f(x) < f(b[j]) ==> x in b
    ensures f(b[j]) <= f(a[j])
  {
    if f(a[j]) < f(b[j]) {
      forall x | x in a[..j + 1] ensures x in b[..j] {
        var k :| 0 <= k <= j && a[k] == x;
        assert x in a && x in b;
        var i :| 0 <= i < |b| && b[i] == x;
        assert i < j;
        assert b[..j][i] == x;
      }
      NoDuplicatesLength(a[..j + 1], b[..j]);
    }
  }

  // ---------------------------------------------------------------- concatenation

  lemma PrefixStep<T>(a: seq<T>, b: seq<T>, i: nat)
    requires i < |b|
    ensures a + b[..i + 1] == a + b[..i] + [b[i]]
    ensures a + b[..i + 1] + b[i + 1..] == a + b
  {
  }

  /** The concatenation of `f` over `xs`. */
  function FlatMap<A, B>(xs: seq<A>, f: A -> seq<B>): seq<B> {
    if xs == [] then [] else FlatMap(xs[..|xs| - 1], f) + f(xs[|xs| - 1])
  }

  lemma {:induction false} FlatMapAppend<A, B>(a: seq<A>, b: seq<A>, f: A -> seq<B>)
    ensures FlatMap(a + b, f) == FlatMap(a, f) + FlatMap(b, f)
  {
    if b == [] {
      assert a + b == a;
    } else {
      var front, last := b[..|b| - 1], b[|b| - 1];
      FlatMapAppend(a, front, f);
      assert (a + b)[..|a + b| - 1] == a + front;
      assert FlatMap(a + b, f) == FlatMap(a + front, f) + f(last);
    }
  }

  /** Mapping every element to one element each is mapping. */
  lemma {:induction false} FlatMapSingletons<A, B>(xs: seq<A>, f: A -> seq<B>, ys: seq<B>)
    requires |xs| == |ys| && forall i :: 0 <= i < |xs| ==> f(xs[i]) == [ys[i]]
    ensures FlatMap(xs, f) == ys
  {
    if xs == [] {
    } else {
      FlatMapSingletons(xs[..|xs| - 1], f, ys[..|ys| - 1]);
      assert ys == ys[..|ys| - 1] + [ys[|ys| - 1]];
    }
  }

  /** Concatenate the lists `f` yields, or stop at the first failure. */
  function Traverse<A, B, E>(xs: seq<A>, f: A -> Result<seq<B>, E>): Result<seq<B>, E> {
    if xs == [] then Ok([])
    else
      match Traverse(xs[..|xs| - 1], f)
      case Err(e) => Err(e)
      case Ok(before) =>
        match f(xs[|xs| - 1])
        case Err(e) => Err(e)
        case Ok(more) => Ok(before + more)
  }

  lemma {:induction false} TraverseOk<A, B, E>(xs: seq<A>, f: A -> Result<seq<B>, E>)
    ensures Traverse(xs, f).Ok? <==> forall k :: 0 <= k < |xs| ==> f(xs[k]).Ok?
    ensures Traverse(xs, f).Err? ==> exists k :: 0 <= k < |xs| && f(xs[k]) == Err(Traverse(xs, f).error)
  {
    if xs == [] {
    } else {
      var front := xs[..|xs| - 1];
      TraverseOk(front, f);
      if Traverse(front, f).Err? {
        var k :| 0 <= k < |front| && f(front[k]) == Err(Traverse(front, f).error);
        assert f(xs[k]) == Err(Traverse(xs, f).error);
      }
    }
  }

  lemma {:induction false} TraverseFailureStays<A, B, E>(xs: seq<A>, f: A -> Result<seq<B>, E>, k: nat)
    requires k <= |xs| && Traverse(xs[..k], f).Err?
    ensures Traverse(xs, f) == Traverse(xs[..k], f)
  {
    if k == |xs| {
      assert xs[..k] == xs;
    } else {
      var front := xs[..|xs| - 1];
      assert front[..k] == xs[..k];
      TraverseFailureStays(front, f, k);
    }
  }

  // ---------------------------------------------------------------- counting

  function Count<T>(xs: seq<T>, p: T -> bool): (n: nat)
    ensures n <= |xs|
  {
    if xs == [] then 0 else Count(xs[..|xs| - 1], p) + (if p(xs[|xs| - 1]) then 1 else 0)
  }

  function Filter<T(!new)>(xs: seq<T>, p: T -> bool): (ys: seq<T>)
    ensures forall x {:trigger x in ys} :: x in ys <==> x in xs && p(x)
  {
    if xs == [] then []
    else
      var front, last := xs[..|xs| - 1], xs[|xs| - 1];
      assert xs == front + [last];
      if p(last) then Filter(front, p) + [last] else Filter(front, p)
  }

  lemma {:induction false} FilterCount<T(!new)>(xs: seq<T>, p: T -> bool)
    ensures |Filter(xs, p)| == Count(xs, p)
  {
    if xs == [] {
    } else {
      FilterCount(xs[..|xs| - 1], p);
    }
  }

  lemma CountSnoc<T>(xs: seq<T>, x: T, p: T -> bool)
    ensures Count(xs + [x], p) == Count(xs, p) + (if p(x) then 1 else 0)
  {
    assert (xs + [x])[..|xs|] == xs;
  }

  /** Filtering by a weaker condition does not change a count. */
  lemma {:induction false} CountInFilter<T(!new)>(xs: seq<T>, p: T -> bool, q: T -> bool)
    requires forall x :: q(x) ==> p(x)
    ensures Count(Filter(xs, p), q) == Count(xs, q)
  {
    if xs == [] {
    } else {
      var front, last := xs[..|xs| - 1], xs[|xs| - 1];
      CountInFilter(front, p, q);
      if p(last) { CountSnoc(Filter(front, p), last, q); }
    }
  }

  lemma {:induction false} CountRemove<T>(xs: seq<T>, k: nat, p: T -> bool)
    requires k < |xs|
    ensures Count(xs, p) == Count(xs[..k] + xs[k + 1..], p) + (if p(xs[k]) then 1 else 0)
  {
    var n := |xs| - 1;
    if k == n {
      assert xs[..k] + xs[k + 1..] == xs[..n];
    } else {
      CountRemove(xs[..n], k, p);
      var rest := xs[..n][..k] + xs[..n][k + 1..];
      assert xs[..k] + xs[k + 1..] == rest + [xs[n]];
      CountSnoc(rest, xs[n], p);
    }
  }

  lemma MultisetRemove<T>(xs: seq<T>, k: nat)
    requires k < |xs|
    ensures multiset(xs[..k] + xs[k + 1..]) == multiset(xs) - multiset{xs[k]}
  {
    assert xs == xs[..k] + [xs[k]] + xs[k + 1..];
  }

  /** Counting does not depend on order. */
  lemma {:induction false} CountPermutation<T>(a: seq<T>, b: seq<T>, p: T -> bool)
    requires multiset(a) == multiset(b)
    ensures Count(a, p) == Count(b, p)
    decreases |a|
  {
    if a == [] {
      assert |multiset(b)| == 0;
    } else {
      var n := |a| - 1;
      assert a[n] in multiset(a) && a[n] in multiset(b);
      var k :| 0 <= k < |b| && b[k] == a[n];
      var rest := b[..k] + b[k + 1..];
      MultisetRemove(a, n);
      MultisetRemove(b, k);
      assert a[..n] + a[n + 1..] == a[..n];
      CountPermutation(a[..n], rest, p);
      CountRemove(b, k, p);
    }
  }

  lemma {:induction false} CountCongruent<T(!new)>(xs: seq<T>, p: T -> bool, q: T -> bool)
    requires forall x :: x in xs ==> p(x) == q(x)
    ensures Count(xs, p) == Count(xs, q)
  {
    if xs == [] {
    } else {
      CountCongruent(xs[..|xs| - 1], p, q);
    }
  }

  /** The positions of the elements that satisfy `p`. */
  function Places<T>(xs: seq<T>, p: T -> bool): set<nat> {
    set i: nat | i < |xs| && p(xs[i])
  }

  /** A count is the number of such positions. */
  lemma {:induction false} CountIsPlaces<T>(xs: seq<T>, p: T -> bool)
    ensures Count(xs, p) == |Places(xs, p)|
  {
    if xs == [] {
      assert Places(xs, p) == {};
    } else {
      var n := |xs| - 1;
      CountIsPlaces(xs[..n], p);
      assert Places(xs, p) == Places(xs[..n], p) + if p(xs[n]) then {n} else {};
    }
  }

  // ---------------------------------------------------------------- sums over finite sets

  ghost function SumOver<K>(keys: set<K>, f: K -> int): int {
    if keys == {} then 0
    else var k :| k in keys; f(k) + SumOver(keys - {k}, f)
  }

  /** The choice of element in `SumOver` does not matter. */
  lemma {:induction false} SumOverTake<K>(keys: set<K>, f: K -> int, k: K)
    requires k in keys
    ensures SumOver(keys, f) == f(k) + SumOver(keys - {k}, f)
  {
    var c :| c in keys && SumOver(keys, f) == f(c) + SumOver(keys - {c}, f);
    if c != k {
      SumOverTake(keys - {c}, f, k);
      SumOverTake(keys - {k}, f, c);
      assert keys - {c} - {k} == keys - {k} - {c};
    }
  }

  lemma {:induction false} SumOverCongruent<K>(keys: set<K>, f: K -> int, g: K -> int)
    requires forall k :: k in keys ==> f(k) == g(k)
    ensures SumOver(keys, f) == SumOver(keys, g)
  {
    if keys == {} {
    } else {
      var k :| k in keys;
      SumOverTake(keys, f, k);
      SumOverTake(keys, g, k);
      SumOverCongruent(keys - {k}, f, g);
    }
  }

  lemma {:induction false} SumOverZero<K>(keys: set<K>, f: K -> int)
    requires forall k :: k in keys ==> f(k) == 0
    ensures SumOver(keys, f) == 0
  {
    if keys == {} {
    } else {
      var k :| k in keys;
      SumOverTake(keys, f, k);
      SumOverZero(keys - {k}, f);
    }
  }

  /** Changing one summand changes the sum by the same amount. */
  lemma SumOverBump<K>(keys: set<K>, f: K -> int, g: K -> int, k: K)
    requires k in keys
    requires forall x :: x in keys && x != k ==> f(x) == g(x)
    ensures SumOver(keys, g) - SumOver(keys, f) == g(k) - f(k)
  {
    SumOverTake(keys, f, k);
    SumOverTake(keys, g, k);
    SumOverCongruent(keys - {k}, f, g);
  }

  /** A sum is at most the number of summands times a bound on each. */
  lemma {:induction false} SumOverBound<K>(keys: set<K>, f: K -> int, bound: int)
    requires forall k :: k in keys ==> f(k) <= bound
    ensures SumOver(keys, f) <= |keys| * bound
  {
    if keys == {} {
    } else {
      var k :| k in keys;
      SumOverTake(keys, f, k);
      SumOverBound(keys - {k}, f, bound);
      assert |keys| * bound == |keys - {k}| * bound + bound;
    }
  }

  /** The elements of `xs` with key `k`. */
  function Fiber<A, K(==)>(xs: set<A>, key: A -> K, k: K): set<A> {
    set x | x in xs && key(x) == k
  }

  ghost function FiberSize<A, K>(xs: set<A>, key: A -> K): K -> int {
    (k: K) => |Fiber(xs, key, k)|
  }

  /** A set is partitioned by a key. */
  lemma {:induction false} FiberPartition<A, K(!new)>(xs: set<A>, keys: set<K>, key: A -> K)
    requires forall x :: x in xs ==> key(x) in keys
    ensures SumOver(keys, FiberSize(xs, key)) == |xs|
  {
    if xs == {} {
      forall k ensures FiberSize(xs, key)(k) == 0 { assert Fiber(xs, key, k) == {}; }
      SumOverZero(keys, FiberSize(xs, key));
    } else {
      var x :| x in xs;
      FiberPartition(xs - {x}, keys, key);
      forall k { FiberGrow(xs, key, k, x); }
      SumOverBump(keys, FiberSize(xs - {x}, key), FiberSize(xs, key), key(x));
    }
  }

  lemma FiberGrow<A, K>(xs: set<A>, key: A -> K, k: K, x: A)
    requires x in xs
    ensures |Fiber(xs, key, k)| == |Fiber(xs - {x}, key, k)| + (if key(x) == k then 1 else 0)
  {
    var fewer := Fiber(xs - {x}, key, k);
    assert Fiber(xs, key, k) == if key(x) == k then fewer + {x} else fewer;
  }
}
