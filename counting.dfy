/** Counting and grouping over sequences: what Java's
    `stream().filter(p).count()`, `Collectors.groupingBy(key, counting())`
    and a sorted map's key order compute. */
module Counting {

  /** `xs.stream().filter(p).count()`. */
  function CountIf<T>(xs: seq<T>, p: T -> bool): (n: nat)
    ensures n <= |xs|
  {
    if xs == [] then 0 else (if p(xs[0]) then 1 else 0) + CountIf(xs[1..], p)
  }

  lemma {:induction false} CountIfAppend<T>(xs: seq<T>, ys: seq<T>, p: T -> bool)
    ensures CountIf(xs + ys, p) == CountIf(xs, p) + CountIf(ys, p)
  {
    if xs == [] {
      assert xs + ys == ys;
    } else {
      assert (xs + ys)[1..] == xs[1..] + ys;
      CountIfAppend(xs[1..], ys, p);
    }
  }

  /** Occurrences of `x` in `xs`: the size of `x`'s group under groupingBy/counting. */
  function Count<T(==)>(xs: seq<T>, x: T): (n: nat)
    ensures n <= |xs|
    ensures n > 0 <==> x in xs
  {
    if xs == [] then 0 else (if xs[0] == x then 1 else 0) + Count(xs[1..], x)
  }

  lemma {:induction false} CountAppend<T>(xs: seq<T>, ys: seq<T>, x: T)
    ensures Count(xs + ys, x) == Count(xs, x) + Count(ys, x)
  {
    if xs == [] {
      assert xs + ys == ys;
    } else {
      assert (xs + ys)[1..] == xs[1..] + ys;
      CountAppend(xs[1..], ys, x);
    }
  }

  predicate NoDups<T(==)>(xs: seq<T>)
  {
    forall i, j :: 0 <= i < j < |xs| ==> xs[i] != xs[j]
  }

  /** The distinct elements of `xs`, in order of first occurrence. */
  function Distinct<T(==,!new)>(xs: seq<T>): (r: seq<T>)
    ensures NoDups(r)
    ensures forall x :: x in r <==> x in xs
  {
    if xs == [] then []
    else
      var r := Distinct(xs[..|xs| - 1]);
      var last := xs[|xs| - 1];
      assert xs == xs[..|xs| - 1] + [last];
      if last in r then r else r + [last]
  }

  /** The sum, over `keys`, of each key's group size in `xs`. */
  function SumCounts<T(==)>(keys: seq<T>, xs: seq<T>): nat
  {
    if keys == [] then 0 else Count(xs, keys[0]) + SumCounts(keys[1..], xs)
  }

  lemma {:induction false} CountOfUnique<T>(keys: seq<T>, x: T)
    requires NoDups(keys)
    ensures Count(keys, x) == if x in keys then 1 else 0
  {
    if keys != [] {
      assert NoDups(keys[1..]) by {
        forall i, j | 0 <= i < j < |keys| - 1 ensures keys[1..][i] != keys[1..][j] {
          assert keys[i + 1] != keys[j + 1];
        }
      }
      CountOfUnique(keys[1..], x);
      if keys[0] == x {
        assert x !in keys[1..] by {
          forall j | 0 <= j < |keys| - 1 ensures keys[1..][j] != x { assert keys[0] != keys[j + 1]; }
        }
      }
    }
  }

  lemma {:induction false} SumCountsCons<T>(keys: seq<T>, x: T, ys: seq<T>)
    ensures SumCounts(keys, [x] + ys) == Count(keys, x) + SumCounts(keys, ys)
  {
    if keys != [] {
      assert ([x] + ys)[1..] == ys;
      SumCountsCons(keys[1..], x, ys);
    }
  }

  /** Grouping partitions: when every element has exactly one key among
      `keys`, the group sizes add up to the number of elements. */
  lemma {:induction false} CountsPartition<T>(keys: seq<T>, xs: seq<T>)
    requires NoDups(keys)
    requires forall x :: x in xs ==> x in keys
    ensures SumCounts(keys, xs) == |xs|
  {
    if xs == [] {
      SumCountsEmpty(keys);
    } else {
      assert xs == [xs[0]] + xs[1..];
      SumCountsCons(keys, xs[0], xs[1..]);
      CountOfUnique(keys, xs[0]);
      CountsPartition(keys, xs[1..]);
    }
  }

  lemma {:induction false} SumCountsEmpty<T>(keys: seq<T>)
    ensures SumCounts(keys, []) == 0
  {
    if keys != [] { SumCountsEmpty(keys[1..]); }
  }

  // ---------------------------------------------------------------------
  // Keys kept in increasing order: the key set of a TreeMap

  ghost predicate IsStrictTotalOrder<T(!new)>(lt: (T, T) -> bool)
  {
    && (forall a :: !lt(a, a))
    && (forall a, b, c :: lt(a, b) && lt(b, c) ==> lt(a, c))
    && (forall a, b :: a != b ==> lt(a, b) || lt(b, a))
  }

  predicate Increasing<T>(xs: seq<T>, lt: (T, T) -> bool)
  {
    forall i, j :: 0 <= i < j < |xs| ==> lt(xs[i], xs[j])
  }

  lemma IncreasingNoDups<T(!new)>(xs: seq<T>, lt: (T, T) -> bool)
    requires IsStrictTotalOrder(lt) && Increasing(xs, lt)
    ensures NoDups(xs)
  {
    forall i, j | 0 <= i < j < |xs| ensures xs[i] != xs[j] {
      assert lt(xs[i], xs[j]);
    }
  }

  /** Adds `x` to an increasing sequence unless it is already there (TreeMap.put of a key). */
  function InsertKey<T(==,!new)>(xs: seq<T>, x: T, lt: (T, T) -> bool): (r: seq<T>)
    requires IsStrictTotalOrder(lt) && Increasing(xs, lt)
    ensures Increasing(r, lt)
    ensures forall y :: y in r <==> y in xs || y == x
  {
    if xs == [] then [x]
    else if x == xs[0] then xs
    else if lt(x, xs[0]) then [x] + xs
    else
      var rest := InsertKey(xs[1..], x, lt);
      assert forall y :: y in rest ==> lt(xs[0], y);
      [xs[0]] + rest
  }

  /** The distinct elements of `xs` in increasing order: a TreeMap's keySet. */
  function SortedKeys<T(==,!new)>(xs: seq<T>, lt: (T, T) -> bool): (r: seq<T>)
    requires IsStrictTotalOrder(lt)
    ensures Increasing(r, lt) && NoDups(r)
    ensures forall y :: y in r <==> y in xs
  {
    if xs == [] then []
    else
      var r := InsertKey(SortedKeys(xs[1..], lt), xs[0], lt);
      IncreasingNoDups(r, lt);
      r
  }

  function IntLess(a: int, b: int): bool { a < b }

  lemma IntLessIsStrictTotal()
    ensures IsStrictTotalOrder(IntLess)
  {
  }
}
