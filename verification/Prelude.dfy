/** Machine integers, octets, results and the two sequence facts every other module leans on:
    sorting by a total order, and "two ascending sequences with the same elements are equal". */
module Prelude {

  const MAX64: int := 0xFFFF_FFFF_FFFF_FFFF

  /** A subset type: every place that stores a `uint64` proves that Go's arithmetic did not wrap there. */
  type uint64 = x: int | 0 <= x <= MAX64

  newtype byte = x: int | 0 <= x < 256
  type Bytes = seq<byte>

  const CR: byte := 13
  const LF: byte := 10
  const DOT: byte := 46
  const CRLF: Bytes := [CR, LF]

  datatype Option<+T> = None | Some(value: T)
  datatype Result<+T, +E> = Ok(value: T) | Err(error: E)

  function Min(a: int, b: int): int { if a <= b then a else b }

  ghost predicate Ascending<T>(less: (T, T) -> bool, s: seq<T>) {
    forall i, j :: 0 <= i < j < |s| ==> less(s[i], s[j])
  }

  ghost predicate PartialOrder<T(!new)>(less: (T, T) -> bool) {
    && (forall x, y :: less(x, y) ==> !less(y, x))
    && (forall x, y, z :: less(x, y) && less(y, z) ==> less(x, z))
  }

  ghost predicate TotalOn<T>(less: (T, T) -> bool, s: seq<T>) {
    forall x, y :: x in s && y in s ==> x == y || less(x, y) || less(y, x)
  }

  /** An ascending sequence is determined by its set of elements. */
  lemma {:induction false} AscendingUnique<T(!new)>(less: (T, T) -> bool, a: seq<T>, b: seq<T>)
    requires forall x, y :: less(x, y) ==> !less(y, x)
    requires Ascending(less, a) && Ascending(less, b)
    requires forall x :: x in a <==> x in b
    ensures a == b
  {
    if b != [] { assert b[0] in b; }
    if a == [] {
    } else {
      assert a[0] in b && b[0] in a by { assert a[0] in a; assert b != []; assert b[0] in b; }
      assert a[0] == b[0];
      forall x ensures x in a[1..] <==> x in b[1..] {
        if x in a[1..] {
          assert x in a && less(a[0], x);
          assert x in b && x != b[0];
        }
        if x in b[1..] {
          assert x in b && less(b[0], x);
          assert x in a && x != a[0];
        }
      }
      AscendingUnique(less, a[1..], b[1..]);
    }
  }

  /** sort.Slice: the standard library's sort, kept as the simplest algorithm that meets its contract. */
  function Sort<T>(less: (T, T) -> bool, s: seq<T>): (r: seq<T>)
    ensures multiset(r) == multiset(s) && |r| == |s|
  {
    if s == [] then []
    else
      assert s == s[..|s| - 1] + [s[|s| - 1]];
      Insert(less, s[|s| - 1], Sort(less, s[..|s| - 1]))
  }

  function Insert<T>(less: (T, T) -> bool, x: T, s: seq<T>): (r: seq<T>)
    ensures multiset(r) == multiset(s) + multiset([x]) && |r| == |s| + 1
  {
    if s == [] || less(x, s[0]) then [x] + s
    else
      assert s == [s[0]] + s[1..];
      [s[0]] + Insert(less, x, s[1..])
  }

  ghost predicate NonDescending<T>(less: (T, T) -> bool, s: seq<T>) {
    forall i, j :: 0 <= i < j < |s| ==> !less(s[j], s[i])
  }

  lemma {:induction false} InsertSorts<T(!new)>(less: (T, T) -> bool, x: T, s: seq<T>)
    requires PartialOrder(less) && NonDescending(less, s)
    ensures NonDescending(less, Insert(less, x, s))
  {
    if s != [] && !less(x, s[0]) {
      InsertSorts(less, x, s[1..]);
      var t := Insert(less, x, s[1..]);
      forall y | y in t ensures !less(y, s[0]) {
        assert y in multiset(t);
        assert y in s[1..] || y == x;
      }
    }
  }

  lemma {:induction false} SortSorts<T(!new)>(less: (T, T) -> bool, s: seq<T>)
    requires PartialOrder(less)
    ensures NonDescending(less, Sort(less, s))
  {
    if s != [] {
      SortSorts(less, s[..|s| - 1]);
      InsertSorts(less, s[|s| - 1], Sort(less, s[..|s| - 1]));
    }
  }

  /** Sorting distinct elements gives the ascending sequence with exactly those elements. */
  lemma {:induction false} SortDistinct<T(!new)>(less: (T, T) -> bool, s: seq<T>)
    requires PartialOrder(less) && TotalOn(less, s)
    requires forall i, j :: 0 <= i < j < |s| ==> s[i] != s[j]
    ensures Ascending(less, Sort(less, s))
    ensures forall x :: x in Sort(less, s) <==> x in s
  {
    var r := Sort(less, s);
    SortSorts(less, s);
    SameElements(r, s);
    forall i, j | 0 <= i < j < |r| ensures less(r[i], r[j]) {
      assert r[i] in r && r[j] in r;
      if r[i] == r[j] {
        Repeated(r, i, j);
        Distinct(s, r[i]);
      }
    }
  }

  /** sort.Search: the least index in 0..n at which a monotone condition holds, n when there is none. */
  method Search(n: nat, f: nat --> bool) returns (k: nat)
    requires forall i :: 0 <= i < n ==> f.requires(i)
    requires forall i, j :: 0 <= i <= j < n && f(i) ==> f(j)
    ensures k <= n
    ensures forall i :: 0 <= i < k ==> !f(i)
    ensures forall i :: k <= i < n ==> f(i)
  {
    var low, high := 0, n;
    while low < high
      invariant 0 <= low <= high <= n
      invariant forall i :: 0 <= i < low ==> !f(i)
      invariant forall i :: high <= i < n ==> f(i)
    {
      var middle := (low + high) / 2;
      if f(middle) { high := middle; } else { low := middle + 1; }
    }
    k := low;
  }

  lemma {:induction false} SameElements<T>(a: seq<T>, b: seq<T>)
    requires multiset(a) == multiset(b)
    ensures |a| == |b|
    ensures forall x :: x in a <==> x in b
  {
    assert |multiset(a)| == |multiset(b)|;
    forall x ensures x in a <==> x in b {
      assert x in a <==> x in multiset(a);
      assert x in b <==> x in multiset(b);
    }
  }

  lemma {:induction false} Repeated<T>(s: seq<T>, i: nat, j: nat)
    requires i < j < |s| && s[i] == s[j]
    ensures multiset(s)[s[i]] >= 2
  {
    assert s == s[..i] + [s[i]] + s[i + 1..j] + [s[j]] + s[j + 1..];
  }

  lemma {:induction false} Distinct<T>(s: seq<T>, x: T)
    requires forall i, j :: 0 <= i < j < |s| ==> s[i] != s[j]
    ensures multiset(s)[x] <= 1
  {
    if s != [] {
      var n := |s| - 1;
      assert s == s[..n] + [s[n]];
      Distinct(s[..n], x);
      if s[n] == x { assert x !in s[..n]; assert multiset(s[..n])[x] == 0; }
    }
  }
}
