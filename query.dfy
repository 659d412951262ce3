/**
 The query operators the controllers compose (LINQ's Where, FirstOrDefault,
 OrderBy / OrderByDescending, Skip and Take), written as functions over
 sequences, with the facts the controllers rely on proved once here.
 */
module Query {
  import opened Wrappers

  /** Where: the elements of `s` that satisfy `keep`, in their original order. */
  function Filter<T(!new)>(s: seq<T>, keep: T -> bool): (r: seq<T>)
    ensures |r| <= |s|
    ensures forall x :: x in r <==> x in s && keep(x)
    ensures forall x :: multiset(r)[x] == if keep(x) then multiset(s)[x] else 0
  {
    if s == [] then []
    else
      assert s == [s[0]] + s[1..];
      if keep(s[0]) then [s[0]] + Filter(s[1..], keep)
      else Filter(s[1..], keep)
  }

  /** The position of the first element satisfying `p` (FirstOrDefault / FindAsync). */
  function FirstIndex<T>(s: seq<T>, p: T -> bool): (r: Option<nat>)
    ensures r.Some? ==> r.value < |s| && p(s[r.value])
    ensures r.Some? ==> forall k :: 0 <= k < r.value ==> !p(s[k])
    ensures r.None? <==> forall k :: 0 <= k < |s| ==> !p(s[k])
  {
    if s == [] then None
    else if p(s[0]) then Some(0)
    else
      match FirstIndex(s[1..], p)
      case None => None
      case Some(i) => Some(i + 1)
  }

  /** `le` is a total preorder: every two elements compare, and comparison chains. */
  ghost predicate TotalPreorder<T(!new)>(le: (T, T) -> bool) {
    && (forall a, b :: le(a, b) || le(b, a))
    && (forall a, b, c :: le(a, b) && le(b, c) ==> le(a, c))
  }

  predicate Sorted<T>(s: seq<T>, le: (T, T) -> bool) {
    forall i, j :: 0 <= i < j < |s| ==> le(s[i], s[j])
  }

  /**
   Inserts `x` before the first element it precedes; an element equal to `x`
   already in `s` stays in front of it only if `x` does not precede it, so
   `SortBy` keeps equal elements in their original order, as LINQ's stable
   OrderBy does.
   */
  function Insert<T>(x: T, s: seq<T>, le: (T, T) -> bool): (r: seq<T>)
    ensures multiset(r) == multiset(s) + multiset{x}
  {
    if s == [] then [x]
    else if le(x, s[0]) then [x] + s
    else
      assert s == [s[0]] + s[1..];
      [s[0]] + Insert(x, s[1..], le)
  }

  /** OrderBy with comparison `le` (insertion sort). */
  function SortBy<T>(s: seq<T>, le: (T, T) -> bool): (r: seq<T>)
    ensures multiset(r) == multiset(s)
  {
    if s == [] then []
    else
      assert s == [s[0]] + s[1..];
      Insert(s[0], SortBy(s[1..], le), le)
  }

  lemma {:induction false} InsertSorted<T(!new)>(x: T, s: seq<T>, le: (T, T) -> bool)
    requires TotalPreorder(le)
    requires Sorted(s, le)
    ensures Sorted(Insert(x, s, le), le)
  {
    if s == [] {
    } else if le(x, s[0]) {
      var r := [x] + s;
      forall i, j | 0 <= i < j < |r| ensures le(r[i], r[j]) {
        if i > 0 {
          assert r[i] == s[i - 1] && r[j] == s[j - 1];
        } else if j > 1 {
          assert le(x, s[0]) && le(s[0], s[j - 1]);
        }
      }
    } else {
      assert le(s[0], x);
      var t := Insert(x, s[1..], le);
      InsertSorted(x, s[1..], le);
      var r := [s[0]] + t;
      forall j | 0 <= j < |t| ensures le(s[0], t[j]) {
        assert t[j] in multiset(t);
        assert t[j] == x || t[j] in multiset(s[1..]);
        if t[j] != x {
          assert t[j] in s[1..];
          var k :| 0 <= k < |s[1..]| && s[1..][k] == t[j];
          assert s[k + 1] == t[j];
        }
      }
      forall i, j | 0 <= i < j < |r| ensures le(r[i], r[j]) {
        if i == 0 {
          assert r[j] == t[j - 1];
        } else {
          assert r[i] == t[i - 1] && r[j] == t[j - 1];
        }
      }
    }
  }

  /** SortBy returns its input in ascending `le` order. */
  lemma {:induction false} SortBySorted<T(!new)>(s: seq<T>, le: (T, T) -> bool)
    requires TotalPreorder(le)
    ensures Sorted(SortBy(s, le), le)
  {
    if s != [] {
      SortBySorted(s[1..], le);
      InsertSorted(s[0], SortBy(s[1..], le), le);
    }
  }

  function Min(a: int, b: int): int { if a <= b then a else b }

  function Max(a: int, b: int): int { if a <= b then b else a }

  /**
   Skip(n) as LINQ to Objects defines it: drops the first `n` elements; a
   count of zero or less drops nothing.
   */
  function Skip<T>(s: seq<T>, n: int): (r: seq<T>)
    ensures |r| == |s| - Min(Max(n, 0), |s|)
    ensures forall k :: 0 <= k < |r| ==> r[k] == s[Max(n, 0) + k]
  {
    if n <= 0 then s else if n >= |s| then [] else s[n..]
  }

  /** Take(n): the first `n` elements, or all of them if there are fewer. */
  function Take<T>(s: seq<T>, n: int): (r: seq<T>)
    ensures |r| == Min(Max(n, 0), |s|)
    ensures r == s[..|r|]
  {
    if n <= 0 then [] else if n >= |s| then s else s[..n]
  }

  /** Skip(n).Take(m) is the slice [n, n + m) of `s`, clipped to its length. */
  lemma SkipTakeSlice<T>(s: seq<T>, n: nat, m: nat)
    ensures Take(Skip(s, n), m) == s[Min(n, |s|)..Min(n + m, |s|)]
    ensures |Take(Skip(s, n), m)| <= m
    ensures forall k :: 0 <= k < |Take(Skip(s, n), m)| ==> Take(Skip(s, n), m)[k] == s[n + k]
  {
    var rest := Skip(s, n);
    assert rest == s[Min(n, |s|)..];
    var page := Take(rest, m);
    assert page == rest[..Min(m, |rest|)];
    assert page == s[Min(n, |s|)..Min(n + m, |s|)];
    forall k | 0 <= k < |page| ensures page[k] == s[n + k] {}
  }
}
