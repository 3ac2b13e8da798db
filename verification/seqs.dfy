/** Array operations the components use: `filter`, `slice` and the
    "kept in the original order" relation between a result and its input. */
module Seqs {

  /** `r` is `s` with some elements left out, the rest in their order. */
  predicate IsSubsequence<T(==)>(r: seq<T>, s: seq<T>)
    decreases |s|
  {
    r == [] || (s != [] && ((r[0] == s[0] && IsSubsequence(r[1..], s[1..])) || IsSubsequence(r, s[1..])))
  }

  /** `s.filter(p)`: exactly the elements satisfying `p`, in their order. */
  function Filter<T(==)>(s: seq<T>, p: T -> bool): (r: seq<T>)
    ensures |r| <= |s|
    ensures forall x | x in r :: x in s && p(x)
    ensures forall x | x in s && p(x) :: x in r
    ensures IsSubsequence(r, s)
    ensures forall x | x in s :: multiset(r)[x] == if p(x) then multiset(s)[x] else 0
  {
    if s == [] then []
    else
      var rest := Filter(s[1..], p);
      assert forall x | x in s :: x == s[0] || x in s[1..];
      assert forall x | x in s[1..] :: x in s;
      ConsCounts(s, rest, p);
      if p(s[0]) then
        assert ([s[0]] + rest)[1..] == rest;
        [s[0]] + rest
      else rest
  }

  /** The counts of a filter carry over from the tail to the whole
      sequence: the head adds one to its own count when it passes. */
  lemma {:induction false} ConsCounts<T>(s: seq<T>, rest: seq<T>, p: T -> bool)
    requires s != []
    requires forall x | x in rest :: x in s[1..]
    requires forall x | x in s[1..] :: multiset(rest)[x] == if p(x) then multiset(s[1..])[x] else 0
    ensures var r := if p(s[0]) then [s[0]] + rest else rest;
      forall x | x in s :: multiset(r)[x] == if p(x) then multiset(s)[x] else 0
  {
    assert s == [s[0]] + s[1..];
    assert multiset(s) == multiset{s[0]} + multiset(s[1..]);
    var r := if p(s[0]) then [s[0]] + rest else rest;
    forall x | x in s ensures multiset(r)[x] == if p(x) then multiset(s)[x] else 0 {
      if x !in s[1..] {
        assert x !in rest;
      }
    }
  }

  lemma {:induction false} AppendEmpty<T>(a: seq<T>)
    ensures [] + a == a && a + [] == a
  {
  }

  lemma {:induction false} AppendAssoc<T>(a: seq<T>, b: seq<T>, c: seq<T>)
    ensures a + (b + c) == (a + b) + c
  {
  }

  /** Filtering a sequence is filtering its head, then its tail. */
  lemma {:induction false} FilterHead<T>(x: T, s: seq<T>, p: T -> bool)
    ensures Filter([x] + s, p) == (if p(x) then [x] else []) + Filter(s, p)
  {
    assert ([x] + s)[0] == x && ([x] + s)[1..] == s;
  }

  /** Filtering a concatenation filters each part. */
  lemma {:induction false} FilterAppend<T>(s: seq<T>, t: seq<T>, p: T -> bool)
    ensures Filter(s + t, p) == Filter(s, p) + Filter(t, p)
  {
    if s == [] {
      assert s + t == t;
    } else {
      assert s + t == [s[0]] + (s[1..] + t);
      FilterHead(s[0], s[1..] + t, p);
      FilterAppend(s[1..], t, p);
      assert s == [s[0]] + s[1..];
      FilterHead(s[0], s[1..], p);
      AppendAssoc(if p(s[0]) then [s[0]] else [], Filter(s[1..], p), Filter(t, p));
    }
  }

  /** Filtering with a predicate no element satisfies keeps nothing. */
  lemma {:induction false} FilterNone<T>(s: seq<T>, p: T -> bool)
    requires forall x | x in s :: !p(x)
    ensures Filter(s, p) == []
  {
    if Filter(s, p) != [] {
      assert Filter(s, p)[0] in Filter(s, p);
    }
  }

  /** Filtering with a predicate every element satisfies keeps everything. */
  lemma {:induction false} FilterKeepsAll<T>(s: seq<T>, p: T -> bool)
    requires forall x | x in s :: p(x)
    ensures Filter(s, p) == s
  {
    if s != [] {
      assert forall x | x in s[1..] :: x in s;
      FilterKeepsAll(s[1..], p);
    }
  }

  /** Filtering a passing prefix followed by a failing suffix keeps the
      prefix. */
  lemma {:induction false} FilterKeepsPrefix<T>(s: seq<T>, t: seq<T>, p: T -> bool)
    requires forall x | x in s :: p(x)
    requires forall x | x in t :: !p(x)
    ensures Filter(s + t, p) == s
  {
    FilterAppend(s, t, p);
    FilterKeepsAll(s, p);
    FilterNone(t, p);
    AppendEmpty(s);
  }

  /** Predicates that agree on the elements give the same filter. */
  lemma {:induction false} FilterAgrees<T>(s: seq<T>, p: T -> bool, q: T -> bool)
    requires forall x | x in s :: p(x) == q(x)
    ensures Filter(s, p) == Filter(s, q)
  {
    if s != [] {
      assert forall x | x in s[1..] :: x in s;
      FilterAgrees(s[1..], p, q);
    }
  }

  function Min(a: int, b: int): int { if a <= b then a else b }

  function Max(a: int, b: int): int { if a >= b then a else b }

  /** `s.slice(0, n)`. */
  function Take<T>(s: seq<T>, n: nat): (r: seq<T>)
    ensures |r| == Min(n, |s|)
    ensures r == s[..|r|]
  {
    if n <= |s| then s[..n] else s
  }

  /** Where `slice` puts a bound: a negative one counts from the end, and
      both are clamped to the array. */
  function SliceBound(len: nat, x: int): (b: nat)
    ensures b <= len
  {
    if x < 0 then Max(len + x, 0) else Min(x, len)
  }

  /** `s.slice(start, end)`. */
  function Slice<T>(s: seq<T>, start: int, end: int): seq<T> {
    var from, to := SliceBound(|s|, start), SliceBound(|s|, end);
    if from < to then s[from..to] else []
  }
}
