/** Stepping a cursor through `n` positions with wrap-around, as the image
    gallery and the hero carousel do with `% n`. */
module Cyclic {

  /** `(i + 1) % n`. */
  function Next(i: nat, n: nat): (r: nat)
    requires i < n
    ensures r < n
    ensures r == if i + 1 == n then 0 else i + 1
  {
    (i + 1) % n
  }

  /** `(i - 1 + n) % n`; the dividend is never negative, so JavaScript's
      truncating `%` and Dafny's agree. */
  function Prev(i: nat, n: nat): (r: nat)
    requires i < n
    ensures r < n
    ensures r == if i == 0 then n - 1 else i - 1
  {
    (i - 1 + n) % n
  }

  /** Stepping back undoes stepping forward. */
  lemma {:induction false} PrevOfNext(i: nat, n: nat)
    requires i < n
    ensures Prev(Next(i, n), n) == i
  {
  }

  /** Stepping forward undoes stepping back. */
  lemma {:induction false} NextOfPrev(i: nat, n: nat)
    requires i < n
    ensures Next(Prev(i, n), n) == i
  {
  }

  /** `k` forward steps. */
  function Advance(i: nat, n: nat, k: nat): (r: nat)
    requires i < n
    ensures r < n
  {
    if k == 0 then i else Next(Advance(i, n, k - 1), n)
  }

  /** Before the wrap-around, `k` forward steps add `k`. */
  lemma {:induction false} AdvanceBeforeWrap(i: nat, n: nat, k: nat)
    requires i + k < n
    ensures Advance(i, n, k) == i + k
  {
    if k > 0 {
      AdvanceBeforeWrap(i, n, k - 1);
    }
  }

  /** `a + b` forward steps are `a` steps followed by `b` steps. */
  lemma {:induction false} AdvanceCompose(i: nat, n: nat, a: nat, b: nat)
    requires i < n
    ensures Advance(i, n, a + b) == Advance(Advance(i, n, a), n, b)
  {
    if b > 0 {
      AdvanceCompose(i, n, a, b - 1);
    }
  }

  /** `n` forward steps come back to the start. */
  lemma {:induction false} FullCycle(i: nat, n: nat)
    requires i < n
    ensures Advance(i, n, n) == i
  {
    var toLast := n - 1 - i;
    AdvanceBeforeWrap(i, n, toLast);
    AdvanceCompose(i, n, toLast, i + 1);
    AdvanceCompose(n - 1, n, 1, i);
    AdvanceBeforeWrap(0, n, i);
  }

  /** Which of `n` positions is highlighted: the one equal to `current`. */
  function Marks(n: nat, current: nat): (r: seq<bool>)
    ensures |r| == n
    ensures forall i | 0 <= i < n :: r[i] <==> i == current
  {
    seq(n, i => i == current)
  }

  /** How many entries are `true`. */
  function CountTrue(s: seq<bool>): nat {
    if s == [] then 0 else CountTrue(s[..|s| - 1]) + (if s[|s| - 1] then 1 else 0)
  }

  /** A cursor inside the range highlights exactly one position; one past it
      highlights none. */
  lemma {:induction false} OneMarked(n: nat, current: nat)
    ensures CountTrue(Marks(n, current)) == if current < n then 1 else 0
  {
    if n > 0 {
      assert Marks(n, current)[..n - 1] == Marks(n - 1, current);
      OneMarked(n - 1, current);
    }
  }
}
