/** Searching, counting and rewriting the elements of a table that satisfy a predicate. */
module Scan {

  /** The first element from a position on that satisfies p, or the end. */
  function Find<T>(t: seq<T>, p: T -> bool, from: nat): (r: nat)
    requires from <= |t|
    ensures from <= r <= |t| && (r < |t| ==> p(t[r]))
    ensures forall j | from <= j < r :: !p(t[j])
    decreases |t| - from
  {
    if from == |t| || p(t[from]) then from else Find(t, p, from + 1)
  }

  lemma FindIs<T>(t: seq<T>, p: T -> bool, from: nat, r: nat)
    requires from <= r <= |t| && (r < |t| ==> p(t[r]))
    requires forall j | from <= j < r :: !p(t[j])
    ensures Find(t, p, from) == r
  {
  }

  /** How many of the first n elements satisfy p. */
  function Count<T>(t: seq<T>, p: T -> bool, n: nat): nat
    requires n <= |t|
  {
    if n == 0 then 0 else Count(t, p, n - 1) + (if p(t[n - 1]) then 1 else 0)
  }

  lemma {:induction false} CountSkips<T>(t: seq<T>, p: T -> bool, m: nat, n: nat)
    requires m <= n <= |t| && forall j | m <= j < n :: !p(t[j])
    ensures Count(t, p, n) == Count(t, p, m)
    decreases n
  {
    if m < n { CountSkips(t, p, m, n - 1); }
  }

  /** The positions below n whose element satisfies p. */
  ghost function Where<T>(t: seq<T>, p: T -> bool, n: nat): set<int>
    requires n <= |t|
  {
    set j | 0 <= j < n && p(t[j])
  }

  lemma {:induction false} CountIsSize<T>(t: seq<T>, p: T -> bool, n: nat)
    requires n <= |t|
    ensures Count(t, p, n) == |Where(t, p, n)|
  {
    if n > 0 {
      CountIsSize(t, p, n - 1);
      if p(t[n - 1]) {
        assert Where(t, p, n) == Where(t, p, n - 1) + {n - 1};
      } else {
        assert Where(t, p, n) == Where(t, p, n - 1);
      }
    }
  }

  lemma {:induction false} CountIsZero<T>(t: seq<T>, p: T -> bool, n: nat)
    requires n <= |t|
    ensures Count(t, p, n) == 0 <==> forall j | 0 <= j < n :: !p(t[j])
  {
    if n > 0 { CountIsZero(t, p, n - 1); }
  }

  /** t with g applied to those of the first n elements that satisfy p. */
  function Rewrite<T>(t: seq<T>, p: T -> bool, g: T -> T, n: nat): (r: seq<T>)
    ensures |r| == |t|
  {
    seq(|t|, j requires 0 <= j < |t| => if j < n && p(t[j]) then g(t[j]) else t[j])
  }

  lemma RewriteSkips<T>(t: seq<T>, p: T -> bool, g: T -> T, m: nat, n: nat)
    requires m <= n <= |t| && forall j | m <= j < n :: !p(t[j])
    ensures Rewrite(t, p, g, n) == Rewrite(t, p, g, m)
  {
  }

  lemma RewriteStep<T>(t: seq<T>, p: T -> bool, g: T -> T, n: nat)
    requires n < |t| && p(t[n])
    ensures Rewrite(t, p, g, n + 1) == Rewrite(t, p, g, n)[n := g(t[n])]
  {
  }

  lemma RewriteNone<T>(t: seq<T>, p: T -> bool, g: T -> T)
    ensures Rewrite(t, p, g, 0) == t
  {
  }
}
