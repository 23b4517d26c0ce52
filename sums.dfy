/**
  Finite sums, as the centrality measures add up per-node quantities over
  a dictionary or a set. A sum over a set does not depend on the order the
  set is iterated in; the lemmas below are what that fact gives a proof.
 */
module Sums {

  /** Some element of a non-empty set, fixed once and for all. */
  ghost function Choose<T>(s: set<T>): (x: T)
    requires s != {}
    ensures x in s
  {
    var x :| x in s; x
  }

  /** The sum of `f(x)` over `x` in `s`, for integer-valued `f`. */
  ghost function SumInt<T>(s: set<T>, f: T -> int): int
    decreases |s|
  {
    if s == {} then 0 else var x := Choose(s); f(x) + SumInt(s - {x}, f)
  }

  /** The sum of `f(x)` over `x` in `s`, for real-valued `f`. */
  ghost function SumReal<T>(s: set<T>, f: T -> real): real
    decreases |s|
  {
    if s == {} then 0.0 else var x := Choose(s); f(x) + SumReal(s - {x}, f)
  }

  /** Any element can be taken out of the sum first. */
  lemma {:induction false} SumIntRemove<T>(s: set<T>, f: T -> int, y: T)
    requires y in s
    ensures SumInt(s, f) == f(y) + SumInt(s - {y}, f)
    decreases |s|
  {
    var x := Choose(s);
    if x != y {
      SumIntRemove(s - {x}, f, y);
      SumIntRemove(s - {y}, f, x);
      assert s - {x} - {y} == s - {y} - {x};
    }
  }

  lemma {:induction false} SumRealRemove<T>(s: set<T>, f: T -> real, y: T)
    requires y in s
    ensures SumReal(s, f) == f(y) + SumReal(s - {y}, f)
    decreases |s|
  {
    var x := Choose(s);
    if x != y {
      SumRealRemove(s - {x}, f, y);
      SumRealRemove(s - {y}, f, x);
      assert s - {x} - {y} == s - {y} - {x};
    }
  }

  /** The sum only looks at `f` on `s`. */
  lemma {:induction false} SumIntAgree<T>(s: set<T>, f: T -> int, h: T -> int)
    requires forall x :: x in s ==> f(x) == h(x)
    ensures SumInt(s, f) == SumInt(s, h)
    decreases |s|
  {
    if s != {} {
      SumIntAgree(s - {Choose(s)}, f, h);
    }
  }

  lemma {:induction false} SumRealAgree<T>(s: set<T>, f: T -> real, h: T -> real)
    requires forall x :: x in s ==> f(x) == h(x)
    ensures SumReal(s, f) == SumReal(s, h)
    decreases |s|
  {
    if s != {} {
      SumRealAgree(s - {Choose(s)}, f, h);
    }
  }

  /** A sum of non-negative terms is non-negative, and zero exactly when every term is. */
  lemma {:induction false} SumIntZero<T>(s: set<T>, f: T -> int)
    requires forall x :: x in s ==> f(x) >= 0
    ensures SumInt(s, f) >= 0
    ensures SumInt(s, f) == 0 <==> forall x :: x in s ==> f(x) == 0
    decreases |s|
  {
    if s != {} {
      SumIntZero(s - {Choose(s)}, f);
    }
  }

  lemma {:induction false} SumRealNonneg<T>(s: set<T>, f: T -> real)
    requires forall x :: x in s ==> f(x) >= 0.0
    ensures SumReal(s, f) >= 0.0
    decreases |s|
  {
    if s != {} {
      SumRealNonneg(s - {Choose(s)}, f);
    }
  }

  /** A sum of zeros is zero. */
  lemma {:induction false} SumRealZero<T>(s: set<T>, f: T -> real)
    requires forall x :: x in s ==> f(x) == 0.0
    ensures SumReal(s, f) == 0.0
    decreases |s|
  {
    if s != {} {
      SumRealZero(s - {Choose(s)}, f);
    }
  }

  /** A sum of `n` terms each equal to `r` is `n * r`, the product taken before the conversion to real. */
  lemma {:induction false} SumRealConstInt<T>(s: set<T>, f: T -> real, r: int, n: nat)
    requires forall x :: x in s ==> f(x) == r as real
    requires |s| == n
    ensures SumReal(s, f) == (n * r) as real
    decreases n
  {
    if s != {} {
      var x := Choose(s);
      SumRealConstInt(s - {x}, f, r, n - 1);
      assert n * r == (n - 1) * r + r;
    }
  }

  /** A sum of ones counts its terms. */
  lemma {:induction false} SumRealOnes<T>(s: set<T>, f: T -> real)
    requires forall x :: x in s ==> f(x) == 1.0
    ensures SumReal(s, f) == |s| as real
    decreases |s|
  {
    if s != {} {
      SumRealOnes(s - {Choose(s)}, f);
    }
  }

  /** A sum of non-negative terms is at least any one of them. */
  lemma SumIntAtLeast<T>(s: set<T>, f: T -> int, y: T)
    requires forall x :: x in s ==> f(x) >= 0
    requires y in s
    ensures SumInt(s, f) >= f(y)
  {
    SumIntRemove(s, f, y);
    SumIntZero(s - {y}, f);
  }

  /** `sum(m[x] for x in xs)`, taking 0 for an id that is not a key. */
  function SumAt(m: map<int, int>, xs: seq<int>): int
  {
    if xs == [] then 0
    else SumAt(m, xs[..|xs| - 1]) + (if xs[|xs| - 1] in m then m[xs[|xs| - 1]] else 0)
  }

  /** Changing `m` away from the listed ids leaves the sum alone. */
  lemma {:induction false} SumAtUpdate(m: map<int, int>, xs: seq<int>, y: int, c: int)
    requires y !in xs
    ensures SumAt(m[y := c], xs) == SumAt(m, xs)
  {
    if xs != [] {
      SumAtUpdate(m, xs[..|xs| - 1], y, c);
    }
  }

  /** `x => m[x]`, taking 0 for an id that is not a key. */
  function At(m: map<int, int>): int -> int
  {
    (x: int) => if x in m then m[x] else 0
  }

  /** Over a list without repeats the sum is the sum over its set of elements. */
  lemma {:induction false} SumAtIsSumInt(m: map<int, int>, xs: seq<int>)
    requires forall p, q :: 0 <= p < q < |xs| ==> xs[p] != xs[q]
    ensures SumAt(m, xs) == SumInt((set x | x in xs), At(m))
  {
    var f := At(m);
    if xs != [] {
      var ys, y := xs[..|xs| - 1], xs[|xs| - 1];
      SumAtIsSumInt(m, ys);
      assert (set x | x in xs) - {y} == set x | x in ys;
      SumIntRemove((set x | x in xs), f, y);
    }
  }
}
