/** Applying one step over and over. */
module Iteration {

  function Iterate<S>(f: S -> S, s: S, n: nat): S {
    if n == 0 then s else f(Iterate(f, s, n - 1))
  }

  lemma {:induction false} IterateConcat<S>(f: S -> S, s: S, n: nat, k: nat)
    ensures Iterate(f, s, n + k) == Iterate(f, Iterate(f, s, n), k)
  {
    if k == 0 {
    } else {
      IterateConcat(f, s, n, k - 1);
    }
  }

  /** A state that the step leaves as it is stays. */
  lemma {:induction false} FixedStays<S>(f: S -> S, s: S, n: nat, k: nat)
    requires n <= k && f(Iterate(f, s, n)) == Iterate(f, s, n)
    ensures Iterate(f, s, k) == Iterate(f, s, n)
  {
    if k == n {
    } else {
      FixedStays(f, s, n, k - 1);
    }
  }

  /** A run that has come to rest goes there from any of its states, in fewer steps from a later one. */
  lemma Resume<S>(f: S -> S, s: S, n: nat, k: nat) returns (left: nat)
    requires f(Iterate(f, s, n)) == Iterate(f, s, n) && 0 < n && 0 < k
    ensures left < n && Iterate(f, Iterate(f, s, k), left) == Iterate(f, s, n)
  {
    if k <= n {
      left := n - k;
      IterateConcat(f, s, k, left);
    } else {
      left := 0;
      FixedStays(f, s, n, k);
    }
  }

  /** Once a state comes back, only states that have been come. */
  lemma {:induction false} RepeatsForever<S>(f: S -> S, s: S, i: nat, j: nat, n: nat) returns (k: nat)
    requires i < j && Iterate(f, s, i) == Iterate(f, s, j)
    ensures k < j && Iterate(f, s, n) == Iterate(f, s, k)
    ensures i <= n ==> i <= k
    decreases n
  {
    if n < j {
      k := n;
    } else {
      IterateConcat(f, s, i, n - j);
      IterateConcat(f, s, j, n - j);
      k := RepeatsForever(f, s, i, j, i + (n - j));
    }
  }

  ghost predicate AllBelow(s: seq<nat>, bound: nat) {
    forall i | 0 <= i < |s| :: s[i] < bound
  }

  ghost predicate Repeats(s: seq<nat>, i: nat, j: nat) {
    i < j < |s| && s[i] == s[j]
  }

  /** More numbers than there are values hold one of them twice. */
  lemma {:induction false} Pigeonhole(s: seq<nat>, bound: nat) returns (i: nat, j: nat)
    requires AllBelow(s, bound) && |s| > bound
    ensures Repeats(s, i, j)
    decreases bound
  {
    assert s[0] < bound;
    if bound == 1 {
      i, j := 0, 1;
    } else {
      var top: nat := bound - 1;
      if p :| 0 <= p < |s| && s[p] == top {
        if q :| 0 <= q < |s| && s[q] == top && p != q {
          i, j := if p < q then p else q, if p < q then q else p;
        } else {
          i, j := Pigeonhole(s[..p] + s[p + 1..], top);
          i, j := if i < p then i else i + 1, if j < p then j else j + 1;
        }
      } else {
        i, j := Pigeonhole(s, top);
      }
    }
  }
}
