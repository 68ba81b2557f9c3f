/** Small shared vocabulary: optional values and powers of two. */
module Common {

  datatype Option<+T> = None | Some(value: T)

  /** 2^n, the value of the shift `1 << n` before any truncation. */
  function Pow2(n: nat): (p: nat)
    ensures p >= 1
  {
    if n == 0 then 1 else 2 * Pow2(n - 1)
  }

  lemma {:induction false} Pow2Monotone(m: nat, n: nat)
    requires m <= n
    ensures Pow2(m) <= Pow2(n)
    decreases n
  {
    if m >= n {
    } else {
      Pow2Monotone(m, n - 1);
    }
  }

  lemma ConcatAssoc<T>(a: seq<T>, b: seq<T>, c: seq<T>)
    ensures (a + b) + c == a + (b + c)
  {
  }

  lemma TakeSnoc<T>(s: seq<T>, i: nat)
    requires i < |s|
    ensures s[..i + 1] == s[..i] + [s[i]]
  {
  }

  lemma DropPrefix<T>(a: seq<T>, b: seq<T>)
    ensures (a + b)[|a|..] == b
  {
  }

  lemma SplitAt<T>(a: seq<T>, s: seq<T>, i: nat)
    requires i < |s|
    ensures a + s[i..] == a + [s[i]] + s[i + 1..]
    ensures (a + s[i..])[|a|] == s[i] && (a + s[i..])[..|a|] + (a + s[i..])[|a| + 1..] == a + s[i + 1..]
  {
  }

  lemma WholeSlice<T>(a: seq<T>, s: seq<T>)
    ensures s[..0] == [] && [] + s[0..] == s && s[..|s|] == s && a + s[|s|..] == a
  {
  }

  lemma TailOfTake<T>(s: seq<T>, n: nat)
    requires 0 < n <= |s|
    ensures s[..n][0] == s[0] && s[..n][1..] == s[1..][..n - 1] && s[1..][n - 1..] == s[n..]
  {
  }

  lemma TailOfConcat<T>(a: seq<T>, b: seq<T>)
    requires a != []
    ensures (a + b)[0] == a[0] && (a + b)[1..] == a[1..] + b
  {
  }
}
