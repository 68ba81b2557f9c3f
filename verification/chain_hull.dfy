/**
 What `create_message_chains` computes: the least concave majorant of cumulative reward over gas,
 as a partition of a message list into chains of strictly decreasing performance.
 */
module ChainHull {

  datatype Msg = Msg(sequence: nat, gasLimit: int, gasFeeCap: int, gasPremium: int, requiredFunds: int, value: int)

  /** A message with the reward it pays. */
  datatype Paid = Paid(msg: Msg, reward: int)

  function Gas(ms: seq<Paid>): int {
    if ms == [] then 0 else Gas(ms[..|ms| - 1]) + ms[|ms| - 1].msg.gasLimit
  }

  function Reward(ms: seq<Paid>): int {
    if ms == [] then 0 else Reward(ms[..|ms| - 1]) + ms[|ms| - 1].reward
  }

  ghost predicate PositiveGas(ms: seq<Paid>) {
    forall k | 0 <= k < |ms| :: ms[k].msg.gasLimit > 0
  }

  lemma {:induction false} SumsConcat(a: seq<Paid>, b: seq<Paid>)
    ensures Gas(a + b) == Gas(a) + Gas(b) && Reward(a + b) == Reward(a) + Reward(b)
  {
    if b == [] {
      assert a + b == a;
    } else {
      SumsConcat(a, b[..|b| - 1]);
      assert (a + b)[..|a + b| - 1] == a + b[..|b| - 1];
    }
  }

  lemma {:induction false} GasPositive(ms: seq<Paid>)
    requires PositiveGas(ms)
    ensures Gas(ms) >= |ms|
  {
    if ms == [] {
    } else {
      GasPositive(ms[..|ms| - 1]);
    }
  }

  const BLOCK_GAS_LIMIT: int := 10_000_000_000

  /** get_gas_perf, as the exact ratio. */
  function GasPerf(reward: int, gas: int): real
    requires gas > 0
  {
    (reward * BLOCK_GAS_LIMIT) as real / gas as real
  }

  ghost function Perf(ms: seq<Paid>): real
    requires ms != [] && PositiveGas(ms)
  {
    GasPositive(ms);
    GasPerf(Reward(ms), Gas(ms))
  }

  /** The ratio of a sum lies between the ratios of its parts, strictly if they differ. */
  lemma RatioMediant(r: int, g: int, s: int, h: int)
    requires g > 0 && h > 0
    ensures GasPerf(r, g) <= GasPerf(s, h) ==> GasPerf(r, g) <= GasPerf(r + s, g + h) <= GasPerf(s, h)
    ensures GasPerf(r, g) >= GasPerf(s, h) ==> GasPerf(r, g) >= GasPerf(r + s, g + h) >= GasPerf(s, h)
    ensures GasPerf(r, g) < GasPerf(s, h) ==> GasPerf(r, g) < GasPerf(r + s, g + h) < GasPerf(s, h)
    ensures GasPerf(r, g) > GasPerf(s, h) ==> GasPerf(r, g) > GasPerf(r + s, g + h) > GasPerf(s, h)
  {
    var x, y, z := GasPerf(r, g), GasPerf(s, h), GasPerf(r + s, g + h);
    var a, b := g as real, h as real;
    RatioTimesGas(r, g);
    RatioTimesGas(s, h);
    RatioTimesGas(r + s, g + h);
    assert z * (a + b) == x * a + y * b;
    Between(x, y, z, a, b);
  }

  lemma RatioTimesGas(r: int, g: int)
    requires g > 0
    ensures GasPerf(r, g) * g as real == (r * BLOCK_GAS_LIMIT) as real
  {
  }

  lemma Between(x: real, y: real, z: real, a: real, b: real)
    requires a > 0.0 && b > 0.0 && z * (a + b) == x * a + y * b
    ensures x <= y ==> x <= z <= y
    ensures x >= y ==> x >= z >= y
    ensures x < y ==> x < z < y
    ensures x > y ==> x > z > y
  {
    assert (z - x) * (a + b) == (y - x) * b;
    assert (y - z) * (a + b) == (y - x) * a;
    SignOf(z - x, a + b, y - x, b);
    SignOf(y - z, a + b, y - x, a);
  }

  lemma SignOf(p: real, a: real, q: real, b: real)
    requires a > 0.0 && b > 0.0 && p * a == q * b
    ensures (p > 0.0 <==> q > 0.0) && (p < 0.0 <==> q < 0.0)
  {
    assert p > 0.0 ==> p * a > 0.0;
    assert p < 0.0 ==> p * a < 0.0;
    assert p == 0.0 ==> p * a == 0.0;
    assert q > 0.0 ==> q * b > 0.0;
    assert q < 0.0 ==> q * b < 0.0;
    assert q == 0.0 ==> q * b == 0.0;
  }

  lemma Mediant(a: seq<Paid>, b: seq<Paid>)
    requires a != [] && b != [] && PositiveGas(a) && PositiveGas(b)
    ensures PositiveGas(a + b)
    ensures Perf(a) <= Perf(b) ==> Perf(a) <= Perf(a + b) <= Perf(b)
    ensures Perf(a) >= Perf(b) ==> Perf(a) >= Perf(a + b) >= Perf(b)
    ensures Perf(a) < Perf(b) ==> Perf(a) < Perf(a + b) < Perf(b)
    ensures Perf(a) > Perf(b) ==> Perf(a) > Perf(a + b) > Perf(b)
  {
    SumsConcat(a, b);
    GasPositive(a);
    GasPositive(b);
    RatioMediant(Reward(a), Gas(a), Reward(b), Gas(b));
  }

  // ---- chains ----

  /** No nonempty prefix of the chain performs better than the whole. */
  ghost predicate PrefixBelow(c: seq<Paid>) {
    && c != [] && PositiveGas(c)
    && forall k | 0 < k <= |c| :: Perf(c[..k]) <= Perf(c)
  }

  function Concat(chains: seq<seq<Paid>>): seq<Paid> {
    if chains == [] then [] else chains[0] + Concat(chains[1..])
  }

  /** A partition into chains of strictly decreasing performance, none beaten by its own prefixes. */
  ghost predicate Hull(chains: seq<seq<Paid>>) {
    && (forall k | 0 <= k < |chains| :: PrefixBelow(chains[k]))
    && (forall k | 0 < k < |chains| :: Perf(chains[k]) < Perf(chains[k - 1]))
  }

  lemma {:induction false} ConcatPositive(chains: seq<seq<Paid>>)
    requires forall k | 0 <= k < |chains| :: PrefixBelow(chains[k])
    ensures PositiveGas(Concat(chains))
  {
    if chains == [] {
    } else {
      ConcatPositive(chains[1..]);
    }
  }

  lemma HullTail(chains: seq<seq<Paid>>)
    requires Hull(chains) && chains != []
    ensures Hull(chains[1..])
  {
    forall k | 0 < k < |chains[1..]|
      ensures Perf(chains[1..][k]) < Perf(chains[1..][k - 1])
    {
      assert chains[1..][k] == chains[k + 1] && chains[1..][k - 1] == chains[k];
    }
  }

  /** The first chain is the best prefix of the whole list, and the longest among the best. */
  lemma {:induction false} FirstChainIsBest(chains: seq<seq<Paid>>, n: nat)
    requires Hull(chains) && chains != [] && 0 < n <= |Concat(chains)|
    ensures PositiveGas(Concat(chains)[..n])
    ensures n <= |chains[0]| ==> Perf(Concat(chains)[..n]) <= Perf(chains[0])
    ensures n > |chains[0]| ==> Perf(Concat(chains)[..n]) < Perf(chains[0])
  {
    ConcatPositive(chains);
    var first, all := chains[0], Concat(chains);
    if n <= |first| {
      assert all[..n] == first[..n];
      assert PrefixBelow(first);
    } else {
      var rest := Concat(chains[1..]);
      var m := n - |first|;
      HullTail(chains);
      FirstChainIsBest(chains[1..], m);
      assert all[..n] == first + rest[..m];
      assert Perf(chains[1]) < Perf(chains[0]);
      Mediant(first, rest[..m]);
    }
  }

  /** There is only one such partition: it is a function of the message list. */
  lemma {:induction false} HullIsUnique(a: seq<seq<Paid>>, b: seq<seq<Paid>>)
    requires Hull(a) && Hull(b) && Concat(a) == Concat(b)
    ensures a == b
  {
    assert forall k | 0 <= k < |a| :: PrefixBelow(a[k]);
    assert forall k | 0 <= k < |b| :: PrefixBelow(b[k]);
    if a == [] || b == [] {
    } else {
      FirstNotLonger(a, b);
      FirstNotLonger(b, a);
      assert a[0] == Concat(a)[..|a[0]|] && b[0] == Concat(b)[..|b[0]|];
      assert Concat(a[1..]) == Concat(a)[|a[0]|..] && Concat(b[1..]) == Concat(b)[|b[0]|..];
      HullTail(a);
      HullTail(b);
      HullIsUnique(a[1..], b[1..]);
    }
  }

  lemma FirstNotLonger(a: seq<seq<Paid>>, b: seq<seq<Paid>>)
    requires Hull(a) && Hull(b) && Concat(a) == Concat(b) && a != [] && b != []
    ensures |a[0]| <= |b[0]|
  {
    assert PrefixBelow(a[0]) && PrefixBelow(b[0]);
    FirstChainIsBest(a, |b[0]|);
    FirstChainIsBest(b, |a[0]|);
    assert Concat(a)[..|a[0]|] == a[0] && Concat(b)[..|b[0]|] == b[0];
  }

  // ---- the two steps of the algorithm ----

  /** Appending a message that does not lower the performance keeps every prefix below. */
  lemma AppendKeepsPrefixBelow(c: seq<Paid>, m: Paid)
    requires PrefixBelow(c) && m.msg.gasLimit > 0 && PositiveGas(c + [m]) && Perf(c + [m]) >= Perf(c)
    ensures PrefixBelow(c + [m])
  {
    forall k | 0 < k <= |c + [m]|
      ensures Perf((c + [m])[..k]) <= Perf(c + [m])
    {
      if k <= |c| {
        assert (c + [m])[..k] == c[..k];
      } else {
        assert (c + [m])[..k] == c + [m];
      }
    }
  }

  /** Merging a chain into a predecessor it does not fall below keeps every prefix below. */
  lemma MergeKeepsPrefixBelow(a: seq<Paid>, b: seq<Paid>)
    requires PrefixBelow(a) && PrefixBelow(b) && Perf(b) >= Perf(a)
    ensures PrefixBelow(a + b)
  {
    Mediant(a, b);
    forall k | 0 < k <= |a + b|
      ensures Perf((a + b)[..k]) <= Perf(a + b)
    {
      if k <= |a| {
        assert (a + b)[..k] == a[..k];
      } else if k == |a + b| {
        assert (a + b)[..k] == a + b;
      } else {
        var p, q := b[..k - |a|], b[k - |a|..];
        assert b == p + q && (a + b)[..k] == a + p && a + b == (a + p) + q;
        Mediant(p, q);
        Mediant(a, p);
        Mediant(a + p, q);
      }
    }
  }

  lemma SinglePrefixBelow(m: Paid)
    requires m.msg.gasLimit > 0
    ensures PrefixBelow([m])
  {
    assert [m][..1] == [m];
  }

  function TotalGas(chains: seq<seq<Paid>>): int {
    if chains == [] then 0 else Gas(chains[0]) + TotalGas(chains[1..])
  }

  function TotalReward(chains: seq<seq<Paid>>): int {
    if chains == [] then 0 else Reward(chains[0]) + TotalReward(chains[1..])
  }

  /** Partitioning moves no gas and no reward. */
  lemma {:induction false} TotalsConserved(chains: seq<seq<Paid>>)
    ensures TotalGas(chains) == Gas(Concat(chains)) && TotalReward(chains) == Reward(Concat(chains))
  {
    if chains == [] {
    } else {
      TotalsConserved(chains[1..]);
      SumsConcat(chains[0], Concat(chains[1..]));
    }
  }
}
