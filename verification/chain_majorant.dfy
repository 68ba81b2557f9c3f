/** The chains as the least concave majorant of cumulative reward over cumulative gas. */
module ChainMajorant {

  import opened ChainHull
  import opened ConcaveLine

  /** Cumulative reward, in the unit of performance times gas. */
  ghost function Value(ms: seq<Paid>): real {
    (Reward(ms) * BLOCK_GAS_LIMIT) as real
  }

  ghost function Weight(ms: seq<Paid>): real {
    Gas(ms) as real
  }

  /** `f` is on or above the point of every prefix of the messages. */
  ghost predicate Majorant(f: real -> real, ms: seq<Paid>) {
    forall n | 0 <= n <= |ms| :: AbovePoint(f, ms[..n])
  }

  ghost predicate AbovePoint(f: real -> real, ms: seq<Paid>) {
    Value(ms) <= f(Weight(ms))
  }

  ghost function SegmentOf(c: seq<Paid>): Segment
    requires PrefixBelow(c)
  {
    Segment(Perf(c), Weight(c))
  }

  ghost predicate AllBelow(chains: seq<seq<Paid>>) {
    forall k | 0 <= k < |chains| :: PrefixBelow(chains[k])
  }

  /** The line through the ends of the chains. */
  ghost function Segments(chains: seq<seq<Paid>>): seq<Segment>
    requires AllBelow(chains)
  {
    if chains == [] then [] else [SegmentOf(chains[0])] + Segments(chains[1..])
  }

  lemma PerfTimesWeight(c: seq<Paid>)
    requires c != [] && PositiveGas(c)
    ensures Weight(c) > 0.0 && Times(Perf(c), Weight(c)) == Value(c)
  {
    GasPositive(c);
    RatioTimesGas(Reward(c), Gas(c));
  }

  lemma SegmentRises(c: seq<Paid>)
    requires PrefixBelow(c)
    ensures Weight(c) > 0.0 && Rise(SegmentOf(c)) == Value(c)
  {
    PerfTimesWeight(c);
  }

  lemma PointConcat(a: seq<Paid>, b: seq<Paid>)
    ensures Value(a + b) == Value(a) + Value(b) && Weight(a + b) == Weight(a) + Weight(b)
  {
    SumsConcat(a, b);
  }

  lemma {:induction false} SegmentAt(chains: seq<seq<Paid>>, k: nat)
    requires AllBelow(chains) && k < |chains|
    ensures |Segments(chains)| == |chains| && Segments(chains)[k] == SegmentOf(chains[k])
  {
    if |chains| == 1 {
    } else {
      SegmentAt(chains[1..], if k == 0 then 0 else k - 1);
    }
  }

  lemma SegmentsFall(chains: seq<seq<Paid>>)
    requires Hull(chains)
    ensures AllBelow(chains) && Falling(Segments(chains))
  {
    var segments := Segments(chains);
    forall k | 0 <= k < |chains|
      ensures |segments| == |chains| && segments[k] == SegmentOf(chains[k]) && segments[k].width > 0.0
    {
      SegmentAt(chains, k);
      SegmentRises(chains[k]);
    }
  }

  lemma {:induction false} SegmentsEnd(chains: seq<seq<Paid>>)
    requires AllBelow(chains)
    ensures End(Segments(chains)) == Weight(Concat(chains))
  {
    if chains == [] {
    } else {
      SegmentsEnd(chains[1..]);
      PointConcat(chains[0], Concat(chains[1..]));
    }
  }

  // ---- the line is a majorant ----

  lemma PrefixWeight(c: seq<Paid>, n: nat)
    requires PositiveGas(c) && n <= |c|
    ensures Weight(c[..n]) <= Weight(c)
  {
    assert c == c[..n] + c[n..];
    SumsConcat(c[..n], c[n..]);
    GasPositive(c[n..]);
  }

  lemma WithinFirst(c: seq<Paid>, n: nat)
    requires PrefixBelow(c) && n <= |c|
    ensures Value(c[..n]) <= Times(Perf(c), Weight(c[..n]))
  {
    if n == 0 {
    } else {
      PerfTimesWeight(c[..n]);
      Scale(Perf(c[..n]), Perf(c), Weight(c[..n]));
    }
  }

  lemma {:induction false} BelowLine(chains: seq<seq<Paid>>, n: nat)
    requires AllBelow(chains) && n <= |Concat(chains)|
    ensures AbovePoint(Line(Segments(chains)), Concat(chains)[..n])
  {
    if chains == [] {
    } else {
      var first, rest := chains[0], Concat(chains[1..]);
      if n <= |first| {
        assert Concat(chains)[..n] == first[..n];
        PrefixWeight(first, n);
        WithinFirst(first, n);
      } else {
        var m: nat := n - |first|;
        assert Concat(chains)[..n] == first + rest[..m];
        BelowLine(chains[1..], m);
        ConcatPositive(chains[1..]);
        GasPositive(rest[..m]);
        SegmentRises(first);
        assert Segments(chains)[1..] == Segments(chains[1..]);
        AfterFirst(Segments(chains), first, rest[..m]);
      }
    }
  }

  lemma AfterFirst(segments: seq<Segment>, first: seq<Paid>, ms: seq<Paid>)
    requires segments != [] && segments[0].width == Weight(first) && Rise(segments[0]) == Value(first)
    requires Weight(ms) > 0.0 && AbovePoint(Line(segments[1..]), ms)
    ensures AbovePoint(Line(segments), first + ms)
  {
    AtPastFirst(segments, Weight(ms));
    PointConcat(first, ms);
  }

  // ---- no concave majorant is lower ----

  lemma MajorantOfRest(f: real -> real, first: seq<Paid>, rest: seq<Paid>)
    requires Majorant(f, first + rest)
    ensures Majorant(From(f, Weight(first), Value(first)), rest)
  {
    forall n | 0 <= n <= |rest|
      ensures AbovePoint(From(f, Weight(first), Value(first)), rest[..n])
    {
      assert (first + rest)[..|first| + n] == first + rest[..n];
      PointConcat(first, rest[..n]);
    }
  }

  /** The ends of the chains are prefixes of the messages. */
  lemma {:induction false} MajorantAboveCorners(f: real -> real, chains: seq<seq<Paid>>)
    requires AllBelow(chains) && Majorant(f, Concat(chains))
    ensures AboveCorners(f, Segments(chains))
    decreases |chains|
  {
    assert Concat(chains)[..0] == [];
    assert AbovePoint(f, []);
    if chains == [] {
    } else {
      var first := chains[0];
      SegmentRises(first);
      MajorantOfRest(f, first, Concat(chains[1..]));
      MajorantAboveCorners(From(f, Weight(first), Value(first)), chains[1..]);
      assert Segments(chains)[0] == SegmentOf(first) && Segments(chains)[1..] == Segments(chains[1..]);
    }
  }

  /** The line through the chains is a concave majorant of the messages. */
  lemma ConcaveMajorant(chains: seq<seq<Paid>>)
    requires Hull(chains)
    ensures AllBelow(chains) && Majorant(Line(Segments(chains)), Concat(chains))
    ensures Concave(Line(Segments(chains)), Weight(Concat(chains)))
  {
    SegmentsFall(chains);
    SegmentsEnd(chains);
    LineIsConcave(Segments(chains));
    forall n | 0 <= n <= |Concat(chains)|
      ensures AbovePoint(Line(Segments(chains)), Concat(chains)[..n])
    {
      BelowLine(chains, n);
    }
  }

  /** Every concave majorant of the messages is on or above the line through the chains. */
  lemma LeastConcaveMajorant(chains: seq<seq<Paid>>, f: real -> real, x: real)
    requires Hull(chains) && Majorant(f, Concat(chains)) && Concave(f, Weight(Concat(chains)))
    requires 0.0 <= x <= Weight(Concat(chains))
    ensures AllBelow(chains) && Line(Segments(chains))(x) <= f(x)
  {
    SegmentsFall(chains);
    SegmentsEnd(chains);
    MajorantAboveCorners(f, chains);
    LineIsLeast(Segments(chains), f, x);
  }
}
