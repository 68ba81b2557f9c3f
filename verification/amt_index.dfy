/** Index arithmetic of the AMT: capacities, saturating `nodes_for_height`, and slot splitting. */
module AmtIndex {
  import opened Common

  const USIZE_MAX: nat := 0xFFFF_FFFF_FFFF_FFFF
  const MAX_INDEX: nat := 0xFFFF_FFFF_FFFF_FFFE
  const MAX_HEIGHT: nat := 64

  /** `nodes_for_height`: 2^(width * height), saturating at usize::MAX. */
  function NodesForHeight(width: nat, height: nat): nat {
    var heightLogTwo := width * height;
    if heightLogTwo >= 64 then USIZE_MAX else Pow2(heightLogTwo)
  }

  /** The number of slots in a node. */
  function Width(w: nat): nat {
    Pow2(w)
  }

  /** How many indices lie below one slot of a node of height `h`, with no saturation. */
  ghost function Cap(w: nat, h: nat): (n: nat)
    ensures n >= 1
  {
    if h == 0 then 1 else
      MulPositive(Width(w), Cap(w, h - 1));
      Width(w) * Cap(w, h - 1)
  }

  lemma MulPositive(a: nat, b: nat)
    requires a >= 1 && b >= 1
    ensures a * b >= 1 && a * b >= b && a * b >= a
  {
  }

  lemma {:induction false} Pow2Add(m: nat, n: nat)
    ensures Pow2(m + n) == Pow2(m) * Pow2(n)
  {
    if m == 0 {
      assert Pow2(0) == 1;
    } else {
      Pow2Add(m - 1, n);
      assert m + n - 1 == m - 1 + n;
      Double(Pow2(m - 1), Pow2(n));
    }
  }

  lemma Double(a: nat, b: nat)
    ensures 2 * (a * b) == (2 * a) * b
  {
  }

  lemma {:induction false} CapIsPow2(w: nat, h: nat)
    ensures Cap(w, h) == Pow2(w * h)
  {
    if h == 0 {
      assert w * 0 == 0;
    } else {
      CapIsPow2(w, h - 1);
      assert w * h == w + w * (h - 1) by { MulStep(w, h); }
      Pow2Add(w, w * (h - 1));
    }
  }

  lemma MulStep(w: nat, h: nat)
    requires h >= 1
    ensures w * h == w + w * (h - 1)
  {
  }

  lemma Pow2Of64()
    ensures Pow2(64) == USIZE_MAX + 1
  {
    assert Pow2(4) == 16;
    Pow2Add(4, 4);
    assert Pow2(8) == 256;
    Pow2Add(8, 8);
    assert Pow2(16) == 65536;
    Pow2Add(16, 16);
    assert Pow2(32) == 4294967296;
    Pow2Add(32, 32);
  }

  /** The capacity is computed exactly below 64 bits, and is else the largest number that fits. */
  lemma NodesForHeightExact(w: nat, h: nat)
    ensures NodesForHeight(w, h) == if Cap(w, h) <= USIZE_MAX then Cap(w, h) else USIZE_MAX
    ensures w * h < 64 ==> NodesForHeight(w, h) == Cap(w, h)
  {
    CapIsPow2(w, h);
    Pow2Of64();
    if w * h < 64 {
      Pow2Monotone(w * h, 63);
    } else {
      Pow2Monotone(64, w * h);
    }
  }

  /** Saturation never changes the outcome of a range check on a legal index. */
  lemma RangeCheckExact(w: nat, h: nat, i: nat)
    requires i <= MAX_INDEX
    ensures i >= NodesForHeight(w, h) <==> i >= Cap(w, h)
    ensures w * h >= 64 ==> i < Cap(w, h)
  {
    CapIsPow2(w, h);
    if w * h >= 64 {
      Pow2Monotone(64, w * h);
      Pow2Of64();
    }
  }

  // ---- paths ----

  /** A path to an index below a node of height `h`: one slot per level, most significant first. */
  ghost predicate ValidPath(w: nat, h: nat, p: seq<nat>) {
    |p| == h + 1 && forall k | 0 <= k < |p| :: p[k] < Width(w)
  }

  /** The path the recursive operations follow to index `i`. */
  ghost function Path(w: nat, h: nat, i: nat): seq<nat>
    decreases h
  {
    if h == 0 then [i] else [Quotient(i, Cap(w, h))] + Path(w, h - 1, Remainder(i, Cap(w, h)))
  }

  ghost function Quotient(i: nat, n: nat): nat
    requires n > 0
  {
    i / n
  }

  ghost function Remainder(i: nat, n: nat): nat
    requires n > 0
  {
    i % n
  }

  /** The index at the end of a path. */
  ghost function IndexOf(w: nat, p: seq<nat>): nat {
    if |p| == 0 then 0 else p[0] * Cap(w, |p| - 1) + IndexOf(w, p[1..])
  }

  lemma {:induction false} PathIsValid(w: nat, h: nat, i: nat)
    requires i < Cap(w, h + 1)
    ensures ValidPath(w, h, Path(w, h, i)) && IndexOf(w, Path(w, h, i)) == i
    decreases h
  {
    if h == 0 {
      assert Cap(w, 0) == 1 && Cap(w, 1) == Width(w);
      assert [i][1..] == [];
    } else {
      var n := Cap(w, h);
      QuotientBelow(i, n, Width(w));
      PathIsValid(w, h - 1, i % n);
      assert Path(w, h, i)[1..] == Path(w, h - 1, i % n);
    }
  }

  lemma {:induction false} IndexInRange(w: nat, h: nat, p: seq<nat>)
    requires ValidPath(w, h, p)
    ensures IndexOf(w, p) < Cap(w, h + 1) && Path(w, h, IndexOf(w, p)) == p
    decreases h
  {
    if h == 0 {
      assert Cap(w, 0) == 1 && Cap(w, 1) == Width(w) && p[1..] == [];
      assert p == [p[0]];
    } else {
      IndexInRange(w, h - 1, p[1..]);
      var i, r := IndexOf(w, p), IndexOf(w, p[1..]);
      Recompose(p[0], r, Cap(w, h), Width(w), i);
      assert p == [p[0]] + p[1..];
    }
  }

  lemma Recompose(q: nat, r: nat, n: nat, m: nat, i: nat)
    requires q < m && r < n && i == q * n + r
    ensures i < m * n && i / n == q && i % n == r
  {
    MulMonotone(q + 1, m, n);
    DivModUnique(q, r, n);
  }

  lemma QuotientBelow(i: nat, n: nat, m: nat)
    requires n >= 1 && i < m * n
    ensures i / n < m && i % n < n && i == i / n * n + i % n
  {
    var q := i / n;
    assert q >= m ==> q * n >= m * n;
    assert i >= q * n;
  }

  lemma MulMonotone(a: nat, b: nat, n: nat)
    requires a <= b
    ensures a * n <= b * n
  {
  }

  lemma DivModUnique(q: nat, r: nat, n: nat)
    requires r < n
    ensures (q * n + r) / n == q && (q * n + r) % n == r
  {
    var y := q * n + r;
    var q' := y / n;
    assert q' < q ==> (q' + 1) * n <= q * n;
    assert q' > q ==> (q + 1) * n <= q' * n;
  }

  /** The slot and the remaining index an operation computes are the path's head and tail. */
  lemma PathStep(w: nat, h: nat, i: nat)
    requires h > 0 && w * h < 64 && i < Cap(w, h + 1)
    ensures NodesForHeight(w, h) == Cap(w, h) && w * (h - 1) < 64
    ensures i / Cap(w, h) < Width(w) && i % Cap(w, h) < Cap(w, h)
    ensures Path(w, h, i)[0] == i / Cap(w, h) && Path(w, h, i)[1..] == Path(w, h - 1, i % Cap(w, h))
    ensures ValidPath(w, h, Path(w, h, i))
  {
    NodesForHeightExact(w, h);
    QuotientBelow(i, Cap(w, h), Width(w));
    MulStep(w, h);
    PathIsValid(w, h, i);
  }
}
