/**
 The 256-bit occupancy map of a HAMT node: four 64-bit words, least significant word first.
 A word is represented by its 64 bits, least significant first, so word `i` is the slice
 of bits `64 * i .. 64 * i + 64`.
 */
module Bitfields {

  type Word = w: seq<bool> | |w| == 64 witness Fill(64, false)
  type Bits256 = s: seq<bool> | |s| == 256 witness Fill(256, false)

  function Fill(n: nat, v: bool): (s: seq<bool>)
    ensures |s| == n
    ensures forall i | 0 <= i < n :: s[i] == v
  {
    seq(n, _ => v)
  }

  /** A `Bitfield` is Copy; `on[i]` is bit `i`. */
  datatype Bitfield = Bitfield(on: Bits256) {

    function WordAt(i: nat): (w: Word)
      requires i < 4
      ensures forall b | 0 <= b < 64 :: w[b] == on[64 * i + b]
    {
      on[64 * i..64 * i + 64]
    }

    function WithWord(i: nat, w: Word): Bitfield
      requires i < 4
    {
      Bitfield(on[..64 * i] + w + on[64 * i + 64..])
    }

    predicate TestBit(idx: nat)
      requires idx < 256
      ensures TestBit(idx) == on[idx]
    {
      WordAt(idx / 64)[idx % 64]
    }

    function SetBit(idx: nat): (b: Bitfield)
      requires idx < 256
      ensures b.on == on[idx := true]
    {
      WithWord(idx / 64, WordAt(idx / 64)[idx % 64 := true])
    }

    function ClearBit(idx: nat): (b: Bitfield)
      requires idx < 256
      ensures b.on == on[idx := false]
    {
      WithWord(idx / 64, WordAt(idx / 64)[idx % 64 := false])
    }

    function CountOnes(): (n: nat)
      ensures n == PopCount(on)
    {
      PopCountConcat(WordAt(0), WordAt(1));
      PopCountConcat(WordAt(0) + WordAt(1), WordAt(2));
      PopCountConcat(WordAt(0) + WordAt(1) + WordAt(2), WordAt(3));
      assert on == WordAt(0) + WordAt(1) + WordAt(2) + WordAt(3);
      PopCount(WordAt(0)) + PopCount(WordAt(1)) + PopCount(WordAt(2)) + PopCount(WordAt(3))
    }

    function And(other: Bitfield): (b: Bitfield)
      ensures forall i | 0 <= i < 256 :: b.on[i] == (on[i] && other.on[i])
    {
      Bitfield(seq(256, i requires 0 <= i < 256 => on[i] && other.on[i]))
    }

    /** Sets every bit at or below `bit`. */
    function SetBitsLeq(bit: nat): (b: Bitfield)
      requires bit < 256
      ensures forall i | 0 <= i < 256 :: b.on[i] == (i <= bit || on[i])
    {
      if bit < 64 then FromWords(LowOnes(WordAt(0), bit), WordAt(1), WordAt(2), WordAt(3))
      else if bit < 128 then FromWords(MAX, LowOnes(WordAt(1), bit - 64), WordAt(2), WordAt(3))
      else if bit < 192 then FromWords(MAX, MAX, LowOnes(WordAt(2), bit - 128), WordAt(3))
      else FromWords(MAX, MAX, MAX, LowOnes(WordAt(3), bit - 192))
    }

    /** Sets every bit strictly below `bit`. */
    function SetBitsLe(bit: nat): (b: Bitfield)
      requires bit <= 256
      ensures forall i | 0 <= i < 256 :: b.on[i] == (i < bit || on[i])
    {
      if bit == 0 then this else SetBitsLeq(bit - 1)
    }
  }

  const MAX: Word := Fill(64, true)
  const ZERO: Bitfield := Bitfield(Fill(256, false))

  function FromWords(a: Word, b: Word, c: Word, d: Word): (f: Bitfield)
    ensures forall i | 0 <= i < 256 ::
              f.on[i] == if i < 64 then a[i] else if i < 128 then b[i - 64] else if i < 192 then c[i - 128] else d[i - 192]
  {
    Bitfield(a + b + c + d)
  }

  /** The word `v | (2^(1 + bit) - 1)`, truncated to 64 bits. */
  function LowOnes(v: Word, bit: nat): (w: Word)
    requires bit < 64
    ensures forall i | 0 <= i < 64 :: w[i] == (i <= bit || v[i])
  {
    Fill(bit + 1, true) + v[bit + 1..]
  }

  function PopCount(s: seq<bool>): (n: nat)
    ensures n <= |s|
  {
    if s == [] then 0 else PopCount(s[..|s| - 1]) + (if s[|s| - 1] then 1 else 0)
  }

  lemma {:induction false} PopCountConcat(a: seq<bool>, b: seq<bool>)
    ensures PopCount(a + b) == PopCount(a) + PopCount(b)
  {
    if b == [] {
      assert a + b == a;
    } else {
      assert (a + b)[..|a + b| - 1] == a + b[..|b| - 1];
      PopCountConcat(a, b[..|b| - 1]);
    }
  }

  // ---- rank indexing ----

  /** How many bits are set strictly below `idx`: the position of bit `idx`'s pointer. */
  ghost function Rank(b: Bitfield, idx: nat): (r: nat)
    requires idx <= 256
  {
    PopCount(b.on[..idx])
  }

  /** The number of pointers a node with this bitfield has. */
  ghost function Size(b: Bitfield): nat {
    PopCount(b.on)
  }

  lemma RankStep(b: Bitfield, idx: nat)
    requires idx < 256
    ensures Rank(b, idx + 1) == Rank(b, idx) + (if b.on[idx] then 1 else 0)
  {
    assert b.on[..idx + 1][..idx] == b.on[..idx];
  }

  lemma {:induction false} RankMonotone(b: Bitfield, i: nat, j: nat)
    requires i <= j <= 256
    ensures Rank(b, i) <= Rank(b, j)
    ensures i < j && b.on[i] ==> Rank(b, i) < Rank(b, j)
    decreases j
  {
    if i >= j {
    } else {
      RankMonotone(b, i, j - 1);
      RankStep(b, j - 1);
    }
  }

  lemma RankBelowSize(b: Bitfield, idx: nat)
    requires idx < 256
    ensures Rank(b, idx) <= Size(b)
    ensures b.on[idx] ==> Rank(b, idx) < Size(b)
  {
    RankMonotone(b, idx, 256);
    assert b.on[..256] == b.on;
  }

  /** Every pointer position belongs to a set bit. */
  lemma {:induction false} Select(b: Bitfield, pos: nat, upTo: nat) returns (idx: nat)
    requires upTo <= 256 && pos < Rank(b, upTo)
    ensures idx < upTo && b.on[idx] && Rank(b, idx) == pos
  {
    RankStep(b, upTo - 1);
    if b.on[upTo - 1] && Rank(b, upTo - 1) == pos {
      idx := upTo - 1;
    } else {
      idx := Select(b, pos, upTo - 1);
    }
  }

  /** Node::index_for_bit_pos; the assertion on the mask's population count can never fail. */
  method IndexForBitPos(bits: Bitfield, bp: nat) returns (i: nat)
    requires bp < 256
    ensures i == Rank(bits, bp)
  {
    var mask := ZERO.SetBitsLe(bp);
    MaskCount(mask, bp);
    assert mask.CountOnes() == bp;
    MaskedCount(bits, mask.And(bits), bp);
    i := mask.And(bits).CountOnes();
  }

  lemma MaskCount(mask: Bitfield, bp: nat)
    requires bp < 256 && forall i | 0 <= i < 256 :: mask.on[i] == (i < bp)
    ensures PopCount(mask.on) == bp
  {
    assert mask.on == Fill(bp, true) + Fill(256 - bp, false);
    PopCountConcat(Fill(bp, true), Fill(256 - bp, false));
    PopCountFill(bp, true);
    PopCountFill(256 - bp, false);
  }

  lemma MaskedCount(bits: Bitfield, masked: Bitfield, bp: nat)
    requires bp < 256 && forall i | 0 <= i < 256 :: masked.on[i] == (i < bp && bits.on[i])
    ensures PopCount(masked.on) == Rank(bits, bp)
  {
    assert masked.on == bits.on[..bp] + Fill(256 - bp, false);
    PopCountConcat(bits.on[..bp], Fill(256 - bp, false));
    PopCountFill(256 - bp, false);
  }

  lemma {:induction false} PopCountFill(n: nat, v: bool)
    ensures PopCount(Fill(n, v)) == if v then n else 0
  {
    if n == 0 {
    } else {
      assert Fill(n, v)[..n - 1] == Fill(n - 1, v);
      PopCountFill(n - 1, v);
    }
  }

  lemma {:induction false} RankAfterSet(b: Bitfield, b': Bitfield, idx: nat, j: nat)
    requires idx < 256 && j <= 256 && !b.on[idx] && b'.on == b.on[idx := true]
    ensures Rank(b', j) == Rank(b, j) + (if idx < j then 1 else 0)
    decreases j
  {
    if j == 0 {
    } else {
      RankAfterSet(b, b', idx, j - 1);
      RankStep(b, j - 1);
      RankStep(b', j - 1);
    }
  }

  /** The pointer of a set bit in a rank-indexed pointer vector. */
  ghost function At<P>(b: Bitfield, items: seq<P>, idx: nat): (p: P)
    requires idx < 256 && b.on[idx] && |items| == Size(b)
    ensures Rank(b, idx) < |items| && p == items[Rank(b, idx)]
  {
    RankBelowSize(b, idx);
    items[Rank(b, idx)]
  }

  /** insert_child keeps rank indexing: one pointer joins, every other bit keeps its own. */
  lemma InsertKeepsRank<P>(b: Bitfield, b': Bitfield, items: seq<P>, items': seq<P>, idx: nat, p: P)
    requires idx < 256 && !b.on[idx] && b'.on == b.on[idx := true] && |items| == Size(b)
    requires Rank(b, idx) <= |items|
    requires items' == items[..Rank(b, idx)] + [p] + items[Rank(b, idx)..]
    ensures |items'| == Size(b')
    ensures At(b', items', idx) == p
    ensures forall j | 0 <= j < 256 && b.on[j] :: At(b', items', j) == At(b, items, j)
  {
    RankAfterSet(b, b', idx, 256);
    assert b.on[..256] == b.on && b'.on[..256] == b'.on;
    RankAfterSet(b, b', idx, idx);
    forall j | 0 <= j < 256 && b.on[j]
      ensures At(b', items', j) == At(b, items, j)
    {
      RankAfterSet(b, b', idx, j);
      RankBelowSize(b, j);
      RankMonotone(b, if idx < j then idx else j, if idx < j then j else idx);
    }
  }

  /** Overwriting one pointer leaves every other bit's pointer alone. */
  lemma ReplaceKeepsRank<P>(b: Bitfield, items: seq<P>, items': seq<P>, idx: nat, p: P)
    requires idx < 256 && b.on[idx] && |items| == Size(b)
    requires Rank(b, idx) < |items| && items' == items[Rank(b, idx) := p]
    ensures At(b, items', idx) == p
    ensures forall j | 0 <= j < 256 && b.on[j] && j != idx :: At(b, items', j) == At(b, items, j)
  {
    forall j | 0 <= j < 256 && b.on[j] && j != idx
      ensures At(b, items', j) == At(b, items, j)
    {
      RankBelowSize(b, j);
      RankMonotone(b, if idx < j then idx else j, if idx < j then j else idx);
    }
  }

  /** rm_child keeps rank indexing: one pointer leaves, every other bit keeps its own. */
  lemma RemoveKeepsRank<P>(b: Bitfield, b': Bitfield, items: seq<P>, items': seq<P>, idx: nat)
    requires idx < 256 && b.on[idx] && b'.on == b.on[idx := false] && |items| == Size(b)
    requires Rank(b, idx) < |items|
    requires items' == items[..Rank(b, idx)] + items[Rank(b, idx) + 1..]
    ensures |items'| == Size(b')
    ensures forall j | 0 <= j < 256 && b'.on[j] :: At(b', items', j) == At(b, items, j)
  {
    assert b.on == b'.on[idx := true];
    RankAfterSet(b', b, idx, 256);
    assert b.on[..256] == b.on && b'.on[..256] == b'.on;
    RankAfterSet(b', b, idx, idx);
    forall j | 0 <= j < 256 && b'.on[j]
      ensures At(b', items', j) == At(b, items, j)
    {
      RankAfterSet(b', b, idx, j);
      RankBelowSize(b', j);
      RankMonotone(b, if idx < j then idx else j, if idx < j then j else idx);
    }
  }
}
