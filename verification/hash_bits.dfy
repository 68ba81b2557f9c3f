/**
 The reader that cuts a 256-bit hashed key into the chunks a HAMT walks down by.
 A byte is represented by its eight bits, most significant first.
 */
module HashBitReader {
  import opened Common

  type Byte = b: seq<bool> | |b| == 8 witness Zeros(8)
  type HashedKey = h: seq<Byte> | |h| == 32 witness ZeroKey()

  datatype HashError = InvalidHashBitLen | MaxDepth
  datatype NextResult = Ok(bits: nat) | Err(error: HashError) | Panic

  /** A `HashBits` is Copy: a borrowed key and the number of bits consumed so far. */
  datatype HashBits = HashBits(b: HashedKey, consumed: nat)

  function New(h: HashedKey): HashBits {
    NewAtIndex(h, 0)
  }

  function NewAtIndex(h: HashedKey, consumed: nat): HashBits {
    HashBits(h, consumed)
  }

  function Zeros(n: nat): (s: seq<bool>)
    ensures |s| == n
  {
    seq(n, _ => false)
  }

  function ZeroKey(): (h: seq<Byte>)
    ensures |h| == 32
  {
    seq(32, _ => Zeros(8))
  }

  /** The number a string of binary digits spells, most significant first. */
  function Value(s: seq<bool>): nat
  {
    if s == [] then 0 else 2 * Value(s[..|s| - 1]) + (if s[|s| - 1] then 1 else 0)
  }

  /** `v << n`. */
  function Shift(v: nat, n: nat): nat {
    if n == 0 then v else 2 * Shift(v, n - 1)
  }

  lemma {:induction false} LeadingZeros(n: nat, s: seq<bool>)
    ensures Value(Zeros(n) + s) == Value(s)
    decreases |s|, n
  {
    if s != [] {
      LeadingZeros(n, s[..|s| - 1]);
      assert (Zeros(n) + s)[..n + |s| - 1] == Zeros(n) + s[..|s| - 1];
    } else if n != 0 {
      LeadingZeros(n - 1, []);
      assert (Zeros(n) + s)[..n - 1] == Zeros(n - 1) + [];
    }
  }

  /** `x & mkmask(n)`. */
  function MaskLow(x: Byte, n: nat): (y: Byte)
    requires n <= 8
    ensures Value(y) == Value(x[8 - n..])
  {
    LeadingZeros(8 - n, x[8 - n..]);
    Zeros(8 - n) + x[8 - n..]
  }

  /** `x & !mkmask(n)`. */
  function MaskHigh(x: Byte, n: nat): Byte
    requires n <= 8
  {
    x[..8 - n] + Zeros(n)
  }

  /** `x >> n`. */
  function ShiftRight(x: Byte, n: nat): (y: Byte)
    requires n <= 8
    ensures Value(y) == Value(x[..8 - n])
  {
    LeadingZeros(n, x[..8 - n]);
    Zeros(n) + x[..8 - n]
  }

  /** Bit `p` of the key, counted from the most significant bit of the first byte. */
  function Bit(h: HashedKey, p: nat): nat
    requires p < 256
  {
    if h[p / 8][p % 8] then 1 else 0
  }

  /** The number spelled by the `n` key bits starting at `from`. */
  function Chunk(h: HashedKey, from: nat, n: nat): nat
    requires from + n <= 256
  {
    if n == 0 then 0 else 2 * Chunk(h, from, n - 1) + Bit(h, from + n - 1)
  }

  lemma {:induction false} ChunkBound(h: HashedKey, from: nat, n: nat)
    requires from + n <= 256
    ensures Chunk(h, from, n) < Pow2(n)
  {
    if n == 0 {
    } else {
      ChunkBound(h, from, n - 1);
    }
  }

  lemma {:induction false} StepUp(d: nat, q: nat, p: nat)
    requires q < p
    ensures d * q + d <= d * p
    decreases p
  {
    if p == q + 1 {
    } else {
      StepUp(d, q, p - 1);
    }
  }

  lemma QuotientUnique(d: nat, q: nat, r: nat, p: nat, s: nat)
    requires d * q + r == d * p + s && r < d && s < d
    ensures q == p
  {
    if q < p {
      StepUp(d, q, p);
    } else if p < q {
      StepUp(d, p, q);
    }
  }

  lemma Quotient(x: nat, d: nat, q: nat, r: nat)
    requires x == d * q + r && r < d
    ensures x / d == q
  {
    QuotientUnique(d, q, r, x / d, x % d);
  }

  lemma DoubleBoth(c: nat, b: nat, p: nat, q: nat, r: nat)
    requires c == p * q + r
    ensures 2 * c + b == (2 * p) * q + (2 * r + b)
  {
  }

  lemma DropLastDigit(x: nat, d: nat, c: nat, b: nat, p: nat)
    requires x == 2 * c + b && b < 2 && d == 2 * p > 0
    ensures x / d % 2 == c / p % 2
  {
    DoubleBoth(c, b, p, c / p, c % p);
    Quotient(x, d, c / p, 2 * (c % p) + b);
  }

  /** The binary digits of a chunk are the bits of the key, the last of them the lowest. */
  lemma {:induction false} ChunkDigit(h: HashedKey, from: nat, n: nat, p: nat)
    requires from <= p < from + n <= 256
    ensures Chunk(h, from, n) / Pow2(from + n - 1 - p) % 2 == Bit(h, p)
  {
    var j: nat := from + n - 1 - p;
    if j == 0 {
    } else {
      ChunkDigit(h, from, n - 1, p);
      DropLastDigit(Chunk(h, from, n), Pow2(j), Chunk(h, from, n - 1), Bit(h, from + n - 1), Pow2(j - 1));
    }
  }

  /** `v` has `n` binary digits, and they are the bits of the key from `from` on, the first of them the highest. */
  ghost predicate Spells(v: nat, h: HashedKey, from: nat, n: nat)
    requires from + n <= 256
  {
    v < Pow2(n) &&
    forall j | 0 <= j < n :: v / Pow2(j) % 2 == 1 <==> h[(from + n - 1 - j) / 8][(from + n - 1 - j) % 8]
  }

  lemma ChunkSpells(h: HashedKey, from: nat, n: nat)
    requires from + n <= 256
    ensures Spells(Chunk(h, from, n), h, from, n)
  {
    ChunkBound(h, from, n);
    forall j | 0 <= j < n
      ensures Chunk(h, from, n) / Pow2(j) % 2 == 1 <==> h[(from + n - 1 - j) / 8][(from + n - 1 - j) % 8]
    {
      ChunkDigit(h, from, n, from + n - 1 - j);
    }
  }

  lemma {:induction false} ChunkInByte(h: HashedKey, from: nat, n: nat)
    requires from % 8 + n <= 8 && from + n <= 256 && from < 256
    ensures Chunk(h, from, n) == Value(h[from / 8][from % 8..from % 8 + n])
  {
    var x, o := h[from / 8], from % 8;
    if n == 0 {
    } else {
      ChunkInByte(h, from, n - 1);
      assert (from + n - 1) / 8 == from / 8 && (from + n - 1) % 8 == o + n - 1;
      assert x[o..o + n][..n - 1] == x[o..o + n - 1];
    }
  }

  /** The Equal and Less arms of `next_bits`: `i` bits of a byte of which `left` are unread. */
  function TakeBits(x: Byte, left: nat, i: nat): (out: nat)
    requires i <= left <= 8
    ensures out == Value(x[8 - left..8 - left + i])
  {
    if i == left then
      assert x[8 - i..] == x[8 - left..8 - left + i];
      Value(MaskLow(x, i))
    else
      var a := MaskLow(x, left);
      var b := MaskHigh(a, left - i);
      assert b[..8 - (left - i)] == Zeros(8 - left) + x[8 - left..8 - left + i];
      LeadingZeros(8 - left, x[8 - left..8 - left + i]);
      Value(ShiftRight(b, left - i))
  }

  /** HashBits::next: the error order, and on success exactly the next `i` key bits. */
  method Next(hb: HashBits, i: nat) returns (r: NextResult, hb': HashBits)
    ensures i > 8 ==> r == Err(InvalidHashBitLen)
    ensures i <= 8 && hb.consumed + i > 256 ==> r == Err(MaxDepth)
    ensures r.Panic? <==> i == 0 && hb.consumed == 256
    ensures r.Ok? ==> hb.consumed + i <= 256 && r.bits == Chunk(hb.b, hb.consumed, i)
    ensures r.Ok? ==> Spells(r.bits, hb.b, hb.consumed, i)
    ensures r.Ok? ==> hb' == NewAtIndex(hb.b, hb.consumed + i)
    ensures 1 <= i <= 8 && hb.consumed + i <= 256 ==> r.Ok?
  {
    hb' := hb;
    if i > 8 {
      return Err(InvalidHashBitLen), hb;
    }
    if hb.consumed + i > |hb.b| * 8 {
      return Err(MaxDepth), hb;
    }
    if hb.consumed == 256 {
      // a zero-bit read past the last byte indexes out of range
      return Panic, hb;
    }
    var out;
    out, hb' := NextBits(hb, i);
    ChunkSpells(hb.b, hb.consumed, i);
    r := Ok(out);
  }

  /** HashBits::next_bits: never indexes past the key, and returns the next `i` bits. */
  method NextBits(hb: HashBits, i: nat) returns (out: nat, hb': HashBits)
    requires i <= 8 && hb.consumed < 256 && hb.consumed + i <= 256
    ensures out == Chunk(hb.b, hb.consumed, i)
    ensures hb' == NewAtIndex(hb.b, hb.consumed + i)
    decreases i
  {
    var curbi := hb.consumed / 8;
    var leftb := 8 - hb.consumed % 8;
    var curb := hb.b[curbi];
    if i <= leftb {
      out := TakeBits(curb, leftb, i);
      hb' := hb.(consumed := hb.consumed + i);
      ChunkInByte(hb.b, hb.consumed, i);
    } else {
      ChunkInByte(hb.b, hb.consumed, leftb);
      out := Shift(TakeBits(curb, leftb, leftb), i - leftb);
      var rest;
      rest, hb' := NextBits(hb.(consumed := hb.consumed + leftb), i - leftb);
      ChunkConcat(hb.b, hb.consumed, leftb, i - leftb);
      out := out + rest;
    }
  }

  /** Two adjacent chunks are the two halves of the longer one. */
  lemma {:induction false} ChunkConcat(h: HashedKey, from: nat, m: nat, n: nat)
    requires from + m + n <= 256
    ensures Chunk(h, from, m + n) == Shift(Chunk(h, from, m), n) + Chunk(h, from + m, n)
  {
    if n == 0 {
    } else {
      ChunkConcat(h, from, m, n - 1);
    }
  }

  function Total(widths: seq<nat>): nat {
    if widths == [] then 0 else Total(widths[..|widths| - 1]) + widths[|widths| - 1]
  }

  /** Appends the next `w` bits to those read since `from`. */
  method GlueNext(h: HashedKey, ghost from: nat, ghost n: nat, glued: nat, hb: HashBits, w: nat)
    returns (glued': nat, hb': HashBits)
    requires 1 <= w <= 8 && from + n + w <= 256
    requires hb == NewAtIndex(h, from + n) && glued == Chunk(h, from, n)
    ensures hb' == NewAtIndex(h, from + n + w) && glued' == Chunk(h, from, n + w)
  {
    var r;
    r, hb' := Next(hb, w);
    ChunkConcat(h, from, n, w);
    glued' := Shift(glued, w) + r.bits;
  }

  method GlueAll(h: HashedKey, from: nat, widths: seq<nat>) returns (glued: nat, hb: HashBits)
    requires forall w | w in widths :: 1 <= w <= 8
    requires from + Total(widths) <= 256
    ensures glued == Chunk(h, from, Total(widths)) && hb == NewAtIndex(h, from + Total(widths))
  {
    hb := NewAtIndex(h, from);
    glued := 0;
    ghost var t: nat := 0;
    for k := 0 to |widths|
      invariant t == Total(widths[..k]) && from + t <= 256
      invariant glued == Chunk(h, from, t) && hb == NewAtIndex(h, from + t)
    {
      var w := widths[k];
      TotalStep(widths, k);
      assert w in widths;
      glued, hb := GlueNext(h, from, t, glued, hb, w);
      t := t + w;
    }
    assert widths[..|widths|] == widths;
  }

  /**
   A run of reads of the given widths, starting with a reader resumed at `from`. The chunks it
   returns, glued most significant first, spell the key's bits from `from` on.
   */
  method ReadRun(h: HashedKey, from: nat, widths: seq<nat>) returns (glued: nat, hb: HashBits)
    requires forall w | w in widths :: 1 <= w <= 8
    requires from + Total(widths) <= 256
    ensures glued == Chunk(h, from, Total(widths)) && Spells(glued, h, from, Total(widths))
    ensures hb == NewAtIndex(h, from + Total(widths))
  {
    glued, hb := GlueAll(h, from, widths);
    ChunkSpells(h, from, Total(widths));
  }

  lemma TotalStep(widths: seq<nat>, k: nat)
    requires k < |widths|
    ensures Total(widths[..k + 1]) == Total(widths[..k]) + widths[k] <= Total(widths)
  {
    assert widths[..k + 1][..k] == widths[..k];
    TotalPrefix(widths, k + 1);
  }

  lemma {:induction false} TotalPrefix(widths: seq<nat>, k: nat)
    requires k <= |widths|
    ensures Total(widths[..k]) <= Total(widths)
    decreases |widths| - k
  {
    if k < |widths| {
      TotalPrefix(widths, k + 1);
      assert widths[..k + 1][..k] == widths[..k];
    } else {
      assert widths[..k] == widths;
    }
  }
}
