/** The serialised form of a bitfield: big-endian bytes without leading zeros. */
module BitfieldCodec {

  import opened Bitfields

  /** A byte by its eight bits, least significant first, as the words of a bitfield are. */
  type Octet = b: seq<bool> | |b| == 8 witness Fill(8, false)

  function Zero(): Octet { Fill(8, false) }

  function Zeros(n: nat): (v: seq<Octet>)
    ensures |v| == n && forall i | 0 <= i < n :: v[i] == Zero()
  {
    if n == 0 then [] else [Zero()] + Zeros(n - 1)
  }

  datatype Decoded = Ok(field: Bitfield) | Panic

  /** BigEndian::write_u64. */
  function WriteU64(w: Word): (bs: seq<Octet>)
    ensures |bs| == 8
  {
    seq(8, k requires 0 <= k < 8 => w[8 * (7 - k)..8 * (7 - k) + 8])
  }

  /** BigEndian::read_u64. */
  function ReadU64(bs: seq<Octet>): Word
    requires |bs| == 8
  {
    seq(64, i requires 0 <= i < 64 => bs[7 - i / 8][i % 8])
  }

  lemma WordRoundTrip(w: Word)
    ensures ReadU64(WriteU64(w)) == w
  {
  }

  lemma OctetsRoundTrip(bs: seq<Octet>)
    requires |bs| == 8
    ensures WriteU64(ReadU64(bs)) == bs
  {
    forall k | 0 <= k < 8
      ensures WriteU64(ReadU64(bs))[k] == bs[k]
    {
      var byte := WriteU64(ReadU64(bs))[k];
      assert forall b | 0 <= b < 8 :: byte[b] == ReadU64(bs)[8 * (7 - k) + b] == bs[k][b];
    }
  }

  function ToOctets(f: Bitfield): (v: seq<Octet>)
    ensures |v| == 32
  {
    WriteU64(f.WordAt(3)) + WriteU64(f.WordAt(2)) + WriteU64(f.WordAt(1)) + WriteU64(f.WordAt(0))
  }

  /** The octets of word `i` are those from `24 - 8 * i` on. */
  lemma OctetsOfWord(f: Bitfield, i: nat, j: nat)
    requires i < 4 && j < 8
    ensures ToOctets(f)[8 * (3 - i) + j] == WriteU64(f.WordAt(i))[j]
  {
  }

  lemma WordBits(f: Bitfield, i: nat, j: nat, b: nat)
    requires i < 4 && j < 8 && b < 8
    ensures WriteU64(f.WordAt(i))[7 - j][b] == f.on[64 * i + 8 * j + b]
  {
  }

  /** Bit `b` of the octet `k` from the last is bit `8 * k + b` of the field. */
  lemma OctetBits(f: Bitfield, k: nat, b: nat)
    requires k < 32 && b < 8
    ensures ToOctets(f)[31 - k][b] == f.on[8 * k + b]
  {
    var i, j := k / 8, k % 8;
    OctetsOfWord(f, i, 7 - j);
    WordBits(f, i, j, b);
    assert k == 8 * i + j;
  }

  function FromOctets(v: seq<Octet>): Bitfield
    requires |v| == 32
  {
    Bitfield(ReadU64(v[24..]) + ReadU64(v[16..24]) + ReadU64(v[8..16]) + ReadU64(v[..8]))
  }

  lemma FieldRoundTrip(f: Bitfield)
    ensures FromOctets(ToOctets(f)) == f
  {
    var v := ToOctets(f);
    assert v[..8] == WriteU64(f.WordAt(3)) && v[8..16] == WriteU64(f.WordAt(2));
    assert v[16..24] == WriteU64(f.WordAt(1)) && v[24..] == WriteU64(f.WordAt(0));
    forall i | 0 <= i < 4 {
      WordRoundTrip(f.WordAt(i));
    }
    assert FromOctets(v).on == f.WordAt(0) + f.WordAt(1) + f.WordAt(2) + f.WordAt(3);
  }

  lemma OctetsRoundTripAll(v: seq<Octet>)
    requires |v| == 32
    ensures ToOctets(FromOctets(v)) == v
  {
    var f := FromOctets(v);
    assert f.WordAt(0) == ReadU64(v[24..]) && f.WordAt(1) == ReadU64(v[16..24]);
    assert f.WordAt(2) == ReadU64(v[8..16]) && f.WordAt(3) == ReadU64(v[..8]);
    OctetsRoundTrip(v[..8]);
    OctetsRoundTrip(v[8..16]);
    OctetsRoundTrip(v[16..24]);
    OctetsRoundTrip(v[24..]);
  }

  /** Without the zeros in front. */
  function Trim(v: seq<Octet>): (t: seq<Octet>)
    ensures |t| <= |v|
  {
    if v == [] || v[0] != Zero() then v else Trim(v[1..])
  }

  lemma {:induction false} TrimIsSuffix(v: seq<Octet>)
    ensures Trim(v) == v[|v| - |Trim(v)|..]
    ensures Trim(v) != [] ==> Trim(v)[0] != Zero()
    ensures forall i | 0 <= i < |v| - |Trim(v)| :: v[i] == Zero()
  {
    if v == [] || v[0] != Zero() {
    } else {
      TrimIsSuffix(v[1..]);
      var n := |v| - |Trim(v)|;
      assert v[n..] == v[1..][n - 1..];
      assert forall i | 1 <= i < n :: v[i] == v[1..][i - 1];
    }
  }

  lemma TrimZero(v: seq<Octet>, i: nat)
    requires i < |v| && v[i] == Zero()
    ensures Trim(v[i..]) == Trim(v[i + 1..])
  {
    assert v[i..][0] == v[i] && v[i..][1..] == v[i + 1..];
  }

  function Pad(bs: seq<Octet>): (v: seq<Octet>)
    requires |bs| <= 32
    ensures |v| == 32
  {
    Zeros(32 - |bs|) + bs
  }

  method Serialize(f: Bitfield) returns (bs: seq<Octet>)
    ensures bs == Trim(ToOctets(f))
  {
    var v := ToOctets(f);
    for i := 0 to |v|
      invariant Trim(v) == Trim(v[i..])
    {
      if v[i] != Zero() {
        assert v[i..][0] == v[i];
        return v[i..];
      }
      TrimZero(v, i);
    }
    bs := [];
  }

  /** The array of `Deserialize` after `i` of the bytes. */
  function Filled(bs: seq<Octet>, i: nat): (v: seq<Octet>)
    requires i <= |bs| <= 32
    ensures |v| == 32
  {
    Zeros(32 - |bs|) + bs[..i] + Zeros(|bs| - i)
  }

  lemma FillStep(bs: seq<Octet>, i: nat)
    requires i < |bs| <= 32
    ensures Filled(bs, i)[32 - |bs| + i := bs[i]] == Filled(bs, i + 1)
  {
  }

  lemma FillEnds(bs: seq<Octet>)
    requires |bs| <= 32
    ensures Filled(bs, 0) == Zeros(32) && Filled(bs, |bs|) == Pad(bs)
  {
    assert bs[..|bs|] == bs;
  }

  method Deserialize(bs: seq<Octet>) returns (r: Decoded)
    ensures r == if |bs| <= 32 then Ok(FromOctets(Pad(bs))) else Panic
  {
    var len := |bs|;
    if 32 < len {
      return Panic;
    }
    var arr := Zeros(32);
    FillEnds(bs);
    for i := 0 to len
      invariant arr == Filled(bs, i)
    {
      FillStep(bs, i);
      arr := arr[32 - len + i := bs[i]];
    }
    r := Ok(FromOctets(arr));
  }

  lemma PadOfTrim(v: seq<Octet>)
    requires |v| == 32
    ensures Pad(Trim(v)) == v
  {
    var t := Trim(v);
    var n := 32 - |t|;
    TrimIsSuffix(v);
    assert v == v[..n] + t;
    AllZeros(v[..n]);
  }

  lemma AllZeros(z: seq<Octet>)
    requires forall i | 0 <= i < |z| :: z[i] == Zero()
    ensures z == Zeros(|z|)
  {
  }

  /** What was written reads back. */
  lemma SerializedReadsBack(f: Bitfield)
    ensures |Trim(ToOctets(f))| <= 32 && FromOctets(Pad(Trim(ToOctets(f)))) == f
  {
    PadOfTrim(ToOctets(f));
    FieldRoundTrip(f);
  }

  lemma {:induction false} TrimPad(n: nat, bs: seq<Octet>)
    ensures Trim(Zeros(n) + bs) == Trim(bs)
  {
    if n == 0 {
      assert Zeros(n) + bs == bs;
    } else {
      var v := Zeros(n) + bs;
      assert v[0..] == v && v[1..] == Zeros(n - 1) + bs;
      TrimZero(v, 0);
      TrimPad(n - 1, bs);
    }
  }

  lemma TrimOfPad(bs: seq<Octet>)
    requires |bs| <= 32
    ensures Trim(ToOctets(FromOctets(Pad(bs)))) == Trim(bs)
  {
    OctetsRoundTripAll(Pad(bs));
    TrimPad(32 - |bs|, bs);
  }

  lemma TrimFixes(bs: seq<Octet>)
    ensures Trim(bs) == bs <==> bs == [] || bs[0] != Zero()
  {
    if bs != [] && bs[0] == Zero() {
      assert |Trim(bs)| <= |bs[1..]|;
    }
  }

  /** What reads back is written again without its leading zeros: unchanged exactly if it had none. */
  lemma ReadIsWrittenTrimmed(bs: seq<Octet>)
    requires |bs| <= 32
    ensures Trim(ToOctets(FromOctets(Pad(bs)))) == Trim(bs)
    ensures Trim(ToOctets(FromOctets(Pad(bs)))) == bs <==> bs == [] || bs[0] != Zero()
  {
    TrimOfPad(bs);
    TrimFixes(bs);
  }
}
