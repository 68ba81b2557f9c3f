/** CBOR item headers: the reader accepts exactly the shortest encodings. */
module CborHeader {

  type Byte = b: int | 0 <= b < 256

  const U64: int := 0x1_0000_0000_0000_0000

  datatype HeaderError = Eof | NotCanonical | InvalidHeader

  datatype HeaderResult = Header(maj: nat, extra: nat, rest: seq<Byte>) | HeaderErr(error: HeaderError)

  // ---- big-endian numbers ----

  function Pow256(k: nat): (p: nat)
    ensures p >= 1
  {
    if k == 0 then 1 else 256 * Pow256(k - 1)
  }

  function BigEndian(n: nat, k: nat): (bs: seq<Byte>)
    ensures |bs| == k
  {
    if k == 0 then [] else BigEndian(n / 256, k - 1) + [n % 256]
  }

  function FromBigEndian(bs: seq<Byte>): (n: nat)
    ensures n < Pow256(|bs|)
  {
    if bs == [] then 0 else 256 * FromBigEndian(bs[..|bs| - 1]) + bs[|bs| - 1]
  }

  lemma {:induction false} BigEndianDecodes(n: nat, k: nat)
    requires n < Pow256(k)
    ensures FromBigEndian(BigEndian(n, k)) == n
  {
    if k == 0 {
    } else {
      BigEndianDecodes(n / 256, k - 1);
      var bs := BigEndian(n, k);
      assert bs[..|bs| - 1] == BigEndian(n / 256, k - 1);
    }
  }

  lemma {:induction false} BigEndianEncodes(bs: seq<Byte>)
    ensures BigEndian(FromBigEndian(bs), |bs|) == bs
  {
    if bs == [] {
    } else {
      var init, last := bs[..|bs| - 1], bs[|bs| - 1];
      BigEndianEncodes(init);
      assert FromBigEndian(bs) / 256 == FromBigEndian(init) && FromBigEndian(bs) % 256 == last;
      assert bs == init + [last];
    }
  }

  lemma Pow256Values()
    ensures Pow256(2) == 0x1_0000 && Pow256(4) == 0x1_0000_0000 && Pow256(8) == U64
  {
    assert Pow256(1) == 256;
    assert Pow256(3) == 256 * Pow256(2);
    assert Pow256(5) == 256 * Pow256(4);
    assert Pow256(6) == 256 * Pow256(5);
    assert Pow256(7) == 256 * Pow256(6);
  }

  lemma TwoBytes(bs: seq<Byte>)
    requires |bs| == 2
    ensures FromBigEndian(bs) == 0x100 * bs[0] as int + bs[1]
  {
    OneByte(bs[..1]);
  }

  lemma FourBytes(bs: seq<Byte>)
    requires |bs| == 4
    ensures FromBigEndian(bs) == 0x100_0000 * bs[0] as int + 0x1_0000 * bs[1] as int + 0x100 * bs[2] as int + bs[3]
  {
    assert bs[..3][..2] == bs[..2];
    TwoBytes(bs[..2]);
  }

  lemma EightBytes(bs: seq<Byte>)
    requires |bs| == 8
    ensures FromBigEndian(bs) == 0x1_0000_0000 * FromBigEndian(bs[..4]) + FromBigEndian(bs[4..])
  {
    FourBytes(bs[4..]);
    assert bs[..7][..6] == bs[..6] && bs[..6][..5] == bs[..5] && bs[..5][..4] == bs[..4];
    assert FromBigEndian(bs[..5]) == 0x100 * FromBigEndian(bs[..4]) + bs[4];
    assert FromBigEndian(bs[..6]) == 0x100 * FromBigEndian(bs[..5]) + bs[5];
    assert FromBigEndian(bs[..7]) == 0x100 * FromBigEndian(bs[..6]) + bs[6];
  }

  // ---- headers ----

  /** The shortest header for a major type and an argument. */
  function EncodeHeader(maj: nat, n: nat): (bs: seq<Byte>)
    requires maj < 8
    ensures |bs| >= 1
  {
    if n < 24 then [maj * 32 + n]
    else if n < 0x100 then [maj * 32 + 24, n]
    else if n < 0x1_0000 then [maj * 32 + 25] + BigEndian(n, 2)
    else if n < 0x1_0000_0000 then [maj * 32 + 26] + BigEndian(n, 4)
    else [maj * 32 + 27] + BigEndian(n, 8)
  }

  /** The number of argument bytes that follow the first byte of a header. */
  function Width(low: nat): nat {
    if low == 24 then 1 else if low == 25 then 2 else if low == 26 then 4 else if low == 27 then 8 else 0
  }

  /** The smallest argument that needs the width. */
  function Least(low: nat): nat {
    if low == 24 then 24 else if low == 25 then 0x100 else if low == 26 then 0x1_0000 else 0x1_0000_0000
  }

  function DecodeHeader(data: seq<Byte>): (h: HeaderResult)
    ensures h.Header? ==> |h.rest| < |data|
  {
    if data == [] then HeaderErr(Eof)
    else
      var maj, low := data[0] / 32, data[0] % 32;
      if low < 24 then Header(maj, low, data[1..])
      else if low > 27 then HeaderErr(InvalidHeader)
      else if |data| < 1 + Width(low) then HeaderErr(Eof)
      else
        var val := FromBigEndian(data[1..1 + Width(low)]);
        if val < Least(low) then HeaderErr(NotCanonical) else Header(maj, val, data[1 + Width(low)..])
  }

  lemma WideDecodes(maj: nat, n: nat, low: nat, rest: seq<Byte>)
    requires maj < 8 && 24 <= low <= 27 && Least(low) <= n < Pow256(Width(low))
    ensures DecodeHeader([maj * 32 + low] + BigEndian(n, Width(low)) + rest) == Header(maj, n, rest)
  {
    var data := [maj * 32 + low] + BigEndian(n, Width(low)) + rest;
    assert data[0] / 32 == maj && data[0] % 32 == low;
    assert data[1..1 + Width(low)] == BigEndian(n, Width(low)) && data[1 + Width(low)..] == rest;
    BigEndianDecodes(n, Width(low));
  }

  lemma HeaderDecodes(maj: nat, n: nat, rest: seq<Byte>)
    requires maj < 8 && n < U64
    ensures DecodeHeader(EncodeHeader(maj, n) + rest) == Header(maj, n, rest)
  {
    Pow256Values();
    if n < 24 {
      var data := [maj * 32 + n] + rest;
      assert data[0] / 32 == maj && data[0] % 32 == n && data[1..] == rest;
    } else if n < 0x100 {
      assert BigEndian(n, 1) == [n];
      assert [maj * 32 + 24, n] == [maj * 32 + 24] + BigEndian(n, 1);
      WideDecodes(maj, n, 24, rest);
    } else if n < 0x1_0000 {
      WideDecodes(maj, n, 25, rest);
    } else if n < 0x1_0000_0000 {
      WideDecodes(maj, n, 26, rest);
    } else {
      WideDecodes(maj, n, 27, rest);
    }
  }

  lemma WideEncodes(maj: nat, low: nat, arg: seq<Byte>)
    requires maj < 8 && 24 <= low <= 27 && |arg| == Width(low) && Least(low) <= FromBigEndian(arg)
    ensures FromBigEndian(arg) < U64
    ensures EncodeHeader(maj, FromBigEndian(arg)) == [maj * 32 + low] + arg
  {
    Pow256Values();
    BigEndianEncodes(arg);
    if low == 24 {
      OneByte(arg);
    }
  }

  lemma OneByte(arg: seq<Byte>)
    requires |arg| == 1
    ensures arg == [FromBigEndian(arg)]
  {
    assert arg[..0] == [];
  }

  lemma ThreeParts(data: seq<Byte>, w: nat)
    requires 1 + w <= |data|
    ensures data == [data[0]] + data[1..1 + w] + data[1 + w..]
  {
  }

  /** What the reader accepts is a shortest header, and nothing else. */
  lemma HeaderIsCanonical(data: seq<Byte>)
    requires DecodeHeader(data).Header?
    ensures var h := DecodeHeader(data);
            h.maj < 8 && h.extra < U64 && data == EncodeHeader(h.maj, h.extra) + h.rest
  {
    var h, low := DecodeHeader(data), data[0] % 32;
    assert data[0] == h.maj * 32 + low && h.maj < 8;
    if low < 24 {
      assert data == [data[0]] + data[1..];
    } else {
      var w := Width(low);
      var arg := data[1..1 + w];
      WideEncodes(h.maj, low, arg);
      ThreeParts(data, w);
    }
  }

  /** A header byte by byte: major type and width in the first, the argument behind it, of the least width that holds it. */
  lemma HeaderBytes(data: seq<Byte>)
    ensures data == [] ==> DecodeHeader(data) == HeaderErr(Eof)
    ensures data != [] ==>
              var h, maj, low := DecodeHeader(data), data[0] / 32, data[0] % 32;
              && (low < 24 ==> h == Header(maj, low, data[1..]))
              && (low > 27 ==> h == HeaderErr(InvalidHeader))
              && (low == 24 && |data| >= 2 ==>
                    h == if data[1] < 24 then HeaderErr(NotCanonical) else Header(maj, data[1], data[2..]))
              && (low == 25 && |data| >= 3 ==>
                    var n := 0x100 * data[1] as int + data[2];
                    h == if n <= 0xFF then HeaderErr(NotCanonical) else Header(maj, n, data[3..]))
              && (low == 26 && |data| >= 5 ==>
                    var n := 0x100_0000 * data[1] as int + 0x1_0000 * data[2] as int + 0x100 * data[3] as int + data[4];
                    h == if n <= 0xFFFF then HeaderErr(NotCanonical) else Header(maj, n, data[5..]))
              && (low == 27 && |data| >= 9 ==>
                    var n := 0x1_0000_0000 * FromBigEndian(data[1..5]) + FromBigEndian(data[5..9]);
                    h == if n <= 0xFFFF_FFFF then HeaderErr(NotCanonical) else Header(maj, n, data[9..]))
              && (low == 24 && |data| < 2 ==> h == HeaderErr(Eof)) && (low == 25 && |data| < 3 ==> h == HeaderErr(Eof))
              && (low == 26 && |data| < 5 ==> h == HeaderErr(Eof)) && (low == 27 && |data| < 9 ==> h == HeaderErr(Eof))
  {
    if data != [] {
      var low := data[0] % 32;
      if low == 24 && |data| >= 2 {
        OneByte(data[1..2]);
      } else if low == 25 && |data| >= 3 {
        TwoBytes(data[1..3]);
      } else if low == 26 && |data| >= 5 {
        FourBytes(data[1..5]);
      } else if low == 27 && |data| >= 9 {
        EightBytes(data[1..9]);
        assert data[1..9][..4] == data[1..5] && data[1..9][4..] == data[5..9];
      }
    }
  }

  function BytesFrom(data: seq<Byte>, pos: nat): seq<Byte> {
    if pos <= |data| then data[pos..] else []
  }

  /** A read position in a block of bytes; it may lie past the end. */
  class Cursor {
    const data: seq<Byte>
    var pos: nat

    constructor (data: seq<Byte>)
      ensures this.data == data && pos == 0
    {
      this.data, pos := data, 0;
    }

    function Rest(): seq<Byte>
      reads this
    {
      BytesFrom(data, pos)
    }

    method ReadBytes(n: nat) returns (ok: bool, bs: seq<Byte>)
      modifies this`pos
      ensures ok == (n <= |old(Rest())|)
      ensures ok ==> bs == old(Rest())[..n] && Rest() == old(Rest())[n..] && pos == old(pos) + n
      ensures ok && n > 0 ==> pos <= |data|
      ensures !ok ==> pos == old(pos)
    {
      ok, bs := n == 0 || pos + n <= |data|, [];
      if ok && n > 0 {
        bs := data[pos..pos + n];
        pos := pos + n;
      }
    }

    /** cbor_read_header_buf. */
    method ReadHeader() returns (h: HeaderResult)
      modifies this`pos
      ensures h == DecodeHeader(old(Rest()))
      ensures h.Header? ==> Rest() == h.rest && old(pos) < pos <= |data| && |h.rest| < |old(Rest())|
    {
      ghost var all := Rest();
      var ok, first := ReadBytes(1);
      if !ok {
        return HeaderErr(Eof);
      }
      var maj, low := first[0] / 32, first[0] % 32;
      if low < 24 {
        return Header(maj, low, Rest());
      }
      if low > 27 {
        return HeaderErr(InvalidHeader);
      }
      h := ReadArgument(maj, low);
      DecodeWide(all);
    }

    method ReadArgument(maj: nat, low: nat) returns (h: HeaderResult)
      requires 24 <= low <= 27
      modifies this`pos
      ensures h == DecodeArgument(maj, low, old(Rest()))
      ensures h.Header? ==> Rest() == h.rest && old(pos) <= pos <= |data|
    {
      var ok, arg := ReadBytes(Width(low));
      if !ok {
        return HeaderErr(Eof);
      }
      var val := FromBigEndian(arg);
      if val < Least(low) {
        return HeaderErr(NotCanonical);
      }
      return Header(maj, val, Rest());
    }
  }

  ghost function DecodeArgument(maj: nat, low: nat, rest: seq<Byte>): (h: HeaderResult)
    ensures h.Header? ==> |h.rest| <= |rest|
  {
    if |rest| < Width(low) then HeaderErr(Eof)
    else if FromBigEndian(rest[..Width(low)]) < Least(low) then HeaderErr(NotCanonical)
    else Header(maj, FromBigEndian(rest[..Width(low)]), rest[Width(low)..])
  }

  lemma DecodeWide(data: seq<Byte>)
    requires data != [] && 24 <= data[0] % 32 <= 27
    ensures DecodeHeader(data) == DecodeArgument(data[0] / 32, data[0] % 32, data[1..])
  {
    var w := Width(data[0] % 32);
    if |data| >= 1 + w {
      assert data[1..][..w] == data[1..1 + w] && data[1..][w..] == data[1 + w..];
    }
  }
}
