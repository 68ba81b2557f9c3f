/**
 Blocks that stop inside their last string: the scan skips past the end without noticing and accepts them.
 Together with the complete blocks they are all that a scan accepts that only moves forward.
 */
module CborOverrun {

  import opened Common
  import opened CborHeader
  import opened CborScan
  import opened CborItems

  /** The last thing written is a string, and `pad` is the end of it. */
  ghost predicate EndsInside(it: Item, pad: seq<Byte>) {
    match it
    case Blob(_, bytes) => |pad| <= |bytes| && bytes[|bytes| - |pad|..] == pad
    case Arr(items) => items != [] && EndsInside(items[|items| - 1], pad)
    case Dict(members) => members != [] && EndsInside(members[|members| - 1], pad)
    case Tag(_, item) => EndsInside(item, pad)
    case _ => false
  }

  ghost predicate LastEnds(its: seq<Item>, pad: seq<Byte>) {
    its != [] && EndsInside(its[|its| - 1], pad)
  }

  /** `data` is the encoding of well-formed items, less the end `pad` of the string they end with. */
  ghost predicate CutShort(parse: CidParser, data: seq<Byte>, its: seq<Item>, pad: seq<Byte>) {
    pad != [] && AllWellFormed(parse, its) && LastEnds(its, pad) && data + pad == EncodeAll(its)
  }

  /** Only one string is left to be read. */
  predicate OneBlob(its: seq<Item>) {
    |its| == 1 && its[0].Blob?
  }

  lemma EndsNext(its: seq<Item>, pad: seq<Byte>)
    requires its != [] && !OneBlob(its)
    ensures LastEnds(its, pad) <==> LastEnds(Next(its), pad)
  {
    if |its| == 1 {
      assert Next(its) == Inner(its[0]);
    } else {
      assert Next(its)[|Next(its)| - 1] == its[|its| - 1];
    }
  }

  lemma {:induction false} PadFits(parse: CidParser, its: seq<Item>, pad: seq<Byte>)
    requires AllWellFormed(parse, its) && LastEnds(its, pad)
    ensures |pad| <= |EncodeAll(its)| && |pad| < I64
    decreases |EncodeAll(its)|
  {
    FlattenRefs(parse, its);
    if OneBlob(its) {
      SingleItem(parse, its[0]);
      assert its == [its[0]];
    } else {
      EndsNext(its, pad);
      FlattenBytes(parse, its, []);
      PadFits(parse, Next(its), pad);
    }
  }

  lemma LastBlobOverruns(parse: CidParser, text: bool, bytes: seq<Byte>, n: nat)
    requires n < |bytes| < I64
    ensures ScanFrom(parse, EncodeHeader(if text then 3 else 2, |bytes|) + bytes[..n], 1) == Scan([], Overrun)
  {
    StepAfter(parse, if text then 3 else 2, |bytes|, bytes[..n], 0);
  }

  lemma TakeEnd<T>(a: seq<T>, b: seq<T>, data: seq<T>, pad: seq<T>)
    requires data + pad == a + b && |pad| <= |b|
    ensures var rest := b[..|b| - |pad|]; data == a + rest && rest + pad == b
  {
    var rest := b[..|b| - |pad|];
    assert (data + pad)[..|data|] == data && (a + b)[..|data|] == a + rest;
    assert (data + pad)[|data|..] == pad && (a + b)[|data|..] == b[|b| - |pad|..];
  }

  /** Items cut short within the string they end with are accepted all the same, with all their links. */
  lemma {:induction false} CutShortOverruns(parse: CidParser, data: seq<Byte>, its: seq<Item>, pad: seq<Byte>)
    requires CutShort(parse, data, its, pad) && |EncodeAll(its)| < U64 - 1
    ensures ScanFrom(parse, data, |its|) == Scan(AllRefs(parse, its), Overrun)
    decreases |EncodeAll(its)|
  {
    var it, next := its[0], Next(its);
    FlattenRefs(parse, its);
    FlattenBytes(parse, its, []);
    if OneBlob(its) {
      assert next == [];
      var maj := if it.text then 3 else 2;
      SingleItem(parse, it);
      assert its == [it];
      TakeEnd(EncodeHeader(maj, |it.bytes|), it.bytes, data, pad);
      LastBlobOverruns(parse, it.text, it.bytes, |it.bytes| - |pad|);
    } else {
      EndsNext(its, pad);
      PadFits(parse, next, pad);
      TakeEnd(Head(it), EncodeAll(next), data, pad);
      var rest := EncodeAll(next)[..|EncodeAll(next)| - |pad|];
      CountAtMostBytes(parse, next);
      HeadSteps(parse, it, rest, |its| - 1);
      ScanUnfolds(parse, data, |its|, Own(parse, it), rest, |next|);
      CutShortOverruns(parse, rest, next, pad);
    }
  }

  /** Whatever overruns is such items cut short. */
  lemma {:induction false} OverrunIsCutShort(parse: CidParser, data: seq<Byte>, remaining: nat)
    returns (its: seq<Item>, pad: seq<Byte>)
    requires ScanFrom(parse, data, remaining).end.Overrun? && remaining < U64
    ensures |its| == remaining && CutShort(parse, data, its, pad)
    ensures AllRefs(parse, its) == ScanFrom(parse, data, remaining).links
    decreases |data|
  {
    var pending := remaining - 1;
    var step := StepOver(parse, data, pending);
    if step.Stop? {
      its, pad := BlobCutShort(parse, data, pending);
    } else {
      StepBounded(parse, data, pending);
      ScanUnfolds(parse, data, remaining, step.links, step.rest, step.remaining);
      var more;
      more, pad := OverrunIsCutShort(parse, step.rest, step.remaining);
      var it := HeadBehind(parse, data, pending, more);
      its := NestCutShort(parse, it, step.rest, more, pad);
    }
  }

  lemma NestCutShort(parse: CidParser, it: Item, rest: seq<Byte>, more: seq<Item>, pad: seq<Byte>)
    returns (its: seq<Item>)
    requires WellFormed(parse, it) && CutShort(parse, rest, more, pad)
    requires |Inner(it)| <= |more| && Inner(it) == more[..|Inner(it)|]
    ensures |its| == 1 + |more| - |Inner(it)| && CutShort(parse, Head(it) + rest, its, pad)
    ensures AllRefs(parse, its) == Own(parse, it) + AllRefs(parse, more)
  {
    its := Nest(parse, it, more, []);
    EndsNext(its, pad);
    ConcatAssoc(Head(it), rest, pad);
    assert EncodeAll(its) + [] == EncodeAll(its) && EncodeAll(more) + [] == EncodeAll(more);
  }

  lemma BlobCutShort(parse: CidParser, data: seq<Byte>, pending: nat) returns (its: seq<Item>, pad: seq<Byte>)
    requires StepOver(parse, data, pending) == Stop(Overrun)
    ensures pending == 0 && |its| == 1 && CutShort(parse, data, its, pad) && AllRefs(parse, its) == []
  {
    HeaderIsCanonical(data);
    var h := DecodeHeader(data);
    pad := seq(h.extra - |h.rest|, _ => 0);
    var it := Blob(h.maj == 3, h.rest + pad);
    its := [it];
    SingleItem(parse, it);
    ConcatAssoc(EncodeHeader(h.maj, h.extra), h.rest, pad);
  }

  /** The exact condition of an overrun. */
  lemma OverrunIff(parse: CidParser, data: seq<Byte>, remaining: nat)
    requires |data| < I64 && remaining < U64
    ensures ScanFrom(parse, data, remaining).end.Overrun? <==>
            exists its, pad :: |its| == remaining && CutShort(parse, data, its, pad)
    ensures forall its, pad | |its| == remaining && CutShort(parse, data, its, pad) ::
              ScanFrom(parse, data, remaining).links == AllRefs(parse, its)
  {
    forall its, pad | |its| == remaining && CutShort(parse, data, its, pad)
      ensures ScanFrom(parse, data, remaining) == Scan(AllRefs(parse, its), Overrun)
    {
      PadFits(parse, its, pad);
      CutShortOverruns(parse, data, its, pad);
    }
    if ScanFrom(parse, data, remaining).end.Overrun? {
      var its, pad := OverrunIsCutShort(parse, data, remaining);
    }
  }

  ghost predicate Begins(parse: CidParser, data: seq<Byte>, its: seq<Item>, rest: seq<Byte>) {
    AllWellFormed(parse, its) && data == EncodeAll(its) + rest
  }

  /** The exact condition of a complete scan. */
  lemma DoneIff(parse: CidParser, data: seq<Byte>, remaining: nat)
    requires |data| < I64 && remaining < U64
    ensures ScanFrom(parse, data, remaining).end.Done? <==>
            exists its, rest :: |its| == remaining && Begins(parse, data, its, rest)
    ensures forall its, rest | |its| == remaining && Begins(parse, data, its, rest) ::
              ScanFrom(parse, data, remaining) == Scan(AllRefs(parse, its), Done(rest))
  {
    forall its, rest | |its| == remaining && Begins(parse, data, its, rest)
      ensures ScanFrom(parse, data, remaining) == Scan(AllRefs(parse, its), Done(rest))
    {
      ScanReadsItems(parse, its, rest);
    }
    if ScanFrom(parse, data, remaining).end.Done? {
      var its := ScanAcceptsOnlyItems(parse, data, remaining);
      assert Begins(parse, data, its, ScanFrom(parse, data, remaining).end.rest);
    }
  }

  /** The header of a string of one byte, and nothing after it, is accepted. */
  lemma BareHeaderOverruns(parse: CidParser)
    ensures ScanFrom(parse, [0x41], 1) == Scan([], Overrun)
  {
    assert EncodeHeader(2, 1) == [0x41];
    LastBlobOverruns(parse, false, [0], 0);
    assert [0x41] + [0][..0] == [0x41];
  }
}
