/** Where forward reading stops before its end: by the bytes, the exact condition of every such stop. */
module CborStops {

  import opened Common
  import opened CborHeader
  import opened IpldModel
  import opened CborScan
  import opened CborItems

  /** The heads of items one after another, as they are written when nothing is left out. */
  function Heads(hs: seq<Item>): seq<Byte> {
    if hs == [] then [] else Head(hs[0]) + Heads(hs[1..])
  }

  /** The count after the heads, if they were read with `remaining` items to go. */
  function Left(hs: seq<Item>, remaining: nat): int {
    if hs == [] then remaining
    else if remaining == 0 then 0
    else Left(hs[1..], remaining - 1 + |Inner(hs[0])|)
  }

  /** The heads are those of well-formed items, items are pending before each, and the count stays in its word. */
  ghost predicate Readable(parse: CidParser, hs: seq<Item>, remaining: nat) {
    hs != [] ==>
      && WellFormed(parse, hs[0]) && 0 < remaining && remaining + |Inner(hs[0])| < U64
      && Readable(parse, hs[1..], remaining - 1 + |Inner(hs[0])|)
  }

  /** `data` is such heads and then `tail`, with `pending` items to go besides the one that `tail` starts with. */
  ghost predicate Meets(parse: CidParser, data: seq<Byte>, remaining: nat, hs: seq<Item>, tail: seq<Byte>, pending: nat) {
    Readable(parse, hs, remaining) && Left(hs, remaining) == pending + 1 && data == Heads(hs) + tail
  }

  function OwnLinks(parse: CidParser, hs: seq<Item>): seq<Cid> {
    if hs == [] then [] else Own(parse, hs[0]) + OwnLinks(parse, hs[1..])
  }

  lemma MeetsUnfold(parse: CidParser, data: seq<Byte>, remaining: nat, hs: seq<Item>, tail: seq<Byte>, pending: nat)
    returns (rest: seq<Byte>, left: nat)
    requires Meets(parse, data, remaining, hs, tail, pending) && hs != []
    ensures data == Head(hs[0]) + rest && WellFormed(parse, hs[0])
    ensures 0 < remaining && remaining + |Inner(hs[0])| < U64 && left == remaining - 1 + |Inner(hs[0])|
    ensures Meets(parse, rest, left, hs[1..], tail, pending)
  {
    rest, left := Heads(hs[1..]) + tail, remaining - 1 + |Inner(hs[0])|;
    ConcatAssoc(Head(hs[0]), Heads(hs[1..]), tail);
  }

  lemma MeetsFold(parse: CidParser, it: Item, rest: seq<Byte>, remaining: nat, hs: seq<Item>, tail: seq<Byte>, pending: nat)
    requires WellFormed(parse, it) && 0 < remaining && remaining + |Inner(it)| < U64
    requires Meets(parse, rest, remaining - 1 + |Inner(it)|, hs, tail, pending)
    ensures Meets(parse, Head(it) + rest, remaining, [it] + hs, tail, pending)
  {
    var all := [it] + hs;
    assert all[0] == it && all[1..] == hs;
    assert Heads(all) == Head(it) + Heads(hs);
    ConcatAssoc(Head(it), Heads(hs), tail);
  }

  lemma MeetsStep(parse: CidParser, data: seq<Byte>, remaining: nat, hs: seq<Item>, tail: seq<Byte>, pending: nat)
    returns (rest: seq<Byte>, left: nat)
    requires Meets(parse, data, remaining, hs, tail, pending) && hs != []
    ensures 0 < remaining && StepOver(parse, data, remaining - 1) == Go(Own(parse, hs[0]), rest, left)
    ensures Meets(parse, rest, left, hs[1..], tail, pending)
  {
    rest, left := MeetsUnfold(parse, data, remaining, hs, tail, pending);
    HeadSteps(parse, hs[0], rest, remaining - 1);
  }

  lemma StopEnds(parse: CidParser, data: seq<Byte>, remaining: nat, end: End)
    requires remaining > 0 && StepOver(parse, data, remaining - 1) == Stop(end)
    ensures ScanFrom(parse, data, remaining) == Scan([], end)
  {
  }

  /** What is met behind readable heads decides the scan. */
  lemma {:induction false} MeetsStops(parse: CidParser, data: seq<Byte>, remaining: nat, hs: seq<Item>,
                                      tail: seq<Byte>, pending: nat, end: End)
    requires Meets(parse, data, remaining, hs, tail, pending) && StepOver(parse, tail, pending) == Stop(end)
    ensures ScanFrom(parse, data, remaining) == Scan(OwnLinks(parse, hs), end)
    decreases |hs|
  {
    if hs == [] {
      assert data == tail;
      StopEnds(parse, data, remaining, end);
    } else {
      var rest, left := MeetsStep(parse, data, remaining, hs, tail, pending);
      ScanUnfolds(parse, data, remaining, Own(parse, hs[0]), rest, left);
      MeetsStops(parse, rest, left, hs[1..], tail, pending, end);
    }
  }

  /** Stand-ins for members that are not read. */
  function Blanks(n: nat): (its: seq<Item>)
    ensures |its| == n
  {
    seq(n, _ => Prim(0, 0))
  }

  lemma {:induction false} BlanksWellFormed(parse: CidParser, n: nat)
    ensures AllWellFormed(parse, Blanks(n))
  {
    if n == 0 {
    } else {
      BlanksWellFormed(parse, n - 1);
      assert Blanks(n)[1..] == Blanks(n - 1);
    }
  }

  /** A scan that stops has read heads of well-formed items up to what stops it. */
  lemma {:induction false} StopsAt(parse: CidParser, data: seq<Byte>, remaining: nat)
    returns (hs: seq<Item>, tail: seq<Byte>, pending: nat)
    requires remaining < U64 && !ScanFrom(parse, data, remaining).end.Done?
    ensures Meets(parse, data, remaining, hs, tail, pending) && pending < U64
    ensures StepOver(parse, tail, pending) == Stop(ScanFrom(parse, data, remaining).end)
    decreases |data|
  {
    var step := StepOver(parse, data, remaining - 1);
    if step.Stop? {
      StopEnds(parse, data, remaining, step.end);
      hs, tail, pending := [], data, remaining - 1;
      NothingRead(parse, data, remaining);
    } else {
      var it := HeadRead(parse, data, remaining);
      ScanUnfolds(parse, data, remaining, step.links, step.rest, step.remaining);
      var more;
      more, tail, pending := StopsAt(parse, step.rest, step.remaining);
      hs := [it] + more;
      MeetsFold(parse, it, step.rest, remaining, more, tail, pending);
    }
  }

  lemma NothingRead(parse: CidParser, data: seq<Byte>, remaining: nat)
    requires remaining > 0
    ensures Meets(parse, data, remaining, [], data, remaining - 1)
  {
    assert Heads([]) + data == data;
  }

  lemma HeadRead(parse: CidParser, data: seq<Byte>, remaining: nat) returns (it: Item)
    requires 0 < remaining < U64 && StepOver(parse, data, remaining - 1).Go?
    ensures WellFormed(parse, it) && data == Head(it) + StepOver(parse, data, remaining - 1).rest
    ensures remaining - 1 + |Inner(it)| == StepOver(parse, data, remaining - 1).remaining < U64 - 1
  {
    var left := StepOver(parse, data, remaining - 1).remaining;
    BlanksWellFormed(parse, left);
    it := HeadBehind(parse, data, remaining - 1, Blanks(left));
  }

  // ---- the panic ----

  /** Tag 42 and an empty byte string. */
  function EmptyLink(): seq<Byte> {
    [0xd8, 0x2a, 0x40]
  }

  lemma EmptyLinkPanics(parse: CidParser, rest: seq<Byte>, pending: nat)
    ensures StepOver(parse, EmptyLink() + rest, pending) == Stop(Panicked)
  {
    assert EmptyLink() + rest == EncodeHeader(6, 42) + (EncodeHeader(2, 0) + rest);
    HeaderDecodes(6, 42, EncodeHeader(2, 0) + rest);
    HeaderDecodes(2, 0, rest);
  }

  lemma PanicBehind(parse: CidParser, tail: seq<Byte>, pending: nat) returns (rest: seq<Byte>)
    requires StepOver(parse, tail, pending) == Stop(Panicked)
    ensures tail == EmptyLink() + rest
  {
    HeaderIsCanonical(tail);
    var h := DecodeHeader(tail);
    HeaderIsCanonical(h.rest);
    rest := DecodeHeader(h.rest).rest;
    assert EncodeHeader(6, 42) + (EncodeHeader(2, 0) + rest) == EmptyLink() + rest;
  }

  /** A scan panics exactly at an empty link behind readable heads, with the links of those heads reported. */
  lemma PanicIff(parse: CidParser, data: seq<Byte>, remaining: nat)
    requires remaining < U64
    ensures ScanFrom(parse, data, remaining).end.Panicked? <==>
            exists hs, rest, pending :: Meets(parse, data, remaining, hs, EmptyLink() + rest, pending)
    ensures forall hs, rest, pending | Meets(parse, data, remaining, hs, EmptyLink() + rest, pending) ::
              ScanFrom(parse, data, remaining).links == OwnLinks(parse, hs)
  {
    forall hs, rest, pending | Meets(parse, data, remaining, hs, EmptyLink() + rest, pending)
      ensures ScanFrom(parse, data, remaining) == Scan(OwnLinks(parse, hs), Panicked)
    {
      EmptyLinkPanics(parse, rest, pending);
      MeetsStops(parse, data, remaining, hs, EmptyLink() + rest, pending, Panicked);
    }
    if ScanFrom(parse, data, remaining).end.Panicked? {
      var hs, tail, pending := StopsAt(parse, data, remaining);
      var rest := PanicBehind(parse, tail, pending);
    }
  }

  /** The three bytes alone panic. */
  lemma EmptyLinkAlone(parse: CidParser)
    ensures ScanFrom(parse, [0xd8, 0x2a, 0x40], 1) == Scan([], Panicked)
  {
    EmptyLinkPanics(parse, [], 0);
    assert EmptyLink() + [] == [0xd8, 0x2a, 0x40];
  }

  // ---- lengths past the signed range ----

  function LongString(text: bool, distance: int): seq<Byte>
    requires distance <= U64
  {
    EncodeHeader(if text then 3 else 2, U64 - distance)
  }

  lemma LongStringTurns(parse: CidParser, text: bool, distance: int, rest: seq<Byte>, pending: nat)
    requires 0 < distance <= I64
    ensures StepOver(parse, LongString(text, distance) + rest, pending) ==
            Stop(Turned(SeekBack(distance), rest, pending))
  {
    StepAfter(parse, if text then 3 else 2, U64 - distance, rest, pending);
  }

  lemma LongStringBehind(parse: CidParser, tail: seq<Byte>, pending: nat) returns (text: bool)
    requires StepOver(parse, tail, pending).Stop? && StepOver(parse, tail, pending).end.Turned?
    requires StepOver(parse, tail, pending).end.turn.SeekBack?
    ensures var end := StepOver(parse, tail, pending).end;
            && 0 < end.turn.distance <= I64 && end.remaining == pending
            && tail == LongString(text, end.turn.distance) + end.rest
  {
    HeaderIsCanonical(tail);
    text := DecodeHeader(tail).maj == 3;
  }

  /** The cursor is moved back exactly by a string of 2^63 bytes or more behind readable heads. */
  lemma SeekBackIff(parse: CidParser, data: seq<Byte>, remaining: nat, distance: int, rest: seq<Byte>, left: nat)
    requires remaining < U64
    ensures ScanFrom(parse, data, remaining).end == Turned(SeekBack(distance), rest, left) <==>
            && 0 < distance <= I64
            && exists hs, text :: Meets(parse, data, remaining, hs, LongString(text, distance) + rest, left)
  {
    var end := Turned(SeekBack(distance), rest, left);
    if 0 < distance <= I64 && exists hs, text :: Meets(parse, data, remaining, hs, LongString(text, distance) + rest, left) {
      var hs, text :| Meets(parse, data, remaining, hs, LongString(text, distance) + rest, left);
      LongStringTurns(parse, text, distance, rest, left);
      MeetsStops(parse, data, remaining, hs, LongString(text, distance) + rest, left, end);
    }
    if ScanFrom(parse, data, remaining).end == end {
      var hs, tail, pending := StopsAt(parse, data, remaining);
      var text := LongStringBehind(parse, tail, pending);
      assert Meets(parse, data, remaining, hs, LongString(text, distance) + rest, left);
    }
  }

  // ---- counts past the machine word ----

  /** A container that the counter has no room for. */
  ghost predicate TooMany(maj: nat, n: nat, pending: nat) {
    4 <= maj <= 6 && n < U64 && !(maj == 6 && n == 42) && pending + 1 + Members(maj, n) >= U64
  }

  lemma TooManyTurns(parse: CidParser, maj: nat, n: nat, rest: seq<Byte>, pending: nat)
    requires TooMany(maj, n, pending)
    ensures StepOver(parse, EncodeHeader(maj, n) + rest, pending) ==
            Stop(Turned(CountOverflow, rest, (pending + Members(maj, n)) % U64))
  {
    StepAfter(parse, maj, n, rest, pending);
  }

  lemma TooManyBehind(parse: CidParser, tail: seq<Byte>, pending: nat) returns (maj: nat, n: nat)
    requires StepOver(parse, tail, pending).Stop? && StepOver(parse, tail, pending).end.Turned?
    requires StepOver(parse, tail, pending).end.turn.CountOverflow?
    ensures var end := StepOver(parse, tail, pending).end;
            && TooMany(maj, n, pending) && end.remaining == (pending + Members(maj, n)) % U64
            && tail == EncodeHeader(maj, n) + end.rest
  {
    HeaderIsCanonical(tail);
    maj, n := DecodeHeader(tail).maj, DecodeHeader(tail).extra;
  }

  /** A container too large for the counter, behind readable heads. */
  ghost predicate MeetsTooMany(parse: CidParser, data: seq<Byte>, remaining: nat, hs: seq<Item>, maj: nat, n: nat,
                               rest: seq<Byte>, pending: nat) {
    TooMany(maj, n, pending) && Meets(parse, data, remaining, hs, EncodeHeader(maj, n) + rest, pending)
  }

  /** The count leaves its word exactly there. */
  lemma CountOverflowIff(parse: CidParser, data: seq<Byte>, remaining: nat, rest: seq<Byte>, left: nat)
    requires remaining < U64
    ensures ScanFrom(parse, data, remaining).end == Turned(CountOverflow, rest, left) <==>
            exists hs, maj: nat, n: nat, pending: nat ::
              MeetsTooMany(parse, data, remaining, hs, maj, n, rest, pending) && left == (pending + Members(maj, n)) % U64
  {
    var end := Turned(CountOverflow, rest, left);
    forall hs, maj: nat, n: nat, pending: nat |
      MeetsTooMany(parse, data, remaining, hs, maj, n, rest, pending) && left == (pending + Members(maj, n)) % U64
      ensures ScanFrom(parse, data, remaining) == Scan(OwnLinks(parse, hs), end)
    {
      TooManyTurns(parse, maj, n, rest, pending);
      MeetsStops(parse, data, remaining, hs, EncodeHeader(maj, n) + rest, pending, end);
    }
    if ScanFrom(parse, data, remaining).end == end {
      var hs, tail, pending := StopsAt(parse, data, remaining);
      var maj, n := TooManyBehind(parse, tail, pending);
      assert MeetsTooMany(parse, data, remaining, hs, maj, n, rest, pending);
    }
  }
}
