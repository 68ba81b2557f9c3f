/** scan_for_links as it is: a cursor that a length may move back, and a counter of one machine word. */
module CborRounds {

  import opened CborHeader
  import opened CborScan
  import opened CborLoop

  /** `extra as i64`. */
  function Signed(extra: nat): int {
    if extra < I64 then extra else extra - U64
  }

  function SeekTo(pos: int, remaining: nat): Machine {
    if pos < 0 then Broke(BeforeStart, []) else At(pos, remaining, [])
  }

  /** The counter after a header that announces members; `checked` builds panic when it leaves the word. */
  function CountTo(checked: bool, pos: nat, count: nat): Machine
    requires count > 0
  {
    if checked && count >= U64 then Panic([]) else At(pos, (count - 1) % U64, [])
  }

  /** What a header does, read up to `pos`. */
  function Body(parse: CidParser, checked: bool, data: seq<Byte>, pos: nat, maj: nat, extra: nat, remaining: nat): Machine
    requires pos <= |data| && remaining > 0
  {
    if maj == 2 || maj == 3 then SeekTo(pos + Signed(extra), remaining - 1)
    else if maj == 6 && extra == 42 then
      match DecodeLink(parse, data[pos..]) {
        case NoLink(e) => Broke(e, [])
        case LinkPanic => Panic([])
        case Found(c, rest) => At(|data| - |rest|, remaining - 1, [c])
      }
    else CountTo(checked, pos, remaining + Members(maj, extra))
  }

  /** One round from a position with items to go. */
  function RoundAt(parse: CidParser, checked: bool, data: seq<Byte>, pos: nat, remaining: nat): Machine
    requires remaining > 0
  {
    Behind(parse, checked, data, DecodeHeader(BytesFrom(data, pos)), remaining)
  }

  /** What a round does once the header is read. */
  function Behind(parse: CidParser, checked: bool, data: seq<Byte>, h: HeaderResult, remaining: nat): Machine
    requires remaining > 0 && (h.Header? ==> |h.rest| <= |data|)
  {
    match h
    case HeaderErr(e) => Broke(BadHeader(e), [])
    case Header(maj, extra, rest) => Body(parse, checked, data, |data| - |rest|, maj, extra, remaining)
  }

  ghost predicate Reads(round: Rounder, parse: CidParser, checked: bool, data: seq<Byte>) {
    forall pos: nat, remaining: nat {:trigger RoundAt(parse, checked, data, pos, remaining)} | remaining > 0 ::
      round(pos, remaining) == RoundAt(parse, checked, data, pos, remaining)
  }

  /** The rounds of the scan of a block. */
  function Rounds(parse: CidParser, checked: bool, data: seq<Byte>): Rounder {
    (pos: nat, remaining: nat) => if remaining == 0 then At(pos, 0, []) else RoundAt(parse, checked, data, pos, remaining)
  }

  lemma RoundsRead(parse: CidParser, checked: bool, data: seq<Byte>)
    ensures Reads(Rounds(parse, checked, data), parse, checked, data)
  {
  }

  /** A header is not found past the end. */
  lemma PastEnd(parse: CidParser, checked: bool, data: seq<Byte>, pos: nat, remaining: nat)
    requires pos > |data| && remaining > 0
    ensures RoundAt(parse, checked, data, pos, remaining) == Broke(BadHeader(Eof), [])
  {
  }

  lemma BodyBounded(parse: CidParser, checked: bool, data: seq<Byte>, pos: nat, maj: nat, extra: nat, remaining: nat)
    requires pos <= |data| && 0 < remaining < U64
    ensures var m := Body(parse, checked, data, pos, maj, extra, remaining); m.At? ==> m.remaining < U64
  {
  }

  lemma RoundBounded(parse: CidParser, checked: bool, data: seq<Byte>, pos: nat, remaining: nat)
    requires 0 < remaining < U64
    ensures var m := RoundAt(parse, checked, data, pos, remaining); m.At? ==> pos <= |data| && m.remaining < U64
  {
    var h := DecodeHeader(BytesFrom(data, pos));
    if pos > |data| {
      PastEnd(parse, checked, data, pos, remaining);
    } else if h.Header? {
      BodyBounded(parse, checked, data, |data| - |h.rest|, h.maj, h.extra, remaining);
    }
  }

  lemma RoundsBounded(parse: CidParser, checked: bool, data: seq<Byte>)
    ensures Bounded(Rounds(parse, checked, data), |data|)
  {
    var round := Rounds(parse, checked, data);
    forall pos: nat, remaining: nat | 0 < remaining < U64 && round(pos, remaining).At?
      ensures pos <= |data| && round(pos, remaining).remaining < U64
    {
      RoundBounded(parse, checked, data, pos, remaining);
    }
  }

  // ---- the loop ----

  /** What follows a header. */
  method ReadBody(parse: CidParser, checked: bool, cur: Cursor, maj: nat, extra: nat, remaining: nat)
    returns (m: Machine)
    requires cur.pos <= |cur.data| && remaining > 0
    modifies cur`pos
    ensures m == old(Body(parse, checked, cur.data, cur.pos, maj, extra, remaining))
    ensures m.At? ==> m.pos == cur.pos
  {
    if maj == 2 || maj == 3 {
      if cur.pos + Signed(extra) < 0 {
        return Broke(BeforeStart, []);
      }
      cur.pos := cur.pos + Signed(extra);
      return At(cur.pos, remaining - 1, []);
    }
    if maj == 6 && extra == 42 {
      var l := ReadLink(parse, cur);
      match l
      case NoLink(e) => return Broke(e, []);
      case LinkPanic => return Panic([]);
      case Found(c, _) => return At(cur.pos, remaining - 1, [c]);
    }
    var count := remaining;
    if maj == 6 {
      count := count + 1;
    } else if maj == 4 {
      count := count + extra;
    } else if maj == 5 {
      count := count + extra * 2;
    }
    if checked && count >= U64 {
      return Panic([]);
    }
    return At(cur.pos, (count - 1) % U64, []);
  }

  method ReadItem(parse: CidParser, checked: bool, cur: Cursor, remaining: nat) returns (m: Machine)
    requires remaining > 0
    modifies cur`pos
    ensures m == old(RoundAt(parse, checked, cur.data, cur.pos, remaining))
    ensures m.At? ==> m.pos == cur.pos
  {
    var h := cur.ReadHeader();
    match h
    case HeaderErr(e) => m := Broke(BadHeader(e), []);
    case Header(maj, extra, rest) =>
      assert cur.pos == |cur.data| - |rest|;
      m := ReadBody(parse, checked, cur, maj, extra, remaining);
  }

  /** One round of the loop. */
  method ReadRound(parse: CidParser, checked: bool, cur: Cursor, remaining: nat, ghost round: Rounder)
    returns (m: Machine)
    requires remaining > 0 && Reads(round, parse, checked, cur.data)
    modifies cur`pos
    ensures m == round(old(cur.pos), remaining)
    ensures m.At? ==> m.pos == cur.pos
  {
    m := ReadItem(parse, checked, cur, remaining);
  }

  /** scan_for_links for at most `limit` rounds, gathering the links in the order the callback gets them. */
  method ScanForLinks(parse: CidParser, checked: bool, cur: Cursor, limit: nat, ghost round: Rounder)
    returns (m: Machine)
    requires cur.pos == 0 && Reads(round, parse, checked, cur.data)
    modifies cur`pos
    ensures m == RunFor(round, limit)
    ensures m.At? ==> m.pos == cur.pos
  {
    m := Start();
    var n := 0;
    while !Halted(m) && n < limit
      invariant n <= limit && m == RunFor(round, n) && (m.At? ==> m.pos == cur.pos)
    {
      var step := ReadRound(parse, checked, cur, m.remaining, round);
      GoOn(round, n, m, step);
      m, n := AddLinks(m.links, step), n + 1;
    }
    if Halted(m) {
      HaltedStays(round, Start(), n, limit);
    }
  }

  /** How the scan of a block ends, if it does. */
  function Scanned(parse: CidParser, checked: bool, data: seq<Byte>): Machine {
    Final(Rounds(parse, checked, data), |data|)
  }

  /** The scan of a block ends in the state `Scanned`, or has no end, which that state tells; it holds every link. */
  lemma ScannedIsEnd(parse: CidParser, checked: bool, data: seq<Byte>)
    ensures var round := Rounds(parse, checked, data);
            && (NeverEnds(round) <==> !Halted(Scanned(parse, checked, data)))
            && (forall n: nat | Halted(RunFor(round, n)) :: RunFor(round, n) == Scanned(parse, checked, data))
            && (forall n: nat, c | c in RunFor(round, n).links :: c in Scanned(parse, checked, data).links)
  {
    var round := Rounds(parse, checked, data);
    RoundsBounded(parse, checked, data);
    NeverEndsIff(round, |data|);
    forall n: nat | Halted(RunFor(round, n))
      ensures RunFor(round, n) == Scanned(parse, checked, data)
    {
      EndsInFinal(round, |data|, n);
    }
    forall n: nat, c | c in RunFor(round, n).links
      ensures c in Scanned(parse, checked, data).links
    {
      AllLinksFound(round, |data|, n, c);
    }
  }
}
