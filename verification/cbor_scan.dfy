/**
 Finding the links of a CBOR block without decoding it: a counter of pending items replaces the
 nesting. `ScanFrom` reads forward; a length past the signed range, or a count past the machine word, turns
 it off that course, and CborRounds follows it there. What it accepts is in CborItems, CborOverrun and CborLegs.
 */
module CborScan {

  import opened Common
  import opened CborHeader
  import opened IpldModel

  const I64: int := 0x8000_0000_0000_0000

  datatype ScanError =
    | BadHeader(error: HeaderError)
    | NotByteString
    | CidTooLong
    | CidTruncated
    | BadCid
    | BeforeStart  // a seek to before the first byte

  /** A length past the signed range, which moves the cursor back, or a count that leaves the machine word. */
  datatype Turn = SeekBack(distance: int) | CountOverflow

  /**
   `Overrun`: the last string announces more bytes than there are, which goes unnoticed.
   `Panicked`: an empty identifier is indexed past its end.
   `Turned`: forward reading ends where `rest` begins, with the count the machine word then holds.
   */
  datatype End =
    | Done(rest: seq<Byte>)
    | Overrun
    | Failed(error: ScanError)
    | Panicked
    | Turned(turn: Turn, rest: seq<Byte>, remaining: nat)

  datatype Scan = Scan(links: seq<Cid>, end: End)

  type CidParser = seq<Byte> -> Option<Cid>

  datatype LinkResult = Found(cid: Cid, rest: seq<Byte>) | NoLink(error: ScanError) | LinkPanic

  /** The byte string after tag 42; its first byte is ignored. */
  function DecodeLink(parse: CidParser, data: seq<Byte>): (r: LinkResult)
    ensures r.Found? ==> |r.rest| < |data|
  {
    match DecodeHeader(data)
    case HeaderErr(e) => NoLink(BadHeader(e))
    case Header(maj, extra, rest) =>
      if maj != 2 then NoLink(NotByteString)
      else if extra > 100 then NoLink(CidTooLong)
      else if |rest| < extra then NoLink(CidTruncated)
      else if extra == 0 then LinkPanic
      else match parse(rest[1..extra]) {
        case None => NoLink(BadCid)
        case Some(c) => Found(c, rest[extra..])
      }
  }

  /** What is left to do after a header was read: `Go` with the bytes and the count, or the end. */
  datatype Step = Go(links: seq<Cid>, rest: seq<Byte>, remaining: nat) | Stop(end: End)

  /** The items that a header announces. */
  function Members(maj: nat, extra: nat): nat {
    if maj == 4 then extra else if maj == 5 then extra * 2 else if maj == 6 then 1 else 0
  }

  /** Puts the members of a container into the count, in place of the container. */
  function Account(rest: seq<Byte>, count: nat): Step
    requires count > 0
  {
    if count >= U64 then Stop(Turned(CountOverflow, rest, (count - 1) % U64)) else Go([], rest, count - 1)
  }

  /** What a header asks for, with `pending` other items left. */
  function StepBody(parse: CidParser, maj: nat, extra: nat, rest: seq<Byte>, pending: nat): (s: Step)
    ensures s.Go? ==> |s.rest| <= |rest|
    ensures s.Stop? ==> !s.end.Done?
  {
    if maj == 2 || maj == 3 then
      if extra >= I64 then Stop(Turned(SeekBack(U64 - extra), rest, pending))
      else if extra <= |rest| then Go([], rest[extra..], pending)
      else if pending == 0 then Stop(Overrun)
      else Stop(Failed(BadHeader(Eof)))
    else if maj == 6 && extra == 42 then
      match DecodeLink(parse, rest) {
        case NoLink(e) => Stop(Failed(e))
        case LinkPanic => Stop(Panicked)
        case Found(c, tail) => Go([c], tail, pending)
      }
    else if maj == 4 || maj == 5 || maj == 6 then Account(rest, pending + 1 + Members(maj, extra))
    else Go([], rest, pending)
  }

  /** One round of the loop. */
  function StepOver(parse: CidParser, data: seq<Byte>, pending: nat): (s: Step)
    ensures s.Go? ==> |s.rest| < |data|
    ensures s.Stop? ==> !s.end.Done?
  {
    match DecodeHeader(data)
    case HeaderErr(e) => Stop(Failed(BadHeader(e)))
    case Header(maj, extra, rest) => StepBody(parse, maj, extra, rest, pending)
  }

  function ScanFrom(parse: CidParser, data: seq<Byte>, remaining: nat): Scan
    decreases |data|, remaining
  {
    if remaining == 0 then Scan([], Done(data))
    else
      match StepOver(parse, data, remaining - 1)
      case Stop(end) => Scan([], end)
      case Go(links, rest, left) => After(links, ScanFrom(parse, rest, left))
  }

  function After(links: seq<Cid>, s: Scan): Scan {
    s.(links := links + s.links)
  }

  method ReadLink(parse: CidParser, cur: Cursor) returns (l: LinkResult)
    modifies cur`pos
    ensures l == DecodeLink(parse, old(cur.Rest()))
    ensures l.Found? ==> cur.Rest() == l.rest && old(cur.pos) <= cur.pos <= |cur.data|
  {
    var h := cur.ReadHeader();
    match h
    case HeaderErr(e) => return NoLink(BadHeader(e));
    case Header(maj, extra, _) =>
      if maj != 2 {
        return NoLink(NotByteString);
      }
      if extra > 100 {
        return NoLink(CidTooLong);
      }
      var ok, scratch := cur.ReadBytes(extra);
      if !ok {
        return NoLink(CidTruncated);
      }
      if extra == 0 {
        return LinkPanic;
      }
      assert scratch[1..] == h.rest[1..extra];
      match parse(scratch[1..])
      case None => return NoLink(BadCid);
      case Some(c) => return Found(c, cur.Rest());
  }
}
